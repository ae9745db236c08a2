/** Base64 as enrollment/src/kms.c uses it (section 4 of RFC 4648). */
module Base64 {
  import opened Text

  /** The alphabet of table 1 of RFC 4648. */
  function Letter(v: nat): char
    requires v < 64
  {
    if v < 26 then (v + 'A' as int) as char
    else if v < 52 then (v - 26 + 'a' as int) as char
    else if v < 62 then (v - 52 + '0' as int) as char
    else if v == 62 then '+' else '/'
  }

  /** The value of a letter. The decoder of the crypto library takes '=' for 0. */
  function LetterValue(c: char): (v: Option<nat>)
    ensures v.Some? ==> v.value < 64
  {
    if 'A' <= c <= 'Z' then Some(c as int - 'A' as int)
    else if 'a' <= c <= 'z' then Some(c as int - 'a' as int + 26)
    else if '0' <= c <= '9' then Some(c as int - '0' as int + 52)
    else if c == '+' then Some(62)
    else if c == '/' then Some(63)
    else if c == '=' then Some(0) else None
  }

  function Group(a: Byte, b: Byte, c: Byte): (s: string)
    ensures |s| == 4
  {
    [Letter(a / 4), Letter(a % 4 * 16 + b / 16), Letter(b % 16 * 4 + c / 64), Letter(c % 64)]
  }

  function Encode(data: seq<Byte>): (s: string)
    ensures |s| == 4 * ((|data| + 2) / 3)
  {
    if data == [] then ""
    else if |data| == 1 then Group(data[0], 0, 0)[..2] + "=="
    else if |data| == 2 then Group(data[0], data[1], 0)[..3] + "="
    else Group(data[0], data[1], data[2]) + Encode(data[3..])
  }

  function DecodeGroup(s: string): (r: Option<seq<Byte>>)
    requires |s| == 4
    ensures r.Some? ==> |r.value| == 3
  {
    match (LetterValue(s[0]), LetterValue(s[1]), LetterValue(s[2]), LetterValue(s[3]))
    case (Some(w), Some(x), Some(y), Some(z)) => Some([w * 4 + x / 16, x % 16 * 16 + y / 4, y % 4 * 64 + z])
    case _ => None
  }

  /** The library's block decoder, on text without blanks around it: three bytes for every four letters. */
  function DecodeBlock(s: string): (r: Option<seq<Byte>>)
    requires |s| % 4 == 0
    ensures r.Some? ==> |r.value| == |s| / 4 * 3
  {
    if s == "" then Some([])
    else
      match (DecodeGroup(s[..4]), DecodeBlock(s[4..]))
      case (Some(a), Some(b)) => Some(a + b)
      case _ => None
  }

  function Padding(s: string): nat {
    (if |s| >= 1 && s[|s| - 1] == '=' then 1 else 0) + (if |s| >= 2 && s[|s| - 2] == '=' then 1 else 0)
  }

  /** base64_decode: the empty text is refused. */
  function Decode(s: string): Option<seq<Byte>> {
    if |s| == 0 || |s| % 4 != 0 then None
    else
      match DecodeBlock(s)
      case None => None
      case Some(bytes) => Some(bytes[..|bytes| - Padding(s)])
  }

  function Zeros(n: nat): seq<Byte> {
    seq(n, _ => 0)
  }

  lemma LetterBack(v: nat)
    requires v < 64
    ensures LetterValue(Letter(v)) == Some(v) && Letter(v) != '=' && Letter(v) != '"' && Letter(v) != '\\'
  {
  }

  /** Table 1 of RFC 4648: A to Z, a to z, 0 to 9, plus, slash, each run in order. */
  lemma Alphabet(v: nat)
    requires v < 63
    ensures Letter(0) == 'A' && Letter(25) == 'Z' && Letter(26) == 'a' && Letter(51) == 'z'
    ensures Letter(52) == '0' && Letter(61) == '9' && Letter(62) == '+' && Letter(63) == '/'
    ensures v !in {25, 51, 61, 62} ==> Letter(v + 1) as int == Letter(v) as int + 1
  {
    hide Letter;
    Ends();
    NextLetter(v);
  }

  lemma Ends()
    ensures Letter(0) == 'A' && Letter(25) == 'Z' && Letter(26) == 'a' && Letter(51) == 'z'
    ensures Letter(52) == '0' && Letter(61) == '9' && Letter(62) == '+' && Letter(63) == '/'
  {
  }

  lemma NextLetter(v: nat)
    requires v < 63
    ensures v !in {25, 51, 61, 62} ==> Letter(v + 1) as int == Letter(v) as int + 1
  {
  }

  /** The four letters of a group are the four six-bit digits of its 24 bits, in order (section 4 of RFC 4648). */
  lemma GroupDigits(a: Byte, b: Byte, c: Byte) returns (w: nat, x: nat, y: nat, z: nat)
    ensures w < 64 && x < 64 && y < 64 && z < 64
    ensures w * 262144 + x * 4096 + y * 64 + z == a * 65536 + b * 256 + c
    ensures Group(a, b, c) == [Letter(w), Letter(x), Letter(y), Letter(z)]
  {
    hide Letter;
    w, x, y, z := a / 4, a % 4 * 16 + b / 16, b % 16 * 4 + c / 64, c % 64;
  }

  lemma GroupBack(a: Byte, b: Byte, c: Byte)
    ensures DecodeGroup(Group(a, b, c)) == Some([a, b, c])
    ensures forall i | 0 <= i < 4 :: var l := Group(a, b, c)[i]; l != '=' && l != '"' && l != '\\'
  {
    hide Letter, LetterValue;
    LetterBack(a / 4);
    LetterBack(a % 4 * 16 + b / 16);
    LetterBack(b % 16 * 4 + c / 64);
    LetterBack(c % 64);
    assert (a % 4 * 16 + b / 16) / 16 == a % 4 && (a % 4 * 16 + b / 16) % 16 == b / 16;
    assert (b % 16 * 4 + c / 64) / 4 == b % 16 && (b % 16 * 4 + c / 64) % 4 == c / 64;
  }

  lemma OneByte(a: Byte)
    ensures DecodeGroup(Group(a, 0, 0)[..2] + "==") == Some([a, 0, 0])
  {
    GroupBack(a, 0, 0);
  }

  lemma TwoBytes(a: Byte, b: Byte)
    ensures DecodeGroup(Group(a, b, 0)[..3] + "=") == Some([a, b, 0])
  {
    GroupBack(a, b, 0);
  }

  lemma BlockOf(g: string)
    requires |g| == 4
    ensures DecodeBlock(g) == DecodeGroup(g)
  {
    assert g[..4] == g && g[4..] == "";
    assert DecodeBlock("") == Some([]);
    if DecodeGroup(g).Some? {
      assert DecodeGroup(g).value + [] == DecodeGroup(g).value;
    }
  }

  lemma BlockCons(g: string, rest: string)
    requires |g| == 4 && |rest| % 4 == 0 && DecodeGroup(g).Some? && DecodeBlock(rest).Some?
    ensures DecodeBlock(g + rest) == Some(DecodeGroup(g).value + DecodeBlock(rest).value)
  {
    assert (g + rest)[..4] == g && (g + rest)[4..] == rest;
  }

  /** Block decoding gives the data back, followed by the zero bytes that fill its last group of three. */
  lemma {:induction false} BlockBack(data: seq<Byte>)
    ensures var r := DecodeBlock(Encode(data));
            r.Some? && r.value == data + Zeros((3 - |data| % 3) % 3)
  {
    hide DecodeBlock, DecodeGroup, Group, Zeros;
    if data == [] {
      EmptyBlock();
      SomeZeros();
    } else if |data| == 1 {
      OneByte(data[0]);
      SomeZeros();
      BlockOf(Encode(data));
    } else if |data| == 2 {
      TwoBytes(data[0], data[1]);
      SomeZeros();
      BlockOf(Encode(data));
    } else {
      var g := Group(data[0], data[1], data[2]);
      GroupBack(data[0], data[1], data[2]);
      BlockBack(data[3..]);
      BlockCons(g, Encode(data[3..]));
      assert data == [data[0], data[1], data[2]] + data[3..];
      SameFill(data);
      Reassociate([data[0], data[1], data[2]], data[3..], Zeros((3 - |data| % 3) % 3));
    }
  }

  lemma SomeZeros()
    ensures Zeros(0) == [] && Zeros(1) == [0] && Zeros(2) == [0, 0]
  {
  }

  lemma Reassociate(a: seq<Byte>, b: seq<Byte>, c: seq<Byte>)
    ensures a + (b + c) == a + b + c
  {
  }

  lemma SameFill(data: seq<Byte>)
    requires |data| >= 3
    ensures |data[3..]| % 3 == |data| % 3
  {
  }

  lemma EmptyBlock()
    ensures DecodeBlock("") == Some([])
  {
  }

  /** The padding says how many zero bytes to drop, and the rest of the text is letters. */
  lemma {:induction false} Padded(data: seq<Byte>)
    ensures data != [] ==> Padding(Encode(data)) == |Encode(data)| / 4 * 3 - |data|
    ensures forall i | 0 <= i < |Encode(data)| :: Encode(data)[i] != '"' && Encode(data)[i] != '\\'
  {
    hide Group, Padding;
    if |data| in {1, 2} {
      ShortPadding(data);
    }
    if data == [] {
    } else if |data| == 1 {
      GroupBack(data[0], 0, 0);
    } else if |data| == 2 {
      GroupBack(data[0], data[1], 0);
    } else {
      GroupBack(data[0], data[1], data[2]);
      Padded(data[3..]);
      PaddingCons(Group(data[0], data[1], data[2]), Encode(data[3..]));
    }
  }

  lemma ShortPadding(data: seq<Byte>)
    requires 1 <= |data| <= 2
    ensures Padding(Encode(data)) == 3 - |data|
  {
    GroupBack(data[0], if |data| == 2 then data[1] else 0, 0);
  }

  lemma PaddingCons(g: string, rest: string)
    requires |g| == 4 && g[2] != '=' && g[3] != '=' && |rest| % 4 == 0
    ensures Padding(g + rest) == if rest == "" then 0 else Padding(rest)
  {
  }

  /** What is refused: the empty text, a length that is no multiple of four, and characters outside the alphabet. */
  lemma DecodeIff(s: string)
    ensures Decode(s).Some? <==> s != "" && |s| % 4 == 0 && forall i | 0 <= i < |s| :: LetterValue(s[i]).Some?
    ensures Decode(s).Some? ==> |Decode(s).value| == |s| / 4 * 3 - Padding(s)
  {
    hide LetterValue;
    if |s| % 4 == 0 {
      BlockIff(s);
    }
  }

  lemma {:induction false} BlockIff(s: string)
    requires |s| % 4 == 0
    ensures DecodeBlock(s).Some? <==> forall i | 0 <= i < |s| :: LetterValue(s[i]).Some?
  {
    hide LetterValue;
    if s != "" {
      BlockIff(s[4..]);
      GroupIff(s[..4]);
      assert forall i | 0 <= i < 4 :: s[..4][i] == s[i];
      assert forall i | 4 <= i < |s| :: s[4..][i - 4] == s[i];
    }
  }

  lemma GroupIff(g: string)
    requires |g| == 4
    ensures DecodeGroup(g).Some? <==> forall i | 0 <= i < 4 :: LetterValue(g[i]).Some?
  {
    hide LetterValue;
  }

  /** The decoder takes the alphabet, and '=' for zero. */
  lemma Valued(c: char)
    ensures LetterValue(c).Some? <==> c == '=' || exists v: nat | v < 64 :: Letter(v) == c
  {
    if LetterValue(c).Some? && c != '=' {
      assert Letter(LetterValue(c).value) == c;
    }
  }

  lemma EmptyText()
    ensures Encode([]) == ""
  {
  }

  lemma SliceAfter(g: string, rest: string, k: nat)
    requires |g| == 4 && 4 <= k <= |rest|
    ensures (g + rest)[k..k + 4] == rest[k - 4..k]
  {
  }

  /** The i-th group of letters encodes the i-th three bytes; one or two bytes left over are filled up with zeros. */
  lemma {:induction false} EncodeGroups(data: seq<Byte>, i: nat)
    requires 3 * i < |data|
    ensures var left := |data| - 3 * i;
            && 4 * i + 4 <= |Encode(data)|
            && Encode(data)[4 * i..4 * i + 4]
            == (if left == 1 then Group(data[3 * i], 0, 0)[..2] + "=="
                else if left == 2 then Group(data[3 * i], data[3 * i + 1], 0)[..3] + "="
                else Group(data[3 * i], data[3 * i + 1], data[3 * i + 2]))
  {
    hide Group;
    if i > 0 {
      EncodeGroups(data[3..], i - 1);
      SliceAfter(Group(data[0], data[1], data[2]), Encode(data[3..]), 4 * i);
    } else {
      assert Encode(data)[0..4] == Encode(data)[..4];
    }
  }

  /** Decoding undoes encoding, except that the empty data encodes to a text that is refused. */
  lemma {:induction false} RoundTrip(data: seq<Byte>)
    ensures Decode(Encode(data)) == if data == [] then None else Some(data)
  {
    hide DecodeBlock, Encode, Zeros, Padding;
    if data == [] {
      EmptyText();
    } else {
      BlockBack(data);
      Padded(data);
    }
  }
}
