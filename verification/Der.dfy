/** enrollment/src/enrollment.c: DER length octets and the assembly of a certificate. */
module Der {
  import opened Text

  const SIZE_LIMIT := 0x1_0000_0000_0000_0000  // size_t has 64 bits

  function Pow256(n: nat): (r: nat)
    ensures r > 0
  {
    if n == 0 then 1 else 256 * Pow256(n - 1)
  }

  /** n >> (8 * i) */
  function Shift(n: nat, i: nat): nat {
    if i == 0 then n else Shift(n / 256, i - 1)
  }

  // ----- Specification (sections 8.1.3 and 10.1 of X.690) -----

  /** The number of base-256 digits of n. */
  function Digits(n: nat): nat {
    if n == 0 then 0 else 1 + Digits(n / 256)
  }

  /** The base-256 digits of n, most significant first. */
  function BigEndian(n: nat): (r: seq<Byte>)
    ensures |r| == Digits(n)
  {
    if n == 0 then [] else BigEndian(n / 256) + [n % 256]
  }

  function Value(bytes: seq<Byte>): nat {
    if bytes == [] then 0 else 256 * Value(bytes[..|bytes| - 1]) + bytes[|bytes| - 1]
  }

  function LenOctets(len: nat): seq<Byte>
    requires len < SIZE_LIMIT
  {
    if len < 128 then [len] else DigitsFit(len); [128 + Digits(len)] + BigEndian(len)
  }

  lemma DigitsFit(n: nat)
    requires n < SIZE_LIMIT
    ensures Digits(n) <= 8
  {
    DigitsBound(n, 8);
  }

  lemma {:induction false} DigitsBound(n: nat, d: nat)
    requires n < Pow256(d)
    ensures Digits(n) <= d
  {
    if n > 0 {
      DigitsBound(n / 256, d - 1);
    }
  }

  // ----- The code -----

  /** der_len_size */
  method DerLenSize(len: nat) returns (size: nat)
    requires len < SIZE_LIMIT
    ensures size == |LenOctets(len)|
  {
    var bytes := 0;
    var tmp := len;
    if len < 128 {
      return 1;
    }
    while tmp > 0
      invariant bytes + Digits(tmp) == Digits(len)
    {
      bytes := bytes + 1;
      tmp := tmp / 256;  // tmp >>= 8
    }
    return 1 + bytes;
  }

  /** write_der_len: writes at p[at..] and returns the position after what it wrote. */
  method WriteDerLen(p: array<Byte>, at: nat, len: nat) returns (end: nat)
    requires len < SIZE_LIMIT && at + |LenOctets(len)| <= p.Length
    modifies p
    ensures end == at + |LenOctets(len)|
    ensures p[..end] == old(p[..at]) + LenOctets(len) && p[end..] == old(p[end..])
  {
    hide LenOctets, BigEndian, Digits;
    LenForms(len);
    if len < 128 {
      p[at] := len;
      assert p[..at + 1] == old(p[..at]) + [len];
      return at + 1;
    }
    var size := DerLenSize(len);
    var bytes := size - 1;
    DigitsFit(len);
    p[at] := 128 + bytes;  // 0x80 | bytes
    assert p[..at + 1] == old(p[..at]) + [128 + bytes];
    end := WriteOctets(p, at + 1, len, bytes);
    LongForm(old(p[..at]), len);
  }

  /** The loop of write_der_len over the octets of len, most significant first. */
  method WriteOctets(p: array<Byte>, at: nat, len: nat, bytes: nat) returns (end: nat)
    requires bytes == Digits(len) && at + bytes <= p.Length
    modifies p
    ensures end == at + bytes
    ensures p[..end] == old(p[..at]) + BigEndian(len) && p[end..] == old(p[end..])
  {
    hide BigEndian, Shift, Digits;
    OctetsEnds(len);
    end := at;
    var i: int := bytes - 1;
    while i >= 0
      invariant -1 <= i < bytes && end == at + bytes - 1 - i
      invariant p[..end] == old(p[..at]) + BigEndian(Shift(len, i + 1))
      invariant p[end..] == old(p[end..])
    {
      NextOctet(len, i);
      ghost var written := p[..end];
      p[end] := Shift(len, i) % 256;  // (unsigned char)(len >> (i * 8))
      end := end + 1;
      assert p[..end] == written + [Shift(len, i) % 256];
      i := i - 1;
    }
  }

  /** What assemble_certificate_der builds of its three parts. */
  function Certificate(tbs: seq<Byte>, alg: seq<Byte>, sig: seq<Byte>): seq<Byte>
    requires |tbs| + |alg| + |sig| < SIZE_LIMIT
  {
    [0x30] + LenOctets(|tbs| + |alg| + |sig|) + tbs + alg + sig
  }

  /** assemble_certificate_der, given its encoded parts: the allocation is filled exactly. */
  method AssembleCertificate(tbs: seq<Byte>, alg: seq<Byte>, sig: seq<Byte>) returns (cert: array<Byte>)
    requires |tbs| + |alg| + |sig| < SIZE_LIMIT
    ensures cert[..] == Certificate(tbs, alg, sig)
  {
    var contentLen := |tbs| + |alg| + |sig|;
    var size := DerLenSize(contentLen);
    cert := new Byte[1 + size + contentLen];
    cert[0] := 0x30;
    var p := WriteDerLen(cert, 1, contentLen);
    assert cert[..p] == [0x30] + LenOctets(contentLen);
    p := CopyTo(cert, p, tbs);
    p := CopyTo(cert, p, alg);
    p := CopyTo(cert, p, sig);
    assert cert[..] == cert[..p];
  }

  /** memcpy, returning the advanced pointer. */
  method CopyTo(p: array<Byte>, at: nat, src: seq<Byte>) returns (end: nat)
    requires at + |src| <= p.Length
    modifies p
    ensures end == at + |src|
    ensures p[..end] == old(p[..at]) + src
  {
    forall i | 0 <= i < |src| {
      p[at + i] := src[i];
    }
    end := at + |src|;
  }

  lemma {:induction false} ShiftOnce(n: nat, i: nat)
    ensures Shift(n, i + 1) == Shift(n, i) / 256
  {
    if i > 0 {
      ShiftOnce(n / 256, i - 1);
    }
  }

  /** A shift by fewer octets than there are digits leaves something; by as many, nothing. */
  lemma {:induction false} ShiftDigits(n: nat, i: nat)
    requires i <= Digits(n)
    ensures Shift(n, i) == 0 <==> i == Digits(n)
  {
    if i > 0 {
      ShiftDigits(n / 256, i - 1);
    }
  }

  lemma LenForms(len: nat)
    requires len < SIZE_LIMIT
    ensures len < 128 ==> LenOctets(len) == [len]
    ensures len >= 128 ==> |LenOctets(len)| == 1 + Digits(len) && Digits(len) > 0
  {
  }

  lemma LenConcat(len: nat)
    requires 128 <= len < SIZE_LIMIT && Digits(len) <= 8
    ensures LenOctets(len) == [128 + Digits(len)] + BigEndian(len)
  {
  }

  lemma LongForm(before: seq<Byte>, len: nat)
    requires 128 <= len < SIZE_LIMIT && Digits(len) <= 8
    ensures before + [128 + Digits(len)] + BigEndian(len) == before + LenOctets(len)
  {
    LenConcat(len);
    hide LenOctets, BigEndian, Digits;
    Prepended(before, [128 + Digits(len)], BigEndian(len));
  }

  lemma Prepended(a: seq<Byte>, b: seq<Byte>, c: seq<Byte>)
    ensures a + b + c == a + (b + c)
  {
  }

  lemma OctetsEnds(n: nat)
    ensures BigEndian(Shift(n, Digits(n))) == [] && Shift(n, 0) == n
  {
    ShiftDigits(n, Digits(n));
  }

  /** One more octet from the top. */
  lemma NextOctet(n: nat, i: nat)
    requires i < Digits(n)
    ensures BigEndian(Shift(n, i)) == BigEndian(Shift(n, i + 1)) + [Shift(n, i) % 256]
  {
    ShiftDigits(n, i);
    ShiftOnce(n, i);
  }

  lemma {:induction false} OctetAt(n: nat, i: nat)
    requires i < Digits(n)
    ensures BigEndian(n)[Digits(n) - 1 - i] == Shift(n, i) % 256
  {
    if i > 0 {
      OctetAt(n / 256, i - 1);
    }
  }

  lemma {:induction false} TopOctet(n: nat)
    requires n > 0
    ensures BigEndian(n)[0] != 0
  {
    if n >= 256 {
      TopOctet(n / 256);
    } else {
      assert n / 256 == 0 && BigEndian(0) == [];
    }
  }

  /**
   * Below 128 one octet; otherwise 128 plus the number of the octets that follow, of which the first is not zero and
   * the i-th from the end is (len >> 8 i) & 255.
   */
  lemma LenSpelled(len: nat)
    requires len < SIZE_LIMIT
    ensures len < 128 ==> LenOctets(len) == [len]
    ensures len >= 128 ==>
              var n, b := |LenOctets(len)| - 1, LenOctets(len);
              1 <= n <= 8 && b[0] == 128 + n && b[1] != 0 && forall i: nat | i < n :: b[n - i] == Shift(len, i) % 256
    ensures LenOctets(300) == [0x82, 0x01, 0x2C]
  {
    hide LenOctets, BigEndian, Digits, Shift;
    Example();
    LenForms(len);
    if len >= 128 {
      DigitsFit(len);
      LenConcat(len);
      TopOctet(len);
      forall i: nat | i < Digits(len)
        ensures LenOctets(len)[Digits(len) - i] == Shift(len, i) % 256
      {
        OctetAt(len, i);
      }
    }
  }

  lemma Example()
    ensures LenOctets(300) == [0x82, 0x01, 0x2C]
  {
    assert BigEndian(0) == [] && BigEndian(1) == [1] && BigEndian(300) == [1, 44];
    assert Digits(1) == 1 && Digits(300) == 2;
  }

  // ----- Reading it back -----

  /** The definite forms of section 8.1.3 of X.690: the length and how many octets it took. */
  function ReadLen(b: seq<Byte>): Option<(nat, nat)> {
    if b == [] then None
    else if b[0] < 128 then Some((b[0], 1))
    else if b[0] == 128 || b[0] == 255 || |b| < b[0] - 127 then None
    else Some((Value(b[1..b[0] - 127]), b[0] - 127))
  }

  lemma {:induction false} BigEndianValue(n: nat)
    ensures Value(BigEndian(n)) == n
  {
    if n > 0 {
      BigEndianValue(n / 256);
      assert BigEndian(n)[..|BigEndian(n)| - 1] == BigEndian(n / 256);
    }
  }

  /** A decoder reads the length back and stops where the encoding does. */
  lemma LenRoundTrip(len: nat, rest: seq<Byte>)
    requires len < SIZE_LIMIT
    ensures ReadLen(LenOctets(len) + rest) == Some((len, |LenOctets(len)|))
  {
    hide BigEndian, Digits, Value, LenOctets;
    DigitsFit(len);
    LenForms(len);
    if len >= 128 {
      LenConcat(len);
      var b := LenOctets(len) + rest;
      assert b[1..|LenOctets(len)|] == BigEndian(len);
      BigEndianValue(len);
    }
  }

  /** No length encoding is a prefix of another one. */
  lemma LenPrefixFree(a: nat, b: nat)
    requires a < SIZE_LIMIT && b < SIZE_LIMIT && LenOctets(a) <= LenOctets(b)
    ensures a == b
  {
    LenRoundTrip(a, LenOctets(b)[|LenOctets(a)|..]);
    LenRoundTrip(b, []);
    assert LenOctets(a) + LenOctets(b)[|LenOctets(a)|..] == LenOctets(b) == LenOctets(b) + [];
  }

  /** A value below 256^d has at most d digits; one written in d digits is that small. */
  lemma {:induction false} ValueDigits(bytes: seq<Byte>)
    ensures Value(bytes) < Pow256(|bytes|) && Digits(Value(bytes)) <= |bytes|
    ensures Digits(Value(bytes)) == |bytes| ==> BigEndian(Value(bytes)) == bytes
  {
    if bytes != [] {
      var n := |bytes| - 1;
      ValueDigits(bytes[..n]);
      assert Value(bytes) / 256 == Value(bytes[..n]) && Value(bytes) % 256 == bytes[n];
      assert bytes == bytes[..n] + [bytes[n]];
    }
  }

  /** Among all octets that decode to a length, the written ones are the shortest, and the only ones of that size. */
  lemma LenMinimal(b: seq<Byte>, len: nat, used: nat)
    requires len < SIZE_LIMIT && ReadLen(b) == Some((len, used))
    ensures |LenOctets(len)| <= used
    ensures |LenOctets(len)| == used ==> b[..used] == LenOctets(len)
  {
    if b[0] >= 128 {
      ValueDigits(b[1..used]);
      if len >= 128 && |LenOctets(len)| == used {
        assert b[..used] == [b[0]] + b[1..used];
      }
    }
  }

  /** An element with a one-byte tag. */
  datatype Tlv = Tlv(tag: Byte, content: seq<Byte>)

  function ReadTlv(b: seq<Byte>): (r: Option<(Tlv, seq<Byte>)>)
    ensures r.Some? ==> |r.value.1| < |b|
  {
    if b == [] || b[0] % 32 == 31 then None
    else
      match ReadLen(b[1..])
      case None => None
      case Some((len, used)) =>
        if |b| < 1 + used + len then None
        else Some((Tlv(b[0], b[1 + used..1 + used + len]), b[1 + used + len..]))
  }

  function ReadAll(b: seq<Byte>): Option<seq<Tlv>> {
    if b == [] then Some([])
    else
      match ReadTlv(b)
      case None => None
      case Some((tlv, rest)) =>
        match ReadAll(rest) case None => None case Some(tail) => Some([tlv] + tail)
  }

  /** b is one whole element. */
  predicate IsTlv(b: seq<Byte>, tlv: Tlv) {
    ReadTlv(b) == Some((tlv, []))
  }

  lemma ReadLenExtends(b: seq<Byte>, more: seq<Byte>)
    requires ReadLen(b).Some?
    ensures ReadLen(b + more) == ReadLen(b)
  {
    if b[0] >= 128 {
      assert (b + more)[1..b[0] - 127] == b[1..b[0] - 127];
    }
  }

  lemma ReadTlvExtends(b: seq<Byte>, tlv: Tlv, more: seq<Byte>)
    requires IsTlv(b, tlv)
    ensures ReadTlv(b + more) == Some((tlv, more))
  {
    ReadLenExtends(b[1..], more);
    assert (b + more)[1..] == b[1..] + more;
    var (len, used) := ReadLen(b[1..]).value;
    assert (b + more)[1 + used..1 + used + len] == b[1 + used..1 + used + len];
    assert (b + more)[1 + used + len..] == more;
  }

  lemma Wrapped(content: seq<Byte>)
    requires |content| < SIZE_LIMIT
    ensures ReadTlv([0x30] + LenOctets(|content|) + content) == Some((Tlv(0x30, content), []))
  {
    var b := [0x30] + LenOctets(|content|) + content;
    LenRoundTrip(|content|, content);
    assert b[1..] == LenOctets(|content|) + content;
    var used := |LenOctets(|content|)|;
    assert b[1 + used..1 + used + |content|] == content && b[1 + used + |content|..] == [];
  }

  /**
   * Section 4.1 of RFC 5280: for any three well-formed elements, a parser reads the assembled bytes as one SEQUENCE
   * with nothing after it, holding exactly those three elements with nothing between or after them.
   */
  lemma CertificateRoundTrip(tbs: seq<Byte>, alg: seq<Byte>, sig: seq<Byte>, x: Tlv, y: Tlv, z: Tlv)
    requires |tbs| + |alg| + |sig| < SIZE_LIMIT
    requires IsTlv(tbs, x) && IsTlv(alg, y) && IsTlv(sig, z)
    ensures ReadTlv(Certificate(tbs, alg, sig)) == Some((Tlv(0x30, tbs + alg + sig), []))
    ensures ReadAll(tbs + alg + sig) == Some([x, y, z])
  {
    hide LenOctets, ReadTlv, ReadAll, IsTlv;
    Wrapped(tbs + alg + sig);
    Concat([0x30] + LenOctets(|tbs + alg + sig|), tbs, alg, sig);
    PartsRead(tbs, alg, sig, x, y, z);
  }

  lemma PartsRead(tbs: seq<Byte>, alg: seq<Byte>, sig: seq<Byte>, x: Tlv, y: Tlv, z: Tlv)
    requires IsTlv(tbs, x) && IsTlv(alg, y) && IsTlv(sig, z)
    ensures ReadAll(tbs + alg + sig) == Some([x, y, z])
  {
    hide ReadTlv, IsTlv;
    ReadAllCons(sig, z, []);
    assert sig + [] == sig;
    assert [z] + [] == [z] && [y] + [z] == [y, z] && [x] + [y, z] == [x, y, z];
    ReadAllCons(alg, y, sig);
    ReadAllCons(tbs, x, alg + sig);
    assert tbs + alg + sig == tbs + (alg + sig);
  }

  lemma Concat<T>(a: seq<T>, b: seq<T>, c: seq<T>, d: seq<T>)
    ensures a + b + c + d == a + (b + c + d)
  {
  }

  lemma ReadAllCons(b: seq<Byte>, tlv: Tlv, more: seq<Byte>)
    requires IsTlv(b, tlv) && ReadAll(more).Some?
    ensures ReadAll(b + more) == Some([tlv] + ReadAll(more).value)
  {
    hide ReadTlv;
    ReadTlvExtends(b, tlv, more);
    assert b != [] by { NoTlv(); }
  }

  lemma NoTlv()
    ensures ReadTlv([]) == None
  {
  }
}
