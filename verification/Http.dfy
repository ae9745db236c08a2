/** enrollment/src/http.c: reading and answering one enrollment request. */
module Http {
  import opened Text
  import opened Numbers
  import opened Trimming

  const REQUEST_MAX_BYTES := 65536
  const DEVICE_ID_MAX_BYTES := 128
  const CRLF2 := "\r\n\r\n"

  // ----- Specification of header lookup (section 5 of RFC 9112) -----

  function LowerChar(c: char): char {
    if 'A' <= c <= 'Z' then (c as int + 32) as char else c
  }

  /** strncasecmp(a, b, |b|) == 0 */
  predicate SameIgnoringCase(a: string, b: string) {
    |a| == |b| && forall i | 0 <= i < |a| :: LowerChar(a[i]) == LowerChar(b[i])
  }

  /** header_name_matches */
  predicate NameMatches(line: string, name: string) {
    |line| > |name| && line[|name|] == ':' && SameIgnoringCase(line[..|name|], name)
  }

  /** The pieces of a header block between its CRLFs. */
  function SplitLines(head: string): seq<string>
    decreases |head|
  {
    match Find(head, CRLF)
    case None => [head]
    case Some(k) => [head[..k]] + SplitLines(head[k + 2..])
  }

  /** The trimmed value of the first line that carries the header. */
  function Lookup(lines: seq<string>, name: string): Option<string> {
    if lines == [] then None
    else if NameMatches(lines[0], name) then Some(Trim(lines[0][|name| + 1..], Ows))
    else Lookup(lines[1..], name)
  }

  /** A Content-Length value: strtoul must use all of it and give at most 65536. An empty value gives 0. */
  function ParseLength(value: string): Option<nat> {
    var r := StrToUL(value);
    if r.overflow || r.used != |value| || r.value > REQUEST_MAX_BYTES then None else Some(r.value)
  }

  /** A value of digits is taken for what it says, up to 65536. */
  lemma DigitsLength(value: string)
    requires value != "" && forall c | c in value :: IsDigit(c)
    ensures ParseLength(value) == if DecValue(value) <= REQUEST_MAX_BYTES then Some(DecValue(value)) else None
  {
    assert IsDigit(value[0]);
    assert value[0..] == value && value[..|value|] == value;
    AllDigits(value);
  }

  /** The text announces n bytes: white space, an optional sign and digits that fit 64 bits come to n. */
  ghost predicate Announces(value: string, n: nat) {
    exists blanks, sign, digits :: Spells(value, blanks, sign, digits) && SpelledValue(sign, digits, n)
  }

  predicate SpelledValue(sign: string, digits: string, n: nat)
    requires IsNumeral(digits)
  {
    DecValue(digits) < ULONG_RANGE && Signed(sign, DecValue(digits)) == n
  }

  /** Exactly these values are accepted, for exactly this length. */
  lemma LengthIff(value: string, n: nat)
    ensures ParseLength(value) == Some(n) <==> n <= 65536 && ((value == "" && n == 0) || Announces(value, n))
  {
    hide StrToUL, DecValue, Signed;
    EmptyConverted();
    if StrToUL(value).used == |value| {
      UsedUp(value);
    }
    forall blanks, sign, digits | Spells(value, blanks, sign, digits)
      ensures ParseLength(value) == Some(n) <==> n <= REQUEST_MAX_BYTES && SpelledValue(sign, digits, n)
    {
      SpelledParse(value, blanks, sign, digits);
    }
  }

  lemma EmptyConverted()
    ensures StrToUL("") == Converted(0, 0, false)
  {
  }

  /** The value has something in front of its digits, or no digits. */
  ghost predicate Padded(value: string, n: nat) {
    exists blanks, sign, digits ::
      Spells(value, blanks, sign, digits) && blanks + sign != "" && SpelledValue(sign, digits, n)
  }

  /**
   * Section 8.6 of RFC 9110 allows digits only. The other values that are accepted are exactly the empty one, for 0,
   * and those with white space or a sign in front of the digits.
   */
  lemma BeyondDigits(value: string, n: nat)
    ensures ParseLength(value) == Some(n) && !IsNumeral(value)
       <==> n <= 65536 && ((value == "" && n == 0) || Padded(value, n))
  {
    hide SpelledValue, DecValue, Signed, ParseLength;
    LengthIff(value, n);
    forall blanks, sign, digits | Spells(value, blanks, sign, digits)
      ensures IsNumeral(value) <==> blanks + sign == ""
    {
      OnlyDigits(value, blanks, sign, digits);
    }
  }

  lemma OnlyDigits(value: string, blanks: string, sign: string, digits: string)
    requires Spells(value, blanks, sign, digits)
    ensures IsNumeral(value) <==> blanks + sign == ""
  {
    if blanks + sign == "" {
      assert value == digits;
    } else {
      assert value[0] in value && value[0] == (blanks + sign)[0];
      assert blanks != "" ==> blanks[0] in blanks;
    }
  }

  /** A minus wraps around: for every k up to 65536 but 0, "-" and the digits of 2^64 - k announce k bytes. */
  lemma MoreThanDigits(k: nat)
    requires k <= 65536
    ensures ParseLength("") == Some(0) && ParseLength("+" + Dec(k)) == Some(k)
    ensures k > 0 ==> ParseLength("-" + Dec(18446744073709551616 - k)) == Some(k)
  {
    hide Dec, DecValue, ParseLength;
    LengthIff("", 0);
    DecValueOfDec(k);
    Spelled("+", Dec(k));
    assert SpelledValue("+", Dec(k), k);
    LengthIff("+" + Dec(k), k);
    if k > 0 {
      var n := ULONG_RANGE - k;
      DecValueOfDec(n);
      Spelled("-", Dec(n));
      assert SpelledValue("-", Dec(n), k);
      LengthIff("-" + Dec(n), k);
    }
  }

  lemma Spelled(sign: string, digits: string)
    requires sign in {"+", "-"} && IsNumeral(digits)
    ensures Spells(sign + digits, "", sign, digits)
  {
    assert "" + sign + digits == sign + digits;
  }

  function ContentLength(head: string): Option<nat> {
    match Lookup(SplitLines(head), "Content-Length")
    case None => None
    case Some(value) => ParseLength(value)
  }

  // ----- What header lookup means (section 5 of RFC 9112) -----

  /** The characters are the same letter in upper or lower case, or the same character. */
  predicate CaseVariant(a: char, b: char) {
    || a == b
    || (('A' <= a <= 'Z' || 'a' <= a <= 'z') && ('A' <= b <= 'Z' || 'a' <= b <= 'z')
        && (a as int - b as int == 32 || b as int - a as int == 32))
  }

  predicate AnyCase(a: string, b: string) {
    |a| == |b| && forall i | 0 <= i < |a| :: CaseVariant(a[i], b[i])
  }

  lemma AnyCaseIff(a: string, b: string)
    ensures SameIgnoringCase(a, b) <==> AnyCase(a, b)
  {
    forall c: char, d: char
      ensures LowerChar(c) == LowerChar(d) <==> CaseVariant(c, d)
    {
      LowerIff(c, d);
    }
  }

  lemma LowerIff(c: char, d: char)
    ensures LowerChar(c) == LowerChar(d) <==> CaseVariant(c, d)
  {
  }

  /** The line is the name in any case, a colon, and the value with blanks around it; the value has none at its ends. */
  ghost predicate Carries(line: string, name: string, value: string) {
    exists n, rest ::
      line == n + ":" + rest && AnyCase(n, name) && Trimmed(value, Ows) && Wraps(rest, value, Ows)
  }

  lemma CarriesIff(line: string, name: string, value: string)
    ensures Carries(line, name, value) <==> NameMatches(line, name) && Trim(line[|name| + 1..], Ows) == value
  {
    hide Trim, Wraps, Trimmed, SameIgnoringCase, AnyCase;
    SameLength(name);
    if NameMatches(line, name) {
      AnyCaseIff(line[..|name|], name);
      assert line == line[..|name|] + ":" + line[|name| + 1..];
      TrimIff(line[|name| + 1..], value, Ows);
    }
    forall n, rest | line == n + ":" + rest && AnyCase(n, name)
      ensures NameMatches(line, name) && line[|name| + 1..] == rest
    {
      AnyCaseIff(n, name);
      assert line[..|n|] == n && line[|n| + 1..] == rest;
    }
  }

  lemma SameLength(name: string)
    ensures forall n | AnyCase(n, name) :: |n| == |name|
  {
  }

  /** The first line that carries the header carries that value. */
  ghost predicate FirstCarries(lines: seq<string>, name: string, value: string) {
    exists k :: 0 <= k < |lines| && Carries(lines[k], name, value)
                && forall i, v | 0 <= i < k :: !Carries(lines[i], name, v)
  }

  lemma {:induction false} LookupIff(lines: seq<string>, name: string, value: string)
    ensures Lookup(lines, name) == Some(value) <==> FirstCarries(lines, name, value)
  {
    hide Carries, SameIgnoringCase, Trim;
    if lines != [] {
      CarriesIff(lines[0], name, value);
      if NameMatches(lines[0], name) {
        CarriesIff(lines[0], name, Trim(lines[0][|name| + 1..], Ows));
      } else {
        forall v
          ensures !Carries(lines[0], name, v)
        {
          CarriesIff(lines[0], name, v);
        }
        LookupIff(lines[1..], name, value);
        CarriedLater(lines, name, value);
      }
    }
  }

  /** The first carrying line is the same line when one that carries nothing is put in front. */
  lemma CarriedLater(lines: seq<string>, name: string, value: string)
    requires lines != [] && forall v :: !Carries(lines[0], name, v)
    ensures FirstCarries(lines, name, value) <==> FirstCarries(lines[1..], name, value)
  {
    hide Carries;
    var rest := lines[1..];
    if k :| 0 <= k < |lines| && Carries(lines[k], name, value)
            && forall i, v | 0 <= i < k :: !Carries(lines[i], name, v) {
      assert rest[k - 1] == lines[k];
      assert forall i | 0 <= i < k - 1 :: rest[i] == lines[i + 1];
    }
    if k :| 0 <= k < |rest| && Carries(rest[k], name, value)
            && forall i, v | 0 <= i < k :: !Carries(rest[i], name, v) {
      assert lines[k + 1] == rest[k];
      assert forall i | 0 < i < k + 1 :: lines[i] == rest[i - 1];
    }
  }

  // ----- Header lookup in the code -----

  lemma AtCrlf(s: string, i: nat)
    ensures At(s, CRLF, i) <==> i + 1 < |s| && s[i] == '\r' && s[i + 1] == '\n'
  {
    if i + 1 < |s| {
      assert s[i..i + 2] == [s[i], s[i + 1]];
    }
  }

  /**
   * In a text with a CRLF at end, the next CRLF from line on ends the first line of the block between line and end.
   */
  lemma LineEnd(text: string, line: nat, end: nat)
    requires At(text, CRLF, end) && line <= end
    ensures var e := FindFrom(text, CRLF, line);
            && e.Some? && line <= e.value <= end
            && (e.value == end ==> SplitLines(text[line..end]) == [text[line..end]])
            && (e.value < end ==>
                  e.value + 2 <= end
                  && SplitLines(text[line..end]) == [text[line..e.value]] + SplitLines(text[e.value + 2..end]))
  {
    hide At, SplitLines;
    AtWithin(text);
    FirstBreak(text, line, end);
    SplitUnfold(text[line..end]);
    var block := text[line..end];
    var e := FindFrom(text, CRLF, line).value;
    if e < end {
      assert block[..e - line] == text[line..e] && block[e - line + 2..] == text[e + 2..end];
    }
  }

  lemma SplitUnfold(block: string)
    ensures Find(block, CRLF) == None ==> SplitLines(block) == [block]
    ensures Find(block, CRLF).Some? ==>
              var k := Find(block, CRLF).value;
              k + 2 <= |block| && SplitLines(block) == [block[..k]] + SplitLines(block[k + 2..])
  {
  }

  lemma FirstBreak(text: string, line: nat, end: nat)
    requires At(text, CRLF, end) && line <= end
    ensures var e := FindFrom(text, CRLF, line);
            && e.Some? && line <= e.value <= end
            && (e.value == end ==> Find(text[line..end], CRLF) == None)
            && (e.value < end ==> e.value + 2 <= end && Find(text[line..end], CRLF) == Some(e.value - line))
  {
    hide At;
    AtWithin(text);
    var block := text[line..end];
    var e := FindFrom(text, CRLF, line).value;
    AtCrlf(text, end);
    AtCrlf(text, e);
    forall i: nat | i + 2 <= |block|
      ensures At(block, CRLF, i) == At(text, CRLF, line + i)
    {
      AtCrlf(block, i);
      AtCrlf(text, line + i);
    }
    AtWithin(block);
    if e < end {
      FindIs(block, CRLF, e - line);
    }
  }

  lemma AtWithin(s: string)
    ensures forall i: nat | At(s, CRLF, i) :: i + 2 <= |s|
  {
  }

  /** copy_header_value; end is where a CRLF begins. */
  method CopyHeaderValue(text: string, end: nat, name: string) returns (r: Option<string>)
    requires At(text, CRLF, end)
    ensures r == Lookup(SplitLines(text[..end]), name)
  {
    hide SplitLines;
    var line := 0;
    assert text[..end] == text[0..end];
    EmptyBlock(name);
    while line < end
      invariant line <= end || line == end + 2
      invariant Lookup(SplitLines(text[..end]), name)
             == if line <= end then Lookup(SplitLines(text[line..end]), name) else None
    {
      LineEnd(text, line, end);
      var lineEnd := FindFrom(text, CRLF, line);
      if lineEnd.None? || lineEnd.value > end {
        break;
      }
      var e := lineEnd.value;
      if NameMatches(text[line..e], name) {
        var value := TrimValue(text, line + |name| + 1, e);
        assert text[line..e][|name| + 1..] == text[line + |name| + 1..e];
        return Some(value);
      }
      line := e + 2;
    }
    assert line == end ==> text[line..end] == "";
    return None;
  }

  lemma EmptyBlock(name: string)
    ensures Lookup(SplitLines(""), name) == None
  {
  }

  /** The two loops of copy_header_value that narrow [value, valueEnd). */
  method TrimValue(text: string, start: nat, end: nat) returns (r: string)
    requires start <= end <= |text|
    ensures r == Trim(text[start..end], Ows)
  {
    var value := start;
    while value < end && IsOf(text[value], Ows)
      invariant start <= value <= end
      invariant TrimLeft(text[start..end], Ows) == TrimLeft(text[value..end], Ows)
    {
      assert text[value..end][1..] == text[value + 1..end];
      value := value + 1;
    }
    var valueEnd := end;
    while valueEnd > value && IsOf(text[valueEnd - 1], Ows)
      invariant value <= valueEnd <= end
      invariant TrimRight(text[value..end], Ows) == TrimRight(text[value..valueEnd], Ows)
    {
      assert text[value..valueEnd][..valueEnd - value - 1] == text[value..valueEnd - 1];
      valueEnd := valueEnd - 1;
    }
    return text[value..valueEnd];
  }

  /** parse_content_length */
  method ParseContentLength(text: string, end: nat) returns (r: Option<nat>)
    requires At(text, CRLF, end)
    ensures r == ContentLength(text[..end])
  {
    var value := CopyHeaderValue(text, end, "Content-Length");
    if value.None? {
      return None;
    }
    return ParseLength(value.value);
  }

  // ----- Printed header blocks -----

  /** Lines with CRLF between them. */
  function Join(lines: seq<string>): string
    requires lines != []
  {
    if |lines| == 1 then lines[0] else lines[0] + CRLF + Join(lines[1..])
  }

  /** No CRLF inside; a CR or LF alone does not end a line. */
  predicate Unbroken(s: string) {
    Find(s, CRLF) == None
  }

  /** A header line that can be printed: not empty, and free of CRLF and NUL. */
  predicate Plain(line: string) {
    line != "" && Unbroken(line) && '\0' !in line
  }

  lemma FirstLine(line: string, rest: string)
    requires Unbroken(line)
    ensures Find(line + CRLF + rest, CRLF) == Some(|line|)
  {
    hide At, Find;
    var s := line + CRLF + rest;
    AtCrlf(s, |line|);
    forall i: nat | i < |line|
      ensures !At(s, CRLF, i)
    {
      AtCrlf(s, i);
      AtCrlf(line, i);
      assert s[i] == line[i] && (i + 1 < |line| ==> s[i + 1] == line[i + 1]) && s[|line|] == '\r';
    }
    FindIs(s, CRLF, |line|);
  }

  lemma NoBreak(line: string)
    requires '\r' !in line
    ensures Unbroken(line)
  {
    hide At;
    forall i: nat
      ensures !At(line, CRLF, i)
    {
      AtCrlf(line, i);
    }
  }

  lemma UnbrokenPair(a: string, b: string)
    requires Unbroken(a) && Unbroken(b) && a != "" && a[|a| - 1] != '\r'
    ensures Unbroken(a + b)
  {
    hide At;
    var s := a + b;
    forall i: nat
      ensures !At(s, CRLF, i)
    {
      AtCrlf(s, i);
      if i + 1 < |a| {
        AtCrlf(a, i);
      } else if |a| <= i {
        AtCrlf(b, i - |a|);
      }
    }
  }

  /** Splitting undoes joining. */
  lemma {:induction false} SplitJoin(lines: seq<string>)
    requires lines != [] && forall l | l in lines :: Plain(l)
    ensures SplitLines(Join(lines)) == lines
  {
    assert Plain(lines[0]);
    if |lines| > 1 {
      var rest := Join(lines[1..]);
      FirstLine(lines[0], rest);
      assert Join(lines)[..|lines[0]|] == lines[0] && Join(lines)[|lines[0]| + 2..] == rest;
      SplitJoin(lines[1..]);
    }
  }

  /** Joining undoes splitting, and no piece holds a CRLF: the pieces are the lines. */
  lemma {:induction false} JoinSplit(head: string)
    ensures SplitLines(head) != [] && Join(SplitLines(head)) == head
    ensures forall l | l in SplitLines(head) :: Unbroken(l)
    decreases |head|
  {
    SplitUnfold(head);
    match Find(head, CRLF) {
      case None =>
      case Some(k) =>
        AtCrlf(head, k);
        JoinSplit(head[k + 2..]);
        UnbrokenBefore(head, k);
        var rest := SplitLines(head[k + 2..]);
        assert ([head[..k]] + rest)[1..] == rest;
        assert head == head[..k] + CRLF + head[k + 2..];
    }
  }

  lemma UnbrokenBefore(s: string, k: nat)
    requires Find(s, CRLF) == Some(k) && k <= |s|
    ensures Unbroken(s[..k])
  {
    hide At;
    forall i: nat
      ensures !At(s[..k], CRLF, i)
    {
      AtCrlf(s[..k], i);
      AtCrlf(s, i);
    }
  }

  lemma AtCrlf2(s: string, i: nat)
    ensures At(s, CRLF2, i) <==> At(s, CRLF, i) && At(s, CRLF, i + 2)
  {
    AtCrlf(s, i);
    AtCrlf(s, i + 2);
    if i + 4 <= |s| {
      assert s[i..i + 4] == [s[i], s[i + 1], s[i + 2], s[i + 3]];
    }
  }

  /** A printed message does not start with CRLF. */
  lemma MessageStart(lines: seq<string>, after: string)
    requires lines != [] && forall l | l in lines :: Plain(l)
    ensures !At(Join(lines) + CRLF + after, CRLF, 0)
  {
    hide At;
    var line := lines[0];
    var s := Join(lines) + CRLF + after;
    assert Plain(line) && line + CRLF <= s;
    AtCrlf(s, 0);
    AtCrlf(line, 0);
    assert s[0] == line[0] && s[1] == (line + CRLF)[1];
  }

  /** The first empty line is the one that ends the joined lines. */
  lemma {:induction false} HeaderEnd(lines: seq<string>, body: string)
    requires lines != [] && forall l | l in lines :: Plain(l)
    ensures Find(Join(lines) + CRLF2 + body, CRLF2) == Some(|Join(lines)|)
  {
    assert Plain(lines[0]);
    if |lines| == 1 {
      LastLine(lines[0], body);
    } else {
      var rest := Join(lines[1..]) + CRLF2 + body;
      HeaderEnd(lines[1..], body);
      MessageStart(lines[1..], CRLF + body);
      assert Join(lines) + CRLF2 + body == lines[0] + CRLF + rest;
      assert rest == Join(lines[1..]) + CRLF + (CRLF + body);
      SkipLine(lines[0], rest);
    }
  }

  lemma LastLine(line: string, body: string)
    requires Unbroken(line)
    ensures Find(line + CRLF2 + body, CRLF2) == Some(|line|)
  {
    hide At;
    var s := line + CRLF2 + body;
    FirstLine(line, CRLF + body);
    assert s == line + CRLF + (CRLF + body);
    AtCrlf(s, |line| + 2);
    forall i: nat | i <= |line|
      ensures At(s, CRLF2, i) <==> i == |line|
    {
      AtCrlf2(s, i);
    }
    FindIs(s, CRLF2, |line|);
  }

  /** In front of text that does not start with CRLF, a line and its CRLF just shift the first empty line. */
  lemma SkipLine(line: string, rest: string)
    requires Unbroken(line) && !At(rest, CRLF, 0) && Find(rest, CRLF2).Some?
    ensures Find(line + CRLF + rest, CRLF2) == Some(|line| + 2 + Find(rest, CRLF2).value)
  {
    hide At;
    var s := line + CRLF + rest;
    var n := |line| + 2;
    var k := n + Find(rest, CRLF2).value;
    FirstLine(line, rest);
    AtShift(s, rest, CRLF, n, n);
    forall i: nat | n <= i
      ensures At(s, CRLF2, i) == At(rest, CRLF2, i - n)
    {
      AtShift(s, rest, CRLF2, n, i);
    }
    forall i: nat | i < n
      ensures !At(s, CRLF2, i)
    {
      AtCrlf2(s, i);
      AtCrlf(s, i);
      AtCrlf(s, i + 2);
    }
    FindIs(s, CRLF2, k);
  }

  lemma AtShift(s: string, rest: string, p: string, n: nat, i: nat)
    requires n <= i && n <= |s| && s[n..] == rest
    ensures At(s, p, i) == At(rest, p, i - n)
  {
    if i + |p| <= |s| {
      assert s[n..][i - n..i - n + |p|] == s[i..i + |p|];
    }
  }

  lemma {:induction false} JoinNoNul(lines: seq<string>)
    requires lines != [] && forall l | l in lines :: Plain(l)
    ensures '\0' !in Join(lines)
  {
    assert Plain(lines[0]);
    if |lines| > 1 {
      JoinNoNul(lines[1..]);
    }
  }
}
