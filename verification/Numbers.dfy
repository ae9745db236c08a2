/** Decimal printing (%zu) and strtoul. */
module Numbers {
  import opened Text

  const ULONG_RANGE := 0x1_0000_0000_0000_0000  // unsigned long has 64 bits

  predicate IsDigit(c: char) {
    '0' <= c <= '9'
  }

  /** isspace in the C locale. */
  predicate IsSpace(c: char) {
    c == ' ' || c == '\t' || c == '\n' || c == '\U{000B}' || c == '\U{000C}' || c == '\r'
  }

  predicate AllSpaces(s: string) {
    forall c | c in s :: IsSpace(c)
  }

  /** 1*DIGIT */
  predicate IsNumeral(s: string) {
    s != "" && forall c | c in s :: IsDigit(c)
  }

  function Digit(d: nat): (c: char)
    requires d < 10
    ensures IsDigit(c) && c as int - '0' as int == d
  {
    (d + '0' as int) as char
  }

  /** %zu */
  function Dec(n: nat): (s: string)
    ensures s != "" && forall c | c in s :: IsDigit(c)
  {
    if n < 10 then [Digit(n)] else Dec(n / 10) + [Digit(n % 10)]
  }

  /** %d */
  function DecInt(n: int): string {
    if n < 0 then "-" + Dec(-n) else Dec(n)
  }

  function DecValue(digits: string): nat
    requires forall c | c in digits :: IsDigit(c)
  {
    if digits == "" then 0
    else
      var n := |digits| - 1;
      assert IsDigit(digits[n]);
      10 * DecValue(digits[..n]) + (digits[n] as int - '0' as int)
  }

  function SkipSpaces(s: string): (i: nat)
    ensures i <= |s|
  {
    if s != "" && IsSpace(s[0]) then 1 + SkipSpaces(s[1..]) else 0
  }

  function SkipDigits(s: string): (i: nat)
    ensures i <= |s| && forall c | c in s[..i] :: IsDigit(c)
    ensures i < |s| ==> !IsDigit(s[i])
  {
    if s != "" && IsDigit(s[0]) then
      assert s[..1 + SkipDigits(s[1..])] == [s[0]] + s[1..][..SkipDigits(s[1..])];
      1 + SkipDigits(s[1..])
    else 0
  }

  /** The value, how many characters were used, and whether errno is set to ERANGE. */
  datatype Converted = Converted(value: nat, used: nat, overflow: bool)

  /**
   * strtoul in base 10: blanks, an optional sign, digits. A minus sign negates modulo 2^64. Without digits nothing
   * is used, and errno is left alone, as in the GNU C library.
   */
  function StrToUL(s: string): (r: Converted)
    ensures r.used <= |s| && r.value < ULONG_RANGE
  {
    var blanks := SkipSpaces(s);
    var signs := if blanks < |s| && (s[blanks] == '+' || s[blanks] == '-') then 1 else 0;
    var rest := s[blanks + signs..];
    var n := SkipDigits(rest);
    if n == 0 then Converted(0, 0, false)
    else
      var value := DecValue(rest[..n]);
      var used := blanks + signs + n;
      if value >= ULONG_RANGE then Converted(ULONG_RANGE - 1, used, true)
      else if signs == 1 && s[blanks] == '-' then Converted((ULONG_RANGE - value) % ULONG_RANGE, used, false)
      else Converted(value, used, false)
  }

  /** What strtoul makes of a number that fits, with a sign in front or none: a minus negates modulo 2^64. */
  function Signed(sign: string, n: nat): nat
    requires n < ULONG_RANGE
  {
    if sign == "-" then (ULONG_RANGE - n) % ULONG_RANGE else n
  }

  /** s spells a number the way strtoul takes it: white space, an optional sign, digits. */
  predicate Spells(s: string, blanks: string, sign: string, digits: string) {
    s == blanks + sign + digits && AllSpaces(blanks) && sign in {"", "+", "-"} && IsNumeral(digits)
  }

  /** Skipping white space takes all of it and nothing else. */
  lemma {:induction false} SpacesSkipped(s: string)
    ensures AllSpaces(s[..SkipSpaces(s)]) && (SkipSpaces(s) < |s| ==> !IsSpace(s[SkipSpaces(s)]))
  {
    if s != "" && IsSpace(s[0]) {
      SpacesSkipped(s[1..]);
      assert s[..SkipSpaces(s)] == [s[0]] + s[1..][..SkipSpaces(s[1..])];
    }
  }

  lemma {:induction false} SkipsExactly(blanks: string, rest: string)
    requires AllSpaces(blanks) && rest != "" && !IsSpace(rest[0])
    ensures SkipSpaces(blanks + rest) == |blanks|
  {
    if blanks == "" {
      assert blanks + rest == rest;
    } else {
      assert blanks[0] in blanks && (blanks + rest)[1..] == blanks[1..] + rest;
      SkipsExactly(blanks[1..], rest);
    }
  }

  /** A text so spelled is used up by strtoul and gives its signed value, or overflows. */
  lemma SpelledParse(s: string, blanks: string, sign: string, digits: string)
    requires Spells(s, blanks, sign, digits)
    ensures var r := StrToUL(s);
            && r.used == |s| && r.overflow == (DecValue(digits) >= ULONG_RANGE)
            && (!r.overflow ==> r.value == Signed(sign, DecValue(digits)))
  {
    hide DecValue, SkipDigits, SkipSpaces;
    var rest := sign + digits;
    assert IsDigit(digits[0]);
    assert s == blanks + rest;
    SkipsExactly(blanks, rest);
    assert s[|blanks| + |sign|..] == digits && digits[..|digits|] == digits;
    AllDigits(digits);
  }

  /** Only such texts are used up by strtoul, but for the empty one, which it takes for 0. */
  lemma UsedUp(s: string)
    requires StrToUL(s).used == |s|
    ensures s == "" || exists blanks, sign, digits :: Spells(s, blanks, sign, digits)
  {
    hide DecValue, SkipDigits, SkipSpaces;
    SpacesSkipped(s);
    var k := SkipSpaces(s);
    var signs := if k < |s| && (s[k] == '+' || s[k] == '-') then 1 else 0;
    var rest := s[k + signs..];
    var n := SkipDigits(rest);
    if n > 0 {
      assert rest[..n] == rest;
      assert s == s[..k] + s[k..k + signs] + rest;
      assert s[k..k + signs] == if signs == 0 then "" else [s[k]];
      assert Spells(s, s[..k], s[k..k + signs], rest);
    }
  }

  lemma {:induction false} DecValueOfDec(n: nat)
    ensures DecValue(Dec(n)) == n
  {
    if n >= 10 {
      DecValueOfDec(n / 10);
      assert Dec(n)[..|Dec(n)| - 1] == Dec(n / 10);
    }
  }

  lemma {:induction false} AllDigits(s: string)
    requires forall c | c in s :: IsDigit(c)
    ensures SkipDigits(s) == |s|
  {
    if s != "" {
      AllDigits(s[1..]);
    }
  }

  /** strtoul reads back what %zu printed, and uses all of it. */
  lemma PrintParse(n: nat)
    requires n < ULONG_RANGE
    ensures StrToUL(Dec(n)) == Converted(n, |Dec(n)|, false)
  {
    hide Dec, DecValue, SkipDigits;
    var s := Dec(n);
    assert IsDigit(s[0]);
    assert s[0..] == s && s[..|s|] == s;
    AllDigits(s);
    DecValueOfDec(n);
  }

  lemma {:induction false} DecLength(n: nat, d: nat, limit: nat)
    requires d > 0 && n < limit && limit == Pow10(d)
    ensures |Dec(n)| <= d
  {
    if n >= 10 {
      DecLength(n / 10, d - 1, limit / 10);
    }
  }

  function Pow10(d: nat): nat {
    if d == 0 then 1 else 10 * Pow10(d - 1)
  }

  lemma ThreeMore(d: nat)
    ensures Pow10(d + 3) == 1000 * Pow10(d)
  {
    assert Pow10(d + 3) == 10 * Pow10(d + 2) && Pow10(d + 2) == 10 * Pow10(d + 1);
  }

  /** A 64-bit number prints in at most 20 digits. */
  lemma DecLength64(n: nat)
    requires n < ULONG_RANGE
    ensures |Dec(n)| <= 20
  {
    ThreeMore(17);
    ThreeMore(14);
    ThreeMore(11);
    ThreeMore(8);
    ThreeMore(5);
    ThreeMore(2);
    assert Pow10(2) == 100;
    DecLength(n, 20, Pow10(20));
  }
}
