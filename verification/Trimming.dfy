/** Trimming: header values lose blanks and tabs, allowlist lines whatever isspace accepts. */
module Trimming {
  import opened Text
  import opened Numbers

  /** Optional white space of section 5.6.3 of RFC 9110, or isspace in the C locale. */
  datatype Space = Ows | CLocale

  predicate IsOf(c: char, k: Space) {
    match k
    case Ows => c == ' ' || c == '\t'
    case CLocale => IsSpace(c)
  }

  /** In ASCII: space and tab; and what isspace accepts, space and the codes 9 to 13. */
  lemma SpaceCodes(c: char)
    ensures IsOf(c, Ows) <==> c as int == 32 || c as int == 9
    ensures IsOf(c, CLocale) <==> c as int == 32 || 9 <= c as int <= 13
  {
  }

  function TrimLeft(s: string, k: Space): string {
    if s != "" && IsOf(s[0], k) then TrimLeft(s[1..], k) else s
  }

  function TrimRight(s: string, k: Space): string {
    if s != "" && IsOf(s[|s| - 1], k) then TrimRight(s[..|s| - 1], k) else s
  }

  function Trim(s: string, k: Space): string {
    TrimRight(TrimLeft(s, k), k)
  }

  predicate AllOf(s: string, k: Space) {
    forall c | c in s :: IsOf(c, k)
  }

  predicate Trimmed(s: string, k: Space) {
    s == "" || (!IsOf(s[0], k) && !IsOf(s[|s| - 1], k))
  }

  /** s is t with white space around it. */
  ghost predicate Wraps(s: string, t: string, k: Space) {
    exists a, b :: AllOf(a, k) && AllOf(b, k) && s == a + t + b
  }

  lemma {:induction false} LeftRest(s: string, k: Space)
    ensures var n := |s| - |TrimLeft(s, k)|;
            && 0 <= n && s[n..] == TrimLeft(s, k) && AllOf(s[..n], k)
            && (TrimLeft(s, k) != "" ==> !IsOf(TrimLeft(s, k)[0], k))
  {
    hide IsOf;
    if s != "" && IsOf(s[0], k) {
      LeftRest(s[1..], k);
      var n := |s[1..]| - |TrimLeft(s[1..], k)|;
      assert s[..n + 1] == [s[0]] + s[1..][..n];
    }
  }

  lemma {:induction false} RightRest(s: string, k: Space)
    ensures var t := TrimRight(s, k);
            && t <= s && AllOf(s[|t|..], k) && (t != "" ==> !IsOf(t[|t| - 1], k))
  {
    hide IsOf;
    if s != "" && IsOf(s[|s| - 1], k) {
      var shorter := s[..|s| - 1];
      RightRest(shorter, k);
      var t := TrimRight(shorter, k);
      assert s[|t|..] == shorter[|t|..] + [s[|s| - 1]];
    }
  }

  lemma {:induction false} RightCut(t: string, b: string, k: Space)
    requires AllOf(b, k) && (t == "" || !IsOf(t[|t| - 1], k))
    ensures TrimRight(t + b, k) == t
  {
    hide IsOf;
    if b == "" {
      assert t + b == t;
    } else {
      var n := |b| - 1;
      assert (t + b)[..|t + b| - 1] == t + b[..n] && b[n] in b;
      RightCut(t, b[..n], k);
    }
  }

  lemma {:induction false} LeftCut(a: string, rest: string, k: Space)
    requires AllOf(a, k)
    ensures TrimLeft(a + rest, k) == TrimLeft(rest, k)
  {
    hide IsOf;
    if a == "" {
      assert a + rest == rest;
    } else {
      assert a[0] in a && (a + rest)[1..] == a[1..] + rest;
      LeftCut(a[1..], rest, k);
    }
  }

  /** Trimming gives t exactly when t has no white space at its ends and the text is t with white space around it. */
  lemma TrimIff(s: string, t: string, k: Space)
    ensures Trim(s, k) == t <==> Trimmed(t, k) && Wraps(s, t, k)
  {
    hide IsOf, TrimLeft, TrimRight, AllOf;
    Unwrap(s, k);
    forall a, b | AllOf(a, k) && AllOf(b, k) && s == a + t + b && Trimmed(t, k)
      ensures Trim(s, k) == t
    {
      TrimWrapped(a, t, b, k);
    }
  }

  lemma Unwrap(s: string, k: Space)
    ensures Trimmed(Trim(s, k), k) && Wraps(s, Trim(s, k), k)
  {
    hide IsOf, TrimLeft, TrimRight, AllOf;
    LeftRest(s, k);
    var left := TrimLeft(s, k);
    RightRest(left, k);
    var t := TrimRight(left, k);
    var n := |s| - |left|;
    assert s == s[..n] + t + left[|t|..];
  }

  lemma TrimWrapped(a: string, t: string, b: string, k: Space)
    requires Trimmed(t, k) && AllOf(a, k) && AllOf(b, k)
    ensures Trim(a + t + b, k) == t
  {
    hide IsOf, TrimRight;
    assert a + t + b == a + (t + b);
    LeftCut(a, t + b, k);
    if t == "" {
      assert t + b == b == b + "" && "" + "" == "";
      LeftCut(b, "", k);
      RightCut("", "", k);
    } else {
      assert TrimLeft(t + b, k) == t + b;
      RightCut(t, b, k);
    }
  }
}
