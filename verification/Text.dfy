/** Byte strings as the C code sees them: a char stands for one byte, and '\0' ends a C string. */
module Text {

  datatype Option<+T> = None | Some(value: T)

  /** A C string: a text without NULs. */
  type CString = s: string | '\0' !in s

  type Byte = b: int | 0 <= b < 256

  const CRLF := "\r\n"

  /** p occurs in s at position i. */
  predicate At(s: string, p: string, i: nat) {
    i + |p| <= |s| && s[i..i + |p|] == p
  }

  /** strstr: the position of the first occurrence of p in s at or after i. */
  function FindFrom(s: string, p: string, i: nat): (r: Option<nat>)
    ensures r.Some? ==> i <= r.value && At(s, p, r.value) && forall k: nat | i <= k < r.value :: !At(s, p, k)
    ensures r.None? ==> forall k: nat | i <= k :: !At(s, p, k)
    decreases |s| - i
  {
    if i + |p| > |s| then None
    else if At(s, p, i) then Some(i)
    else FindFrom(s, p, i + 1)
  }

  function Find(s: string, p: string): (r: Option<nat>)
    ensures r.Some? ==> At(s, p, r.value) && forall k: nat | k < r.value :: !At(s, p, k)
    ensures r.None? ==> forall k: nat :: !At(s, p, k)
  {
    FindFrom(s, p, 0)
  }

  /** strchr: the position of the first c in s. */
  function IndexOf(s: string, c: char): (r: Option<nat>)
    ensures r.Some? ==> r.value < |s| && s[r.value] == c && c !in s[..r.value]
    ensures r.None? ==> c !in s
  {
    if s == "" then None
    else if s[0] == c then Some(0)
    else
      match IndexOf(s[1..], c)
      case None => None
      case Some(k) =>
        assert s[..k + 1] == [s[0]] + s[1..][..k];
        Some(k + 1)
  }

  /** What a C function that takes a char pointer sees of a buffer: everything before the first NUL. */
  function CStr(s: string): (r: string)
    ensures r <= s && '\0' !in r
    ensures |r| < |s| ==> s[|r|] == '\0'
  {
    match IndexOf(s, '\0')
    case None => s
    case Some(k) => s[..k]
  }

  /** snprintf("%s") into a buffer of n bytes keeps at most n - 1 characters. */
  function Prefix(s: string, n: nat): (r: string)
    ensures r <= s && |r| == if |s| <= n then |s| else n
  {
    if |s| <= n then s else s[..n]
  }

  /** The first NUL decides what a C string is, whatever follows it in the buffer. */
  lemma CStrIs(s: string, r: string)
    requires r <= s && '\0' !in r
    requires |r| < |s| ==> s[|r|] == '\0'
    ensures CStr(s) == r
  {
    assert forall i | 0 <= i < |r| :: s[i] == r[i] && s[i] != '\0';
    assert forall i | 0 <= i < |CStr(s)| :: s[i] == CStr(s)[i] && s[i] != '\0';
  }

  /** A terminating NUL makes the rest of the buffer invisible. */
  lemma CStrTerminated(b: string, n: nat)
    requires n < |b| && b[n] == '\0'
    ensures CStr(b) == CStr(b[..n])
  {
    var c := CStr(b[..n]);
    assert c <= b;
    CStrIs(b, c);
  }

  /** An occurrence is first when nothing before it is one. */
  lemma FindIs(s: string, p: string, k: nat)
    requires At(s, p, k) && forall i: nat | i < k :: !At(s, p, i)
    ensures Find(s, p) == Some(k)
  {
  }

  lemma IndexOfIs(s: string, c: char, k: nat)
    requires k < |s| && s[k] == c && c !in s[..k]
    ensures IndexOf(s, c) == Some(k)
  {
    var r := IndexOf(s, c).value;
    assert forall i | 0 <= i < r :: s[i] == s[..r][i] && s[i] != c;
    assert forall i | 0 <= i < k :: s[i] == s[..k][i] && s[i] != c;
  }

  /** Appending after an occurrence moves no first occurrence. */
  lemma FindStable(s: string, t: string, p: string)
    requires s <= t && Find(s, p).Some?
    ensures Find(t, p) == Find(s, p)
  {
    var k := Find(s, p).value;
    assert At(t, p, k) by { AtStable(s, t, p, k); }
    forall i: nat | i < k
      ensures !At(t, p, i)
    {
      AtStable(s, t, p, i);
    }
  }

  lemma AtStable(s: string, t: string, p: string, i: nat)
    requires s <= t && i + |p| <= |s|
    ensures At(s, p, i) == At(t, p, i)
  {
    assert s[i..i + |p|] == t[i..i + |p|];
  }
}
