/** enrollment/src/kms.c: building the body of a KMS request and reading strings out of a JSON reply. */
module KmsJson {
  import opened Text
  import opened Numbers
  import opened Base64

  const NEEDLE_SIZE := 128

  // ----- Specification -----

  predicate Special(c: char) {
    c == '"' || c == '\\'
  }

  function Escape(s: string): string {
    if s == "" then "" else (if Special(s[0]) then ['\\', s[0]] else [s[0]]) + Escape(s[1..])
  }

  function Unescape(s: string): string {
    if s == "" then ""
    else if s[0] == '\\' && |s| > 1 then [s[1]] + Unescape(s[2..])
    else [s[0]] + Unescape(s[1..])
  }

  /** How far the scan for the closing quote gets: a backslash takes the next character with it. */
  function StringEnd(s: string): (n: nat)
    ensures n <= |s| && (n < |s| ==> s[n] == '"')
  {
    if s == "" || s[0] == '"' then 0
    else if s[0] == '\\' && |s| > 1 then 2 + StringEnd(s[2..])
    else 1 + StringEnd(s[1..])
  }

  function Quoted(s: string): string {
    "\"" + s + "\""
  }

  /** The still escaped string after the first colon that follows the first quoted occurrence of key. */
  function GetString(json: string, key: string): Option<string> {
    if |Quoted(key)| >= NEEDLE_SIZE then None
    else
      match Find(json, Quoted(key))
      case None => None
      case Some(pos) => StringAfterColon(json[pos + |Quoted(key)|..])
  }

  function StringAfterColon(s: string): Option<string> {
    match IndexOf(s, ':')
    case None => None
    case Some(colon) => StringAt(s[colon + 1..])
  }

  function StringAt(s: string): Option<string> {
    var start := SkipSpaces(s);
    if start == |s| || s[start] != '"' then None
    else
      var rest := s[start + 1..];
      var len := StringEnd(rest);
      if len == |rest| then None else Some(rest[..len])
  }

  function Member(name: string, value: string): string {
    Quoted(name) + ":" + Quoted(value)
  }

  /** The end of a body, which is the same for all. */
  function BodyTail(): string {
    "," + (Member("MessageType", "DIGEST") + ("," + (Member("SigningAlgorithm", "ECDSA_SHA_256") + "}")))
  }

  /** A body with the given (escaped) key id and message, up to what follows the message. */
  function BodyWith(keyId: string, message: string, tail: string): string {
    "{" + Quoted("KeyId") + ":" + Quoted(keyId) + "," + Quoted("Message") + ":" + Quoted(message) + tail
  }

  /** What build_json_body prints. */
  function BodyText(keyId: string, digest: seq<Byte>): string {
    BodyWith(Escape(keyId), Encode(digest), BodyTail())
  }

  // ----- The code -----

  /** json_escape: one pass counts the extra bytes, the next fills the allocation exactly. */
  method JsonEscape(input: string) returns (out: array<char>)
    requires '\0' !in input
    ensures out.Length == |Escape(input)| + 1
    ensures out[..out.Length - 1] == Escape(input) && out[out.Length - 1] == '\0'
  {
    hide Escape;
    EscapeEmpty();
    var extra := 0;
    var i := 0;
    assert input[0..] == input;
    while i < |input|
      invariant 0 <= i <= |input|
      invariant i + extra + |Escape(input[i..])| == |Escape(input)|
    {
      EscapeStep(input, i);
      if Special(input[i]) {
        extra := extra + 1;
      }
      i := i + 1;
    }
    assert input[i..] == "";
    out := new char[|input| + extra + 1](_ => '\0');
    var dst := 0;
    i := 0;
    while i < |input|
      invariant 0 <= i <= |input| && dst + |Escape(input[i..])| == out.Length - 1
      invariant out[..dst] + Escape(input[i..]) == Escape(input)
    {
      EscapeStep(input, i);
      ghost var done := out[..dst];
      if Special(input[i]) {
        out[dst] := '\\';
        dst := dst + 1;
      }
      out[dst] := input[i];
      dst := dst + 1;
      assert out[..dst] == done + if Special(input[i]) then ['\\', input[i]] else [input[i]];
      i := i + 1;
    }
    assert input[i..] == "";
    out[dst] := '\0';
  }

  lemma EscapeEmpty()
    ensures Escape("") == ""
  {
  }

  lemma EscapeStep(input: string, i: nat)
    requires i < |input|
    ensures Escape(input[i..])
         == (if Special(input[i]) then ['\\', input[i]] else [input[i]]) + Escape(input[i + 1..])
  {
    assert input[i..][1..] == input[i + 1..];
  }

  /** json_get_string */
  method JsonGetString(json: string, key: string) returns (r: Option<string>)
    requires '\0' !in json
    ensures r == GetString(json, key)
  {
    hide Quoted, StringAt;
    var needle := Quoted(key);
    if |needle| >= NEEDLE_SIZE {
      return None;
    }
    var pos := Find(json, needle);
    if pos.None? {
      return None;
    }
    var after := json[pos.value + |needle|..];
    var colon := IndexOf(after, ':');
    if colon.None? {
      return None;
    }
    r := ReadString(after[colon.value + 1..]);
  }

  /** The loops of json_get_string after the colon. */
  method ReadString(s: string) returns (r: Option<string>)
    ensures r == StringAt(s)
  {
    var start := 0;
    assert s[0..] == s;
    while start < |s| && IsSpace(s[start])
      invariant 0 <= start <= |s| && start + SkipSpaces(s[start..]) == SkipSpaces(s)
    {
      assert s[start..][1..] == s[start + 1..];
      start := start + 1;
    }
    if start == |s| || s[start] != '"' {
      return None;
    }
    var rest := s[start + 1..];
    var len := 0;
    assert rest[0..] == rest;
    while len < |rest| && rest[len] != '"'
      invariant 0 <= len <= |rest| && len + StringEnd(rest[len..]) == StringEnd(rest)
    {
      if rest[len] == '\\' && len + 1 < |rest| {
        assert rest[len..][2..] == rest[len + 2..];
        len := len + 2;
      } else {
        assert rest[len..][1..] == rest[len + 1..];
        len := len + 1;
      }
    }
    if len == |rest| {
      return None;
    }
    return Some(rest[..len]);
  }

  // ----- What json_get_string finds -----

  /** The inside of a JSON string: characters other than quote and backslash, and backslashes with what they escape. */
  predicate Inside(v: string) {
    || v == ""
    || (v[0] != '"' && v[0] != '\\' && Inside(v[1..]))
    || (v[0] == '\\' && |v| >= 2 && Inside(v[2..]))
  }

  lemma {:induction false} EndIff(v: string, rest: string)
    ensures StringEnd(v + "\"" + rest) == |v| <==> Inside(v)
  {
    var s := v + "\"" + rest;
    if v == "" {
      assert s[0] == '"';
    } else if v[0] == '\\' {
      if |v| >= 2 {
        assert s[2..] == v[2..] + "\"" + rest;
        EndIff(v[2..], rest);
      }
    } else {
      assert s[1..] == v[1..] + "\"" + rest;
      EndIff(v[1..], rest);
    }
  }

  /** After the colon: white space, a quote, the string, a quote. */
  ghost predicate StartsWithString(s: string, v: string) {
    exists blanks, rest :: AllSpaces(blanks) && s == blanks + ("\"" + v + "\"" + rest) && Inside(v)
  }

  lemma StringAtIff(s: string, v: string)
    ensures StringAt(s) == Some(v) <==> StartsWithString(s, v)
  {
    hide SkipSpaces, StringEnd, Inside;
    SpacesSkipped(s);
    if StringAt(s) == Some(v) {
      var start := SkipSpaces(s);
      var after := s[start + 1..];
      var rest := after[|v| + 1..];
      assert after == v + "\"" + rest;
      EndIff(v, rest);
      assert s == s[..start] + ("\"" + v + "\"" + rest);
    }
    forall blanks, rest | AllSpaces(blanks) && s == blanks + ("\"" + v + "\"" + rest) && Inside(v)
      ensures StringAt(s) == Some(v)
    {
      StringTaken(blanks, v, rest);
    }
  }

  lemma StringTaken(blanks: string, v: string, rest: string)
    requires AllSpaces(blanks) && Inside(v)
    ensures StringAt(blanks + ("\"" + v + "\"" + rest)) == Some(v)
  {
    hide SkipSpaces, StringEnd, Inside;
    var quoted := "\"" + v + "\"" + rest;
    var s := blanks + quoted;
    SkipsExactly(blanks, quoted);
    EndIff(v, rest);
    assert s[|blanks| + 1..] == v + "\"" + rest;
    assert (v + "\"" + rest)[..|v|] == v;
  }

  /** The first occurrence of the key in quotes, and the first colon after it. */
  predicate KeyAt(json: string, key: string, before: string, between: string, after: string) {
    && json == before + ("\"" + key + "\"") + (between + ":" + after) && ':' !in between
    && Find(json, "\"" + key + "\"") == Some(|before|)
  }

  ghost predicate HasString(json: string, key: string, v: string) {
    exists before, between, after :: KeyAt(json, key, before, between, after) && StartsWithString(after, v)
  }

  /** A value is found exactly in such a text, for a key short enough for its buffer. */
  lemma GetStringIff(json: string, key: string, v: string)
    ensures GetString(json, key) == Some(v) <==> |key| < 126 && HasString(json, key, v)
  {
    hide GetString, KeyAt, StartsWithString;
    if GetString(json, key) == Some(v) {
      var before, between, after := FoundParts(json, key, v);
    }
    forall before, between, after | |key| < 126 && KeyAt(json, key, before, between, after) && StartsWithString(after, v)
      ensures GetString(json, key) == Some(v)
    {
      PartsFound(json, key, before, between, after);
      StringAtIff(after, v);
    }
  }

  lemma FoundParts(json: string, key: string, v: string) returns (before: string, between: string, after: string)
    requires GetString(json, key) == Some(v)
    ensures |key| < 126 && KeyAt(json, key, before, between, after) && StartsWithString(after, v)
  {
    hide StringAt, StartsWithString, Find, IndexOf;
    var needle := Quoted(key);
    var pos := Find(json, needle).value;
    NeedleAt(json, needle, pos);
    var s := json[pos + |needle|..];
    var colon := IndexOf(s, ':').value;
    before, between, after := json[..pos], s[..colon], s[colon + 1..];
    StringAtIff(after, v);
    assert s == between + ":" + after;
  }

  lemma PartsFound(json: string, key: string, before: string, between: string, after: string)
    requires KeyAt(json, key, before, between, after) && |key| < 126
    ensures GetString(json, key) == StringAt(after)
  {
    hide StringAt, Find, IndexOf;
    var needle := Quoted(key);
    var s := between + ":" + after;
    assert json[|before| + |needle|..] == s;
    assert s[..|between|] == between;
    IndexOfIs(s, ':', |between|);
    assert s[|between| + 1..] == after;
  }

  lemma NeedleAt(json: string, needle: string, pos: nat)
    requires Find(json, needle) == Some(pos)
    ensures pos + |needle| <= |json| && json == json[..pos] + needle + json[pos + |needle|..]
  {
    assert At(json, needle, pos);
  }

  // ----- Reading the body back -----

  lemma {:induction false} UnescapeEscape(s: string)
    ensures Unescape(Escape(s)) == s
  {
    if s != "" {
      UnescapeEscape(s[1..]);
      if Special(s[0]) {
        assert Escape(s)[2..] == Escape(s[1..]);
      } else {
        assert Escape(s)[1..] == Escape(s[1..]);
      }
    }
  }

  /** The scan runs over everything escaped and stops at the quote after it. */
  lemma {:induction false} ScanEscaped(s: string, rest: string)
    ensures StringEnd(Escape(s) + "\"" + rest) == |Escape(s)|
  {
    if s != "" {
      ScanEscaped(s[1..], rest);
      var text := Escape(s) + "\"" + rest;
      if Special(s[0]) {
        assert text[2..] == Escape(s[1..]) + "\"" + rest;
      } else {
        assert text[1..] == Escape(s[1..]) + "\"" + rest;
      }
    }
  }

  /** In escaped text every quote comes right after a backslash. */
  lemma {:induction false} QuotesEscaped(s: string)
    ensures forall j | 0 <= j < |Escape(s)| && Escape(s)[j] == '"' :: j > 0 && Escape(s)[j - 1] == '\\'
  {
    if s != "" {
      QuotesEscaped(s[1..]);
    }
  }

  /** Escaping adds one character for every quote and every backslash, and none for anything else. */
  lemma {:induction false} EscapeLength(s: string)
    ensures |Escape(s)| == |s| + multiset(s)['"'] + multiset(s)['\\']
  {
    if s != "" {
      EscapeLength(s[1..]);
      assert s == [s[0]] + s[1..];
    }
  }

  lemma {:induction false} NothingToEscape(s: string)
    requires forall i | 0 <= i < |s| :: s[i] != '"' && s[i] != '\\'
    ensures Escape(s) == s
  {
    if s != "" {
      NothingToEscape(s[1..]);
    }
  }

  lemma StringHere(s: string, rest: string)
    ensures StringAt("\"" + Escape(s) + "\"" + rest) == Some(Escape(s))
  {
    var text := "\"" + Escape(s) + "\"" + rest;
    ScanEscaped(s, rest);
    assert !IsSpace(text[0]);
    var inner := text[1..];
    assert inner == Escape(s) + "\"" + rest && inner[..|Escape(s)|] == Escape(s);
  }

  /** After a colon, a quoted string and what follows it. */
  lemma ColonThenString(before: string, s: string, rest: string)
    requires ':' !in before
    ensures StringAfterColon(before + ":" + Quoted(Escape(s)) + rest) == Some(Escape(s))
  {
    hide StringAt;
    var text := before + ":" + Quoted(Escape(s)) + rest;
    assert text[..|before|] == before && text[|before|] == ':';
    IndexOfIs(text, ':', |before|);
    assert text[|before| + 1..] == "\"" + Escape(s) + "\"" + rest;
    StringHere(s, rest);
  }

  /** An occurrence of p after a text of known length, nothing before it being one. */
  lemma FirstAfter(a: string, p: string, b: string)
    requires p != "" && forall i: nat | i < |a| :: !At(a + p + b, p, i)
    ensures Find(a + p + b, p) == Some(|a|) && (a + p + b)[|a| + |p|..] == b
  {
    assert (a + p + b)[|a|..|a| + |p|] == p;
    FindIs(a + p + b, p, |a|);
  }

  lemma KeyIdIn(keyId: string, message: string, tail: string)
    ensures GetString(BodyWith(Escape(keyId), message, tail), "KeyId") == Some(Escape(keyId))
  {
    hide Escape, StringAfterColon, At;
    var needle := Quoted("KeyId");
    var rest := "," + Quoted("Message") + ":" + Quoted(message) + tail;
    var after := "" + ":" + Quoted(Escape(keyId)) + rest;
    var body := BodyWith(Escape(keyId), message, tail);
    hide Quoted;
    assert body == "{" + needle + after;
    QuotedForm("KeyId");
    NotAt(body, needle, 0);
    FirstAfter("{", needle, after);
    ColonThenString("", keyId, rest);
  }

  lemma QuotedForm(s: string)
    ensures |Quoted(s)| == |s| + 2 && Quoted(s)[0] == '"' && Quoted(s)[|s| + 1] == '"'
    ensures forall i | 0 <= i < |s| :: Quoted(s)[i + 1] == s[i]
  {
  }

  lemma NotAt(s: string, p: string, i: nat)
    requires p != "" && i < |s| && s[i] != p[0]
    ensures !At(s, p, i)
  {
    if i + |p| <= |s| {
      assert s[i..i + |p|][0] == s[i];
    }
  }

  /** "KeyId" gives the escaped key id, which unescapes to the key id. */
  lemma {:induction false} KeyIdReadsBack(keyId: string, digest: seq<Byte>)
    ensures GetString(BodyText(keyId, digest), "KeyId") == Some(Escape(keyId))
    ensures Unescape(Escape(keyId)) == keyId
  {
    hide BodyWith, GetString, Escape, Encode;
    UnescapeEscape(keyId);
    KeyIdIn(keyId, Encode(digest), BodyTail());
  }

  // ----- The body as a JSON object -----

  /** A string in quotes at the start of s: what is between the quotes, still escaped, and what follows. */
  function ReadQuoted(s: string): (r: Option<(string, string)>)
    ensures r.Some? ==> |r.value.1| < |s|
  {
    if s == "" || s[0] != '"' then None
    else
      var rest := s[1..];
      var len := StringEnd(rest);
      if len == |rest| then None else Some((rest[..len], rest[len + 1..]))
  }

  /** The members of an object whose values are strings, from the first name to the closing brace (RFC 8259). */
  function ReadMembers(s: string): Option<seq<(string, string)>>
    decreases |s|
  {
    match ReadQuoted(s)
    case None => None
    case Some((name, colon)) =>
      if colon == "" || colon[0] != ':' then None
      else
        match ReadQuoted(colon[1..])
        case None => None
        case Some((value, after)) =>
          if after == "}" then Some([(name, value)])
          else if after == "" || after[0] != ',' then None
          else
            match ReadMembers(after[1..])
            case None => None
            case Some(more) => Some([(name, value)] + more)
  }

  function ReadObject(s: string): Option<seq<(string, string)>> {
    if s == "" || s[0] != '{' then None else ReadMembers(s[1..])
  }

  lemma QuotedReads(s: string, after: string)
    ensures ReadQuoted(Quoted(Escape(s)) + after) == Some((Escape(s), after))
  {
    var text := Quoted(Escape(s)) + after;
    assert text[1..] == Escape(s) + "\"" + after;
    ScanEscaped(s, after);
    assert text[1..][..|Escape(s)|] == Escape(s) && text[1..][|Escape(s)| + 1..] == after;
  }

  lemma LastMember(name: string, value: string)
    requires Escape(name) == name
    ensures ReadMembers(Member(name, Escape(value)) + "}") == Some([(name, Escape(value))])
  {
    MemberParts(name, value, "}");
    hide ReadQuoted, Quoted, Escape, Member;
    var s := Member(name, Escape(value)) + "}";
    assert ReadQuoted(s) == Some((name, ":" + Quoted(Escape(value)) + "}"));
  }

  lemma MembersUnfold(s: string, name: string, colon: string, value: string, after: string)
    requires ReadQuoted(s) == Some((name, colon)) && colon != "" && colon[0] == ':'
    requires ReadQuoted(colon[1..]) == Some((value, after)) && after != "" && after[0] == ','
    requires ReadMembers(after[1..]).Some?
    ensures ReadMembers(s) == Some([(name, value)] + ReadMembers(after[1..]).value)
  {
    hide ReadQuoted;
  }

  lemma OneMember(name: string, value: string, rest: string)
    requires Escape(name) == name && ReadMembers(rest).Some?
    ensures ReadMembers(Member(name, Escape(value)) + ("," + rest))
         == Some([(name, Escape(value))] + ReadMembers(rest).value)
  {
    hide ReadQuoted, Quoted, Escape, Member, ReadMembers;
    var after := "," + rest;
    assert after[1..] == rest && after[0] == ',';
    MemberParts(name, value, after);
    MembersUnfold(Member(name, Escape(value)) + after, name, ":" + Quoted(Escape(value)) + after, Escape(value), after);
  }

  lemma MemberParts(name: string, value: string, after: string)
    requires Escape(name) == name
    ensures var colon := ":" + Quoted(Escape(value)) + after;
            && ReadQuoted(Member(name, Escape(value)) + after) == Some((name, colon))
            && colon[0] == ':' && ReadQuoted(colon[1..]) == Some((Escape(value), after))
  {
    hide ReadQuoted, Quoted, Escape;
    QuotedReads(name, ":" + Quoted(Escape(value)) + after);
    QuotedReads(value, after);
    Colons(Quoted(name), Quoted(Escape(value)), after);
  }

  lemma Colons(a: string, b: string, c: string)
    ensures a + ":" + b + c == a + (":" + b + c)
    ensures (":" + b + c)[0] == ':' && (":" + b + c)[1..] == b + c
  {
  }

  lemma TailReads()
    ensures var rest := BodyTail()[1..];
            BodyTail() == "," + rest
            && ReadMembers(rest) == Some([("MessageType", "DIGEST"), ("SigningAlgorithm", "ECDSA_SHA_256")])
  {
    PlainNames();
    hide ReadMembers, Member, Escape;
    LastMember("SigningAlgorithm", "ECDSA_SHA_256");
    var last := Member("SigningAlgorithm", "ECDSA_SHA_256") + "}";
    OneMember("MessageType", "DIGEST", last);
    Four(("", ""), ("", ""), ("MessageType", "DIGEST"), ("SigningAlgorithm", "ECDSA_SHA_256"));
    var rest := Member("MessageType", "DIGEST") + ("," + last);
    assert ("," + rest)[1..] == rest;
    assert BodyTail() == "," + rest;
  }

  lemma Four<T>(a: T, b: T, c: T, d: T)
    ensures [a] + ([b] + [c, d]) == [a, b, c, d] && [c] + [d] == [c, d]
  {
  }

  /** A reader of JSON objects finds exactly these four members, for every key id. */
  lemma {:induction false} BodyIsObject(keyId: string, digest: seq<Byte>)
    ensures ReadObject(BodyText(keyId, digest))
         == Some([("KeyId", Escape(keyId)), ("Message", Encode(digest)),
                  ("MessageType", "DIGEST"), ("SigningAlgorithm", "ECDSA_SHA_256")])
  {
    Padded(digest);
    NothingToEscape(Encode(digest));
    PlainNames();
    TailReads();
    hide Escape, Encode, ReadMembers, Padding, BodyTail, Member;
    var tail := BodyTail()[1..];
    var second := Member("Message", Encode(digest)) + ("," + tail);
    OneMember("Message", Encode(digest), tail);
    OneMember("KeyId", keyId, second);
    Four(("KeyId", Escape(keyId)), ("Message", Encode(digest)), ("MessageType", "DIGEST"),
         ("SigningAlgorithm", "ECDSA_SHA_256"));
    BodyMembers(Escape(keyId), Encode(digest), "," + tail);
    ObjectOpens(Member("KeyId", Escape(keyId)) + ("," + second));
  }

  lemma ObjectOpens(members: string)
    ensures ReadObject("{" + members) == ReadMembers(members)
  {
    hide ReadMembers;
    assert ("{" + members)[1..] == members;
  }

  lemma PlainNames()
    ensures Escape("KeyId") == "KeyId" && Escape("Message") == "Message" && Escape("MessageType") == "MessageType"
    ensures Escape("SigningAlgorithm") == "SigningAlgorithm"
    ensures Escape("DIGEST") == "DIGEST" && Escape("ECDSA_SHA_256") == "ECDSA_SHA_256"
  {
    hide Escape;
    NothingToEscape("KeyId");
    NothingToEscape("Message");
    NothingToEscape("MessageType");
    NothingToEscape("SigningAlgorithm");
    NothingToEscape("DIGEST");
    NothingToEscape("ECDSA_SHA_256");
  }

  lemma BodyMembers(keyId: string, message: string, tail: string)
    ensures BodyWith(keyId, message, tail)
         == "{" + (Member("KeyId", keyId) + ("," + (Member("Message", message) + tail)))
  {
    hide Quoted;
  }

  /** Up to the end of the key id, a body. */
  function Opening(keyId: string): string {
    "{" + Quoted("KeyId") + ":\"" + keyId
  }

  /** From the quote after the key id to the colon before the message. */
  function Middle(): string {
    "\"," + Quoted("Message")
  }

  /** Where the text "Message" in quotes can first occur in a body: at the key itself, or ending with the key id. */
  lemma MessageFirst(keyId: string, after: string, i: nat)
    requires At(Opening(Escape(keyId)) + Middle() + after, Quoted("Message"), i)
    ensures i >= |Opening(Escape(keyId))| + 2 || i + 8 == |Opening(Escape(keyId))|
  {
    QuotesEscaped(keyId);
    var e, q, m := Escape(keyId), |Opening(Escape(keyId))|, i + 8;
    var body := Opening(e) + Middle() + after;
    BodyChars(e, after);
    MessageNeedle();
    CharAt(body, Quoted("Message"), i, 8);
    CharAt(body, Quoted("Message"), i, 7);
    hide Escape, Opening, Middle, Quoted;
    assert body[m] == '"' && body[m - 1] == 'e';
  }

  lemma CharAt(s: string, p: string, i: nat, j: nat)
    requires At(s, p, i) && j < |p|
    ensures s[i + j] == p[j]
  {
    assert s[i..i + |p|][j] == s[i + j];
  }

  /** The characters around the key id. */
  lemma BodyChars(e: string, after: string)
    ensures var body, q := Opening(e) + Middle() + after, |Opening(e)|;
            && q == 10 + |e| && |body| == q + 11 + |after| && body[8] == ':'
            && (forall m | 10 <= m < q :: body[m] == e[m - 10])
            && body[q + 1] == ','
            && (forall m | q + 3 <= m < q + 10 :: body[m] != '"')
  {
    assert Opening(e) == "{\"KeyId\":\"" + e && Middle() == "\",\"Message\"";
    var body, q := Opening(e) + Middle() + after, |Opening(e)|;
    forall m | q + 3 <= m < q + 10
      ensures body[m] != '"'
    {
      assert body[m] == Middle()[m - q];
    }
    assert body[q + 1] == Middle()[1];
  }

  lemma MessageIn(keyId: string, message: string, tail: string)
    requires Escape(message) == message
    ensures GetString(BodyWith(Escape(keyId), message, tail), "Message") == Some(message)
  {
    hide Escape, StringAfterColon, At;
    var needle := Quoted("Message");
    var after := ":" + Quoted(message) + tail;
    var body := BodyWith(Escape(keyId), message, tail);
    var open := Opening(Escape(keyId));
    BodySplit(Escape(keyId), message, tail);
    Tails(open, needle, after);
    MessageNeedle();
    hide BodyWith, Opening, Quoted;
    var pos := Find(body, needle).value;
    if pos < |open| + 2 {
      MessageFirst(keyId, after, pos);
      ColonThenString("," + needle, message, tail);
      assert "," + needle + ":" + Quoted(message) + tail == "," + needle + after;
    } else {
      ColonThenString("", message, tail);
      assert "" + ":" + Quoted(message) + tail == after;
    }
  }

  lemma BodySplit(keyId: string, message: string, tail: string)
    ensures BodyWith(keyId, message, tail) == Opening(keyId) + Middle() + (":" + Quoted(message) + tail)
  {
  }

  lemma MessageNeedle()
    ensures |Quoted("Message")| == 9 && ':' !in "," + Quoted("Message")
    ensures Quoted("Message")[8] == '"' && Quoted("Message")[7] == 'e'
  {
    assert "," + Quoted("Message") == ",\"Message\"";
  }

  lemma Tails(open: string, needle: string, after: string)
    ensures var s := open + ("\"," + needle) + after;
            && At(s, needle, |open| + 2)
            && s[|open| + 2 + |needle|..] == after && s[|open| + 1..] == "," + needle + after
  {
    var s := open + ("\"," + needle) + after;
    assert s[|open| + 2..|open| + 2 + |needle|] == needle;
  }

  /**
   * "Message" gives the base64 of the digest whatever the key id is, even one that holds quotes, backslashes or the
   * text Message, and it decodes to the digest.
   */
  lemma MessageReadsBack(keyId: string, digest: seq<Byte>)
    ensures GetString(BodyText(keyId, digest), "Message") == Some(Encode(digest))
    ensures digest != [] ==> Decode(Encode(digest)) == Some(digest)
  {
    RoundTrip(digest);
    Padded(digest);
    NothingToEscape(Encode(digest));
    hide BodyWith, GetString, Escape, Encode, Decode, Padding;
    MessageIn(keyId, Encode(digest), BodyTail());
  }
}
