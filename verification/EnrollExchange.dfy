/** The client's request read by the server, and the server's reply read by the client. */
module EnrollExchange {
  import opened Text
  import opened Numbers
  import opened Trimming
  import opened Http
  import opened HttpServer
  import opened EnrollClient

  const MAX_DEVICE_ID_LEN := 128

  predicate IsIdChar(c: char) {
    '0' <= c <= '9' || 'A' <= c <= 'Z' || 'a' <= c <= 'z' || c == '-' || c == '_' || c == '.' || c == ':'
  }

  predicate ValidDeviceId(id: string) {
    0 < |id| <= MAX_DEVICE_ID_LEN && forall c | c in id :: IsIdChar(c)
  }

  /** valid_device_id (enrollment.c) */
  method CheckDeviceId(id: string) returns (valid: bool)
    ensures valid == ValidDeviceId(id)
    ensures valid <==>
              1 <= |id| <= 128
              && forall i | 0 <= i < |id| ::
                   || 48 <= id[i] as int <= 57 || 65 <= id[i] as int <= 90 || 97 <= id[i] as int <= 122  // isalnum
                   || id[i] == '-' || id[i] == '_' || id[i] == '.' || id[i] == ':'
  {
    if |id| == 0 || |id| > MAX_DEVICE_ID_LEN {
      return false;
    }
    for i := 0 to |id|
      invariant forall c | c in id[..i] :: IsIdChar(c)
    {
      if !IsIdChar(id[i]) {
        return false;
      }
      assert id[..i + 1] == id[..i] + [id[i]];
    }
    assert id[..|id|] == id;
    assert forall i | 0 <= i < |id| :: id[i] in id;
    return true;
  }

  // ----- Header values -----

  lemma LookupSkip(lines: seq<string>, name: string)
    requires lines != [] && !NameMatches(lines[0], name)
    ensures Lookup(lines, name) == Lookup(lines[1..], name)
  {
  }

  /** The first line that carries the header decides. */
  lemma LookupHit(lines: seq<string>, name: string, value: string)
    requires lines != [] && Carries(lines[0], name, value)
    ensures Lookup(lines, name) == Some(value)
  {
    CarriesIff(lines[0], name, value);
  }

  lemma PrintedCarries(n: string, name: string, value: string)
    requires AnyCase(n, name) && Trimmed(value, Ows)
    ensures Carries(n + ": " + value, name, value)
  {
    hide AnyCase, Trimmed;
    assert n + ": " + value == n + ":" + (" " + value);
    assert AllOf(" ", Ows) && AllOf("", Ows) && " " + value == " " + value + "";
    assert Wraps(" " + value, value, Ows);
  }

  lemma DeviceIdLine(value: string)
    requires Trimmed(value, Ows)
    ensures Carries("X-Device-Id: " + value, "X-Device-Id", value)
  {
    hide Carries, AnyCase;
    SameCase("X-Device-Id");
    PrintedCarries("X-Device-Id", "X-Device-Id", value);
    assert "X-Device-Id" + ": " + value == "X-Device-Id: " + value;
  }

  lemma LengthLine(value: string)
    requires Trimmed(value, Ows)
    ensures Carries("Content-Length: " + value, "Content-Length", value)
  {
    hide Carries, AnyCase;
    SameCase("Content-Length");
    PrintedCarries("Content-Length", "Content-Length", value);
    assert "Content-Length" + ": " + value == "Content-Length: " + value;
  }

  /** Two names that differ at one letter, whatever its case, do not match. */
  lemma Mismatch(line: string, name: string, i: nat)
    requires i < |name| && (i < |line| ==> LowerChar(line[i]) != LowerChar(name[i]))
    ensures !NameMatches(line, name)
  {
    if |line| > |name| {
      assert line[..|name|][i] == line[i];
    }
  }

  lemma RequestHeaders(serverIp: string, deviceId: string, csrLen: nat)
    requires ValidDeviceId(deviceId) && csrLen <= 65536
    ensures var lines := RequestLines(serverIp, deviceId, csrLen);
            && Lookup(lines, "X-Device-Id") == Some(deviceId)
            && Lookup(lines, "Content-Length") == Some(Dec(csrLen))
            && ParseLength(Dec(csrLen)) == Some(csrLen)
  {
    hide Lookup, NameMatches, StrToUL, Carries;
    var lines := RequestLines(serverIp, deviceId, csrLen);
    Mismatch(lines[0], "X-Device-Id", 0);
    Mismatch(lines[1], "X-Device-Id", 0);
    Mismatch(lines[2], "X-Device-Id", 0);
    LookupSkip(lines, "X-Device-Id");
    LookupSkip(lines[1..], "X-Device-Id");
    LookupSkip(lines[2..], "X-Device-Id");
    assert IsIdChar(deviceId[0]) && IsIdChar(deviceId[|deviceId| - 1]);
    DeviceIdLine(deviceId);
    LookupHit(lines[3..], "X-Device-Id", deviceId);
    Mismatch(lines[0], "Content-Length", 0);
    Mismatch(lines[1], "Content-Length", 0);
    Mismatch(lines[2], "Content-Length", 8);
    Mismatch(lines[3], "Content-Length", 0);
    LookupSkip(lines, "Content-Length");
    LookupSkip(lines[1..], "Content-Length");
    LookupSkip(lines[2..], "Content-Length");
    LookupSkip(lines[3..], "Content-Length");
    var n := Dec(csrLen);
    assert IsDigit(n[0]) && IsDigit(n[|n| - 1]);
    LengthLine(n);
    LookupHit(lines[4..], "Content-Length", n);
    PrintParse(csrLen);
  }

  /** The other headers of a request. */
  lemma OtherHeaders(serverIp: string, deviceId: string, csrLen: nat)
    ensures var lines := RequestLines(serverIp, deviceId, csrLen);
            && lines[0] == "POST /enroll HTTP/1.1"
            && (Trimmed(serverIp, Ows) ==> Carries(lines[1], "Host", serverIp))
            && Carries(lines[2], "Content-Type", "application/x-pem-file")
            && Carries(lines[5], "Connection", "close")
  {
    hide Carries, AnyCase, Trimmed;
    if Trimmed(serverIp, Ows) {
      HostLine(serverIp);
    }
    PemTypeLine();
    ConnectionLine();
  }

  lemma PemTypeLine()
    ensures Carries("Content-Type: application/x-pem-file", "Content-Type", "application/x-pem-file")
  {
    hide Carries;
    TypeLine("application/x-pem-file");
    assert "Content-Type: " + "application/x-pem-file" == "Content-Type: application/x-pem-file";
  }

  lemma HostLine(value: string)
    requires Trimmed(value, Ows)
    ensures Carries("Host: " + value, "Host", value)
  {
    hide Carries, AnyCase, Trimmed;
    SameCase("Host");
    PrintedCarries("Host", "Host", value);
    assert "Host" + ": " + value == "Host: " + value;
  }

  lemma TypeLine(value: string)
    requires Trimmed(value, Ows)
    ensures Carries("Content-Type: " + value, "Content-Type", value)
  {
    hide Carries, AnyCase, Trimmed;
    SameCase("Content-Type");
    PrintedCarries("Content-Type", "Content-Type", value);
    assert "Content-Type" + ": " + value == "Content-Type: " + value;
  }

  lemma ConnectionLine()
    ensures Carries("Connection: close", "Connection", "close")
  {
    hide Carries, AnyCase;
    SameCase("Connection");
    PrintedCarries("Connection", "Connection", "close");
    assert "Connection" + ": " + "close" == "Connection: close";
  }

  // ----- The request -----

  /** A text that can stand in a header line. */
  predicate Clean(s: string) {
    Unbroken(s) && '\0' !in s
  }

  /** A header line so far, to which a clean text can be appended. */
  predicate Opens(name: string) {
    Plain(name) && name[|name| - 1] != '\r'
  }

  lemma PlainPair(name: string, value: string)
    requires Opens(name) && Clean(value)
    ensures Plain(name + value)
  {
    hide Unbroken;
    UnbrokenPair(name, value);
  }

  lemma CleanDec(n: nat)
    ensures Clean(Dec(n))
  {
    hide Unbroken;
    assert forall c | c in Dec(n) :: IsDigit(c);
    NoBreak(Dec(n));
  }

  lemma CleanId(id: string)
    requires ValidDeviceId(id)
    ensures Clean(id)
  {
    hide Unbroken;
    assert forall c | c in id :: IsIdChar(c);
    NoBreak(id);
  }

  lemma HostPlain(value: string)
    requires Clean(value)
    ensures Plain("Host: " + value)
  {
    hide Plain, Clean, Opens;
    PlainText("Host: ");
    PlainPair("Host: ", value);
  }

  lemma DeviceIdPlain(value: string)
    requires Clean(value)
    ensures Plain("X-Device-Id: " + value)
  {
    hide Plain, Clean, Opens;
    PlainText("X-Device-Id: ");
    PlainPair("X-Device-Id: ", value);
  }

  lemma LengthPlain(value: string)
    requires Clean(value)
    ensures Plain("Content-Length: " + value)
  {
    hide Plain, Clean, Opens;
    PlainText("Content-Length: ");
    PlainPair("Content-Length: ", value);
  }

  lemma TypePlain(value: string)
    requires Clean(value)
    ensures Plain("Content-Type: " + value)
  {
    hide Plain, Clean, Opens;
    PlainText("Content-Type: ");
    PlainPair("Content-Type: ", value);
  }

  lemma RequestPlain(serverIp: string, deviceId: string, csrLen: nat)
    requires ValidDeviceId(deviceId) && Clean(serverIp)
    ensures forall l | l in RequestLines(serverIp, deviceId, csrLen) :: Plain(l)
  {
    CleanId(deviceId);
    CleanDec(csrLen);
    hide ValidDeviceId, Dec, Plain, Clean, RequestLines;
    FixedRequestLines(serverIp, deviceId, csrLen);
    GivenRequestLines(serverIp, deviceId, csrLen);
  }

  lemma FixedRequestLines(serverIp: string, deviceId: string, csrLen: nat)
    ensures var lines := RequestLines(serverIp, deviceId, csrLen);
            Plain(lines[0]) && Plain(lines[2]) && Plain(lines[5])
  {
    hide Dec, Plain;
    FixedLines();
  }

  lemma GivenRequestLines(serverIp: string, deviceId: string, csrLen: nat)
    requires Clean(serverIp) && Clean(deviceId) && Clean(Dec(csrLen))
    ensures var lines := RequestLines(serverIp, deviceId, csrLen);
            Plain(lines[1]) && Plain(lines[3]) && Plain(lines[4])
  {
    hide Dec, Plain, Clean;
    HostPlain(serverIp);
    DeviceIdPlain(deviceId);
    LengthPlain(Dec(csrLen));
  }

  lemma FixedLines()
    ensures Plain("POST /enroll HTTP/1.1") && Plain("Content-Type: application/x-pem-file") && Plain("Connection: close")
  {
    hide Plain, Clean, Opens;
    PlainText("POST /enroll HTTP/1.1");
    PlainText("Content-Type: application/x-pem-file");
    PlainText("Connection: close");
  }

  lemma PlainText(s: string)
    requires s != "" && forall i | 0 <= i < |s| :: s[i] != '\r' && s[i] != '\0'
    ensures Plain(s) && Clean(s) && Opens(s)
  {
    hide Unbroken;
    NoBreak(s);
  }

  function Total(lines: seq<string>): nat {
    if lines == [] then 0 else |lines[0]| + Total(lines[1..])
  }

  lemma {:induction false} JoinLength(lines: seq<string>)
    requires lines != []
    ensures |Join(lines)| == Total(lines) + 2 * (|lines| - 1)
  {
    if |lines| > 1 {
      JoinLength(lines[1..]);
    }
  }

  /** The printed request leaves room to spare in the client's buffer and in the server's. */
  lemma RequestFits(serverIp: string, deviceId: string, csr: string)
    requires |serverIp| < 64 && ValidDeviceId(deviceId) && |csr| < 8192
    ensures |RequestText(serverIp, deviceId, csr)| < 16384
  {
    var lines := RequestLines(serverIp, deviceId, |csr|);
    JoinLength(lines);
    DecLength(|csr|, 4, 10000);
    assert Total(lines) == |lines[0]| + Total(lines[1..]) && Total(lines[1..]) == |lines[1]| + Total(lines[2..]);
    assert Total(lines[2..]) == |lines[2]| + Total(lines[3..]) && Total(lines[3..]) == |lines[3]| + Total(lines[4..]);
    assert Total(lines[4..]) == |lines[4]| + Total(lines[5..]) && Total(lines[5..]) == |lines[5]| + Total(lines[6..]);
  }

  /** A text made of printed lines and a NUL-free body is read as those lines and that body. */
  lemma ReadPrinted(lines: seq<string>, body: string)
    requires lines != [] && (forall l | l in lines :: Plain(l)) && '\0' !in body
    ensures var text := Join(lines) + CRLF2 + body;
            var h := |Join(lines)|;
            && CStr(text) == text && Find(text, CRLF2) == Some(h)
            && text[..h] == Join(lines) && text[h + 4..] == body && SplitLines(Join(lines)) == lines
  {
    var text := Join(lines) + CRLF2 + body;
    JoinNoNul(lines);
    CStrIs(text, text);
    HeaderEnd(lines, body);
    SplitJoin(lines);
  }

  /** The server sees a POST to /enroll. */
  lemma RequestIsPost(serverIp: string, deviceId: string, csr: string)
    requires ValidDeviceId(deviceId) && Clean(serverIp)
    ensures IsEnrollPost(RequestText(serverIp, deviceId, csr))
  {
    hide At;
    var lines := RequestLines(serverIp, deviceId, |csr|);
    var text := RequestText(serverIp, deviceId, csr);
    RequestPlain(serverIp, deviceId, |csr|);
    assert Plain(lines[0]);
    var rest := Join(lines[1..]) + CRLF2 + csr;
    assert text == lines[0] + CRLF + rest;
    FirstLine(lines[0], rest);
    assert "POST /enroll " <= lines[0] <= text;
  }

  /**
   * Request round trip: for every valid device id, every NUL-free CSR that fits its buffer and every server address
   * without CR or NUL, the server finds the whole request complete, and asks for exactly that device id and CSR.
   */
  lemma RequestRoundTrip(serverIp: string, deviceId: string, csr: string)
    requires |serverIp| < 64 && Clean(serverIp)
    requires ValidDeviceId(deviceId) && |csr| < 8192 && '\0' !in csr
    ensures var text := RequestText(serverIp, deviceId, csr);
            && |text| < 16384 && OneShot(text) == Some(text)
            && Judge(Some(text)) == Ask(deviceId, csr)
  {
    hide Join, SplitLines, Lookup, ParseLength, IsEnrollPost, Dec;
    var lines := RequestLines(serverIp, deviceId, |csr|);
    RequestFits(serverIp, deviceId, csr);
    RequestPlain(serverIp, deviceId, |csr|);
    RequestHeaders(serverIp, deviceId, |csr|);
    RequestIsPost(serverIp, deviceId, csr);
    hide RequestLines;
    ReadPrinted(lines, csr);
    assert RequestText(serverIp, deviceId, csr) == Join(lines) + CRLF2 + csr;
    assert ContentLength(Join(lines)) == Some(|csr|);
    assert (Join(lines) + CRLF2 + csr)[..|Join(lines) + CRLF2 + csr|] == Join(lines) + CRLF2 + csr;
  }

  // ----- Other requests that are taken -----

  lemma PostStarts(line: string, rest: string)
    requires Unbroken(line) && "POST /enroll " <= line && |line| >= 21
    ensures IsEnrollPost(line + CRLF + rest)
  {
    hide At;
    FirstLine(line, rest);
    assert |"POST /enroll HTTP/1.1"| == 21;
  }

  lemma JoinFirst(lines: seq<string>, after: string) returns (rest: string)
    requires lines != []
    ensures Join(lines) + CRLF + after == lines[0] + CRLF + rest
  {
    rest := if |lines| == 1 then after else Join(lines[1..]) + CRLF + after;
    assert |lines| > 1 ==> Join(lines) + CRLF + after == lines[0] + CRLF + (Join(lines[1..]) + CRLF + after);
  }

  /**
   * Any request with an enrollment line and headers that carry a device id and the length of its body, in whatever
   * lines and spelling, is taken whole, and the issuer is asked for that id and body.
   */
  lemma AnyRequestTaken(lines: seq<string>, body: string, id: string, value: string)
    requires lines != [] && (forall l | l in lines :: Plain(l)) && '\0' !in body
    requires "POST /enroll " <= lines[0] && |lines[0]| >= 21
    requires FirstCarries(lines, "X-Device-Id", id) && |id| <= 128
    requires FirstCarries(lines, "Content-Length", value) && ParseLength(value) == Some(|body|)
    requires |Join(lines)| + 4 + |body| <= 65536
    ensures var text := Join(lines) + "\r\n\r\n" + body;
            OneShot(text) == Some(text) && Judge(Some(text)) == Ask(id, body)
  {
    hide Join, SplitLines, Lookup, ParseLength, IsEnrollPost, Find, CStr, FirstCarries;
    var text := Join(lines) + CRLF2 + body;
    assert Plain(lines[0]);
    LookupIff(lines, "X-Device-Id", id);
    LookupIff(lines, "Content-Length", value);
    hide Plain;
    var rest := JoinFirst(lines, CRLF + body);
    PostStarts(lines[0], rest);
    ReadPrinted(lines, body);
    assert text == Join(lines) + CRLF + (CRLF + body);
    assert ContentLength(Join(lines)) == Some(|body|);
    assert text[..|text|] == text;
  }

  function LenientLines(idName: string, lengthName: string, deviceId: string, value: string): seq<string> {
    ["POST /enroll HTTP/1.1", idName + ": " + deviceId, lengthName + ": " + value]
  }

  /** A request with header names in any case and any Content-Length. */
  function LenientText(idName: string, lengthName: string, deviceId: string, value: string, body: string): string {
    Join(LenientLines(idName, lengthName, deviceId, value)) + CRLF2 + body
  }

  lemma NameOpens(n: string, name: string)
    requires AnyCase(n, name) && name != "" && forall i | 0 <= i < |name| :: ' ' < name[i] < '\U{007F}'
    ensures Opens(n + ": ")
  {
    PlainText(n + ": ");
  }

  lemma LenientPlain(idName: string, lengthName: string, deviceId: string, value: string)
    requires AnyCase(idName, "X-Device-Id") && AnyCase(lengthName, "Content-Length")
    requires ValidDeviceId(deviceId) && Clean(value)
    ensures forall l | l in LenientLines(idName, lengthName, deviceId, value) :: Plain(l)
  {
    CleanId(deviceId);
    NameOpens(idName, "X-Device-Id");
    NameOpens(lengthName, "Content-Length");
    hide ValidDeviceId, Plain, Clean, Opens, AnyCase;
    FixedLines();
    PlainPair(idName + ": ", deviceId);
    PlainPair(lengthName + ": ", value);
  }

  lemma LenientHeaders(idName: string, lengthName: string, deviceId: string, value: string)
    requires AnyCase(idName, "X-Device-Id") && AnyCase(lengthName, "Content-Length")
    requires ValidDeviceId(deviceId) && Trimmed(value, Ows)
    ensures FirstCarries(LenientLines(idName, lengthName, deviceId, value), "X-Device-Id", deviceId)
    ensures FirstCarries(LenientLines(idName, lengthName, deviceId, value), "Content-Length", value)
  {
    var a, b, c := "POST /enroll HTTP/1.1", idName + ": " + deviceId, lengthName + ": " + value;
    assert CaseVariant(idName[0], 'X') && b[0] == idName[0];
    hide Lookup, NameMatches, Carries, ValidDeviceId, Trimmed, FirstCarries, AnyCase;
    IdTrimmed(deviceId);
    PrintedCarries(idName, "X-Device-Id", deviceId);
    PrintedCarries(lengthName, "Content-Length", value);
    Mismatch(a, "X-Device-Id", 0);
    Mismatch(a, "Content-Length", 0);
    Mismatch(b, "Content-Length", 0);
    SecondLookup(a, b, c, "X-Device-Id", deviceId);
    ThirdLookup(a, b, c, "Content-Length", value);
    LookupIff([a, b, c], "X-Device-Id", deviceId);
    LookupIff([a, b, c], "Content-Length", value);
  }

  lemma IdTrimmed(id: string)
    requires ValidDeviceId(id)
    ensures Trimmed(id, Ows)
  {
    assert IsIdChar(id[0]) && IsIdChar(id[|id| - 1]);
  }

  lemma SecondLookup(a: string, b: string, c: string, name: string, value: string)
    requires !NameMatches(a, name) && Carries(b, name, value)
    ensures Lookup([a, b, c], name) == Some(value)
  {
    hide Lookup, NameMatches, Carries;
    LookupSkip([a, b, c], name);
    LookupHit([b, c], name, value);
    assert [a, b, c][1..] == [b, c];
  }

  lemma ThirdLookup(a: string, b: string, c: string, name: string, value: string)
    requires !NameMatches(a, name) && !NameMatches(b, name) && Carries(c, name, value)
    ensures Lookup([a, b, c], name) == Some(value)
  {
    hide Lookup, NameMatches, Carries;
    LookupSkip([a, b, c], name);
    LookupSkip([b, c], name);
    LookupHit([c], name, value);
    assert [a, b, c][1..] == [b, c] && [b, c][1..] == [c];
  }

  /**
   * A request whose header names are spelled in any mixture of cases, with every Content-Length value that a header
   * line can carry and the length parser takes for the length of the body, is taken whole and asks for its device id
   * and body.
   */
  lemma LenientAccepted(idName: string, lengthName: string, deviceId: string, value: string, body: string)
    requires AnyCase(idName, "X-Device-Id") && AnyCase(lengthName, "Content-Length")
    requires ValidDeviceId(deviceId) && Clean(value) && Trimmed(value, Ows) && '\0' !in body
    requires ParseLength(value) == Some(|body|) && |LenientText(idName, lengthName, deviceId, value, body)| <= 65536
    ensures var text := LenientText(idName, lengthName, deviceId, value, body);
            OneShot(text) == Some(text) && Judge(Some(text)) == Ask(deviceId, body)
  {
    hide Join, OneShot, Judge, ParseLength, Plain, FirstCarries, Clean, Trimmed, AnyCase;
    LenientPlain(idName, lengthName, deviceId, value);
    LenientHeaders(idName, lengthName, deviceId, value);
    AnyRequestTaken(LenientLines(idName, lengthName, deviceId, value), body, deviceId, value);
  }

  /** A minus sign and the number that wraps around to k. */
  function Wrapping(k: nat): string
    requires 0 < k <= 65536
  {
    "-" + Dec(18446744073709551616 - k)
  }

  lemma WrappingValue(k: nat)
    requires 0 < k <= 65536
    ensures var value := Wrapping(k);
            && ParseLength(value) == Some(k) && !IsNumeral(value)
            && Clean(value) && Trimmed(value, Ows) && |value| <= 21
  {
    hide Dec, ParseLength, Clean, Trimmed, IsNumeral;
    MoreThanDigits(k);
    MinusValue(18446744073709551616 - k);
  }

  /** For one: a body announced by the number that wraps around to its length. */
  lemma WrappedLengthAccepted(deviceId: string, body: string)
    requires ValidDeviceId(deviceId) && body != "" && '\0' !in body && |body| < 65000
    ensures var value := Wrapping(|body|);
            var text := LenientText("X-Device-Id", "Content-Length", deviceId, value, body);
            !IsNumeral(value) && OneShot(text) == Some(text) && Judge(Some(text)) == Ask(deviceId, body)
  {
    hide Wrapping, OneShot, Judge, ParseLength, LenientText, Clean, Trimmed, IsNumeral, AnyCase;
    WrappingValue(|body|);
    SameCase("X-Device-Id");
    SameCase("Content-Length");
    LenientSize(deviceId, Wrapping(|body|), body);
    LenientAccepted("X-Device-Id", "Content-Length", deviceId, Wrapping(|body|), body);
  }

  lemma SameCase(name: string)
    ensures AnyCase(name, name)
  {
  }

  lemma MinusValue(n: nat)
    requires n < ULONG_RANGE
    ensures var value := "-" + Dec(n);
            Clean(value) && Trimmed(value, Ows) && !IsNumeral(value) && |value| <= 21
  {
    hide Dec, Unbroken;
    var digits := Dec(n);
    CleanDec(n);
    DecLength64(n);
    var value := "-" + digits;
    PlainText("-");
    UnbrokenPair("-", digits);
    assert IsDigit(digits[|digits| - 1]) && value[|value| - 1] == digits[|digits| - 1];
    assert value[0] in value && !IsDigit(value[0]);
  }

  lemma LenientSize(deviceId: string, value: string, body: string)
    requires ValidDeviceId(deviceId)
    ensures |LenientText("X-Device-Id", "Content-Length", deviceId, value, body)| <= 186 + |value| + |body|
  {
    hide ValidDeviceId;
    var lines := LenientLines("X-Device-Id", "Content-Length", deviceId, value);
    assert |deviceId| <= 128 by { IdSize(deviceId); }
    JoinLength(lines);
    assert Total(lines) == |lines[0]| + Total(lines[1..]) && Total(lines[1..]) == |lines[1]| + Total(lines[2..]);
    assert Total(lines[2..]) == |lines[2]| + Total(lines[3..]);
  }

  lemma IdSize(id: string)
    requires ValidDeviceId(id)
    ensures |id| <= 128
  {
  }

  // ----- The reply -----

  function CertificateReply(pem: string): Reply {
    Reply(200, "OK", "application/x-pem-file", pem)
  }

  /** The length of the header that send_response prints. */
  function HeaderSize(reply: Reply): nat {
    |Join(ReplyLines(reply))| + 4
  }

  lemma ReplyPlain(reply: Reply)
    requires Clean(reply.reason) && Clean(reply.contentType) && reply.status >= 0
    ensures forall l | l in ReplyLines(reply) :: Plain(l)
  {
    CleanDec(|reply.body|);
    hide Dec, DecInt, Plain, Clean;
    FixedLines();
    StatusPlain(reply.status, reply.reason);
    TypePlain(reply.contentType);
    LengthPlain(Dec(|reply.body|));
  }

  lemma StatusPlain(status: nat, reason: string)
    requires Clean(reason)
    ensures Plain("HTTP/1.1 " + DecInt(status) + " " + reason)
  {
    hide Dec, Unbroken;
    var digits := Dec(status);
    CleanDec(status);
    PlainText("HTTP/1.1 ");
    PlainText(" ");
    UnbrokenPair("HTTP/1.1 ", digits);
    assert IsDigit(digits[|digits| - 1]);
    UnbrokenPair("HTTP/1.1 " + digits, " ");
    UnbrokenPair("HTTP/1.1 " + digits + " ", reason);
  }

  /** What a peer reads in a reply: the status line, the type and the length of the body, and the body. */
  lemma ReplyReadsBack(reply: Reply)
    requires Clean(reply.reason) && Clean(reply.contentType) && Trimmed(reply.contentType, Ows) && reply.status >= 0
    requires '\0' !in reply.body
    ensures var text := ReplyText(reply);
            exists h: nat ::
              && Find(text, "\r\n\r\n") == Some(h) && h + 4 <= |text| && text[h + 4..] == reply.body
              && var lines := SplitLines(text[..h]);
                 && |lines| == 4 && lines[0] == "HTTP/1.1 " + DecInt(reply.status) + " " + reply.reason
                 && Carries(lines[1], "Content-Type", reply.contentType)
                 && Carries(lines[2], "Content-Length", Dec(|reply.body|))
                 && Carries(lines[3], "Connection", "close")
  {
    hide Join, SplitLines, Find, Carries, Plain, Trimmed, Clean, Dec, DecInt, CStr;
    var lines := ReplyLines(reply);
    ReplyPlain(reply);
    ReplyCarries(reply);
    ReadPrinted(lines, reply.body);
    var h := |Join(lines)|;
    assert ReplyText(reply)[..h] == Join(lines);
  }

  lemma ReplyCarries(reply: Reply)
    requires Trimmed(reply.contentType, Ows)
    ensures var lines := ReplyLines(reply);
            && |lines| == 4 && lines[0] == "HTTP/1.1 " + DecInt(reply.status) + " " + reply.reason
            && Carries(lines[1], "Content-Type", reply.contentType)
            && Carries(lines[2], "Content-Length", Dec(|reply.body|))
            && Carries(lines[3], "Connection", "close")
  {
    hide Carries, Trimmed, Dec, DecInt;
    TypeLine(reply.contentType);
    DecTrimmed(|reply.body|);
    LengthLine(Dec(|reply.body|));
    ConnectionLine();
  }

  lemma DecTrimmed(n: nat)
    ensures Trimmed(Dec(n), Ows)
  {
    var s := Dec(n);
    assert IsDigit(s[0]) && IsDigit(s[|s| - 1]);
  }

  /** A cut of the reply that ends inside the header holds no empty line yet. */
  lemma CutInHeader(lines: seq<string>, body: string, k: nat)
    requires lines != [] && (forall l | l in lines :: Plain(l)) && '\0' !in body
    requires k < |Join(lines)| + 4
    ensures var got := (Join(lines) + CRLF2 + body)[..k];
            CStr(got) == got && Find(got, CRLF2) == None
  {
    var text := Join(lines) + CRLF2 + body;
    var got := text[..k];
    ReadPrinted(lines, body);
    CStrIs(got, got);
    forall i: nat
      ensures !At(got, CRLF2, i)
    {
      if i + 4 <= k {
        AtStable(got, text, CRLF2, i);
      }
    }
  }

  /** A cut that ends inside the body is the reply with that much of the body. */
  lemma CutInBody(lines: seq<string>, body: string, k: nat)
    requires lines != [] && (forall l | l in lines :: Plain(l)) && '\0' !in body
    requires |Join(lines)| + 4 <= k <= |Join(lines)| + 4 + |body|
    ensures var got := (Join(lines) + CRLF2 + body)[..k];
            && CStr(got) == got && Find(got, CRLF2) == Some(|Join(lines)|)
            && got[|Join(lines)| + 4..] == body[..k - |Join(lines)| - 4]
  {
    var cut := body[..k - |Join(lines)| - 4];
    assert (Join(lines) + CRLF2 + body)[..k] == Join(lines) + CRLF2 + cut;
    ReadPrinted(lines, cut);
  }

  lemma StatusLine(reply: Reply)
    ensures "HTTP/1.1 " + DecInt(reply.status) + " " <= ReplyLines(reply)[0] <= Join(ReplyLines(reply))
  {
  }

  /** What the client has after the first k bytes of a certificate reply. */
  function Cut(pem: string, k: nat): string
    requires k <= |ReplyText(CertificateReply(pem))|
  {
    ReplyText(CertificateReply(pem))[..k]
  }

  lemma CertificatePlain(pem: string)
    ensures forall l | l in ReplyLines(CertificateReply(pem)) :: Plain(l)
  {
    hide Plain, ReplyLines, Clean;
    PlainText("OK");
    PlainText("application/x-pem-file");
    ReplyPlain(CertificateReply(pem));
  }

  lemma ParseCutHeader(pem: string, k: nat, certOutLen: nat)
    requires '\0' !in pem && k <= |ReplyText(CertificateReply(pem))| && k < HeaderSize(CertificateReply(pem))
    ensures !ParseResponse(Cut(pem, k), certOutLen).0.NR_OK?
  {
    hide Join, Find, CStr, ParseResponse, Plain, ReplyLines;
    CertificatePlain(pem);
    OkStatus(pem);
    CutInHeader(ReplyLines(CertificateReply(pem)), pem, k);
    ParseWithoutEnd(Cut(pem, k), certOutLen);
  }

  lemma ParseCutBody(pem: string, k: nat, certOutLen: nat)
    requires '\0' !in pem && HeaderSize(CertificateReply(pem)) <= k <= |ReplyText(CertificateReply(pem))|
    ensures var n := k - HeaderSize(CertificateReply(pem));
            var (code, cert) := ParseResponse(Cut(pem, k), certOutLen);
            && (code.NR_OK? <==> n < certOutLen && Find(pem[..n], BEGIN_CERTIFICATE).Some?)
            && (code.NR_OK? ==> cert == pem[..n])
  {
    hide Join, Find, CStr, ParseResponse, Plain, ReplyLines;
    var lines := ReplyLines(CertificateReply(pem));
    CertificatePlain(pem);
    OkStatus(pem);
    CutInBody(lines, pem, k);
    PrefixOfCut("HTTP/1.1 200", Join(lines), CRLF2, pem, k);
    ParseWithEnd(Cut(pem, k), |Join(lines)|, certOutLen);
  }

  lemma OkStatus(pem: string)
    ensures ReplyLines(CertificateReply(pem)) != []
    ensures "HTTP/1.1 200" <= Join(ReplyLines(CertificateReply(pem)))
  {
    hide Join;
    StatusLine(CertificateReply(pem));
    assert DecInt(200) == "200";
  }

  lemma PrefixOfCut(start: string, a: string, b: string, c: string, k: nat)
    requires start <= a && |a| <= k <= |a + b + c|
    ensures start <= (a + b + c)[..k]
  {
  }

  lemma ParseWithoutEnd(got: string, certOutLen: nat)
    requires CStr(got) == got && Find(got, CRLF2) == None
    ensures ParseResponse(got, certOutLen).0 == NR_ERR_PROTO
  {
  }

  lemma ParseWithEnd(got: string, h: nat, certOutLen: nat)
    requires CStr(got) == got && Find(got, CRLF2) == Some(h) && "HTTP/1.1 200" <= got
    ensures var r := ParseResponse(got, certOutLen);
            var body := got[h + 4..];
            && (r.0 == NR_OK <==> Find(body, BEGIN_CERTIFICATE).Some? && |body| < certOutLen)
            && (r.0 == NR_OK ==> r.1 == body)
  {
  }

  /**
   * What the client makes of the first k bytes of a certificate reply. It accepts exactly when the header is
   * complete, the BEGIN line is in, and what is there fits; then it has the certificate up to the cut, which is the
   * whole one exactly when nothing was cut off. A reply longer than its buffer is never accepted.
   */
  lemma ReplyCut(pem: string, k: nat, certOutLen: nat)
    requires '\0' !in pem && HeaderSize(CertificateReply(pem)) < 512
    requires k <= |ReplyText(CertificateReply(pem))|
    ensures var n := k - HeaderSize(CertificateReply(pem));
            var (code, cert) := Enrolled(ReplyText(CertificateReply(pem))[..k], certOutLen);
            && (code.NR_OK? <==>
                  0 <= n < 8192 && n < certOutLen && Find(pem[..n], BEGIN_CERTIFICATE).Some?)
            && (code.NR_OK? ==> cert == pem[..n] && (cert == pem <==> k == |ReplyText(CertificateReply(pem))|))
  {
    hide ReplyLines, Join, Find, ParseResponse;
    var text := ReplyText(CertificateReply(pem));
    var most := if k < ENROLL_BUF_SIZE then k else ENROLL_BUF_SIZE - 1;
    assert Prefix(text[..k], ENROLL_BUF_SIZE - 1) == text[..most] == Cut(pem, most);
    if most < HeaderSize(CertificateReply(pem)) {
      ParseCutHeader(pem, most, certOutLen);
    } else {
      ParseCutBody(pem, most, certOutLen);
    }
  }

  /** Nothing that a server sends with another status is accepted, whole or cut. */
  lemma RefusalsRejected(reply: Reply, k: nat, certOutLen: nat)
    requires reply.status in {400, 403, 404} && k <= |ReplyText(reply)|
    ensures Enrolled(ReplyText(reply)[..k], certOutLen).0 != NR_OK
  {
    hide Find, Join;
    StatusLine(reply);
    assert DecInt(400) == "400" && DecInt(403) == "403" && DecInt(404) == "404";
    var text := ReplyText(reply);
    assert Join(ReplyLines(reply)) <= text;
    hide ReplyLines, DecInt;
    var got := CStr(Prefix(text[..k], ENROLL_BUF_SIZE - 1));
    assert got <= text;
    assert text[9] == '4' && text[7] == '1';
    assert "HTTP/1.1 200"[9] == '2' && "HTTP/1.0 200"[7] == '0';
  }

  /**
   * So an early close is not noticed: any certificate cut right after its BEGIN line is accepted, and what the caller
   * gets is not the certificate.
   */
  lemma TruncatedCertificateAccepted(rest: string)
    requires rest != "" && '\0' !in rest && |rest| < ULONG_RANGE / 2
    ensures var pem := BEGIN_CERTIFICATE + rest;
            exists k :: 0 <= k < |ReplyText(CertificateReply(pem))|
              && Enrolled(ReplyText(CertificateReply(pem))[..k], 8192) == (NR_OK, BEGIN_CERTIFICATE)
  {
    hide At, Enrolled, Find, ReplyLines, Join;
    var pem := BEGIN_CERTIFICATE + rest;
    SmallHeader(pem);
    var k := HeaderSize(CertificateReply(pem)) + |BEGIN_CERTIFICATE|;
    assert pem[..|BEGIN_CERTIFICATE|] == BEGIN_CERTIFICATE;
    AtStart(BEGIN_CERTIFICATE);
    ReplyCut(pem, k, NR_MAX_PEM_LEN);
  }

  lemma AtStart(s: string)
    ensures At(s, s, 0) && Find(s, s).Some?
  {
    assert At(s, s, 0);
  }

  /** The header of a certificate reply is far below its 512-byte buffer. */
  lemma SmallHeader(pem: string)
    requires |pem| < ULONG_RANGE
    ensures HeaderSize(CertificateReply(pem)) < 512
  {
    hide ReplyLines, Join;
    HeaderFits(CertificateReply(pem));
  }

  /** So is that of any reply with a short reason and type. */
  lemma HeaderFits(reply: Reply)
    requires 0 <= reply.status < ULONG_RANGE && |reply.body| < ULONG_RANGE
    requires |reply.reason| <= 64 && |reply.contentType| <= 64
    ensures HeaderSize(reply) < 512
  {
    hide Dec, Join;
    var lines := ReplyLines(reply);
    JoinLength(lines);
    DecLength64(|reply.body|);
    DecLength64(reply.status);
    assert Total(lines) == |lines[0]| + Total(lines[1..]) && Total(lines[1..]) == |lines[1]| + Total(lines[2..]);
    assert Total(lines[2..]) == |lines[2]| + Total(lines[3..]) && Total(lines[3..]) == |lines[3]| + Total(lines[4..]);
  }

  // ----- Both directions -----

  /** An issuer's certificates are C strings. */
  ghost predicate IssuesText(issue: (string, string) -> Option<string>) {
    forall d, c :: issue(d, c).Some? ==> '\0' !in issue(d, c).value
  }

  /** A request that did not get out whole is not complete, so nobody is asked for anything. */
  lemma PartIsIncomplete(serverIp: string, deviceId: string, csr: string, k: nat)
    requires |serverIp| < 64 && Clean(serverIp)
    requires ValidDeviceId(deviceId) && |csr| < 8192 && '\0' !in csr
    requires k < |RequestText(serverIp, deviceId, csr)|
    ensures OneShot(RequestText(serverIp, deviceId, csr)[..k]) == None
  {
    hide RequestText, ScanRequest, Judge, ValidDeviceId;
    var text := RequestText(serverIp, deviceId, csr);
    RequestRoundTrip(serverIp, deviceId, csr);
    assert Prefix(text, REQUEST_MAX_BYTES) == text && Prefix(text[..k], REQUEST_MAX_BYTES) == text[..k];
    if ScanRequest(text[..k]) != Incomplete {
      ScanStable(text[..k], text);
    }
  }

  /** No send fails, and there are enough of them even if each gets out a single byte. */
  predicate EnoughSends(sends: seq<SendResult>, pem: Option<string>) {
    && NoFailure(sends)
    && match pem
       case None => Sends(sends) >= 576
       case Some(p) => |p| < ULONG_RANGE && Sends(sends) >= 512 + |p|
  }

  lemma EnoughForReply(deviceId: string, csr: string, pem: Option<string>, sends: seq<SendResult>)
    requires EnoughSends(sends, pem)
    ensures var reply := Answer(Ask(deviceId, csr), pem);
            |Join(ReplyLines(reply)) + CRLF2| < 512 && NoFailure(sends) && Sends(sends) >= |ReplyText(reply)|
  {
    hide Join, ReplyLines, Sends, NoFailure;
    HeaderFits(Answer(Ask(deviceId, csr), pem));
  }

  /**
   * A whole enrollment: the server handles the bytes that the client's write gets out, and nr_enroll, which writes
   * exactly those, reads what the server's sends get out. However the network cuts up the request (splits) and the
   * reply (sends, pieces), the issuer is asked for exactly the client's device id and CSR, or, if the request did not
   * get out whole, for nothing. If the server sends its whole reply, nr_enroll succeeds exactly when a certificate was
   * issued that has a BEGIN line and fits, and then the caller and the context hold exactly that certificate.
   */
  method Exchange(client: Context, serverIp: string, deviceId: string, csr: string, written: nat,
                  splits: seq<nat>, issue: (string, string) -> Option<string>, sends: seq<SendResult>,
                  pieces: seq<Positive>, certOutLen: nat)
    returns (asked: Option<(string, string)>, delivered: bool, code: Code, certOut: string)
    requires |serverIp| < 64 && Clean(serverIp)
    requires ValidDeviceId(deviceId) && |csr| < 8192 && '\0' !in csr
    requires IssuesText(issue)
    modifies client
    ensures written < |RequestText(serverIp, deviceId, csr)| ==> asked == None && code == NR_ERR_IO
    ensures written >= |RequestText(serverIp, deviceId, csr)| ==> asked == Some((deviceId, csr))
    ensures delivered && asked.Some? ==>
              (code.NR_OK? <==>
                 && issue(deviceId, csr).Some? && Find(issue(deviceId, csr).value, BEGIN_CERTIFICATE).Some?
                 && |issue(deviceId, csr).value| < 8192 && |issue(deviceId, csr).value| < certOutLen)
    ensures asked.Some? && EnoughSends(sends, issue(deviceId, csr)) ==> delivered
    ensures delivered && code.NR_OK? ==> certOut == client.clientCertPem == issue(deviceId, csr).value
    ensures !code.NR_OK? ==> client.clientCertPem == old(client.clientCertPem)
  {
    hide RequestText, OneShot, Judge, ReplyLines, Join, Find, Enrolled, ValidDeviceId;
    var reply, wire, sent;
    var wrote, bytes := SendRequest(serverIp, csr, deviceId, written);
    RequestRoundTrip(serverIp, deviceId, csr);
    reply, asked := HandleClient(bytes, splits, issue);
    ghost var pem := issue(deviceId, csr);
    if wrote.NR_OK? {
      NoNulReply(pem);
    } else {
      PartIsIncomplete(serverIp, deviceId, csr, written);
      JudgeNone();
    }
    if wrote.NR_OK? && EnoughSends(sends, pem) {
      EnoughForReply(deviceId, csr, pem, sends);
    }
    delivered, wire := SendResponse(reply, sends);
    code, sent, certOut := client.Enroll(serverIp, csr, deviceId, written, wire, pieces, certOutLen);
    assert sent == bytes;
    if delivered && wrote.NR_OK? {
      assert wire[..|wire|] == wire == ReplyText(reply);
      if pem.Some? {
        ReplyCut(pem.value, |wire|, certOutLen);
        assert pem.value[..|pem.value|] == pem.value;
      } else {
        RefusalsRejected(reply, |wire|, certOutLen);
      }
    }
  }

  lemma JudgeNone()
    ensures Judge(None).Refuse? && '\0' !in Judge(None).reply.body
  {
  }

  lemma NoNulReply(pem: Option<string>)
    requires pem.Some? ==> '\0' !in pem.value
    ensures forall d, c :: '\0' !in Answer(Ask(d, c), pem).body
  {
  }
}
