/** enrollment/src/http.c: receiving a request in arbitrary pieces, answering it, and sending in arbitrary pieces. */
module HttpServer {
  import opened Text
  import opened Numbers
  import opened Http

  // ----- Specification: one look at everything received -----

  datatype Scan = Incomplete | Malformed | Complete(len: nat)

  /** The header ends at the first CRLFCRLF before any NUL; then Content-Length many bytes follow. */
  function ScanRequest(t: string): (s: Scan)
    ensures s.Complete? ==> s.len <= |t|
  {
    match Find(CStr(t), CRLF2)
    case None => Incomplete
    case Some(h) =>
      match ContentLength(t[..h])
      case None => Malformed
      case Some(n) => if |t| >= h + 4 + n then Complete(h + 4 + n) else Incomplete
  }

  /** The request in a stream, however it is cut up: the peer closes, or the connection fails, where the stream ends. */
  function OneShot(stream: string): Option<string> {
    match ScanRequest(Prefix(stream, REQUEST_MAX_BYTES))
    case Complete(len) => Some(stream[..len])
    case _ => None
  }

  datatype Reply = Reply(status: int, reason: string, contentType: string, body: string)

  function Refusal(status: int, reason: string, body: string): Reply {
    Reply(status, reason, "text/plain", body)
  }

  /** request_line_is_enroll_post */
  predicate IsEnrollPost(text: string) {
    match Find(text, CRLF)
    case None => false
    case Some(k) => k >= |"POST /enroll HTTP/1.1"| && "POST /enroll " <= text
  }

  /** Which device and CSR the request asks a certificate for, or the refusal it gets. */
  datatype Verdict = Refuse(reply: Reply) | Ask(deviceId: string, csr: string)

  function Judge(request: Option<string>): Verdict {
    match request
    case None => Refuse(Refusal(400, "Bad Request", "malformed enrollment request\n"))
    case Some(bytes) =>
      var text := CStr(bytes);
      if !IsEnrollPost(text) then Refuse(Refusal(404, "Not Found", "expected POST /enroll\n"))
      else
        match Find(text, CRLF2)
        case None => Refuse(Refusal(400, "Bad Request", "missing Content-Length\n"))
        case Some(h) =>
          match Lookup(SplitLines(text[..h]), "X-Device-Id")
          case None => Refuse(Refusal(400, "Bad Request", "missing or invalid X-Device-Id\n"))
          case Some(id) =>
            if |id| > DEVICE_ID_MAX_BYTES then Refuse(Refusal(400, "Bad Request", "missing or invalid X-Device-Id\n"))
            else Ask(id, text[h + 4..])
  }

  /** The answer to a verdict, given what issuing a certificate comes to. */
  function Answer(v: Verdict, pem: Option<string>): Reply {
    match v
    case Refuse(reply) => reply
    case Ask(_, _) =>
      match pem
      case None => Refusal(403, "Forbidden", "certificate enrollment failed\n")
      case Some(p) => Reply(200, "OK", "application/x-pem-file", p)
  }

  // ----- What the answer is, spelled out -----

  /** The request line is one that the server takes: it starts with "POST /enroll " and has 21 characters or more. */
  ghost predicate EnrollLine(text: string) {
    "POST /enroll " <= text && exists k: nat | 21 <= k :: Find(text, "\r\n") == Some(k)
  }

  /** The header of the request carries this device id, and it is not too long. */
  ghost predicate CarriesId(text: string, id: string) {
    |id| <= 128
    && exists h: nat ::
         Find(text, "\r\n\r\n") == Some(h) && h <= |text| && FirstCarries(SplitLines(text[..h]), "X-Device-Id", id)
  }

  ghost predicate IsBody(text: string, csr: string) {
    exists h: nat :: Find(text, "\r\n\r\n") == Some(h) && h + 4 <= |text| && csr == text[h + 4..]
  }

  /**
   * A stream is answered 400 if it holds no request, 404 if the request line is another one, 400 if the device id is
   * missing or too long. Otherwise the issuer is asked, and the answer is its certificate with 200, or 403.
   */
  ghost predicate Handled(request: Option<string>, issue: (string, string) -> Option<string>, reply: Reply,
                          asked: Option<(string, string)>) {
    match request
    case None => asked == None && reply.status == 400
    case Some(bytes) =>
      var text := CStr(bytes);
      && (asked.Some? <==> EnrollLine(text) && exists id :: CarriesId(text, id))
      && (asked.Some? ==> CarriesId(text, asked.value.0) && IsBody(text, asked.value.1))
      && (asked == None ==> reply.status == (if EnrollLine(text) then 400 else 404) && reply.contentType == "text/plain")
      && (asked.Some? ==>
            match issue(asked.value.0, asked.value.1)
            case None => reply.status == 403 && reply.contentType == "text/plain"
            case Some(pem) => reply == Reply(200, "OK", "application/x-pem-file", pem))
  }

  lemma PostLine(text: string)
    ensures IsEnrollPost(text) <==> EnrollLine(text)
  {
    hide Find;
    assert |"POST /enroll HTTP/1.1"| == 21;
  }

  lemma IdLookup(text: string, h: nat)
    requires Find(text, CRLF2) == Some(h) && h <= |text|
    ensures var r := Lookup(SplitLines(text[..h]), "X-Device-Id");
            forall id :: CarriesId(text, id) <==> |id| <= 128 && r == Some(id)
  {
    hide Find, FirstCarries, SplitLines, Lookup;
    var lines := SplitLines(text[..h]);
    forall id
      ensures CarriesId(text, id) <==> |id| <= 128 && Lookup(lines, "X-Device-Id") == Some(id)
    {
      LookupIff(lines, "X-Device-Id", id);
    }
  }

  /** What the verdict on a request with this header end comes to. */
  lemma JudgeSays(bytes: string, h: nat)
    requires Find(CStr(bytes), CRLF2) == Some(h) && h + 4 <= |CStr(bytes)|
    ensures var v, text := Judge(Some(bytes)), CStr(bytes);
            var id := Lookup(SplitLines(text[..h]), "X-Device-Id");
            && (v.Ask? <==> IsEnrollPost(text) && id.Some? && |id.value| <= 128)
            && (v.Ask? ==> v == Ask(id.value, text[h + 4..]))
            && (v.Refuse? ==>
                  v.reply.status == (if IsEnrollPost(text) then 400 else 404) && v.reply.contentType == "text/plain")
  {
    hide Find, SplitLines, Lookup, IsEnrollPost, CStr;
  }

  lemma HasBody(text: string, h: nat)
    requires Find(text, CRLF2) == Some(h) && h + 4 <= |text|
    ensures IsBody(text, text[h + 4..])
  {
    hide Find;
  }

  lemma AnswerSays(v: Verdict, pem: Option<string>)
    ensures v.Refuse? ==> Answer(v, pem) == v.reply
    ensures v.Ask? ==>
              match pem
              case None => Answer(v, pem).status == 403 && Answer(v, pem).contentType == "text/plain"
              case Some(p) => Answer(v, pem) == Reply(200, "OK", "application/x-pem-file", p)
  {
  }

  lemma RefusedUnread(pem: Option<string>)
    ensures Judge(None).Refuse? && Answer(Judge(None), pem).status == 400
  {
  }

  lemma JudgeHandled(stream: string, issue: (string, string) -> Option<string>)
    ensures var v := Judge(OneShot(stream));
            Handled(OneShot(stream), issue, Answer(v, if v.Ask? then issue(v.deviceId, v.csr) else None),
                    if v.Ask? then Some((v.deviceId, v.csr)) else None)
  {
    hide Find, SplitLines, Lookup, OneShot, IsEnrollPost, EnrollLine, CarriesId, CStr, Judge, Answer, IsBody;
    match OneShot(stream) {
      case None =>
        RefusedUnread(None);
      case Some(bytes) =>
        var text := CStr(bytes);
        ReparseAgrees(stream);
        HeaderHere(bytes);
        var h := Find(text, CRLF2).value;
        PostLine(text);
        IdLookup(text, h);
        JudgeSays(bytes, h);
        HasBody(text, h);
        var v := Judge(Some(bytes));
        AnswerSays(v, if v.Ask? then issue(v.deviceId, v.csr) else None);
    }
  }

  // ----- Facts about scanning -----

  lemma CStrGrows(s: string, t: string)
    requires s <= t
    ensures CStr(s) <= CStr(t)
    ensures |CStr(s)| < |s| ==> CStr(t) == CStr(s)
  {
    if |CStr(s)| < |s| {
      CStrIs(t, CStr(s));
    } else {
      assert forall i | 0 <= i < |s| :: t[i] == s[i] && s[i] != '\0';
    }
  }

  /** Once the header is complete, more bytes change neither its end nor its Content-Length. */
  lemma HeaderStable(s: string, t: string)
    requires s <= t && Find(CStr(s), CRLF2).Some?
    ensures Find(CStr(t), CRLF2) == Find(CStr(s), CRLF2)
    ensures var h := Find(CStr(s), CRLF2).value;
            h + 4 <= |s| && t[..h] == s[..h] == CStr(s)[..h] && At(CStr(s), CRLF, h)
  {
    CStrGrows(s, t);
    FindStable(CStr(s), CStr(t), CRLF2);
    var h := Find(CStr(s), CRLF2).value;
    assert CStr(s)[h..h + 2] == CStr(s)[h..h + 4][..2];
  }

  lemma HeaderHere(t: string)
    requires Find(CStr(t), CRLF2).Some?
    ensures var h := Find(CStr(t), CRLF2).value;
            h + 4 <= |t| && CStr(t)[..h] == t[..h] && At(CStr(t), CRLF, h)
  {
    HeaderStable(t, t);
  }

  /** A request found complete or malformed stays so. */
  lemma ScanStable(s: string, t: string)
    requires s <= t && ScanRequest(s) != Incomplete
    ensures ScanRequest(t) == ScanRequest(s)
  {
    HeaderStable(s, t);
  }

  // ----- The code -----

  /**
   * read_request. The peer delivers stream before it closes or the connection fails; the i-th recv returns
   * splits[i] bytes, or what is there and fits if that is less, and is interrupted if splits[i] is 0. Further calls
   * return all that is there and fits.
   */
  method ReadRequest(stream: string, splits: seq<nat>) returns (ok: bool, buf: array<char>, len: nat)
    ensures fresh(buf) && buf.Length == 65537
    ensures ok <==> OneShot(stream).Some?
    ensures ok ==> len <= 65536 && buf[..len] == OneShot(stream).value
  {
    hide ScanRequest, ContentLength, CStr, HasHeader, OneShot, At, Find;
    buf := new char[REQUEST_MAX_BYTES + 1](_ => '\0');
    len := 0;
    var total, contentLen, haveContentLen := 0, 0, false;
    var call := 0;
    StartIncomplete();
    while total < REQUEST_MAX_BYTES
      invariant 0 <= total <= REQUEST_MAX_BYTES && total <= |stream| && call <= |splits|
      invariant buf[..total] == stream[..total]
      invariant ScanRequest(stream[..total]) == Incomplete
      invariant haveContentLen ==> HasHeader(stream[..total], contentLen)
      decreases |stream| - total, |splits| - call
    {
      if call < |splits| && splits[call] == 0 {
        call := call + 1;  // EINTR
        continue;
      }
      var n := if |stream| - total < REQUEST_MAX_BYTES - total then |stream| - total else REQUEST_MAX_BYTES - total;
      if call < |splits| {
        n := if splits[call] < n then splits[call] else n;
        call := call + 1;
      }
      if n == 0 {
        break;  // the peer closed, or recv failed
      }
      ghost var before := stream[..total];
      Receive(stream, buf, total, n);
      total := total + n;
      ghost var got := stream[..total];
      assert before <= got;

      var text := CStr(buf[..]);
      var headersEnd := Find(text, CRLF2);
      if haveContentLen {
        HeaderKept(before, got, contentLen);
      }
      if headersEnd.Some? {
        var headerBytes := headersEnd.value + 4;
        HeaderHere(got);
        if !haveContentLen {
          var parsed := ParseContentLength(text, headersEnd.value);
          if parsed.None? {
            ScanMalformed(got);
            ScanDecides(stream, total);
            return false, buf, 0;
          }
          contentLen := parsed.value;
          haveContentLen := true;
          HeaderFound(got, contentLen);
        }
        ScanWithHeader(got, contentLen);
        if total >= headerBytes + contentLen {
          ScanDecides(stream, total);
          len := headerBytes + contentLen;
          assert buf[..len] == got[..len] == stream[..len];
          return true, buf, len;
        }
      } else {
        ScanWithoutHeader(got);
      }
    }
    assert stream[..total] == Prefix(stream, REQUEST_MAX_BYTES);
    NeverComplete(stream);
    return false, buf, 0;
  }

  /** recv of n bytes at buf + total, and the NUL written after them. */
  method Receive(stream: string, buf: array<char>, total: nat, n: nat)
    requires total + n <= |stream| && total + n < buf.Length && buf[..total] == stream[..total]
    modifies buf
    ensures buf[..total + n] == stream[..total + n] && CStr(buf[..]) == CStr(stream[..total + n])
  {
    forall i | 0 <= i < n {
      buf[total + i] := stream[total + i];
    }
    buf[total + n] := '\0';
    assert buf[..][..total + n] == buf[..total + n] == stream[..total + n];
    CStrTerminated(buf[..], total + n);
  }

  /** The header in t is complete and announces n bytes. */
  predicate HasHeader(t: string, n: nat) {
    Find(CStr(t), CRLF2).Some? && ContentLength(t[..Find(CStr(t), CRLF2).value]) == Some(n)
  }

  lemma StartIncomplete()
    ensures forall t: string :: t == "" ==> ScanRequest(t) == Incomplete
  {
  }

  lemma HeaderFound(t: string, n: nat)
    requires Find(CStr(t), CRLF2).Some? && ContentLength(t[..Find(CStr(t), CRLF2).value]) == Some(n)
    ensures HasHeader(t, n)
  {
  }

  lemma HeaderKept(s: string, t: string, n: nat)
    requires s <= t && HasHeader(s, n)
    ensures HasHeader(t, n)
  {
    hide ContentLength;
    HeaderStable(s, t);
  }

  lemma ScanMalformed(t: string)
    requires Find(CStr(t), CRLF2).Some? && ContentLength(t[..Find(CStr(t), CRLF2).value]) == None
    ensures ScanRequest(t) == Malformed
  {
  }

  lemma ScanWithoutHeader(t: string)
    requires Find(CStr(t), CRLF2) == None
    ensures ScanRequest(t) == Incomplete
  {
  }

  lemma ScanWithHeader(t: string, n: nat)
    requires HasHeader(t, n)
    ensures ScanRequest(t) == if |t| >= Find(CStr(t), CRLF2).value + 4 + n
                              then Complete(Find(CStr(t), CRLF2).value + 4 + n) else Incomplete
  {
    hide ContentLength;
  }

  lemma NeverComplete(stream: string)
    requires ScanRequest(Prefix(stream, 65536)) == Incomplete
    ensures OneShot(stream) == None
  {
  }

  /** A decision made on the first bytes of a stream is the decision on the stream. */
  lemma ScanDecides(stream: string, total: nat)
    requires total <= |stream| && total <= 65536 && ScanRequest(stream[..total]) != Incomplete
    ensures match ScanRequest(stream[..total])
            case Complete(len) => OneShot(stream) == Some(stream[..len])
            case _ => OneShot(stream) == None
  {
    hide ScanRequest;
    ScanStable(stream[..total], Prefix(stream, REQUEST_MAX_BYTES));
  }

  /** A request that was read parses the same again: same header end, same length, and the body is all there. */
  lemma ReparseAgrees(stream: string)
    requires OneShot(stream).Some?
    ensures var bytes := OneShot(stream).value;
            var h := Find(CStr(bytes), CRLF2);
            && h.Some? && h == Find(CStr(Prefix(stream, 65536)), CRLF2)
            && ContentLength(CStr(bytes)[..h.value]) == Some(|bytes| - h.value - 4)
  {
    hide ContentLength;
    var got := Prefix(stream, REQUEST_MAX_BYTES);
    var bytes := OneShot(stream).value;
    var h := Find(CStr(got), CRLF2).value;
    HeaderStable(got, got);
    CStrGrows(bytes, got);
    var seen := CStr(bytes);
    if |seen| < |bytes| {
      assert seen == CStr(got);
    } else {
      assert seen == bytes && seen <= CStr(got);
      assert At(CStr(got), CRLF2, h);
      FindCut(seen, CStr(got), CRLF2, h);
    }
    HeaderStable(bytes, got);
  }

  /** bytes are a header without NULs, the first empty line, and as many bytes as its Content-Length says. */
  ghost predicate IsRequest(bytes: string) {
    exists head, body, value :: SplitsAs(bytes, head, body) && FirstCarries(SplitLines(head), "Content-Length", value)
                                && ParseLength(value) == Some(|body|)
  }

  predicate SplitsAs(bytes: string, head: string, body: string) {
    bytes == head + "\r\n\r\n" + body && '\0' !in head && Find(bytes, "\r\n\r\n") == Some(|head|)
  }

  /** A stream gives a request exactly when that request is at its start and has at most 65536 bytes. */
  lemma OneShotIff(stream: string, bytes: string)
    ensures OneShot(stream) == Some(bytes) <==> bytes <= stream && |bytes| <= 65536 && IsRequest(bytes)
  {
    hide OneShot, IsRequest;
    if OneShot(stream) == Some(bytes) {
      RequestOf(stream);
    }
    if bytes <= stream && |bytes| <= 65536 && IsRequest(bytes) {
      RequestTaken(stream, bytes);
    }
  }

  lemma SplitAtEnd(bytes: string, h: nat)
    requires Find(CStr(bytes), CRLF2) == Some(h) && h + 4 <= |CStr(bytes)|
    ensures SplitsAs(bytes, CStr(bytes)[..h], bytes[h + 4..])
  {
    hide At;
    var seen := CStr(bytes);
    FindStable(seen, bytes, CRLF2);
    EndsHere(bytes, h);
    assert bytes[..h] == seen[..h];
  }

  lemma EndsHere(bytes: string, h: nat)
    requires At(bytes, CRLF2, h)
    ensures bytes == bytes[..h] + "\r\n\r\n" + bytes[h + 4..]
  {
    assert bytes[h..h + 4] == "\r\n\r\n";
  }

  lemma RequestOf(stream: string)
    requires OneShot(stream).Some?
    ensures var bytes := OneShot(stream).value; bytes <= stream && |bytes| <= 65536 && IsRequest(bytes)
  {
    hide FirstCarries, SplitLines, ParseLength, Lookup, SplitsAs, CStr, Find, ScanRequest;
    var bytes := OneShot(stream).value;
    ReparseAgrees(stream);
    HeaderHere(bytes);
    var h := Find(CStr(bytes), CRLF2).value;
    SplitAtEnd(bytes, h);
    var lines := SplitLines(CStr(bytes)[..h]);
    LookupIff(lines, "Content-Length", Lookup(lines, "Content-Length").value);
  }

  lemma RequestTaken(stream: string, bytes: string)
    requires bytes <= stream && |bytes| <= 65536 && IsRequest(bytes)
    ensures OneShot(stream) == Some(bytes)
  {
    hide FirstCarries, SplitLines, ParseLength, Lookup, CStr, Find;
    var head, body, value :| SplitsAs(bytes, head, body) && FirstCarries(SplitLines(head), "Content-Length", value)
                             && ParseLength(value) == Some(|body|);
    LookupIff(SplitLines(head), "Content-Length", value);
    var h := |head|;
    var got := Prefix(stream, REQUEST_MAX_BYTES);
    assert bytes <= got;
    SeenHeader(got, head, body);
    assert got[..h] == head;
    assert ContentLength(got[..h]) == Some(|body|);
    assert |bytes| == h + 4 + |body| && stream[..|bytes|] == bytes;
    assert ScanRequest(got) == Complete(h + 4 + |body|);
  }

  /** The C string at the start of a stream goes on at least to the end of a header without NULs. */
  lemma SeenHeader(got: string, head: string, body: string)
    requires SplitsAs(head + "\r\n\r\n" + body, head, body) && head + "\r\n\r\n" + body <= got
    ensures Find(CStr(got), CRLF2) == Some(|head|)
  {
    hide At;
    var bytes := head + "\r\n\r\n" + body;
    var start := head + "\r\n\r\n";
    var seen := CStr(got);
    assert '\0' !in "\r\n\r\n";
    assert forall i | 0 <= i < |start| :: got[i] == start[i] && start[i] in start;
    assert |start| <= |seen|;
    forall i: nat | i <= |head|
      ensures At(seen, CRLF2, i) == At(bytes, CRLF2, i)
    {
      AtStable(start, bytes, CRLF2, i);
      AtStable(start, seen, CRLF2, i);
    }
    FindIs(seen, CRLF2, |head|);
  }

  /** Cutting text off after a first occurrence leaves it the first occurrence. */
  lemma FindCut(s: string, t: string, p: string, k: nat)
    requires s <= t && Find(t, p) == Some(k) && k + |p| <= |s|
    ensures Find(s, p) == Some(k)
  {
    forall i: nat | i <= k
      ensures At(s, p, i) == At(t, p, i)
    {
      AtStable(s, t, p, i);
    }
    FindIs(s, p, k);
  }

  /** handle_client; issue stands for nr_enrollment_issue_certificate. */
  method HandleClient(stream: string, splits: seq<nat>, issue: (string, string) -> Option<string>)
    returns (reply: Reply, asked: Option<(string, string)>)
    ensures var v := Judge(OneShot(stream));
            && asked == (if v.Ask? then Some((v.deviceId, v.csr)) else None)
            && reply == Answer(v, if v.Ask? then issue(v.deviceId, v.csr) else None)
    ensures Handled(OneShot(stream), issue, reply, asked)
  {
    JudgeHandled(stream, issue);
    hide Handled, ScanRequest, ContentLength, SplitLines, OneShot, IsEnrollPost, Lookup, CStr;
    var ok, buf, len := ReadRequest(stream, splits);
    if !ok {
      return Refusal(400, "Bad Request", "malformed enrollment request\n"), None;
    }
    ghost var bytes := OneShot(stream).value;
    buf[len] := '\0';
    assert buf[..][..len] == buf[..len] == bytes;
    CStrTerminated(buf[..], len);
    ReparseAgrees(stream);
    var text := CStr(buf[..]);
    if !IsEnrollPost(text) {
      return Refusal(404, "Not Found", "expected POST /enroll\n"), None;
    }
    var headersEnd := Find(text, CRLF2);
    if headersEnd.None? {
      return Refusal(400, "Bad Request", "missing Content-Length\n"), None;
    }
    var h := headersEnd.value;
    AtCrlf2(text, h);
    hide At;
    var contentLen := ParseContentLength(text, h);
    if contentLen.None? {
      return Refusal(400, "Bad Request", "missing Content-Length\n"), None;
    }
    var deviceId := CopyHeaderValue(text, h, "X-Device-Id");
    if deviceId.None? || |deviceId.value| > DEVICE_ID_MAX_BYTES {
      return Refusal(400, "Bad Request", "missing or invalid X-Device-Id\n"), None;
    }
    if len - (h + 4) < contentLen.value {
      return Refusal(400, "Bad Request", "incomplete request body\n"), None;
    }
    asked := Some((deviceId.value, text[h + 4..]));
    var pem := issue(deviceId.value, text[h + 4..]);
    if pem.None? {
      return Refusal(403, "Forbidden", "certificate enrollment failed\n"), asked;
    }
    return Reply(200, "OK", "application/x-pem-file", pem.value), asked;
  }

  /** The two replies that a second look at an accepted request could give are never given. */
  lemma UnreachableReplies(stream: string)
    ensures var v := Judge(OneShot(stream));
            v.Refuse? ==> v.reply.body != "missing Content-Length\n" && v.reply.body != "incomplete request body\n"
  {
    hide ScanRequest, ContentLength, SplitLines, OneShot;
    if OneShot(stream).Some? {
      ReparseAgrees(stream);
    }
    assert "malformed enrollment request\n"[1] == 'a' && "missing or invalid X-Device-Id\n"[8] == 'o';
    assert "missing Content-Length\n"[8] == 'C' && "incomplete request body\n"[0] == 'i';
    assert "expected POST /enroll\n"[0] == 'e';
  }

  // ----- Sending -----

  datatype SendResult = Sent(n: nat) | Interrupted | Failed

  /** No send fails or says that nothing was sent. */
  predicate NoFailure(results: seq<SendResult>) {
    forall r | r in results :: r.Interrupted? || (r.Sent? && r.n > 0)
  }

  /** How many sends were not interrupted. */
  function Sends(results: seq<SendResult>): nat {
    if results == [] then 0 else (if results[0].Sent? then 1 else 0) + Sends(results[1..])
  }

  lemma {:induction false} SendsSplit(results: seq<SendResult>, k: nat)
    requires k < |results|
    ensures Sends(results[k..]) == (if results[k].Sent? then 1 else 0) + Sends(results[k + 1..])
  {
    assert results[k..][1..] == results[k + 1..];
  }

  /** send_all: results are what send returns, a count being at most what is left; send fails once they run out. */
  method SendAll(data: string, results: seq<SendResult>) returns (ok: bool, wire: string, used: nat)
    ensures used <= |results|
    ensures ok ==> wire == data
    ensures !ok ==> wire < data
    ensures NoFailure(results) && Sends(results) >= |data| ==> ok
    ensures NoFailure(results) ==> Sends(results[used..]) + |data| >= Sends(results)
  {
    assert results[0..] == results;
    wire, used := "", 0;
    var sent := 0;
    while sent < |data|
      invariant 0 <= sent <= |data| && wire == data[..sent] && used <= |results|
      invariant NoFailure(results) ==> Sends(results[used..]) + sent >= Sends(results)
      decreases |results| - used
    {
      if used == |results| {
        return false, wire, used;
      }
      var r := results[used];
      SendsSplit(results, used);
      used := used + 1;
      match r {
        case Interrupted =>
        case Failed => return false, wire, used;
        case Sent(n) =>
          if n == 0 {
            return false, wire, used;
          }
          var k := if n < |data| - sent then n else |data| - sent;
          wire := wire + data[sent..sent + k];
          sent := sent + k;
      }
    }
    return true, wire, used;
  }

  const HEADERS_SIZE := 512

  function ReplyLines(reply: Reply): seq<string> {
    ["HTTP/1.1 " + DecInt(reply.status) + " " + reply.reason,
     "Content-Type: " + reply.contentType,
     "Content-Length: " + Dec(|reply.body|),
     "Connection: close"]
  }

  function ReplyText(reply: Reply): string {
    Join(ReplyLines(reply)) + CRLF2 + reply.body
  }

  /** send_response: all of the reply, or a proper prefix of it and a failure. */
  method SendResponse(reply: Reply, results: seq<SendResult>) returns (ok: bool, wire: string)
    requires '\0' !in reply.body
    ensures ok ==> wire == ReplyText(reply)
    ensures !ok ==> wire < ReplyText(reply)
    ensures |Join(ReplyLines(reply)) + CRLF2| >= 512 ==> !ok && wire == ""
    ensures |Join(ReplyLines(reply)) + CRLF2| < 512 && NoFailure(results) && Sends(results) >= |ReplyText(reply)| ==> ok
  {
    hide Join, Sends;
    var headers := Join(ReplyLines(reply)) + CRLF2;
    if |headers| >= HEADERS_SIZE {
      return false, "";
    }
    var used;
    ok, wire, used := SendAll(headers, results);
    if !ok {
      return false, wire;
    }
    if |reply.body| > 0 {
      var more;
      ok, more, used := SendAll(reply.body, results[used..]);
      wire := wire + more;
    }
  }
}
