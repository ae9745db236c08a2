/** lib/nirantara-net: the client's side of enrollment (enroll.c, and nr_enroll in net.c). */
module EnrollClient {
  import opened Text
  import opened Numbers
  import opened Http

  const ENROLL_BUF_SIZE := 16384
  const NR_MAX_PEM_LEN := 8192
  const NR_MAX_IP_LEN := 64
  const BEGIN_CERTIFICATE := "-----BEGIN CERTIFICATE-----"

  type Positive = n: int | 0 < n witness 1

  datatype Code = NR_OK | NR_ERR_MEM | NR_ERR_IO | NR_ERR_PROTO

  // ----- The request -----

  function RequestLines(serverIp: string, deviceId: string, csrLen: nat): (lines: seq<string>)
    ensures |lines| == 6
  {
    ["POST /enroll HTTP/1.1",
     "Host: " + serverIp,
     "Content-Type: application/x-pem-file",
     "X-Device-Id: " + deviceId,
     "Content-Length: " + Dec(csrLen),
     "Connection: close"]
  }

  function RequestText(serverIp: string, deviceId: string, csr: string): string {
    Join(RequestLines(serverIp, deviceId, |csr|)) + CRLF2 + csr
  }

  // ----- The response -----

  /** What nr__enroll_request makes of the bytes it has read: the certificate, or an error. */
  function ParseResponse(got: string, certOutLen: nat): (r: (Code, string))
    ensures r.0.NR_OK? || r.1 == ""
  {
    var text := CStr(got);
    if !("HTTP/1.1 200" <= text) && !("HTTP/1.0 200" <= text) then (NR_ERR_PROTO, "")
    else
      match Find(text, CRLF2)
      case None => (NR_ERR_PROTO, "")
      case Some(h) =>
        var body := text[h + 4..];
        if Find(body, BEGIN_CERTIFICATE) == None then (NR_ERR_PROTO, "")
        else if |body| >= certOutLen then (NR_ERR_MEM, "")
        else (NR_OK, body)
  }

  /** The same after nr_enroll has also cached the certificate in its context. */
  function Enrolled(stream: string, certOutLen: nat): (r: (Code, string))
    ensures r.0.NR_OK? || r.1 == ""
  {
    var r := ParseResponse(Prefix(stream, ENROLL_BUF_SIZE - 1), certOutLen);
    if r.0.NR_OK? && |r.1| >= NR_MAX_PEM_LEN then (NR_ERR_MEM, "") else r
  }

  /** The answer of a server that the client takes for a certificate. */
  ghost predicate IsAnswer(text: string, cert: string) {
    && ("HTTP/1.1 200" <= text || "HTTP/1.0 200" <= text)
    && (exists h: nat :: Find(text, "\r\n\r\n") == Some(h) && h + 4 <= |text| && cert == text[h + 4..])
    && (exists k: nat :: At(cert, "-----BEGIN CERTIFICATE-----", k))
  }

  /** A certificate is taken exactly from such an answer, if it fits; a memory error means it did not. */
  lemma ReceiveIff(got: string, certOutLen: nat, cert: string)
    ensures ParseResponse(got, certOutLen) == (NR_OK, cert) <==> IsAnswer(CStr(got), cert) && |cert| < certOutLen
    ensures ParseResponse(got, certOutLen).0 == NR_ERR_MEM <==>
              exists c :: IsAnswer(CStr(got), c) && |c| >= certOutLen
    ensures ParseResponse(got, certOutLen).0 in {NR_OK, NR_ERR_MEM, NR_ERR_PROTO}
  {
    hide CStr, At;
    var text := CStr(got);
    match Find(text, CRLF2) {
      case None =>
      case Some(h) =>
        assert h + 4 <= |text| by { AtEnd(text, h); }
        var body := text[h + 4..];
        assert forall c :: IsAnswer(text, c) ==> c == body;
        assert ("HTTP/1.1 200" <= text || "HTTP/1.0 200" <= text) && Find(body, BEGIN_CERTIFICATE).Some? ==>
                 IsAnswer(text, body);
    }
  }

  lemma AtEnd(text: string, h: nat)
    requires At(text, CRLF2, h)
    ensures h + 4 <= |text|
  {
  }

  // ----- The code -----

  /** The read loop: the i-th SSL_read returns pieces[i] bytes, or what is there and fits if that is less. */
  method ReadResponse(stream: string, pieces: seq<Positive>) returns (buf: array<char>, total: nat)
    ensures fresh(buf) && buf.Length == 16384 && total < 16384
    ensures buf[..total] == Prefix(stream, 16383) && CStr(buf[..]) == CStr(buf[..total])
  {
    buf := new char[ENROLL_BUF_SIZE](_ => '\0');
    total := 0;
    var call := 0;
    while total < ENROLL_BUF_SIZE - 1
      invariant 0 <= total <= ENROLL_BUF_SIZE - 1 && total <= |stream|
      invariant buf[..total] == stream[..total]
      decreases ENROLL_BUF_SIZE - total
    {
      var room := ENROLL_BUF_SIZE - total - 1;
      var n := if |stream| - total < room then |stream| - total else room;
      if call < |pieces| && pieces[call] < n {
        n := pieces[call];
      }
      call := call + 1;
      if n == 0 {
        break;
      }
      forall i | 0 <= i < n {
        buf[total + i] := stream[total + i];
      }
      total := total + n;
    }
    buf[total] := '\0';
    assert buf[..][..total] == buf[..total];
    CStrTerminated(buf[..], total);
  }

  /** nr__enroll_request up to SSL_write, which gets the first written bytes out. */
  method SendRequest(serverIp: string, csr: string, deviceId: string, written: nat) returns (code: Code, sent: string)
    ensures sent <= RequestText(serverIp, deviceId, csr)
    ensures code.NR_OK? <==> sent == RequestText(serverIp, deviceId, csr) && |sent| < 16384
    ensures code == if |RequestText(serverIp, deviceId, csr)| >= 16384 then NR_ERR_MEM
                    else if written < |RequestText(serverIp, deviceId, csr)| then NR_ERR_IO else NR_OK
    ensures !code.NR_OK? ==> sent == if code.NR_ERR_MEM? then "" else RequestText(serverIp, deviceId, csr)[..written]
  {
    hide RequestText;
    var request := RequestText(serverIp, deviceId, csr);
    if |request| >= ENROLL_BUF_SIZE {
      return NR_ERR_MEM, "";
    }
    if written < |request| {
      return NR_ERR_IO, request[..written];
    }
    return NR_OK, request;
  }

  /** nr__enroll_request from there on; stream is what the server sends before the connection ends. */
  method ReceiveCertificate(stream: string, pieces: seq<Positive>, certOutLen: nat) returns (code: Code, certOut: string)
    ensures (code, certOut) == ParseResponse(Prefix(stream, 16383), certOutLen)
  {
    hide Find, CStr;
    var buf, total := ReadResponse(stream, pieces);
    var text := CStr(buf[..]);
    if !("HTTP/1.1 200" <= text) && !("HTTP/1.0 200" <= text) {
      return NR_ERR_PROTO, "";
    }
    var headersEnd := Find(text, CRLF2);
    if headersEnd.None? {
      return NR_ERR_PROTO, "";
    }
    var body := text[headersEnd.value + 4..];
    if Find(body, BEGIN_CERTIFICATE) == None {
      return NR_ERR_PROTO, "";
    }
    if |body| >= certOutLen {
      return NR_ERR_MEM, "";
    }
    return NR_OK, body;
  }

  /** nr__enroll_request on an established connection. */
  method EnrollRequest(serverIp: string, csr: string, deviceId: string, written: nat, stream: string,
                       pieces: seq<Positive>, certOutLen: nat)
    returns (code: Code, sent: string, certOut: string)
    ensures sent <= RequestText(serverIp, deviceId, csr)
    ensures var request := RequestText(serverIp, deviceId, csr);
            if |request| >= 16384 then code == NR_ERR_MEM && sent == "" && certOut == ""
            else if written < |request| then code == NR_ERR_IO && sent == request[..written] && certOut == ""
            else sent == request && (code, certOut) == ParseResponse(Prefix(stream, 16383), certOutLen)
  {
    hide RequestText, ParseResponse;
    certOut := "";
    code, sent := SendRequest(serverIp, csr, deviceId, written);
    if code.NR_OK? {
      code, certOut := ReceiveCertificate(stream, pieces, certOutLen);
    }
  }

  /** The part of nr_ctx that enrollment updates. */
  class Context {
    var clientCertPem: string

    constructor ()
      ensures clientCertPem == ""
    {
      clientCertPem := "";
    }

    /** The end of nr_enroll: the certificate is kept if it fits the context. */
    method Cache(certOut: string) returns (code: Code)
      modifies this
      ensures code == if |certOut| < 8192 then NR_OK else NR_ERR_MEM
      ensures clientCertPem == if code.NR_OK? then certOut else old(clientCertPem)
    {
      if |certOut| >= NR_MAX_PEM_LEN {
        return NR_ERR_MEM;
      }
      clientCertPem := certOut;
      return NR_OK;
    }

    /** nr_enroll, once the CSR is built; it was refused if it did not fit its buffer. */
    method Enroll(serverIp: string, csr: string, deviceId: string, written: nat, stream: string, pieces: seq<Positive>,
                  certOutLen: nat)
      returns (code: Code, sent: string, certOut: string)
      requires |csr| < 8192
      modifies this
      ensures sent <= RequestText(serverIp, deviceId, csr)
      ensures |RequestText(serverIp, deviceId, csr)| >= 16384 ==> code == NR_ERR_MEM && sent == ""
      ensures |RequestText(serverIp, deviceId, csr)| < 16384 ==>
                if written < |RequestText(serverIp, deviceId, csr)| then
                  code == NR_ERR_IO && sent == RequestText(serverIp, deviceId, csr)[..written]
                else
                  sent == RequestText(serverIp, deviceId, csr) && code == Enrolled(stream, certOutLen).0
      ensures code.NR_OK? ==> certOut == clientCertPem == Enrolled(stream, certOutLen).1
      ensures !code.NR_OK? ==> clientCertPem == old(clientCertPem)
    {
      hide RequestText, ParseResponse;
      code, sent, certOut := EnrollRequest(serverIp, csr, deviceId, written, stream, pieces, certOutLen);
      if code.NR_OK? {
        code := Cache(certOut);
      }
    }
  }
}
