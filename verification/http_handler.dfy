/** `src/network/http_handler.rs`: the inline handler of the terminal
    server. It has its own copy of the request parser, answers only GET,
    serves the two terminal assets and answers everything else with canned
    404 and 405 responses. The asset contents are parameters. */
module HttpHandler {
  import opened Common
  import Decimal
  import Http

  // ---------------------------------------------------------------- parsing

  /** `parse_http_request` of this file, loop by loop. It splits a request
      exactly as the directory server's parser does. */
  method ParseRequest(req: seq<byte>) returns (r: Http.Request)
    ensures r == Http.ParseRequest(req)
  {
    var methodEnd := ScanMethod(req);
    if methodEnd >= |req| {
      return Http.Request(Http.GetMethod, Http.RootPath, []);
    }
    var pathEnd := ScanPath(req, methodEnd + 1);
    var path := if pathEnd > methodEnd + 1 then req[methodEnd + 1..pathEnd] else Http.RootPath;
    var bodyStart := ScanBody(req);
    var body := if bodyStart > 0 && bodyStart < |req| then req[bodyStart..] else [];
    r := Http.Request(req[..methodEnd], path, body);
  }

  /** The first loop: the index of the first space. */
  method ScanMethod(req: seq<byte>) returns (e: nat)
    ensures e == Http.MethodEnd(req, 0)
  {
    e := 0;
    while e < |req| && req[e] != SPACE
      invariant e <= |req|
      invariant forall k :: 0 <= k < e ==> req[k] != SPACE
    {
      e := e + 1;
    }
  }

  /** The second loop: the index of the next space or `?`. */
  method ScanPath(req: seq<byte>, start: nat) returns (e: nat)
    requires start <= |req|
    ensures e == Http.PathEnd(req, start)
  {
    e := start;
    while e < |req| && req[e] != SPACE && req[e] != Http.QMARK
      invariant start <= e <= |req|
      invariant forall k :: start <= k < e ==> req[k] != SPACE && req[k] != Http.QMARK
    {
      e := e + 1;
    }
  }

  /** The third loop: where the body starts, or 0 without a blank line. */
  method ScanBody(req: seq<byte>) returns (start: nat)
    ensures Http.FindBlank(req, 0).None? ==> start == 0
    ensures Http.FindBlank(req, 0).Some? ==> start == Http.FindBlank(req, 0).value + 4
  {
    start := 0;
    var i := 0;
    while i + 3 < |req|
      invariant forall j :: 0 <= j < i && j + 4 <= |req| ==> !Http.BlankAt(req, j)
    {
      if req[i] == CR && req[i + 1] == LF && req[i + 2] == CR && req[i + 3] == LF {
        assert Http.BlankAt(req, i);
        return i + 4;
      }
      i := i + 1;
    }
  }

  // ---------------------------------------------------------------- responses

  const HeaderBuf: nat := 512

  /** One `for &b in ... { if pos >= 512 { break; } ... }` loop. */
  method AppendCapped(buf: seq<byte>, part: seq<byte>, cap: nat) returns (r: seq<byte>)
    requires |buf| <= cap
    ensures r == Trunc(buf + part, cap)
  {
    r := buf;
    var i := 0;
    while i < |part|
      invariant 0 <= i <= |part|
      invariant r == Trunc(buf + part[..i], cap)
    {
      if |r| >= cap {
        assert Trunc(buf + part, cap) == r by {
          assert (buf + part)[..cap] == (buf + part[..i])[..cap];
        }
        return;
      }
      r := r + [part[i]];
      assert buf + part[..i + 1] == buf + part[..i] + [part[i]];
      i := i + 1;
    }
    assert part[..i] == part;
  }

  /** The header `send_simple_response` writes: the response head, cut at
      512 bytes, built by six capped copies after the status prefix. */
  method SimpleHeader(status: seq<byte>, ctype: seq<byte>, bodyLen: nat) returns (r: seq<byte>)
    ensures r == Trunc(Http.Head(status, ctype, Decimal.Digits(bodyLen)), HeaderBuf)
  {
    var d := Decimal.Digits(bodyLen);
    var a := Http.StatusPrefix;
    r := a;
    r := AppendCapped(r, status, HeaderBuf);
    TruncAppend(a, status, HeaderBuf);
    a := a + status;
    r := AppendCapped(r, Http.TypeField, HeaderBuf);
    TruncAppend(a, Http.TypeField, HeaderBuf);
    a := a + Http.TypeField;
    r := AppendCapped(r, ctype, HeaderBuf);
    TruncAppend(a, ctype, HeaderBuf);
    a := a + ctype;
    r := AppendCapped(r, Http.LengthField, HeaderBuf);
    TruncAppend(a, Http.LengthField, HeaderBuf);
    a := a + Http.LengthField;
    r := AppendCapped(r, d, HeaderBuf);
    TruncAppend(a, d, HeaderBuf);
    a := a + d;
    r := AppendCapped(r, Http.BlankLine, HeaderBuf);
    TruncAppend(a, Http.BlankLine, HeaderBuf);
  }

  /** Cutting a longer text keeps the cut of the shorter one as a prefix. */
  lemma TruncAppend(a: seq<byte>, b: seq<byte>, cap: nat)
    ensures Trunc(a + b, cap) == Trunc(Trunc(a, cap) + b, cap)
  {
    if |a| > cap {
      assert (a + b)[..cap] == a[..cap];
      assert (a[..cap] + b)[..cap] == a[..cap];
    }
  }

  /** `send_simple_response`: the header, then the whole body. */
  function SimpleResponse(status: seq<byte>, ctype: seq<byte>, body: seq<byte>): (r: seq<byte>)
    ensures |Http.Head(status, ctype, Decimal.Digits(|body|))| <= HeaderBuf ==>
      r == Http.Head(status, ctype, Decimal.Digits(|body|)) + body
  {
    Trunc(Http.Head(status, ctype, Decimal.Digits(|body|)), HeaderBuf) + body
  }

  /** With a head that fits, a client reads the declared length as the
      body's length and the body whole. */
  lemma SimpleResponseReadsBack(status: seq<byte>, ctype: seq<byte>, body: seq<byte>)
    requires CR !in status && CR !in ctype
    requires |Http.Head(status, ctype, Decimal.Digits(|body|))| <= HeaderBuf
    ensures Http.ReadResponse(SimpleResponse(status, ctype, body)) == Some((|body|, body))
  {
    var d := Decimal.Digits(|body|);
    var p := Http.StatusPrefix + status + Http.TypeField + ctype + Http.LengthField;
    Http.HeadSafe(status, ctype, d);
    assert SimpleResponse(status, ctype, body) == p + d + Http.BlankLine + body;
    assert p[|p| - 1] == SPACE;
    Http.ReadAfterHead(p, d, body);
    Decimal.ValueOfDigits(|body|);
  }

  // ---------------------------------------------------------------- canned responses

  const Ok: seq<byte> := Ascii("200 OK")
  const NotFound: seq<byte> := Ascii("404 Not Found")
  const NotAllowed: seq<byte> := Ascii("405 Method Not Allowed")
  const Html: seq<byte> := Ascii("text/html")
  const NotFoundBody: seq<byte> := Ascii("<h1>404 Not Found</h1>")
  const NotAllowedBody: seq<byte> := Ascii("<h1>405 Not Allowed</h1>")
  const TerminalPage: seq<byte> := Ascii("/terminal.html")
  const TerminalScript: seq<byte> := Ascii("/terminal.js")

  /** The 404 literal as written: its head declares 20 bytes. */
  const NotFoundAsWritten: seq<byte> := Http.Head(NotFound, Html, Ascii("20")) + NotFoundBody

  /** The 405 literal as written: its head declares 23 bytes. */
  const NotAllowedAsWritten: seq<byte> := Http.Head(NotAllowed, Html, Ascii("23")) + NotAllowedBody

  /** The canned responses as written declare fewer bytes than their
      bodies hold: 20 for 22 and 23 for 24. A client that trusts the header
      loses the end of the body. */
  lemma CannedLengthsDisagree()
    ensures Http.ReadResponse(NotFoundAsWritten) == Some((20, NotFoundBody)) && |NotFoundBody| == 22
    ensures Http.ReadResponse(NotAllowedAsWritten) == Some((23, NotAllowedBody)) && |NotAllowedBody| == 24
  {
    CannedReads(NotFound, Ascii("20"), NotFoundBody);
    CannedReads(NotAllowed, Ascii("23"), NotAllowedBody);
  }

  lemma CannedReads(status: seq<byte>, digits: seq<byte>, body: seq<byte>)
    requires CR !in status && Decimal.AllDigits(digits) && |digits| > 0
    ensures Http.ReadResponse(Http.Head(status, Html, digits) + body) == Some((Decimal.Value(digits), body))
  {
    var p := Http.StatusPrefix + status + Http.TypeField + Html + Http.LengthField;
    HtmlHasNoCr();
    Http.HeadSafe(status, Html, digits);
    assert p[|p| - 1] == SPACE;
    Http.ReadAfterHead(p, digits, body);
  }

  lemma HtmlHasNoCr()
    ensures CR !in Html
  {
  }

  /** A canned response whose Content-Length is the body's own length. */
  function Canned(status: seq<byte>, body: seq<byte>): (r: seq<byte>)
    requires CR !in status
    ensures Http.ReadResponse(r) == Some((|body|, body))
  {
    var r := Http.Head(status, Html, Decimal.Digits(|body|)) + body;
    CannedReads(status, Decimal.Digits(|body|), body);
    Decimal.ValueOfDigits(|body|);
    r
  }

  // ---------------------------------------------------------------- routing

  /** The routing of `handle_http_request_inline`, given the two error
      answers it sends. The two assets are parameters. */
  function Route(req: seq<byte>, page: seq<byte>, script: seq<byte>, notAllowed: seq<byte>, notFound: seq<byte>)
    : (r: seq<byte>)
    ensures var q := Http.ParseRequest(req);
      && (q.verb != Http.GetMethod ==> r == notAllowed)
      && (q.verb == Http.GetMethod && (q.path == Http.RootPath || q.path == TerminalPage) ==>
            r == SimpleResponse(Ok, Http.TextHtml, page))
      && (q.verb == Http.GetMethod && q.path == TerminalScript ==> r == SimpleResponse(Ok, Http.Javascript, script))
      && (q.verb == Http.GetMethod && q.path !in {Http.RootPath, TerminalPage, TerminalScript} ==> r == notFound)
  {
    var q := Http.ParseRequest(req);
    assert TerminalPage != TerminalScript by { assert TerminalPage[11] != TerminalScript[11]; }
    assert Http.RootPath != TerminalScript;
    if q.verb != Http.GetMethod then notAllowed
    else if q.path == Http.RootPath || q.path == TerminalPage then SimpleResponse(Ok, Http.TextHtml, page)
    else if q.path == TerminalScript then SimpleResponse(Ok, Http.Javascript, script)
    else notFound
  }

  /** The assets read back whole whenever their heads fit. */
  lemma AssetsReadBack(page: seq<byte>, script: seq<byte>)
    ensures |Http.Head(Ok, Http.TextHtml, Decimal.Digits(|page|))| <= HeaderBuf ==>
      Http.ReadResponse(SimpleResponse(Ok, Http.TextHtml, page)) == Some((|page|, page))
    ensures |Http.Head(Ok, Http.Javascript, Decimal.Digits(|script|))| <= HeaderBuf ==>
      Http.ReadResponse(SimpleResponse(Ok, Http.Javascript, script)) == Some((|script|, script))
  {
    if |Http.Head(Ok, Http.TextHtml, Decimal.Digits(|page|))| <= HeaderBuf {
      SimpleResponseReadsBack(Ok, Http.TextHtml, page);
    }
    if |Http.Head(Ok, Http.Javascript, Decimal.Digits(|script|))| <= HeaderBuf {
      SimpleResponseReadsBack(Ok, Http.Javascript, script);
    }
  }

  /** `handle_http_request_inline` as written: a client reads the 405 and
      404 answers with the short lengths their literals declare. */
  function HandleInline(req: seq<byte>, page: seq<byte>, script: seq<byte>): (r: seq<byte>)
    ensures var q := Http.ParseRequest(req);
      && (q.verb != Http.GetMethod ==> Http.ReadResponse(r) == Some((23, NotAllowedBody)))
      && (q.verb == Http.GetMethod && (q.path == Http.RootPath || q.path == TerminalPage) &&
          |Http.Head(Ok, Http.TextHtml, Decimal.Digits(|page|))| <= HeaderBuf ==>
            Http.ReadResponse(r) == Some((|page|, page)))
      && (q.verb == Http.GetMethod && q.path == TerminalScript &&
          |Http.Head(Ok, Http.Javascript, Decimal.Digits(|script|))| <= HeaderBuf ==>
            Http.ReadResponse(r) == Some((|script|, script)))
      && (q.verb == Http.GetMethod && q.path !in {Http.RootPath, TerminalPage, TerminalScript} ==>
            Http.ReadResponse(r) == Some((20, NotFoundBody)))
  {
    CannedLengthsDisagree();
    AssetsReadBack(page, script);
    Route(req, page, script, NotAllowedAsWritten, NotFoundAsWritten)
  }

  /** The handler with the canned answers corrected: every answer declares
      its body's true length. */
  function HandleInlineCorrected(req: seq<byte>, page: seq<byte>, script: seq<byte>): (r: seq<byte>)
    ensures var q := Http.ParseRequest(req);
      && (q.verb != Http.GetMethod ==> Http.ReadResponse(r) == Some((|NotAllowedBody|, NotAllowedBody)))
      && (q.verb == Http.GetMethod && (q.path == Http.RootPath || q.path == TerminalPage) &&
          |Http.Head(Ok, Http.TextHtml, Decimal.Digits(|page|))| <= HeaderBuf ==>
            Http.ReadResponse(r) == Some((|page|, page)))
      && (q.verb == Http.GetMethod && q.path == TerminalScript &&
          |Http.Head(Ok, Http.Javascript, Decimal.Digits(|script|))| <= HeaderBuf ==>
            Http.ReadResponse(r) == Some((|script|, script)))
      && (q.verb == Http.GetMethod && q.path !in {Http.RootPath, TerminalPage, TerminalScript} ==>
            Http.ReadResponse(r) == Some((|NotFoundBody|, NotFoundBody)))
  {
    AssetsReadBack(page, script);
    Route(req, page, script, Canned(NotAllowed, NotAllowedBody), Canned(NotFound, NotFoundBody))
  }
}
