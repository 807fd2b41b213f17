/** The request and response helpers of the directory server in
    `src/server.rs`: the request split, form and percent decoding, the
    content type guessed from a file name, the response layout with its
    decimal Content-Length, HTML escaping and the choice of handler. The
    server's sockets, file reads and HTML templates are not modelled. */
module Http {
  import opened Common
  import Decimal

  const PLUS: byte := 43
  const PERCENT: byte := 37
  const AMP: byte := 38
  const DOT: byte := 46
  const SLASH: byte := 47
  const QMARK: byte := 63
  const LT: byte := 60
  const GT: byte := 62

  /** The end of the header block, `\r\n\r\n`. */
  const BlankLine: seq<byte> := [CR, LF, CR, LF]

  // ---------------------------------------------------------------- htons

  /** `htons`: the two bytes of a 16-bit value, swapped. */
  function Htons(port: nat): (r: nat)
    requires port < 65536
    ensures r < 65536
    ensures r / 256 == port % 256 && r % 256 == port / 256
  {
    (port % 256) * 256 + port / 256
  }

  lemma HtonsInvolution(port: nat)
    requires port < 65536
    ensures Htons(Htons(port)) == port
  {
    var r := Htons(port);
    assert r / 256 == port % 256 && r % 256 == port / 256;
  }

  // ---------------------------------------------------------------- requests

  predicate BlankAt(s: seq<byte>, i: nat)
    requires i + 4 <= |s|
  {
    s[i] == CR && s[i + 1] == LF && s[i + 2] == CR && s[i + 3] == LF
  }

  /** The first `\r\n\r\n` at or after `from`. */
  function FindBlank(s: seq<byte>, from: nat): (r: Option<nat>)
    ensures r.Some? ==> from <= r.value && r.value + 4 <= |s| && BlankAt(s, r.value)
    ensures r.Some? ==> forall j :: from <= j < r.value ==> !BlankAt(s, j)
    ensures r.None? ==> forall j :: from <= j && j + 4 <= |s| ==> !BlankAt(s, j)
    decreases |s| - from
  {
    if from + 4 > |s| then None
    else if BlankAt(s, from) then Some(from)
    else FindBlank(s, from + 1)
  }

  /** Every CR is followed two bytes later by something other than CR, as
      in a header block whose lines are separated by single CRLFs. */
  predicate CrSafe(s: seq<byte>) {
    forall j :: 0 <= j < |s| && s[j] == CR ==> j + 2 < |s| && s[j + 2] != CR
  }

  lemma CrSafeAppend(a: seq<byte>, b: seq<byte>)
    requires CrSafe(a) && CrSafe(b)
    ensures CrSafe(a + b)
  {
    var s := a + b;
    forall j | 0 <= j < |s| && s[j] == CR
      ensures j + 2 < |s| && s[j + 2] != CR
    {
      if j < |a| {
        assert a[j] == CR;
      } else {
        assert b[j - |a|] == CR;
      }
    }
  }

  lemma NoCrIsSafe(s: seq<byte>)
    requires CR !in s
    ensures CrSafe(s)
  {
    forall j | 0 <= j < |s| ensures s[j] != CR {
      assert s[j] in s;
    }
  }

  /** A blank line after a header block with single CRLFs is the first one. */
  lemma BlankAfter(head: seq<byte>, rest: seq<byte>)
    requires CrSafe(head)
    ensures FindBlank(head + BlankLine + rest, 0) == Some(|head|)
  {
    var s := head + BlankLine + rest;
    assert BlankAt(s, |head|);
    forall j | 0 <= j < |head| ensures !BlankAt(s, j) {
      if head[j] == CR {
        assert s[j + 2] == head[j + 2];
      }
    }
  }

  datatype Request = Request(verb: seq<byte>, path: seq<byte>, body: seq<byte>)

  const GetMethod: seq<byte> := Ascii("GET")
  const PostMethod: seq<byte> := Ascii("POST")
  const RootPath: seq<byte> := Ascii("/")

  /** The end of the request target: the first space or `?` from `i`. */
  function PathEnd(s: seq<byte>, i: nat): (e: nat)
    requires i <= |s|
    ensures i <= e <= |s|
    ensures forall k :: i <= k < e ==> s[k] != SPACE && s[k] != QMARK
    ensures e < |s| ==> s[e] == SPACE || s[e] == QMARK
    decreases |s| - i
  {
    if i == |s| || s[i] == SPACE || s[i] == QMARK then i else PathEnd(s, i + 1)
  }

  /** The first space, or `|s|`. */
  function MethodEnd(s: seq<byte>, i: nat): (e: nat)
    requires i <= |s|
    ensures i <= e <= |s|
    ensures forall k :: i <= k < e ==> s[k] != SPACE
    ensures e < |s| ==> s[e] == SPACE
    decreases |s| - i
  {
    if i == |s| || s[i] == SPACE then i else MethodEnd(s, i + 1)
  }

  /** Everything after the first blank line, or nothing. */
  function BodyOf(req: seq<byte>): (r: seq<byte>)
    ensures |r| <= |req| && r == req[|req| - |r|..]
  {
    match FindBlank(req, 0)
    case None => []
    case Some(i) => if i + 4 < |req| then req[i + 4..] else []
  }

  /** `parse_http_request`: the method up to the first space, the target up
      to the next space or `?` (or `/` when empty), and the body after the
      first blank line. Without a space the request reads as `GET /`. */
  function ParseRequest(req: seq<byte>): (r: Request)
    ensures SPACE !in req ==> r == Request(GetMethod, RootPath, [])
    ensures SPACE !in r.verb && r.path != [] && SPACE !in r.path && QMARK !in r.path
    ensures SPACE in req ==> r.verb <= req && r.body == BodyOf(req)
  {
    var m := MethodEnd(req, 0);
    if m >= |req| then
      assert SPACE !in GetMethod && SPACE !in RootPath && QMARK !in RootPath;
      Request(GetMethod, RootPath, [])
    else
      var p := PathEnd(req, m + 1);
      var path := if p > m + 1 then req[m + 1..p] else RootPath;
      assert forall k :: 0 <= k < |req[..m]| ==> req[..m][k] == req[k];
      assert p > m + 1 ==> forall k :: 0 <= k < |path| ==> path[k] == req[m + 1 + k];
      Request(req[..m], path, BodyOf(req))
  }

  /** A request built from a method, a target and a header block separated
      by single CRLFs parses back into its parts. */
  lemma RequestRoundTrip(verb: seq<byte>, path: seq<byte>, rest: seq<byte>, body: seq<byte>)
    requires SPACE !in verb && |path| > 0 && SPACE !in path && QMARK !in path
    requires |rest| > 0 && (rest[0] == SPACE || rest[0] == QMARK)
    requires CrSafe(verb + [SPACE] + path + rest)
    ensures ParseRequest(verb + [SPACE] + path + rest + BlankLine + body) == Request(verb, path, body)
  {
    var head := verb + [SPACE] + path + rest;
    var req := head + BlankLine + body;
    var start := |verb| + 1;
    assert MethodEnd(req, 0) == |verb| && req[..|verb|] == verb by {
      assert req[..start] == verb + [SPACE];
      MethodEndAt(req, verb);
    }
    assert PathEnd(req, start) == start + |path| && req[start..start + |path|] == path by {
      assert req[start..start + |path|] == path;
      assert req[start + |path|] == rest[0];
      PathEndAt(req, start, path);
    }
    assert BodyOf(req) == body by {
      BlankAfter(head, body);
      assert req[|head| + 4..] == body;
    }
    ParseParts(req, verb, path, body);
  }

  /** A request whose method and target are non-empty parses into them and
      its body. */
  lemma ParseParts(req: seq<byte>, verb: seq<byte>, path: seq<byte>, body: seq<byte>)
    requires |verb| < |req| && MethodEnd(req, 0) == |verb| && req[..|verb|] == verb
    requires |path| > 0 && |verb| + 1 + |path| <= |req|
    requires PathEnd(req, |verb| + 1) == |verb| + 1 + |path|
    requires req[|verb| + 1..|verb| + 1 + |path|] == path
    requires BodyOf(req) == body
    ensures ParseRequest(req) == Request(verb, path, body)
  {
  }

  lemma MethodEndAt(s: seq<byte>, w: seq<byte>)
    requires SPACE !in w && |w| < |s| && s[..|w| + 1] == w + [SPACE]
    ensures MethodEnd(s, 0) == |w| && s[..|w|] == w
  {
    assert s[|w|] == (w + [SPACE])[|w|];
    assert s[..|w|] == (w + [SPACE])[..|w|];
  }

  lemma PathEndAt(s: seq<byte>, i: nat, path: seq<byte>)
    requires SPACE !in path && QMARK !in path
    requires i + |path| < |s| && s[i..i + |path|] == path
    requires s[i + |path|] == SPACE || s[i + |path|] == QMARK
    ensures PathEnd(s, i) == i + |path|
  {
  }

  // ---------------------------------------------------------------- url decoding

  predicate IsHexDigit(c: byte) {
    48 <= c <= 57 || 97 <= c <= 102 || 65 <= c <= 70
  }

  /** `hex_to_byte`: the digit's value, or 255 for a non-hex byte. */
  function HexValue(c: byte): (r: byte)
    ensures r < 16 <==> IsHexDigit(c)
    ensures !IsHexDigit(c) ==> r == 255
  {
    if 48 <= c <= 57 then c - 48
    else if 97 <= c <= 102 then c - 97 + 10
    else if 65 <= c <= 70 then c - 65 + 10
    else 255
  }

  /** The upper-case hex digit of a nibble. */
  function HexDigit(v: nat): (c: byte)
    requires v < 16
    ensures IsHexDigit(c) && HexValue(c) == v
  {
    if v < 10 then 48 + v else 65 + v - 10
  }

  /** The whole input decoded: `+` is a space, `%XY` with two hex digits is
      one byte, everything else is copied. */
  function Decode(s: seq<byte>): (r: seq<byte>)
    ensures |r| <= |s|
    decreases |s|
  {
    if |s| == 0 then [] else [StepByte(s)] + Decode(s[StepLen(s)..])
  }

  /** Whether `s` starts with `%` and two hex digits. */
  predicate IsEscape(s: seq<byte>) {
    |s| > 2 && s[0] == PERCENT && HexValue(s[1]) < 16 && HexValue(s[2]) < 16
  }

  /** The byte one decoding step writes. */
  function StepByte(s: seq<byte>): byte
    requires |s| > 0
  {
    if s[0] == PLUS then SPACE
    else if IsEscape(s) then HexValue(s[1]) * 16 + HexValue(s[2])
    else s[0]
  }

  /** The number of input bytes one decoding step consumes. */
  function StepLen(s: seq<byte>): (n: nat)
    requires |s| > 0
    ensures 1 <= n <= |s|
  {
    if s[0] != PLUS && IsEscape(s) then 3 else 1
  }

  /** `url_decode`: the decoding loop into a `cap`-byte buffer. Every step
      writes one byte, so it stops with the first `cap` bytes of the whole
      decoding. */
  method UrlDecode(input: seq<byte>, cap: nat) returns (out: seq<byte>)
    ensures out == Trunc(Decode(input), cap)
    ensures |out| <= |input| && |out| <= cap
  {
    out := [];
    var i := 0;
    assert input[0..] == input;
    while i < |input| && |out| < cap
      invariant 0 <= i <= |input| && |out| <= cap
      invariant Decode(input) == out + Decode(input[i..])
      decreases |input| - i
    {
      var b, n := DecodeAt(input, i);
      Advance(input, i, out);
      out := out + [b];
      i := i + n;
    }
    DecodeStops(input, i, out, cap);
  }

  /** One step of the loop body at index `i`: the byte written and the
      number of input bytes consumed. */
  method DecodeAt(input: seq<byte>, i: nat) returns (b: byte, n: nat)
    requires i < |input|
    ensures b == StepByte(input[i..]) && n == StepLen(input[i..])
  {
    ghost var s := input[i..];
    assert s[0] == input[i];
    if input[i] == PLUS {
      b, n := SPACE, 1;
    } else if input[i] == PERCENT && i + 2 < |input| {
      assert s[1] == input[i + 1] && s[2] == input[i + 2];
      var h1 := HexValue(input[i + 1]);
      var h2 := HexValue(input[i + 2]);
      if h1 < 16 && h2 < 16 {
        b, n := h1 * 16 + h2, 3;
      } else {
        b, n := input[i], 1;
      }
    } else {
      assert !IsEscape(s);
      b, n := input[i], 1;
    }
  }

  lemma DecodeStops(input: seq<byte>, i: nat, out: seq<byte>, cap: nat)
    requires i <= |input| && |out| <= cap && (i == |input| || |out| == cap)
    requires Decode(input) == out + Decode(input[i..])
    ensures out == Trunc(Decode(input), cap)
    ensures |out| <= |input|
  {
    if i == |input| {
      assert input[i..] == [];
    } else {
      assert (out + Decode(input[i..]))[..cap] == out;
    }
  }

  lemma Advance(input: seq<byte>, i: nat, out: seq<byte>)
    requires i < |input| && Decode(input) == out + Decode(input[i..])
    ensures Decode(input) == (out + [StepByte(input[i..])]) + Decode(input[i + StepLen(input[i..])..])
  {
    DecodeStep(input, i);
  }

  lemma DecodeStep(input: seq<byte>, i: nat)
    requires i < |input|
    ensures var s := input[i..];
      Decode(s) == [StepByte(s)] + Decode(input[i + StepLen(s)..])
  {
    var s := input[i..];
    assert s[StepLen(s)..] == input[i + StepLen(s)..];
  }

  /** Percent-encoding of every byte. */
  function PercentEncode(s: seq<byte>): (r: seq<byte>)
    ensures |r| == 3 * |s|
  {
    if |s| == 0 then [] else [PERCENT, HexDigit(s[0] / 16), HexDigit(s[0] % 16)] + PercentEncode(s[1..])
  }

  /** Decoding undoes percent-encoding. */
  lemma {:induction false} DecodeEncoded(s: seq<byte>)
    ensures Decode(PercentEncode(s)) == s
  {
    if |s| > 0 {
      var e := PercentEncode(s);
      assert e[3..] == PercentEncode(s[1..]);
      DecodeEncoded(s[1..]);
      assert HexValue(e[1]) * 16 + HexValue(e[2]) == s[0];
    }
  }

  /** Text without `+` or `%` decodes to itself. */
  lemma {:induction false} DecodePlain(s: seq<byte>)
    requires PLUS !in s && PERCENT !in s
    ensures Decode(s) == s
  {
    if |s| > 0 {
      assert s[0] in s;
      assert forall x :: x in s[1..] ==> x in s;
      DecodePlain(s[1..]);
    }
  }

  // ---------------------------------------------------------------- upload form

  const FilenameKey: seq<byte> := Ascii("filename=")
  const ContentKey: seq<byte> := Ascii("content=")

  predicate KeyAt(s: seq<byte>, i: nat, key: seq<byte>) {
    i + |key| <= |s| && s[i..i + |key|] == key
  }

  /** The first `i` with `from <= i < to` at which `key` starts. */
  function FindKey(s: seq<byte>, key: seq<byte>, from: nat, to: nat): (r: Option<nat>)
    ensures r.Some? ==> from <= r.value < to && KeyAt(s, r.value, key)
    ensures r.Some? ==> forall i :: from <= i < r.value ==> !KeyAt(s, i, key)
    ensures r.None? ==> forall i :: from <= i < to ==> !KeyAt(s, i, key)
    decreases if from < to then to - from else 0
  {
    if from >= to then None
    else if KeyAt(s, from, key) then Some(from)
    else FindKey(s, key, from + 1, to)
  }

  /** `saturating_sub`. */
  function SatSub(a: nat, b: nat): nat {
    if a >= b then a - b else 0
  }

  /** The first `&` from `i`, or `|s|`. */
  function AmpEnd(s: seq<byte>, i: nat): (e: nat)
    requires i <= |s|
    ensures i <= e <= |s|
    ensures forall k :: i <= k < e ==> s[k] != AMP
    ensures e < |s| ==> s[e] == AMP
    decreases |s| - i
  {
    if i == |s| || s[i] == AMP then i else AmpEnd(s, i + 1)
  }

  /** The raw file name and content of a `filename=...&content=...` body.
      Both searches stop one position early, so a key must be followed by
      at least one byte. */
  function ParseUpload(body: seq<byte>): (r: Option<(seq<byte>, seq<byte>)>)
    ensures r.Some? ==> |r.value.0| > 0 && AMP !in r.value.0
  {
    match FindKey(body, FilenameKey, 0, SatSub(|body|, |FilenameKey|))
    case None => None
    case Some(f) =>
      var start := f + |FilenameKey|;
      var end := AmpEnd(body, start);
      match FindKey(body, ContentKey, end, SatSub(|body|, |ContentKey|))
      case None => None
      case Some(c) =>
        if start >= end then None
        else
          var name := body[start..end];
          assert forall k :: 0 <= k < |name| ==> name[k] == body[start + k];
          Some((name, body[c + |ContentKey|..]))
  }

  /** A form body with a non-empty name and content reads back. */
  lemma UploadRoundTrip(name: seq<byte>, content: seq<byte>)
    requires |name| > 0 && AMP !in name && |content| > 0
    ensures ParseUpload(FilenameKey + name + [AMP] + ContentKey + content) == Some((name, content))
  {
    var body := FilenameKey + name + [AMP] + ContentKey + content;
    assert KeyAt(body, 0, FilenameKey);
    var start := |FilenameKey|;
    var end := start + |name|;
    forall k | start <= k < end ensures body[k] != AMP {
      assert body[k] == name[k - start];
      assert name[k - start] in name;
    }
    assert body[end] == AMP;
    assert AmpEnd(body, start) == end;
    assert !KeyAt(body, end, ContentKey) by {
      assert body[end] != ContentKey[0];
    }
    assert KeyAt(body, end + 1, ContentKey);
    assert body[start..end] == name;
    assert body[end + 1 + |ContentKey|..] == content;
  }

  /** As written, an upload whose content is empty is refused: the search
      for `content=` never looks at its last possible position. */
  lemma EmptyContentRefused(name: seq<byte>)
    requires |name| > 0 && AMP !in name
    ensures ParseUpload(FilenameKey + name + [AMP] + ContentKey) == None
  {
    var body := FilenameKey + name + [AMP] + ContentKey;
    assert KeyAt(body, 0, FilenameKey);
    var start := |FilenameKey|;
    var end := start + |name|;
    forall k | start <= k < end ensures body[k] != AMP {
      assert body[k] == name[k - start];
      assert name[k - start] in name;
    }
    assert body[end] == AMP;
    assert AmpEnd(body, start) == end;
    assert !KeyAt(body, end, ContentKey) by {
      assert body[end] != ContentKey[0];
    }
  }

  const NameBuf: nat := 256
  const ContentBuf: nat := 4096

  /** `handle_post_upload` without the file creation: the decoded name and
      content, each cut to its buffer, or `None` when the form is refused. */
  method Upload(body: seq<byte>) returns (r: Option<(seq<byte>, seq<byte>)>)
    ensures r.None? <==> ParseUpload(body).None?
    ensures r.Some? ==> r.value == (Trunc(Decode(ParseUpload(body).value.0), NameBuf),
                                    Trunc(Decode(ParseUpload(body).value.1), ContentBuf))
  {
    match ParseUpload(body)
    case None => r := None;
    case Some(form) =>
      var name := UrlDecode(form.0, NameBuf);
      var content := UrlDecode(form.1, ContentBuf);
      r := Some((name, content));
  }

  // ---------------------------------------------------------------- content type

  /** No `.`, `/` or NUL after position `d`. */
  predicate PlainTail(path: seq<byte>, d: nat) {
    forall k :: d < k < |path| ==> path[k] != DOT && path[k] != SLASH && path[k] != NUL
  }

  /** The backward scan for the last `.` of the final component; it stops
      at `/` or NUL. */
  function DotScan(path: seq<byte>, i: nat): (r: Option<nat>)
    requires i <= |path|
    requires i == 0 || PlainTail(path, i - 1)
    requires i == 0 ==> forall k :: 0 <= k < |path| ==> path[k] != DOT && path[k] != SLASH && path[k] != NUL
    ensures r.Some? ==> r.value < |path| && path[r.value] == DOT && PlainTail(path, r.value)
    ensures r.None? ==> forall d :: 0 <= d < |path| && path[d] == DOT ==> !PlainTail(path, d)
  {
    if i == 0 then None
    else if path[i - 1] == DOT then Some(i - 1)
    else if path[i - 1] == SLASH || path[i - 1] == NUL then
      assert forall d :: 0 <= d < i - 1 ==> !PlainTail(path, d);
      None
    else DotScan(path, i - 1)
  }

  function LastDot(path: seq<byte>): (r: Option<nat>)
    ensures r.Some? ==> r.value < |path| && path[r.value] == DOT && PlainTail(path, r.value)
    ensures r.None? ==> forall d :: 0 <= d < |path| && path[d] == DOT ==> !PlainTail(path, d)
  {
    DotScan(path, |path|)
  }

  const TextHtml: seq<byte> := Ascii("text/html; charset=utf-8")
  const TextPlain: seq<byte> := Ascii("text/plain; charset=utf-8")
  const Javascript: seq<byte> := Ascii("application/javascript")
  const Json: seq<byte> := Ascii("application/json")
  const Css: seq<byte> := Ascii("text/css")
  const Png: seq<byte> := Ascii("image/png")
  const Jpeg: seq<byte> := Ascii("image/jpeg")
  const Gif: seq<byte> := Ascii("image/gif")
  const Svg: seq<byte> := Ascii("image/svg+xml")
  const OctetStream: seq<byte> := Ascii("application/octet-stream")

  /** Some extension of the table starts `ext`. */
  predicate KnownPrefix(ext: seq<byte>) {
    exists known :: known in KnownExtensions && known <= ext
  }

  const KnownExtensions: seq<seq<byte>> :=
    [Ascii("html"), Ascii("htm"), Ascii("txt"), Ascii("js"), Ascii("json"), Ascii("css"),
     Ascii("png"), Ascii("jpg"), Ascii("jpeg"), Ascii("gif"), Ascii("svg")]

  /** The prefix tests in order; the first one that matches wins. */
  function TypeOfExt(ext: seq<byte>): (r: seq<byte>)
    ensures r in {TextHtml, TextPlain, Javascript, Json, Css, Png, Jpeg, Gif, Svg, OctetStream}
  {
    if Ascii("html") <= ext || Ascii("htm") <= ext then TextHtml
    else if Ascii("txt") <= ext then TextPlain
    else if Ascii("js") <= ext then Javascript
    else if Ascii("json") <= ext then Json
    else if Ascii("css") <= ext then Css
    else if Ascii("png") <= ext then Png
    else if Ascii("jpg") <= ext || Ascii("jpeg") <= ext then Jpeg
    else if Ascii("gif") <= ext then Gif
    else if Ascii("svg") <= ext then Svg
    else OctetStream
  }

  /** The fallback type is given exactly to extensions the table does not
      know. */
  lemma OctetStreamIffUnknown(ext: seq<byte>)
    ensures TypeOfExt(ext) == OctetStream <==> !KnownPrefix(ext)
  {
    var r := TypeOfExt(ext);
    if KnownPrefix(ext) {
      var i :| 0 <= i < |KnownExtensions| && KnownExtensions[i] <= ext;
      assert r != OctetStream by {
        assert |OctetStream| == 24 && OctetStream[0] == 97 && OctetStream[12] == 111;
        assert r[0] == 116 || r[0] == 105 || (r[0] == 97 && r[12] != 111);
      }
    } else {
      forall i | 0 <= i < |KnownExtensions| ensures !(KnownExtensions[i] <= ext) {
        assert KnownExtensions[i] in KnownExtensions;
      }
      var k := KnownExtensions;
      assert !(k[0] <= ext) && !(k[1] <= ext) && !(k[2] <= ext) && !(k[3] <= ext);
      assert !(k[4] <= ext) && !(k[5] <= ext) && !(k[6] <= ext) && !(k[7] <= ext);
      assert !(k[8] <= ext) && !(k[9] <= ext) && !(k[10] <= ext);
    }
  }

  /** `detect_content_type`. */
  function ContentType(path: seq<byte>): (r: seq<byte>)
    ensures |path| > 0 && path[|path| - 1] == NUL ==> r == OctetStream
  {
    match LastDot(path)
    case None => OctetStream
    case Some(d) =>
      assert path[|path| - 1] == NUL ==> d == |path| - 1 || !PlainTail(path, d);
      TypeOfExt(path[d + 1..])
  }

  /** A name `stem.ext` whose extension holds no `.`, `/` or NUL is typed by
      its extension alone. */
  lemma ContentTypeOfName(stem: seq<byte>, ext: seq<byte>)
    requires DOT !in ext && SLASH !in ext && NUL !in ext
    ensures ContentType(stem + [DOT] + ext) == TypeOfExt(ext)
  {
    var path := stem + [DOT] + ext;
    var d := |stem|;
    forall k | d < k < |path| ensures path[k] != DOT && path[k] != SLASH && path[k] != NUL {
      assert path[k] == ext[k - d - 1];
      assert ext[k - d - 1] in ext;
    }
    assert path[d] == DOT;
    assert PlainTail(path, d);
    assert path[d + 1..] == ext;
  }

  /** Since `js` is tested before `json`, a JSON file is served as
      JavaScript. */
  lemma JsonServedAsJavascript(ext: seq<byte>)
    requires Ascii("json") <= ext
    ensures TypeOfExt(ext) == Javascript
  {
    var j := Ascii("json");
    assert ext[0] == j[0] == 106 && ext[1] == j[1] == 115;
    assert !(Ascii("html") <= ext) && !(Ascii("htm") <= ext) && !(Ascii("txt") <= ext);
    assert Ascii("js") <= ext;
  }

  // ---------------------------------------------------------------- responses

  const StatusPrefix: seq<byte> := Ascii("HTTP/1.1 ")
  const TypeField: seq<byte> := [CR, LF] + Ascii("Content-Type: ")
  const LengthField: seq<byte> := [CR, LF] + Ascii("Content-Length: ")

  /** The response head: status line, Content-Type, Content-Length with the
      given digits, and the blank line. */
  function Head(status: seq<byte>, ctype: seq<byte>, digits: seq<byte>): seq<byte> {
    StatusPrefix + status + TypeField + ctype + LengthField + digits + BlankLine
  }

  const ResponseBuf: nat := 8192

  /** `send_response`: the head with the body's decimal length, then as
      much of the body as fits in the 8192-byte buffer. */
  function Response(status: seq<byte>, ctype: seq<byte>, body: seq<byte>): (r: seq<byte>)
    requires |Head(status, ctype, Decimal.Digits(|body|))| <= ResponseBuf
    ensures var h := Head(status, ctype, Decimal.Digits(|body|));
      && h <= r && |r| <= ResponseBuf
      && r[|h|..] == Trunc(body, ResponseBuf - |h|)
  {
    var h := Head(status, ctype, Decimal.Digits(|body|));
    var r := h + Trunc(body, ResponseBuf - |h|);
    assert r[|h|..] == Trunc(body, ResponseBuf - |h|);
    r
  }

  /** The digits at the end of `s`. */
  function TrailingDigits(s: seq<byte>): (r: seq<byte>)
    ensures Decimal.AllDigits(r) && |r| <= |s| && r == s[|s| - |r|..]
  {
    if |s| == 0 || !Decimal.IsDigit(s[|s| - 1]) then []
    else
      var t := TrailingDigits(s[..|s| - 1]);
      assert s[|s| - 1 - |t|..] == s[..|s| - 1][|s| - 1 - |t|..] + [s[|s| - 1]];
      t + [s[|s| - 1]]
  }

  lemma {:induction false} TrailingDigitsAfter(p: seq<byte>, d: seq<byte>)
    requires |p| > 0 && !Decimal.IsDigit(p[|p| - 1]) && Decimal.AllDigits(d)
    ensures TrailingDigits(p + d) == d
    decreases |d|
  {
    if |d| == 0 {
      assert p + d == p;
    } else {
      var d' := d[..|d| - 1];
      assert (p + d)[..|p + d| - 1] == p + d';
      TrailingDigitsAfter(p, d');
      assert d == d' + [d[|d| - 1]];
    }
  }

  /** A client's reading of a response: the number that ends the head, and
      everything after the blank line. */
  function ReadResponse(resp: seq<byte>): Option<(nat, seq<byte>)> {
    match FindBlank(resp, 0)
    case None => None
    case Some(i) =>
      var d := TrailingDigits(resp[..i]);
      if d == [] then None else Some((Decimal.Value(d), resp[i + 4..]))
  }

  lemma HeadSafe(status: seq<byte>, ctype: seq<byte>, digits: seq<byte>)
    requires CR !in status && CR !in ctype && Decimal.AllDigits(digits)
    ensures CrSafe(StatusPrefix + status + TypeField + ctype + LengthField + digits)
  {
    NoCrIsSafe(StatusPrefix);
    NoCrIsSafe(status);
    NoCrIsSafe(ctype);
    assert CR !in digits by {
      forall k | 0 <= k < |digits| ensures digits[k] != CR {
        assert Decimal.IsDigit(digits[k]);
      }
    }
    NoCrIsSafe(digits);
    assert CrSafe(TypeField);
    assert CrSafe(LengthField);
    CrSafeAppend(StatusPrefix, status);
    CrSafeAppend(StatusPrefix + status, TypeField);
    CrSafeAppend(StatusPrefix + status + TypeField, ctype);
    CrSafeAppend(StatusPrefix + status + TypeField + ctype, LengthField);
    CrSafeAppend(StatusPrefix + status + TypeField + ctype + LengthField, digits);
  }

  /** The reader on a head of the form `<fields>: <digits>` and a blank
      line. */
  lemma ReadAfterHead(p: seq<byte>, d: seq<byte>, rest: seq<byte>)
    requires CrSafe(p + d) && |p| > 0 && p[|p| - 1] == SPACE
    requires Decimal.AllDigits(d) && |d| > 0
    ensures ReadResponse(p + d + BlankLine + rest) == Some((Decimal.Value(d), rest))
  {
    var resp := p + d + BlankLine + rest;
    BlankAfter(p + d, rest);
    assert resp[..|p + d|] == p + d;
    TrailingDigitsAfter(p, d);
    assert resp[|p + d| + 4..] == rest;
  }

  /** A response reads back as its declared length and its body: the
      declared length is always the body's, and the body is whole when it
      fits the buffer. */
  lemma ResponseReadsBack(status: seq<byte>, ctype: seq<byte>, body: seq<byte>)
    requires CR !in status && CR !in ctype
    requires |Head(status, ctype, Decimal.Digits(|body|))| <= ResponseBuf
    ensures var h := Head(status, ctype, Decimal.Digits(|body|));
      ReadResponse(Response(status, ctype, body)) == Some((|body|, Trunc(body, ResponseBuf - |h|)))
  {
    var d := Decimal.Digits(|body|);
    var h := Head(status, ctype, d);
    var p := StatusPrefix + status + TypeField + ctype + LengthField;
    var rest := Trunc(body, ResponseBuf - |h|);
    HeadSafe(status, ctype, d);
    ResponseJoins(status, ctype, body);
    assert h == p + d + BlankLine;
    assert p[|p| - 1] == SPACE;
    ReadAfterHead(p, d, rest);
    Decimal.ValueOfDigits(|body|);
  }

  lemma ResponseJoins(status: seq<byte>, ctype: seq<byte>, body: seq<byte>)
    requires |Head(status, ctype, Decimal.Digits(|body|))| <= ResponseBuf
    ensures var h := Head(status, ctype, Decimal.Digits(|body|));
      Response(status, ctype, body) == h + Trunc(body, ResponseBuf - |h|)
  {
  }

  // ---------------------------------------------------------------- escaping

  const LtEntity: seq<byte> := Ascii("&lt;")
  const GtEntity: seq<byte> := Ascii("&gt;")
  const AmpEntity: seq<byte> := Ascii("&amp;")

  function EscapeByte(b: byte): (r: seq<byte>)
    ensures 1 <= |r| <= 5
  {
    if b == LT then LtEntity else if b == GT then GtEntity else if b == AMP then AmpEntity else [b]
  }

  /** `<`, `>` and `&` replaced by their entities. */
  function Escape(s: seq<byte>): (r: seq<byte>)
    ensures |s| <= |r| <= 5 * |s|
  {
    if |s| == 0 then [] else EscapeByte(s[0]) + Escape(s[1..])
  }

  lemma EscapeAppend(a: seq<byte>, b: seq<byte>)
    ensures Escape(a + b) == Escape(a) + Escape(b)
  {
    if |a| > 0 {
      assert (a + b)[1..] == a[1..] + b;
      EscapeAppend(a[1..], b);
    } else {
      assert a + b == b;
    }
  }

  /** The escaping loop of the upload page: it starts at `pos` and stops
      before a byte once `pos` reaches `limit`. */
  function EscapeFrom(content: seq<byte>, pos: nat, limit: nat): (r: seq<byte>)
    ensures pos < limit ==> pos + |r| <= limit + 4
  {
    if |content| == 0 || pos >= limit then []
    else
      var e := EscapeByte(content[0]);
      e + EscapeFrom(content[1..], pos + |e|, limit)
  }

  /** How many content bytes the escaping loop consumes. */
  function Consumed(content: seq<byte>, pos: nat, limit: nat): (k: nat)
    ensures k <= |content|
  {
    if |content| == 0 || pos >= limit then 0
    else 1 + Consumed(content[1..], pos + |EscapeByte(content[0])|, limit)
  }

  /** What the loop writes is always the escaping of a prefix of the
      content: it never stops inside an entity. */
  lemma {:induction false} EscapeFromPrefix(content: seq<byte>, pos: nat, limit: nat)
    ensures EscapeFrom(content, pos, limit) == Escape(content[..Consumed(content, pos, limit)])
  {
    if |content| == 0 || pos >= limit {
      assert content[..0] == [];
    } else {
      var next := pos + |EscapeByte(content[0])|;
      EscapeFromStep(content, pos, limit);
      EscapeFromPrefix(content[1..], next, limit);
      EscapeTake(content, Consumed(content, pos, limit));
    }
  }

  lemma EscapeFromStep(content: seq<byte>, pos: nat, limit: nat)
    requires |content| > 0 && pos < limit
    ensures var next := pos + |EscapeByte(content[0])|;
      && Consumed(content, pos, limit) == 1 + Consumed(content[1..], next, limit)
      && EscapeFrom(content, pos, limit) == EscapeByte(content[0]) + EscapeFrom(content[1..], next, limit)
  {
  }

  /** With room for five bytes per content byte the whole content is
      escaped. */
  lemma EscapeFromWhole(content: seq<byte>, pos: nat, limit: nat)
    requires pos + 5 * |content| <= limit
    ensures EscapeFrom(content, pos, limit) == Escape(content)
  {
    ConsumedAll(content, pos, limit);
    EscapeFromPrefix(content, pos, limit);
    assert content[..|content|] == content;
  }

  lemma {:induction false} ConsumedAll(content: seq<byte>, pos: nat, limit: nat)
    requires pos + 5 * |content| <= limit
    ensures Consumed(content, pos, limit) == |content|
  {
    if |content| > 0 {
      ConsumedAll(content[1..], pos + |EscapeByte(content[0])|, limit);
    }
  }

  lemma EscapeTake(s: seq<byte>, k: nat)
    requires 0 < k <= |s|
    ensures Escape(s[..k]) == EscapeByte(s[0]) + Escape(s[1..][..k - 1])
  {
    assert s[..k][1..] == s[1..][..k - 1];
  }

  /** Reading the entities back. */
  function Unescape(s: seq<byte>): seq<byte> {
    if |s| == 0 then []
    else if LtEntity <= s then [LT] + Unescape(s[4..])
    else if GtEntity <= s then [GT] + Unescape(s[4..])
    else if AmpEntity <= s then [AMP] + Unescape(s[5..])
    else [s[0]] + Unescape(s[1..])
  }

  /** Escaping loses nothing. */
  lemma {:induction false} UnescapeEscaped(s: seq<byte>)
    ensures Unescape(Escape(s)) == s
  {
    if |s| > 0 {
      assert Escape(s) == EscapeByte(s[0]) + Escape(s[1..]);
      UnescapeByte(s[0], Escape(s[1..]));
      UnescapeEscaped(s[1..]);
      assert [s[0]] + s[1..] == s;
    }
  }

  /** One escaped byte reads back as itself, whatever follows it. */
  lemma UnescapeByte(x: byte, rest: seq<byte>)
    ensures Unescape(EscapeByte(x) + rest) == [x] + Unescape(rest)
  {
    var e := EscapeByte(x);
    var t := e + rest;
    assert t[|e|..] == rest;
    if x != LT && x != GT && x != AMP {
      assert t[0] == x;
      assert !(LtEntity <= t) && !(GtEntity <= t) && !(AmpEntity <= t);
    } else if x == LT {
      assert LtEntity <= t;
    } else if x == GT {
      assert t[1] == GtEntity[1] != LtEntity[1];
      assert GtEntity <= t;
    } else {
      assert t[1] == AmpEntity[1] != LtEntity[1];
      assert AmpEntity[1] != GtEntity[1];
      assert AmpEntity <= t;
    }
  }

  /** Bytes other than `<`, `>` and `&` are copied verbatim. */
  lemma {:induction false} EscapePlain(s: seq<byte>)
    requires LT !in s && GT !in s && AMP !in s
    ensures Escape(s) == s
  {
    if |s| > 0 {
      assert s[0] in s;
      assert forall x :: x in s[1..] ==> x in s;
      EscapePlain(s[1..]);
    }
  }

  // ---------------------------------------------------------------- dispatch

  const UploadPath: seq<byte> := Ascii("/upload")

  datatype Route = UploadForm | ServeFile | DirListing | NotAllowed

  /** The choice made in the accept loop of `start_http_server`. */
  function RouteOf(req: Request): (r: Route)
    ensures r == UploadForm <==> req.verb == PostMethod && (req.path == UploadPath || req.path == RootPath)
    ensures r == NotAllowed <==> req.verb != GetMethod && r != UploadForm
    ensures r == ServeFile <==> req.verb == GetMethod && |req.path| > 1 && req.path[0] == SLASH
  {
    if req.verb == PostMethod && (req.path == UploadPath || req.path == RootPath) then UploadForm
    else if req.verb == GetMethod then
      if |req.path| > 1 && req.path[0] == SLASH then ServeFile else DirListing
    else NotAllowed
  }

  const PathBuf: nat := 512

  /** The NUL-terminated name `serve_file` opens: the working directory (or
      `.` when `getcwd` failed), `/`, and the target without its leading
      `/`, cut at 511 bytes. */
  function FilePath(cwd: Option<seq<byte>>, path: seq<byte>): (r: seq<byte>)
    requires cwd.Some? ==> 0 < |cwd.value| <= PathBuf - 2
    requires |path| > 1
    ensures 0 < |r| <= PathBuf && r[|r| - 1] == NUL
  {
    var base := if cwd.Some? then cwd.value else Ascii(".");
    Trunc(base + [SLASH] + path[1..], PathBuf - 1) + [NUL]
  }

  /** The path handed to `detect_content_type` ends in NUL, so the backward
      scan stops at once and every served file is typed
      `application/octet-stream`. */
  lemma ServedFilesAreOctetStream(cwd: Option<seq<byte>>, path: seq<byte>)
    requires cwd.Some? ==> 0 < |cwd.value| <= PathBuf - 2
    requires |path| > 1
    ensures ContentType(FilePath(cwd, path)) == OctetStream
  {
  }

  /** The type `serve_file` evidently means to send: that of the file name,
      the path without the NUL that ends it for `open`. */
  function ServedType(cwd: Option<seq<byte>>, path: seq<byte>): (r: seq<byte>)
    requires cwd.Some? ==> 0 < |cwd.value| <= PathBuf - 2
    requires |path| > 1
    ensures r in {TextHtml, TextPlain, Javascript, Json, Css, Png, Jpeg, Gif, Svg, OctetStream}
  {
    var p := FilePath(cwd, path);
    ContentType(p[..|p| - 1])
  }

  /** Served this way, a target `/dir/stem.ext` that fits the path buffer
      is typed by its extension. */
  lemma ServedTypeOfName(cwd: Option<seq<byte>>, stem: seq<byte>, ext: seq<byte>)
    requires cwd.Some? ==> 0 < |cwd.value| <= PathBuf - 2
    requires DOT !in ext && SLASH !in ext && NUL !in ext
    requires (if cwd.Some? then |cwd.value| else 1) + 1 + |stem| + 1 + |ext| <= PathBuf - 1
    ensures ServedType(cwd, [SLASH] + stem + [DOT] + ext) == TypeOfExt(ext)
  {
    var path := [SLASH] + stem + [DOT] + ext;
    var base := if cwd.Some? then cwd.value else Ascii(".");
    var full := base + [SLASH] + path[1..];
    assert path[1..] == stem + [DOT] + ext;
    assert full == (base + [SLASH] + stem) + [DOT] + ext;
    var p := FilePath(cwd, path);
    assert p[..|p| - 1] == full;
    ContentTypeOfName(base + [SLASH] + stem, ext);
  }
}
