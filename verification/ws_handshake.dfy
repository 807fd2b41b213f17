/** The opening handshake of the two WebSocket servers
    (`src/network/websocket.rs` and `src/websocket.rs`, which share this code
    line for line): the upgrade test, the `Sec-WebSocket-Key` search, the
    accept value of section 4.2.2 of RFC 6455 and the 101 response. */
module WsHandshake {
  import opened Common
  import Http
  import Sha1
  import Base64

  // ---------------------------------------------------------------- upgrade test

  const LowerToken: seq<byte> := Ascii("websocket")
  const UpperToken: seq<byte> := Ascii("WebSocket")
  const TokenLen: nat := 9

  predicate TokenAt(req: seq<byte>, i: nat) {
    i + TokenLen <= |req| && (req[i..i + TokenLen] == LowerToken || req[i..i + TokenLen] == UpperToken)
  }

  /** Whether a token starts at some index in `[i, end)`. */
  function ScanToken(req: seq<byte>, i: nat, end: nat): (r: bool)
    ensures r <==> exists k :: i <= k < end && TokenAt(req, k)
    decreases if i < end then end - i else 0
  {
    if i >= end then false
    else if TokenAt(req, i) then true
    else ScanToken(req, i + 1, end)
  }

  /** `is_websocket_upgrade` as written: the start index runs over
      `0..len-9`, which leaves out the last place the token fits. */
  function IsUpgradeAsWritten(req: seq<byte>): (r: bool)
    ensures r <==> exists k :: 0 <= k < |req| - TokenLen && TokenAt(req, k)
  {
    ScanToken(req, 0, Http.SatSub(|req|, TokenLen))
  }

  /** The test as intended: the token anywhere in the request. */
  function IsUpgrade(req: seq<byte>): (r: bool)
    ensures r <==> exists k :: 0 <= k && TokenAt(req, k)
  {
    ScanToken(req, 0, |req|)
  }

  /** The two tests differ only on a token that ends the request. */
  lemma UpgradeDiffersOnlyAtEnd(req: seq<byte>)
    ensures IsUpgradeAsWritten(req) ==> IsUpgrade(req)
    ensures IsUpgrade(req) && !IsUpgradeAsWritten(req) ==> |req| >= TokenLen && TokenAt(req, |req| - TokenLen)
  {
    if IsUpgrade(req) && !IsUpgradeAsWritten(req) {
      var k :| 0 <= k && TokenAt(req, k);
      assert k == |req| - TokenLen;
    }
  }

  /** A request that ends in the token is not recognised as written. */
  lemma UpgradeAtEndMissed()
    ensures var req := Ascii("Upgrade: ") + LowerToken;
      IsUpgrade(req) && !IsUpgradeAsWritten(req)
  {
    var req := Ascii("Upgrade: ") + LowerToken;
    assert TokenAt(req, 9) by {
      assert req[9..18] == LowerToken;
    }
    forall k | 0 <= k < 9 ensures !TokenAt(req, k) {
      assert req[k + 8] != LowerToken[8] && req[k + 8] != UpperToken[8];
    }
  }

  /** A real request ends in its blank line, so there the two tests agree. */
  lemma UpgradeAgreesOnRequests(head: seq<byte>)
    ensures IsUpgradeAsWritten(head + Http.BlankLine) == IsUpgrade(head + Http.BlankLine)
  {
    var req := head + Http.BlankLine;
    UpgradeDiffersOnlyAtEnd(req);
    if |req| >= TokenLen {
      assert req[|req| - 1] == LF;
      NoTokenBeforeLf(req);
    }
  }

  /** Both spellings end in `t`, so no token ends on a line feed. */
  lemma NoTokenBeforeLf(req: seq<byte>)
    requires |req| >= TokenLen && req[|req| - 1] == LF
    ensures !TokenAt(req, |req| - TokenLen)
  {
    assert req[|req| - TokenLen..|req|][TokenLen - 1] == LF;
    assert LowerToken[TokenLen - 1] != LF && UpperToken[TokenLen - 1] != LF;
  }

  // ---------------------------------------------------------------- key

  const KeyHeader: seq<byte> := Ascii("Sec-WebSocket-Key: ")
  const HeaderLen: nat := 19
  const KeyBuf: nat := 64

  predicate HeaderAt(req: seq<byte>, i: nat) {
    i + HeaderLen <= |req| && req[i..i + HeaderLen] == KeyHeader
  }

  /** The first index in `[i, end)` where the header name starts. */
  function FindHeader(req: seq<byte>, i: nat, end: nat): (r: Option<nat>)
    ensures r.Some? ==> i <= r.value < end && HeaderAt(req, r.value)
    ensures r.Some? ==> forall k :: i <= k < r.value ==> !HeaderAt(req, k)
    ensures r.None? ==> forall k :: i <= k < end ==> !HeaderAt(req, k)
    decreases if i < end then end - i else 0
  {
    if i >= end then None
    else if HeaderAt(req, i) then Some(i)
    else FindHeader(req, i + 1, end)
  }

  predicate IsLineEnd(b: byte) {
    b == CR || b == LF
  }

  /** The bytes from `j` up to a CR or LF or the end, at most `cap` of them. */
  function KeyFrom(req: seq<byte>, j: nat, cap: nat): (r: seq<byte>)
    requires j <= |req|
    ensures |r| <= cap && j + |r| <= |req| && r == req[j..j + |r|]
    ensures forall k :: 0 <= k < |r| ==> !IsLineEnd(r[k])
    ensures |r| < cap && j + |r| < |req| ==> IsLineEnd(req[j + |r|])
    decreases cap
  {
    if j == |req| || cap == 0 || IsLineEnd(req[j]) then []
    else [req[j]] + KeyFrom(req, j + 1, cap - 1)
  }

  /** The key the handshake reads: after the first header name (searched
      over `0..len-19`), up to the line end, at most 64 bytes; empty when
      there is none. */
  function KeyOf(req: seq<byte>): (r: seq<byte>)
    ensures |r| <= KeyBuf
  {
    match FindHeader(req, 0, Http.SatSub(|req|, HeaderLen))
    case None => []
    case Some(i) => KeyFrom(req, i + HeaderLen, KeyBuf)
  }

  /** The search bound leaves out only a header name that ends the request,
      which has no key after it: widening the bound changes nothing. */
  lemma KeySearchBoundHarmless(req: seq<byte>)
    ensures var f := FindHeader(req, 0, Http.SatSub(|req|, HeaderLen) + 1);
      KeyOf(req) == if f.None? then [] else KeyFrom(req, f.value + HeaderLen, KeyBuf)
  {
    var e := Http.SatSub(|req|, HeaderLen);
    FindExtend(req, 0, e);
    if FindHeader(req, 0, e).None? && HeaderAt(req, e) {
      assert e + HeaderLen == |req|;
      assert KeyFrom(req, e + HeaderLen, KeyBuf) == [];
    }
  }

  /** Widening a search by one index finds the same first match, or the new
      index. */
  lemma {:induction false} FindExtend(req: seq<byte>, i: nat, e: nat)
    requires i <= e
    ensures var f := FindHeader(req, i, e);
      FindHeader(req, i, e + 1) == if f.Some? then f else if HeaderAt(req, e) then Some(e) else None
    decreases e - i
  {
    if i < e && !HeaderAt(req, i) {
      FindExtend(req, i + 1, e);
    }
  }

  /** A request whose header block carries `Sec-WebSocket-Key: <key>` and a
      CR after it yields that key. */
  lemma KeyRoundTrip(prefix: seq<byte>, key: seq<byte>, rest: seq<byte>)
    requires |prefix| == 0 || prefix[|prefix| - 1] == LF
    requires forall i :: 0 <= i ==> !HeaderAt(prefix, i)
    requires 0 < |key| <= KeyBuf && forall k :: 0 <= k < |key| ==> !IsLineEnd(key[k])
    requires |rest| > 0 && rest[0] == CR
    ensures KeyOf(prefix + KeyHeader + key + rest) == key
  {
    var req := prefix + KeyHeader + key + rest;
    var p := |prefix|;
    assert req[p..p + HeaderLen] == KeyHeader;
    assert req[..p] == prefix;
    NoHeaderBefore(req, prefix);
    FindFirst(req, 0, Http.SatSub(|req|, HeaderLen), p);
    assert req[p + HeaderLen..p + HeaderLen + |key|] == key;
    assert req[p + HeaderLen + |key|] == CR;
    KeyFromExact(req, p + HeaderLen, key, KeyBuf);
  }

  /** A header name cannot start inside a prefix that has none and ends
      its line. */
  lemma NoHeaderBefore(req: seq<byte>, prefix: seq<byte>)
    requires |prefix| <= |req| && req[..|prefix|] == prefix
    requires |prefix| == 0 || prefix[|prefix| - 1] == LF
    requires forall i :: 0 <= i ==> !HeaderAt(prefix, i)
    ensures forall i :: 0 <= i < |prefix| ==> !HeaderAt(req, i)
  {
    var p := |prefix|;
    forall i | 0 <= i < p ensures !HeaderAt(req, i) {
      if i + HeaderLen <= p {
        var w := req[i..i + HeaderLen];
        var v := prefix[i..i + HeaderLen];
        forall k | 0 <= k < HeaderLen ensures w[k] == v[k] {
          assert req[..p][i + k] == prefix[i + k];
        }
        assert w == v;
        assert !HeaderAt(prefix, i);
      } else {
        assert req[p - 1] == LF;
        assert i + HeaderLen <= |req| ==> req[i..i + HeaderLen][p - 1 - i] == LF;
        KeyHeaderHasNoLf(p - 1 - i);
      }
    }
  }

  lemma KeyHeaderHasNoLf(k: nat)
    requires k < HeaderLen
    ensures KeyHeader[k] != LF
  {
  }

  lemma {:induction false} KeyFromExact(req: seq<byte>, j: nat, key: seq<byte>, cap: nat)
    requires j + |key| < |req| && req[j..j + |key|] == key && IsLineEnd(req[j + |key|])
    requires |key| <= cap && forall k :: 0 <= k < |key| ==> !IsLineEnd(key[k])
    ensures KeyFrom(req, j, cap) == key
    decreases |key|
  {
    if |key| > 0 {
      assert req[j] == key[0];
      assert req[j + 1..j + 1 + |key[1..]|] == key[1..];
      KeyFromExact(req, j + 1, key[1..], cap - 1);
      assert key == [key[0]] + key[1..];
    }
  }

  /** The key search of the handshake, loop by loop. */
  method ExtractKey(req: seq<byte>) returns (key: seq<byte>)
    ensures key == KeyOf(req)
  {
    key := [];
    var end := Http.SatSub(|req|, HeaderLen);
    var i := 0;
    while i < end
      invariant i <= end
      invariant forall k :: 0 <= k < i ==> !HeaderAt(req, k)
    {
      var matchFound := MatchesAt(req, i);
      if matchFound {
        assert FindHeader(req, 0, end) == Some(i) by {
          FindFirst(req, 0, end, i);
        }
        key := ReadKey(req, i + HeaderLen);
        return;
      }
      i := i + 1;
    }
    assert FindHeader(req, 0, end).None?;
  }

  /** The byte-by-byte comparison with the header name at `i`. */
  method MatchesAt(req: seq<byte>, i: nat) returns (matchFound: bool)
    requires i + HeaderLen <= |req|
    ensures matchFound <==> HeaderAt(req, i)
  {
    matchFound := true;
    var k := 0;
    while k < HeaderLen
      invariant k <= HeaderLen
      invariant matchFound <==> req[i..i + k] == KeyHeader[..k]
    {
      if req[i + k] != KeyHeader[k] {
        matchFound := false;
        assert req[i..i + HeaderLen][k] != KeyHeader[k];
        return;
      }
      assert req[i..i + k + 1] == req[i..i + k] + [req[i + k]];
      assert KeyHeader[..k + 1] == KeyHeader[..k] + [KeyHeader[k]];
      k := k + 1;
    }
  }

  lemma FindFirst(req: seq<byte>, i: nat, end: nat, at: nat)
    requires i <= at < end && HeaderAt(req, at) && forall k :: i <= k < at ==> !HeaderAt(req, k)
    ensures FindHeader(req, i, end) == Some(at)
  {
  }

  /** The copy loop after the header name. */
  method ReadKey(req: seq<byte>, start: nat) returns (key: seq<byte>)
    requires start <= |req|
    ensures key == KeyFrom(req, start, KeyBuf)
  {
    key := [];
    var j := start;
    while j < |req| && |key| < KeyBuf
      invariant start <= j <= |req| && |key| == j - start <= KeyBuf
      invariant key == req[start..j]
      invariant forall k :: 0 <= k < |key| ==> !IsLineEnd(key[k])
      decreases |req| - j
    {
      if req[j] == CR || req[j] == LF {
        break;
      }
      key := key + [req[j]];
      j := j + 1;
    }
    KeyFromMaximal(req, start, key, KeyBuf);
  }

  /** `KeyFrom` is the longest line-end-free run within the cap. */
  lemma KeyFromMaximal(req: seq<byte>, start: nat, key: seq<byte>, cap: nat)
    requires start + |key| <= |req| && key == req[start..start + |key|] && |key| <= cap
    requires forall k :: 0 <= k < |key| ==> !IsLineEnd(key[k])
    requires |key| == cap || start + |key| == |req| || IsLineEnd(req[start + |key|])
    ensures KeyFrom(req, start, cap) == key
  {
    var r := KeyFrom(req, start, cap);
    assert forall k :: 0 <= k < |key| ==> key[k] == req[start + k];
    assert forall k :: 0 <= k < |r| ==> r[k] == req[start + k];
  }

  // ---------------------------------------------------------------- accept value

  const Guid: seq<byte> := Ascii("258EAFA5-E914-47DA-95CA-C5AB0DC85B11")
  const KeyUsed: nat := 60
  const CombinedBuf: nat := 128
  const AcceptBuf: nat := 32

  /** `Sec-WebSocket-Accept`: base64 of the SHA-1 digest of the key (cut at
      60 bytes) followed by the GUID. For keys of at most 60 bytes this is
      the value of section 4.2.2 of RFC 6455. */
  function AcceptKey(key: seq<byte>): (r: seq<byte>)
    ensures |r| == 28 && r[27] == Base64.PAD
    ensures forall k :: 0 <= k < 27 ==> Base64.IsSym(r[k])
    ensures |key| <= KeyUsed ==> r == Base64.Encode(Sha1.Sha1(key + Guid))
  {
    var h := Sha1.Sha1(Trunc(key, KeyUsed) + Guid);
    Base64.DigestEncoding(h);
    Base64.Encode(h)
  }

  /** The accept computation of the handshake: the 128-byte combined
      buffer, `sha1` as written and `base64_encode` into 32 bytes. */
  method ComputeAccept(key: seq<byte>) returns (accept: seq<byte>)
    requires |key| <= KeyBuf
    ensures accept == AcceptKey(key)
  {
    var combined := Combine(key);
    var hash := Sha1.Sha1AsWritten(combined);
    accept := Base64.EncodeInto(hash, AcceptBuf);
    assert accept == Base64.Encode(hash)[..28];
  }

  /** The two copy loops into the combined buffer: at most 96 bytes, so
      nothing is cut. */
  method Combine(key: seq<byte>) returns (combined: seq<byte>)
    requires |key| <= KeyBuf
    ensures combined == Trunc(key, KeyUsed) + Guid && |combined| <= 96
  {
    combined := [];
    var i := 0;
    while i < Min(|key|, KeyUsed)
      invariant i <= Min(|key|, KeyUsed) && combined == key[..i]
    {
      if |combined| < CombinedBuf {
        combined := combined + [key[i]];
      }
      assert key[..i + 1] == key[..i] + [key[i]];
      i := i + 1;
    }
    assert combined == Trunc(key, KeyUsed);
    i := 0;
    while i < |Guid|
      invariant i <= |Guid| && combined == Trunc(key, KeyUsed) + Guid[..i]
    {
      if |combined| < CombinedBuf {
        combined := combined + [Guid[i]];
      }
      assert Guid[..i + 1] == Guid[..i] + [Guid[i]];
      i := i + 1;
    }
    assert Guid[..i] == Guid;
  }

  // ---------------------------------------------------------------- response

  const StatusLine: seq<byte> := Ascii("HTTP/1.1 101 Switching Protocols")
  const UpgradeField: seq<byte> := [CR, LF] + Ascii("Upgrade: websocket")
  const ConnectionField: seq<byte> := [CR, LF] + Ascii("Connection: Upgrade")
  const AcceptField: seq<byte> := [CR, LF] + Ascii("Sec-WebSocket-Accept: ")
  const SwitchHead: seq<byte> := StatusLine + UpgradeField + ConnectionField + AcceptField

  /** The handshake's answer: nothing (the socket is closed) without a key,
      otherwise the 101 response carrying the accept value. */
  function Handshake(req: seq<byte>): (r: Option<seq<byte>>)
    ensures r.None? <==> KeyOf(req) == []
    ensures r.Some? ==> r.value == SwitchHead + AcceptKey(KeyOf(req)) + Http.BlankLine
  {
    var key := KeyOf(req);
    if key == [] then None else Some(SwitchHead + AcceptKey(key) + Http.BlankLine)
  }

  /** The response's head ends at its one blank line, and the accept value
      is the last header's value. */
  lemma HandshakeWellFormed(req: seq<byte>)
    requires KeyOf(req) != []
    ensures var r := Handshake(req).value;
      |r| == |SwitchHead| + 32 && |r| <= 512
      && Http.FindBlank(r, 0) == Some(|SwitchHead| + 28)
      && r[|SwitchHead|..|SwitchHead| + 28] == AcceptKey(KeyOf(req))
  {
    var a := AcceptKey(KeyOf(req));
    AcceptHasNoCr(KeyOf(req));
    ResponseWellFormed(a);
  }

  lemma AcceptHasNoCr(key: seq<byte>)
    ensures CR !in AcceptKey(key)
  {
    var a := AcceptKey(key);
    forall k | 0 <= k < |a| ensures a[k] != CR {
      if k < 27 {
        assert Base64.IsSym(a[k]);
      }
    }
  }

  lemma ResponseWellFormed(a: seq<byte>)
    requires |a| == 28 && CR !in a
    ensures var r := SwitchHead + a + Http.BlankLine;
      |r| == |SwitchHead| + 32 && Http.FindBlank(r, 0) == Some(|SwitchHead| + 28)
      && r[|SwitchHead|..|SwitchHead| + 28] == a
  {
    SwitchHeadSafe();
    Http.NoCrIsSafe(a);
    Http.CrSafeAppend(SwitchHead, a);
    Http.BlankAfter(SwitchHead + a, []);
    assert SwitchHead + a + Http.BlankLine == SwitchHead + a + Http.BlankLine + [];
  }

  lemma SwitchHeadSafe()
    ensures Http.CrSafe(SwitchHead) && |SwitchHead| == 97
  {
    Http.NoCrIsSafe(StatusLine);
    FieldSafe(Ascii("Upgrade: websocket"));
    FieldSafe(Ascii("Connection: Upgrade"));
    FieldSafe(Ascii("Sec-WebSocket-Accept: "));
    Http.CrSafeAppend(StatusLine, UpgradeField);
    Http.CrSafeAppend(StatusLine + UpgradeField, ConnectionField);
    Http.CrSafeAppend(StatusLine + UpgradeField + ConnectionField, AcceptField);
  }

  /** A header line: CRLF, then a value without CR. */
  lemma FieldSafe(x: seq<byte>)
    requires |x| > 0 && CR !in x
    ensures Http.CrSafe([CR, LF] + x)
  {
    var s := [CR, LF] + x;
    forall k | 2 <= k < |s| ensures s[k] != CR {
      assert s[k] == x[k - 2] && x[k - 2] in x;
    }
    assert s[2] == x[0] && x[0] in x;
  }

  /** The handshake step by step: the key search, then nothing or the
      accept computation and the response buffer. */
  method HandshakeSteps(req: seq<byte>) returns (r: Option<seq<byte>>)
    ensures r == Handshake(req)
  {
    var key := ExtractKey(req);
    if |key| == 0 {
      return None;
    }
    var accept := ComputeAccept(key);
    r := Some(SwitchHead + accept + Http.BlankLine);
  }

  /** A request carrying a key is answered with the accept value of that
      key. */
  lemma HandshakeAnswersKey(prefix: seq<byte>, key: seq<byte>, rest: seq<byte>)
    requires |prefix| == 0 || prefix[|prefix| - 1] == LF
    requires forall i :: 0 <= i ==> !HeaderAt(prefix, i)
    requires 0 < |key| <= KeyUsed && forall k :: 0 <= k < |key| ==> !IsLineEnd(key[k])
    requires |rest| > 0 && rest[0] == CR
    ensures Handshake(prefix + KeyHeader + key + rest) ==
      Some(SwitchHead + Base64.Encode(Sha1.Sha1(key + Guid)) + Http.BlankLine)
  {
    KeyRoundTrip(prefix, key, rest);
  }
}
