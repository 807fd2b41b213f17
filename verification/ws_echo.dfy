/** The frame loop of `src/websocket.rs`, the standalone echo server: every
    text frame is written back to its sender. Its handshake is the one
    modelled in `WsHandshake`, and its framing is `WsFrame`. */
module WsEcho {
  import opened Common
  import WsFrame

  /** What one read returns. */
  datatype Event = ReadFailed | Eof | Data(bytes: seq<byte>)

  /** One turn of the echo loop: the bytes written back and whether the
      loop ends. The console output of the received text is left out. */
  function EchoTurn(ev: Event): (r: (seq<byte>, bool))
    ensures r.1 <==> (ev.ReadFailed? || ev.Eof? || (ev.Data? && WsFrame.Decode(ev.bytes).Close?))
    ensures ev.Data? && WsFrame.Decode(ev.bytes).Text? ==>
      WsFrame.Decode(r.0) == WsFrame.Decode(ev.bytes)
    ensures ev.Data? && WsFrame.Decode(ev.bytes).Close? ==> r.0 == WsFrame.CloseReply
    ensures ev.Data? && WsFrame.Decode(ev.bytes).Ping? ==> r.0 == WsFrame.PongReply
    ensures ev.Data? && (WsFrame.Decode(ev.bytes).Skipped? || WsFrame.Decode(ev.bytes).Other?) ==> r == ([], false)
  {
    match ev
    case ReadFailed => ([], true)
    case Eof => ([], true)
    case Data(bytes) =>
      match WsFrame.Decode(bytes)
      case Skipped => ([], false)
      case Text(p) =>
        WsFrame.BroadcastDecodes(p);
        (WsFrame.Encode(p), false)
      case Close => (WsFrame.CloseReply, true)
      case Ping => (WsFrame.PongReply, false)
      case Other(_) => ([], false)
  }

  /** A browser's masked text frame comes back unmasked with the same
      text, cut at 512 bytes, and the loop goes on. */
  lemma EchoesClientText(p: seq<byte>, mask: seq<byte>)
    requires |p| < WsFrame.MaxSend && |mask| == 4
    ensures EchoTurn(Data(WsFrame.ClientText(p, mask))) == (WsFrame.Encode(Trunc(p, WsFrame.MaxPayload)), false)
    ensures WsFrame.Decode(EchoTurn(Data(WsFrame.ClientText(p, mask))).0) == WsFrame.Text(Trunc(p, WsFrame.MaxPayload))
  {
    WsFrame.ClientTextDecodes(p, mask);
  }
}
