/** The WebSocket framing shared by `src/network/websocket.rs` and
    `src/websocket.rs`: both frame loops decode one frame per read with the
    same code, and both send text with the same `send_websocket_text`. The
    frame layout is the one of section 5.2 of RFC 6455; masking follows
    section 5.3. */
module WsFrame {
  import opened Common

  /** What one read of up to 1024 bytes yields. `Skipped` is every case the
      loop answers with `continue` before looking at the opcode: fewer than
      two bytes, a 64-bit length, or a frame that the bytes read do not hold
      completely. */
  datatype Frame = Skipped | Text(payload: seq<byte>) | Close | Ping | Other(opcode: byte)

  const TextOp: byte := 1
  const CloseOp: byte := 8
  const PingOp: byte := 9
  const PongOp: byte := 10
  /** The first byte of every frame the server sends: FIN with opcode text. */
  const FinText: byte := 0x81
  const MaskBit: byte := 128
  /** The length value announcing a 16-bit extended length. */
  const Len16: byte := 126
  /** The length value announcing a 64-bit extended length. */
  const Len64: byte := 127
  /** The payload buffer of a decoded text frame. */
  const MaxPayload: nat := 512
  /** The frame buffer of `send_websocket_text`. */
  const FrameBuf: nat := 1024
  /** Payloads at least this long are not sent at all. */
  const MaxSend: nat := 65536
  const NoMask: seq<byte> := [0, 0, 0, 0]

  /** The reply to a close frame: FIN with opcode close and no payload. */
  const CloseReply: seq<byte> := [0x88, 0x00]
  /** The reply to a ping: FIN with opcode pong and no payload. */
  const PongReply: seq<byte> := [0x8A, 0x00]

  // ---------------------------------------------------------------- masking

  function Pow2(k: nat): (r: nat)
    ensures r >= 1
  {
    if k == 0 then 1 else 2 * Pow2(k - 1)
  }

  /** Bitwise exclusive or of the low `k` bits of `a` and `b`, lowest bit
      first. */
  function XorBits(a: nat, b: nat, k: nat): (r: nat)
    ensures r < Pow2(k)
  {
    if k == 0 then 0 else (a % 2 + b % 2) % 2 + 2 * XorBits(a / 2, b / 2, k - 1)
  }

  /** Bitwise exclusive or of two bytes, the `^` of the unmasking loop. */
  function Xor(a: byte, b: byte): (r: byte) {
    assert Pow2(8) == 256;
    XorBits(a, b, 8)
  }

  lemma {:induction false} XorBitsInvolution(a: nat, m: nat, k: nat)
    requires a < Pow2(k)
    ensures XorBits(XorBits(a, m, k), m, k) == a
  {
    if k > 0 {
      var bit := (a % 2 + m % 2) % 2;
      var rest := XorBits(a / 2, m / 2, k - 1);
      var x := XorBits(a, m, k);
      assert x == bit + 2 * rest;
      LowBit(bit, rest);
      assert XorBits(x, m, k) == (bit + m % 2) % 2 + 2 * XorBits(rest, m / 2, k - 1);
      assert (bit + m % 2) % 2 == a % 2;
      XorBitsInvolution(a / 2, m / 2, k - 1);
    }
  }

  lemma LowBit(bit: nat, rest: nat)
    requires bit < 2
    ensures (bit + 2 * rest) % 2 == bit && (bit + 2 * rest) / 2 == rest
  {
  }

  lemma {:induction false} XorBitsZero(a: nat, k: nat)
    requires a < Pow2(k)
    ensures XorBits(a, 0, k) == a
  {
    if k > 0 {
      XorBitsZero(a / 2, k - 1);
    }
  }

  /** Masking twice with the same key gives the byte back. */
  lemma XorInvolution(a: byte, m: byte)
    ensures Xor(Xor(a, m), m) == a
  {
    assert Pow2(8) == 256;
    XorBitsInvolution(a, m, 8);
  }

  /** A zero key leaves a byte as it is. */
  lemma XorZero(a: byte)
    ensures Xor(a, 0) == a
  {
    assert Pow2(8) == 256;
    XorBitsZero(a, 8);
  }

  /** Byte `i` of the payload is combined with byte `i mod 4` of the key. */
  function Unmask(p: seq<byte>, mask: seq<byte>): (r: seq<byte>)
    requires |mask| == 4
    ensures |r| == |p|
    ensures forall i :: 0 <= i < |p| ==> r[i] == Xor(p[i], mask[i % 4])
  {
    seq(|p|, i requires 0 <= i < |p| => Xor(p[i], mask[i % 4]))
  }

  /** Unmasking undoes masking. */
  lemma UnmaskInvolution(p: seq<byte>, mask: seq<byte>)
    requires |mask| == 4
    ensures Unmask(Unmask(p, mask), mask) == p
  {
    forall i | 0 <= i < |p|
      ensures Unmask(Unmask(p, mask), mask)[i] == p[i]
    {
      XorInvolution(p[i], mask[i % 4]);
    }
  }

  /** An unmasked frame travels with an all-zero key. */
  lemma UnmaskNoMask(p: seq<byte>)
    ensures Unmask(p, NoMask) == p
  {
    forall i | 0 <= i < |p|
      ensures Unmask(p, NoMask)[i] == p[i]
    {
      XorZero(p[i]);
    }
  }

  /** Masking works byte by byte, so it commutes with taking a prefix. */
  lemma UnmaskPrefix(p: seq<byte>, mask: seq<byte>, k: nat)
    requires |mask| == 4 && k <= |p|
    ensures Unmask(p, mask)[..k] == Unmask(p[..k], mask)
  {
  }

  // ---------------------------------------------------------------- decoding

  /** Where a frame's payload lies: its announced length, the index it
      starts at and the masking key. */
  datatype Layout = Layout(len: nat, start: nat, mask: seq<byte>)

  /** The header part of the decoding: the layout, or nothing when the
      read is too short for the header or announces a 64-bit length. */
  function LayoutOf(buf: seq<byte>): (r: Option<Layout>)
    ensures r.Some? ==> 2 <= r.value.start <= |buf| && |r.value.mask| == 4
  {
    if |buf| < 2 then None
    else
      var len7 := buf[1] % 128;
      if len7 == Len64 || (len7 == Len16 && |buf| < 4) then None
      else
        var len: nat := if len7 == Len16 then (buf[2] as int) * 256 + buf[3] as int else len7;
        var off := if len7 == Len16 then 4 else 2;
        if buf[1] < MaskBit then Some(Layout(len, off, NoMask))
        else if |buf| < off + 4 then None
        else
          Some(Layout(len, off + 4, buf[off..off + 4]))
  }

  /** A header that is complete stays the same whatever follows it. */
  lemma LayoutExtends(buf: seq<byte>, more: seq<byte>)
    requires LayoutOf(buf).Some?
    ensures LayoutOf(buf + more) == LayoutOf(buf)
  {
    var off := if buf[1] % 128 == Len16 then 4 else 2;
    if buf[1] >= MaskBit {
      assert (buf + more)[off..off + 4] == buf[off..off + 4];
    }
  }

  /** The frame decoding of both frame loops, applied to the bytes of one
      read. Only the first frame of a read is looked at, a text payload is
      cut at 512 bytes, and FIN and continuation frames are not considered. */
  function Decode(buf: seq<byte>): (r: Frame)
    ensures r.Text? ==> |r.payload| <= MaxPayload
    ensures r != Skipped ==> 2 <= |buf|
    ensures r.Text? <==> r != Skipped && buf[0] % 16 == TextOp
    ensures r.Close? <==> r != Skipped && buf[0] % 16 == CloseOp
    ensures r.Ping? <==> r != Skipped && buf[0] % 16 == PingOp
  {
    match LayoutOf(buf)
    case None => Skipped
    case Some(l) =>
      if |buf| < l.start + l.len then Skipped
      else
        var opcode := buf[0] % 16;
        if opcode == TextOp then Text(Unmask(buf[l.start..l.start + Min(l.len, MaxPayload)], l.mask))
        else if opcode == CloseOp then Close
        else if opcode == PingOp then Ping
        else Other(opcode)
  }

  /** Bytes after a complete frame in the same read are dropped: the loop
      decodes the first frame and reads again. */
  lemma TrailingBytesDropped(frame: seq<byte>, rest: seq<byte>)
    requires Decode(frame) != Skipped
    ensures Decode(frame + rest) == Decode(frame)
  {
    var l := LayoutOf(frame).value;
    LayoutExtends(frame, rest);
    var k := Min(l.len, MaxPayload);
    assert (frame + rest)[l.start..l.start + k] == frame[l.start..l.start + k];
  }

  /** The decoding loop of both frame loops, written with the unmasking
      loop of the text branch. */
  method DecodeFrame(buf: seq<byte>) returns (r: Frame)
    ensures r == Decode(buf)
  {
    var n := |buf|;
    if n < 2 {
      return Skipped;
    }
    var opcode := buf[0] % 16;
    var masked := buf[1] >= MaskBit;
    var len: nat := buf[1] % 128;
    var offset := 2;
    if len == Len16 {
      if n < 4 {
        return Skipped;
      }
      len := (buf[2] as int) * 256 + buf[3] as int;
      offset := 4;
    } else if len == Len64 {
      return Skipped;
    }
    var mask := NoMask;
    if masked {
      if n < offset + 4 {
        return Skipped;
      }
      mask := buf[offset..offset + 4];
      offset := offset + 4;
    }
    if n < offset + len {
      return Skipped;
    }
    if opcode == TextOp {
      var payload := UnmaskLoop(buf[offset..offset + Min(len, MaxPayload)], mask);
      r := Text(payload);
    } else if opcode == CloseOp {
      r := Close;
    } else if opcode == PingOp {
      r := Ping;
    } else {
      r := Other(opcode);
    }
  }

  /** `payload[i] = buf[offset + i] ^ mask[i % 4]` for every index. */
  method UnmaskLoop(p: seq<byte>, mask: seq<byte>) returns (r: seq<byte>)
    requires |mask| == 4
    ensures r == Unmask(p, mask)
  {
    r := [];
    var i := 0;
    while i < |p|
      invariant 0 <= i <= |p|
      invariant |r| == i
      invariant forall k :: 0 <= k < i ==> r[k] == Xor(p[k], mask[k % 4])
    {
      r := r + [Xor(p[i], mask[i % 4])];
      i := i + 1;
    }
  }

  // ---------------------------------------------------------------- encoding

  /** The header `send_websocket_text` writes before the payload. */
  function TextHeader(n: nat): (r: seq<byte>)
    requires n < MaxSend
    ensures |r| == (if n < 126 then 2 else 4)
  {
    if n < 126 then [FinText, n] else [FinText, Len16, n / 256, n % 256]
  }

  /** `send_websocket_text`: an unmasked final text frame, cut at 1024
      bytes, or nothing at all for a payload of 64 KiB or more. */
  function Encode(p: seq<byte>): (r: seq<byte>)
    ensures |p| >= MaxSend <==> r == []
    ensures |r| <= FrameBuf
    ensures r != [] ==> r[0] == FinText
    ensures |p| + 4 <= FrameBuf ==> |r| >= |p| && r[|r| - |p|..] == p
  {
    if |p| >= MaxSend then []
    else
      var h := TextHeader(|p|);
      h + Trunc(p, FrameBuf - |h|)
  }

  /** The sending loop: a header, then payload bytes while the frame buffer
      has room. */
  method SendText(p: seq<byte>) returns (frame: seq<byte>)
    ensures frame == Encode(p)
  {
    var len := |p|;
    if len >= MaxSend {
      return [];
    }
    if len < 126 {
      frame := [FinText, len];
    } else {
      frame := [FinText, Len16, len / 256, len % 256];
    }
    var h := frame;
    var i := 0;
    while i < len
      invariant 0 <= i <= len
      invariant frame == h + Trunc(p[..i], FrameBuf - |h|)
    {
      if |frame| >= FrameBuf {
        assert Trunc(p, FrameBuf - |h|) == Trunc(p[..i], FrameBuf - |h|);
        break;
      }
      frame := frame + [p[i]];
      assert p[..i + 1] == p[..i] + [p[i]];
      i := i + 1;
    }
    assert i == len ==> p[..i] == p;
  }

  /** A payload the frame buffer holds decodes back to itself, cut at the
      receiver's 512 bytes. */
  lemma EncodeDecodes(p: seq<byte>)
    requires |p| + 4 <= FrameBuf
    ensures Decode(Encode(p)) == Text(Trunc(p, MaxPayload))
  {
    var h := TextHeader(|p|);
    assert Encode(p) == h + p;
    UnmaskNoMask(Trunc(p, MaxPayload));
    if |p| < 126 {
      ShortDecodes(p);
    } else {
      MediumDecodes(p);
    }
  }

  lemma ShortDecodes(p: seq<byte>)
    requires |p| < 126
    ensures Decode(TextHeader(|p|) + p) == Text(Unmask(Trunc(p, MaxPayload), NoMask))
  {
    var f := TextHeader(|p|) + p;
    assert LayoutOf(f) == Some(Layout(|p|, 2, NoMask));
    assert f[2..2 + Min(|p|, MaxPayload)] == Trunc(p, MaxPayload);
  }

  lemma MediumDecodes(p: seq<byte>)
    requires 126 <= |p| < MaxSend
    ensures Decode(TextHeader(|p|) + p) == Text(Unmask(Trunc(p, MaxPayload), NoMask))
  {
    var f := TextHeader(|p|) + p;
    assert (f[2] as int) * 256 + f[3] as int == |p|;
    assert LayoutOf(f) == Some(Layout(|p|, 4, NoMask));
    assert f[4..4 + Min(|p|, MaxPayload)] == Trunc(p, MaxPayload);
  }

  /** Every payload the shell broadcasts is within 512 bytes and so reaches
      the client whole. */
  lemma BroadcastDecodes(p: seq<byte>)
    requires |p| <= MaxPayload
    ensures Decode(Encode(p)) == Text(p)
  {
    EncodeDecodes(p);
  }

  /** A longer payload is cut at 1024 bytes and announces more than it
      carries, so the receiving side of this code skips it. */
  lemma LongEncodeSkipped(p: seq<byte>)
    requires FrameBuf - 4 < |p| < MaxSend
    ensures |Encode(p)| == FrameBuf
    ensures Decode(Encode(p)) == Skipped
  {
  }

  // ---------------------------------------------------------------- client frames

  /** A masked final text frame as a browser sends it (section 5.3 of RFC
      6455 requires clients to mask), for payloads under 64 KiB. */
  function ClientText(p: seq<byte>, mask: seq<byte>): (r: seq<byte>)
    requires |p| < MaxSend && |mask| == 4
    ensures |r| == |p| + (if |p| < 126 then 6 else 8)
  {
    var h := if |p| < 126 then [FinText, MaskBit + |p|] else [FinText, MaskBit + Len16, |p| / 256, |p| % 256];
    h + mask + Unmask(p, mask)
  }

  /** A complete masked client frame decodes to its payload, cut at 512
      bytes. */
  lemma ClientTextDecodes(p: seq<byte>, mask: seq<byte>)
    requires |p| < MaxSend && |mask| == 4
    ensures Decode(ClientText(p, mask)) == Text(Trunc(p, MaxPayload))
  {
    var f := ClientText(p, mask);
    var off := if |p| < 126 then 2 else 4;
    assert f[off..off + 4] == mask;
    assert LayoutOf(f) == Some(Layout(|p|, off + 4, mask));
    var k := Min(|p|, MaxPayload);
    assert f[off + 4..off + 4 + k] == Unmask(p, mask)[..k];
    UnmaskPrefix(p, mask, k);
    UnmaskInvolution(p[..k], mask);
  }

  /** The server's two control replies: the close reply reads as a close,
      and the pong is not a ping, so two such servers do not answer each
      other forever. */
  lemma ControlReplies()
    ensures Decode(CloseReply) == Close
    ensures Decode(PongReply) == Other(PongOp)
  {
  }
}
