/** `src/network/websocket.rs` apart from the handshake: the state the
    terminal clients share (one input line per client, the queue of
    commands for the shell, the ring of broadcast messages) and one turn of
    a client's frame loop. The atomics are plain values here: every turn is
    taken as a whole. */
module WsHub {
  import opened Common
  import WsFrame

  /** The input line of one client. */
  const MaxLine: nat := 512
  /** A queued command and a broadcast message are cut at this length. */
  const MaxMsg: nat := 512
  const QueueSlots: nat := 10
  const RingSlots: nat := 100
  const DEL: byte := 0x7f
  const BS: byte := 0x08
  /** The bytes the browser terminal sends for Ctrl+C and Ctrl+D. */
  const CtrlC: byte := 3
  const CtrlD: byte := 4
  const EchoPrefix: seq<byte> := Ascii("> ")

  // ---------------------------------------------------------------- input line

  /** `append_to_input`: a full line drops the byte. */
  function Append(line: seq<byte>, ch: byte): (r: seq<byte>)
    requires |line| <= MaxLine
    ensures |r| <= MaxLine
    ensures r == Trunc(line + [ch], MaxLine)
  {
    if |line| < MaxLine then line + [ch] else line
  }

  /** `backspace_input`: an empty line stays empty. */
  function Backspace(line: seq<byte>): (r: seq<byte>)
    ensures |line| > 0 ==> r + [line[|line| - 1]] == line
    ensures |line| == 0 ==> r == []
  {
    if |line| > 0 then line[..|line| - 1] else line
  }

  /** A backspace undoes the byte just typed on a line that had room. */
  lemma BackspaceUndoes(line: seq<byte>, ch: byte)
    requires |line| < MaxLine
    ensures Backspace(Append(line, ch)) == line
  {
  }

  // ---------------------------------------------------------------- command queue

  /** The shell command queue: ten slots, written at `write % 10` and read
      at `read % 10`; the counters only grow. */
  datatype Queue = Queue(slots: seq<seq<byte>>, write: nat, read: nat)

  predicate ValidQueue(q: Queue) {
    && |q.slots| == QueueSlots
    && q.read <= q.write <= q.read + QueueSlots
    && (forall i :: 0 <= i < |q.slots| ==> |q.slots[i]| <= MaxMsg)
  }

  const EmptyQueue: Queue := Queue(seq(QueueSlots, _ => []), 0, 0)

  /** The queue holds `pending`, oldest first. */
  predicate QueueHolds(q: Queue, pending: seq<seq<byte>>) {
    && ValidQueue(q)
    && |pending| == q.write - q.read
    && (forall k :: 0 <= k < |pending| ==> q.slots[(q.read + k) % QueueSlots] == pending[k])
  }

  lemma EmptyQueueHolds()
    ensures QueueHolds(EmptyQueue, [])
  {
  }

  /** `queue_shell_command`: a full queue drops the command; otherwise it
      is stored cut at 512 bytes. */
  function Enqueue(q: Queue, cmd: seq<byte>): (r: Queue)
    requires ValidQueue(q)
    ensures ValidQueue(r)
  {
    if q.write - q.read >= QueueSlots then q
    else Queue(q.slots[q.write % QueueSlots := Trunc(cmd, MaxMsg)], q.write + 1, q.read)
  }

  /** Enqueueing appends the cut command to the pending ones, unless ten
      are already pending. */
  lemma EnqueueHolds(q: Queue, pending: seq<seq<byte>>, cmd: seq<byte>)
    requires QueueHolds(q, pending)
    ensures |pending| < QueueSlots ==> QueueHolds(Enqueue(q, cmd), pending + [Trunc(cmd, MaxMsg)])
    ensures |pending| == QueueSlots ==> Enqueue(q, cmd) == q
  {
    if |pending| < QueueSlots {
      var r := Enqueue(q, cmd);
      var p := pending + [Trunc(cmd, MaxMsg)];
      forall k | 0 <= k < |p|
        ensures r.slots[(r.read + k) % QueueSlots] == p[k]
      {
        if k < |pending| {
          SlotsDiffer(q.read, k, |pending|);
        }
      }
    }
  }

  /** Two counters less than ten apart name different slots. */
  lemma SlotsDiffer(base: nat, j: nat, k: nat)
    requires j < k < QueueSlots
    ensures (base + j) % QueueSlots != (base + k) % QueueSlots
  {
  }

  /** `get_shell_command`: the oldest command cut at `cap` bytes, or
      nothing. An empty slot is consumed and also answers nothing. */
  function Dequeue(q: Queue, cap: nat): (r: (Queue, seq<byte>))
    requires ValidQueue(q)
    ensures ValidQueue(r.0) && |r.1| <= cap
  {
    if q.read >= q.write then (q, [])
    else
      var s := q.slots[q.read % QueueSlots];
      if |s| == 0 || |s| > MaxMsg then (q.(read := q.read + 1), [])
      else (q.(read := q.read + 1), Trunc(s, cap))
  }

  /** Dequeueing takes the oldest pending command, first in first out. */
  lemma DequeueHolds(q: Queue, pending: seq<seq<byte>>, cap: nat)
    requires QueueHolds(q, pending)
    ensures pending == [] ==> Dequeue(q, cap) == (q, [])
    ensures pending != [] ==> QueueHolds(Dequeue(q, cap).0, pending[1..])
    ensures pending != [] ==> Dequeue(q, cap).1 == Trunc(pending[0], cap)
  {
    if pending != [] {
      var r := Dequeue(q, cap).0;
      forall k | 0 <= k < |pending| - 1
        ensures r.slots[(r.read + k) % QueueSlots] == pending[1..][k]
      {
        assert r.read + k == q.read + (k + 1);
      }
    }
  }

  // ---------------------------------------------------------------- broadcast ring

  /** The broadcast ring: a hundred slots, written at `count % 100`. */
  datatype Ring = Ring(slots: seq<seq<byte>>, count: nat)

  predicate ValidRing(r: Ring) {
    && |r.slots| == RingSlots
    && (forall i :: 0 <= i < |r.slots| ==> |r.slots[i]| <= MaxMsg)
  }

  const EmptyRing: Ring := Ring(seq(RingSlots, _ => []), 0)

  /** The ring holds the last hundred of the messages in `log`, cut at 512
      bytes; `log` is every message broadcast so far. */
  predicate RingHolds(r: Ring, log: seq<seq<byte>>) {
    && ValidRing(r)
    && |log| == r.count
    && (forall k :: r.count - RingSlots <= k < r.count && 0 <= k ==>
          r.slots[k % RingSlots] == Trunc(log[k], MaxMsg))
  }

  lemma EmptyRingHolds()
    ensures RingHolds(EmptyRing, [])
  {
  }

  /** `broadcast_message`: overwrite the oldest slot. */
  function Broadcast(r: Ring, msg: seq<byte>): (r': Ring)
    requires ValidRing(r)
    ensures ValidRing(r') && r'.count == r.count + 1
  {
    Ring(r.slots[r.count % RingSlots := Trunc(msg, MaxMsg)], r.count + 1)
  }

  lemma BroadcastHolds(r: Ring, log: seq<seq<byte>>, msg: seq<byte>)
    requires RingHolds(r, log)
    ensures RingHolds(Broadcast(r, msg), log + [msg])
  {
    var r' := Broadcast(r, msg);
    var log' := log + [msg];
    forall k | r'.count - RingSlots <= k < r'.count && 0 <= k
      ensures r'.slots[k % RingSlots] == Trunc(log'[k], MaxMsg)
    {
      if k < r.count {
        assert k % RingSlots != r.count % RingSlots;
      }
    }
  }

  /** `get_next_message` for a client at `idx`: the message there and the
      next index, or nothing. An empty slot is skipped but still answers
      nothing. */
  function GetNext(r: Ring, idx: nat): (res: (nat, seq<byte>))
    requires ValidRing(r)
    ensures |res.1| <= MaxMsg
    ensures idx >= r.count ==> res == (idx, [])
    ensures idx < r.count ==> res.0 == idx + 1
  {
    if idx >= r.count then (idx, [])
    else
      var s := r.slots[idx % RingSlots];
      if |s| == 0 || |s| > MaxMsg then (idx + 1, [])
      else (idx + 1, Trunc(s, MaxMsg))
  }

  /** A client less than a hundred messages behind reads exactly the next
      message of the log. */
  lemma GetNextRecent(r: Ring, log: seq<seq<byte>>, idx: nat)
    requires RingHolds(r, log)
    requires r.count - RingSlots <= idx < r.count
    ensures GetNext(r, idx) == (idx + 1, Trunc(log[idx], MaxMsg))
  {
  }

  /** A client more than a hundred messages behind has lost the message at
      its index: it reads the newest message that shares its slot. */
  lemma GetNextOverrun(r: Ring, log: seq<seq<byte>>, idx: nat)
    requires RingHolds(r, log)
    requires idx + RingSlots < r.count
    ensures var j := r.count - 1 - (r.count - 1 - idx) % RingSlots;
      && idx < j < r.count
      && j % RingSlots == idx % RingSlots
      && GetNext(r, idx) == (idx + 1, Trunc(log[j], MaxMsg))
  {
    var j := r.count - 1 - (r.count - 1 - idx) % RingSlots;
    var d := r.count - 1 - idx;
    assert d == (d / RingSlots) * RingSlots + d % RingSlots;
    assert j == idx + (d / RingSlots) * RingSlots;
    assert j % RingSlots == idx % RingSlots by {
      ModMultiple(idx, d / RingSlots);
    }
  }

  lemma ModMultiple(a: nat, m: nat)
    ensures (a + m * RingSlots) % RingSlots == a % RingSlots
  {
    if m > 0 {
      ModMultiple(a, m - 1);
      assert a + m * RingSlots == (a + (m - 1) * RingSlots) + RingSlots;
    }
  }

  // ---------------------------------------------------------------- draining

  /** The inner loop of the frame loop: send messages until
      `get_next_message` answers nothing. Returns the new index and the
      bytes written to the socket. */
  function Drain(r: Ring, idx: nat): (res: (nat, seq<byte>))
    requires ValidRing(r)
    decreases if idx < r.count then r.count - idx else 0
  {
    var got := GetNext(r, idx);
    if got.1 == [] then (got.0, [])
    else
      var rest := Drain(r, got.0);
      (rest.0, WsFrame.Encode(got.1) + rest.1)
  }

  /** The frames of log messages `i` to `j`, each cut at 512 bytes. */
  function Frames(log: seq<seq<byte>>, i: nat, j: nat): seq<byte>
    requires i <= j <= |log|
    decreases j - i
  {
    if i == j then [] else WsFrame.Encode(Trunc(log[i], MaxMsg)) + Frames(log, i + 1, j)
  }

  /** A client within a hundred messages of the newest, none of them empty,
      catches up: it sends every missed message in order, each as one text
      frame. */
  lemma {:induction false} DrainCatchesUp(r: Ring, log: seq<seq<byte>>, idx: nat)
    requires RingHolds(r, log)
    requires r.count - RingSlots <= idx <= r.count
    requires forall k :: idx <= k < r.count ==> log[k] != []
    ensures Drain(r, idx) == (r.count, Frames(log, idx, r.count))
    decreases r.count - idx
  {
    if idx < r.count {
      GetNextRecent(r, log, idx);
      assert Trunc(log[idx], MaxMsg) != [];
      DrainCatchesUp(r, log, idx + 1);
    }
  }

  /** `websocket_frame_loop_with_index` starts a client at the current
      count, so it drains nothing of the history. */
  lemma NewClientDrainsNothing(r: Ring)
    requires ValidRing(r)
    ensures Drain(r, r.count) == (r.count, [])
  {
  }

  /** The drain loop as a loop. */
  method DrainLoop(r: Ring, idx: nat) returns (last: nat, out: seq<byte>)
    requires ValidRing(r)
    ensures (last, out) == Drain(r, idx)
  {
    var i := idx;
    out := [];
    assert [] + Drain(r, i).1 == Drain(r, i).1;
    while true
      invariant DrainedSoFar(r, idx, i, out)
      decreases if i < r.count then r.count - i else 0
    {
      var got := GetNext(r, i);
      if got.1 == [] {
        DrainStops(r, i);
        assert out + [] == out;
        return got.0, out;
      }
      DrainAdvance(r, idx, i, out);
      out := out + WsFrame.Encode(got.1);
      i := got.0;
    }
  }

  /** After draining from `idx` up to `i` the client holds `out`, and the
      rest of the drain continues from `i`. */
  predicate DrainedSoFar(r: Ring, idx: nat, i: nat, out: seq<byte>)
    requires ValidRing(r)
  {
    Drain(r, idx) == (Drain(r, i).0, out + Drain(r, i).1)
  }

  lemma DrainAdvance(r: Ring, idx: nat, i: nat, out: seq<byte>)
    requires ValidRing(r) && GetNext(r, i).1 != [] && DrainedSoFar(r, idx, i, out)
    ensures DrainedSoFar(r, idx, GetNext(r, i).0, out + WsFrame.Encode(GetNext(r, i).1))
  {
    DrainGoes(r, i);
    var e := WsFrame.Encode(GetNext(r, i).1);
    var rest := Drain(r, GetNext(r, i).0).1;
    assert out + (e + rest) == (out + e) + rest;
  }

  lemma DrainStops(r: Ring, i: nat)
    requires ValidRing(r) && GetNext(r, i).1 == []
    ensures Drain(r, i) == (GetNext(r, i).0, [])
  {
  }

  lemma DrainGoes(r: Ring, i: nat)
    requires ValidRing(r) && GetNext(r, i).1 != []
    ensures Drain(r, i).0 == Drain(r, GetNext(r, i).0).0
    ensures Drain(r, i).1 == WsFrame.Encode(GetNext(r, i).1) + Drain(r, GetNext(r, i).0).1
  {
  }

  // ---------------------------------------------------------------- typed bytes

  /** The state a client's bytes act on: its own input line and the two
      shared structures. */
  datatype Hub = Hub(line: seq<byte>, ring: Ring, queue: Queue)

  predicate ValidHub(h: Hub) {
    |h.line| <= MaxLine && ValidRing(h.ring) && ValidQueue(h.queue)
  }

  /** What an entered line broadcasts. */
  function Echo(cmd: seq<byte>): seq<byte> {
    EchoPrefix + cmd + [LF]
  }

  predicate Printable(ch: byte) {
    32 <= ch < 127
  }

  /** The per-byte branch of a text frame: a line end on a non-empty line
      echoes it to every client, queues it and clears it; DEL and BS erase;
      printable bytes are typed; everything else is ignored. */
  function HandleByte(h: Hub, ch: byte): (r: Hub)
    requires ValidHub(h)
    ensures ValidHub(r)
    ensures (ch == LF || ch == CR) && |h.line| > 0 ==>
      r.line == [] && r.ring.count == h.ring.count + 1
    ensures ch != LF && ch != CR ==> r.ring == h.ring && r.queue == h.queue
  {
    if ch == LF || ch == CR then
      if |h.line| > 0 then Hub([], Broadcast(h.ring, Echo(h.line)), Enqueue(h.queue, h.line))
      else h
    else if ch == DEL || ch == BS then h.(line := Backspace(h.line))
    else if Printable(ch) then h.(line := Append(h.line, ch))
    else h
  }

  /** The bytes of one text payload, first to last. */
  function HandleText(h: Hub, p: seq<byte>): (r: Hub)
    requires ValidHub(h)
    ensures ValidHub(r)
    decreases |p|
  {
    if p == [] then h else HandleByte(HandleText(h, p[..|p| - 1]), p[|p| - 1])
  }

  /** The bytes the browser sends for Tab, Ctrl+C and Ctrl+D, and every
      other control byte but the line ends and erasers, change nothing. */
  lemma ControlBytesIgnored(h: Hub, ch: byte)
    requires ValidHub(h)
    requires ch < 32 || ch >= 127
    requires ch != LF && ch != CR && ch != BS && ch != DEL
    ensures HandleByte(h, ch) == h
  {
  }

  lemma TabAndInterruptsIgnored(h: Hub)
    requires ValidHub(h)
    ensures HandleByte(h, TAB) == h && HandleByte(h, CtrlC) == h && HandleByte(h, CtrlD) == h
  {
    ControlBytesIgnored(h, TAB);
    ControlBytesIgnored(h, CtrlC);
    ControlBytesIgnored(h, CtrlD);
  }

  /** Typing printable bytes on a line extends it by them, up to 512 bytes,
      and touches nothing shared. */
  lemma {:induction false} TypingFillsLine(h: Hub, s: seq<byte>)
    requires ValidHub(h)
    requires forall k :: 0 <= k < |s| ==> Printable(s[k])
    ensures HandleText(h, s) == h.(line := Trunc(h.line + s, MaxLine))
    decreases |s|
  {
    if s != [] {
      var s' := s[..|s| - 1];
      TypingFillsLine(h, s');
      var line := Trunc(h.line + s', MaxLine);
      assert (h.line + s')  + [s[|s| - 1]] == h.line + s;
      TruncSnoc(h.line + s', s[|s| - 1], MaxLine);
    }
  }

  lemma TruncSnoc(a: seq<byte>, x: byte, n: nat)
    ensures Trunc(a + [x], n) == (if |Trunc(a, n)| < n then Trunc(a, n) + [x] else Trunc(a, n))
  {
    if |a| >= n {
      assert (a + [x])[..n] == a[..n];
    }
  }

  /** Entering a line: the echo joins the broadcast log, the line joins the
      pending commands when the queue has room, and the line is cleared. */
  lemma EnterHolds(h: Hub, log: seq<seq<byte>>, pending: seq<seq<byte>>, ch: byte)
    requires ValidHub(h) && |h.line| > 0
    requires RingHolds(h.ring, log) && QueueHolds(h.queue, pending)
    requires ch == LF || ch == CR
    ensures var r := HandleByte(h, ch);
      && r.line == []
      && RingHolds(r.ring, log + [Echo(h.line)])
      && (|pending| < QueueSlots ==> QueueHolds(r.queue, pending + [h.line]))
      && (|pending| == QueueSlots ==> r.queue == h.queue)
  {
    BroadcastHolds(h.ring, log, Echo(h.line));
    EnqueueHolds(h.queue, pending, h.line);
  }

  /** A command typed on a fresh line and entered reaches the shell: the
      next dequeue from a queue that was empty yields it. */
  lemma {:induction false} TypedCommandQueued(h: Hub, s: seq<byte>, ch: byte)
    requires ValidHub(h) && h.line == [] && QueueHolds(h.queue, [])
    requires 0 < |s| <= MaxLine
    requires forall k :: 0 <= k < |s| ==> Printable(s[k])
    requires ch == LF || ch == CR
    ensures Dequeue(HandleText(h, s + [ch]).queue, MaxMsg).1 == s
  {
    var typed := HandleText(h, s);
    HandleTextSnoc(h, s, ch);
    TypingFillsLine(h, s);
    assert h.line + s == s;
    assert typed.line == s && typed.queue == h.queue;
    var q := HandleByte(typed, ch).queue;
    assert q == Enqueue(h.queue, s);
    EnqueueHolds(h.queue, [], s);
    assert [] + [Trunc(s, MaxMsg)] == [s];
    DequeueHolds(q, [s], MaxMsg);
  }

  lemma HandleTextSnoc(h: Hub, s: seq<byte>, ch: byte)
    requires ValidHub(h)
    ensures HandleText(h, s + [ch]) == HandleByte(HandleText(h, s), ch)
  {
    assert (s + [ch])[..|s|] == s;
  }

  // ---------------------------------------------------------------- frame loop

  /** What one turn of the loop observes after draining. */
  datatype Event = Shutdown | PollFailed | Idle | ReadFailed | Eof | Data(bytes: seq<byte>)

  /** A turn's outcome: the state after it, the client's new read index,
      the bytes written to the client, and whether the loop ends. */
  datatype Turn = Turn(hub: Hub, idx: nat, sent: seq<byte>, stop: bool)

  /** One turn of `websocket_frame_loop`: shutdown check, drain, then the
      poll and read outcome and the frame it carries. */
  function LoopTurn(h: Hub, idx: nat, ev: Event): (t: Turn)
    requires ValidHub(h)
    ensures ValidHub(t.hub)
    ensures ev.Shutdown? ==> t == Turn(h, idx, [], true)
    ensures t.stop <==>
      (ev in {Shutdown, PollFailed, ReadFailed, Eof} || (ev.Data? && WsFrame.Decode(ev.bytes).Close?))
    ensures t.hub != h ==> ev.Data? && WsFrame.Decode(ev.bytes).Text?
  {
    if ev.Shutdown? then Turn(h, idx, [], true)
    else
      var (next, out) := Drain(h.ring, idx);
      match ev
      case PollFailed => Turn(h, next, out, true)
      case Idle => Turn(h, next, out, false)
      case ReadFailed => Turn(h, next, out, true)
      case Eof => Turn(h, next, out, true)
      case Data(bytes) =>
        match WsFrame.Decode(bytes)
        case Skipped => Turn(h, next, out, false)
        case Text(p) => Turn(HandleText(h, p), next, out, false)
        case Close => Turn(h, next, out + WsFrame.CloseReply, true)
        case Ping => Turn(h, next, out + WsFrame.PongReply, false)
        case Other(_) => Turn(h, next, out, false)
  }

  /** A close frame is answered with a close frame after the drained
      messages, and a ping with a pong. */
  lemma ControlFramesAnswered(h: Hub, idx: nat, bytes: seq<byte>)
    requires ValidHub(h)
    ensures WsFrame.Decode(bytes).Close? ==>
      LoopTurn(h, idx, Data(bytes)).sent == Drain(h.ring, idx).1 + WsFrame.CloseReply
    ensures WsFrame.Decode(bytes).Ping? ==>
      LoopTurn(h, idx, Data(bytes)).sent == Drain(h.ring, idx).1 + WsFrame.PongReply
  {
  }
}
