/** The per-connection shell session of `src/shell/session.rs`: a 512-byte
    input line, a 4096-byte output buffer with a read and a write position,
    an active flag, and a pool of 16 sessions. The model keeps only what the
    atomics make observable: the first `input_len` input bytes and the first
    `write_pos` output bytes. */
module Session {
  import opened Common

  const MaxInput: nat := 512
  const MaxOutput: nat := 4096
  const MaxSessions: nat := 16

  /** `input` is `input_buffer[..input_len]`, `output` is
      `output_buffer[..output_write_pos]`, `readPos` is `output_read_pos`. */
  datatype Session = Session(input: seq<byte>, output: seq<byte>, readPos: nat, active: bool)

  const Idle: Session := Session([], [], 0, false)

  predicate Valid(s: Session) {
    |s.input| <= MaxInput && s.readPos <= |s.output| <= MaxOutput
  }

  /** The output written but not yet read: what a client still has to fetch. */
  function Pending(s: Session): seq<byte>
    requires Valid(s)
  {
    s.output[s.readPos..]
  }

  /** `activate`: empty input and output, both positions zero, active. */
  function Activate(s: Session): (r: Session)
    ensures Valid(r) && r.active
    ensures r.input == [] && Pending(r) == [] && r.output == []
  {
    Session([], [], 0, true)
  }

  /** `deactivate`: only the flag changes; the buffers are left as they are. */
  function Deactivate(s: Session): (r: Session)
    ensures !r.active
    ensures r.input == s.input && r.output == s.output && r.readPos == s.readPos
  {
    s.(active := false)
  }

  /** `append_input`: a byte beyond the 512th is dropped. */
  function AppendInput(s: Session, ch: byte): (r: Session)
    requires Valid(s)
    ensures Valid(r)
    ensures |s.input| < MaxInput ==> r.input == s.input + [ch]
    ensures |s.input| >= MaxInput ==> r == s
    ensures r.output == s.output && r.readPos == s.readPos && r.active == s.active
  {
    if |s.input| < MaxInput then s.(input := s.input + [ch]) else s
  }

  /** `get_input` into a buffer of `cap` bytes. */
  function GetInput(s: Session, cap: nat): (r: seq<byte>)
    ensures r <= s.input
    ensures |r| == Min(|s.input|, cap)
  {
    Trunc(s.input, cap)
  }

  function ClearInput(s: Session): (r: Session)
    requires Valid(s)
    ensures Valid(r) && r.input == []
    ensures r.output == s.output && r.readPos == s.readPos && r.active == s.active
  {
    s.(input := [])
  }

  /** `backspace_input`: forget the last byte, if any. */
  function BackspaceInput(s: Session): (r: Session)
    requires Valid(s)
    ensures Valid(r)
    ensures |s.input| > 0 ==> r.input + [s.input[|s.input| - 1]] == s.input
    ensures |s.input| == 0 ==> r == s
    ensures r.output == s.output && r.readPos == s.readPos && r.active == s.active
  {
    if |s.input| > 0 then s.(input := s.input[..|s.input| - 1]) else s
  }

  /** `write_output`: bytes are stored until the write position reaches 4096;
      the rest of `data` is dropped. The buffer never wraps. */
  function WriteOutput(s: Session, data: seq<byte>): (r: Session)
    requires Valid(s)
    ensures Valid(r)
    ensures Pending(r) == Pending(s) + Trunc(data, MaxOutput - |s.output|)
    ensures r.input == s.input && r.readPos == s.readPos && r.active == s.active
  {
    var kept := Trunc(data, MaxOutput - |s.output|);
    assert (s.output + kept)[s.readPos..] == s.output[s.readPos..] + kept;
    s.(output := s.output + kept)
  }

  /** `read_output` into a buffer of `cap` bytes: the oldest unread bytes,
      as many as fit, and the read position moves past them. */
  function ReadOutput(s: Session, cap: nat): (r: (Session, seq<byte>))
    requires Valid(s)
    ensures Valid(r.0)
    ensures r.1 == Trunc(Pending(s), cap)
    ensures r.1 + Pending(r.0) == Pending(s)
    ensures r.0.input == s.input && r.0.output == s.output && r.0.active == s.active
  {
    if s.readPos >= |s.output| then (s, [])
    else
      var n := Min(|s.output| - s.readPos, cap);
      var r0 := s.(readPos := s.readPos + n);
      assert s.output[s.readPos..s.readPos + n] + s.output[s.readPos + n..] == s.output[s.readPos..];
      (r0, s.output[s.readPos..s.readPos + n])
  }

  function HasOutput(s: Session): (b: bool)
    requires Valid(s)
    ensures b <==> Pending(s) != []
  {
    s.readPos < |s.output|
  }

  // ---------------------------------------------------------------- properties

  /** Typing a byte and erasing it restores the line, unless the line was
      full and the byte was dropped. */
  lemma BackspaceUndoesAppend(s: Session, ch: byte)
    requires Valid(s) && |s.input| < MaxInput
    ensures BackspaceInput(AppendInput(s, ch)) == s
  {
    assert (s.input + [ch])[..|s.input|] == s.input;
  }

  /** Reading with room for everything drains the output in write order. */
  lemma WriteThenRead(s: Session, data: seq<byte>, cap: nat)
    requires Valid(s) && |Pending(s)| + |data| <= cap && |s.output| + |data| <= MaxOutput
    ensures ReadOutput(WriteOutput(s, data), cap).1 == Pending(s) + data
    ensures !HasOutput(ReadOutput(WriteOutput(s, data), cap).0)
  {
  }

  /** Two writes store what one write of both pieces would store, so a
      handler's sequence of `write_output` calls acts as one call with the
      concatenated bytes. */
  lemma WriteOutputConcat(s: Session, a: seq<byte>, b: seq<byte>)
    requires Valid(s)
    ensures WriteOutput(WriteOutput(s, a), b) == WriteOutput(s, a + b)
  {
    var room := MaxOutput - |s.output|;
    var ka := Trunc(a, room);
    var kb := Trunc(b, MaxOutput - |s.output + ka|);
    if |a| <= room {
      assert ka + kb == Trunc(a + b, room);
    } else {
      assert kb == [];
      assert (a + b)[..room] == a[..room];
    }
    assert s.output + ka + kb == s.output + (ka + kb);
  }

  /** The output buffer counts bytes since `activate`, not unread bytes: once
      4096 bytes were written, later writes are dropped even after every
      byte was read. */
  lemma FullBufferDropsWrites(s: Session, data: seq<byte>)
    requires Valid(s) && |s.output| == MaxOutput
    ensures WriteOutput(s, data) == s
    ensures !HasOutput(ReadOutput(s, MaxOutput).0)
  {
    assert s.output + [] == s.output;
  }

  // ---------------------------------------------------------------- pool

  datatype Pool = Pool(sessions: seq<Session>)

  const EmptyPool: Pool := Pool(seq(MaxSessions, i => Idle))

  predicate PoolValid(p: Pool) {
    |p.sessions| == MaxSessions && forall i :: 0 <= i < MaxSessions ==> Valid(p.sessions[i])
  }

  /** `get_session`: a session exists for every index below 16. */
  function GetSession(p: Pool, idx: nat): (r: Option<Session>)
    requires PoolValid(p)
    ensures r.Some? <==> idx < MaxSessions
    ensures r.Some? ==> r.value == p.sessions[idx]
  {
    if idx < MaxSessions then Some(p.sessions[idx]) else None
  }

  /** Index of the first inactive session at or after `i`, or 16. */
  function FirstInactive(p: Pool, i: nat): (k: nat)
    requires PoolValid(p) && i <= MaxSessions
    ensures i <= k <= MaxSessions
    ensures forall j :: i <= j < k ==> p.sessions[j].active
    ensures k < MaxSessions ==> !p.sessions[k].active
    decreases MaxSessions - i
  {
    if i == MaxSessions then i
    else if !p.sessions[i].active then i
    else FirstInactive(p, i + 1)
  }

  /** `allocate_session`: activate the first inactive session and return its
      index; `None` when all 16 are active. */
  function Allocate(p: Pool): (r: (Pool, Option<nat>))
    requires PoolValid(p)
    ensures PoolValid(r.0)
    ensures r.1.None? <==> forall j :: 0 <= j < MaxSessions ==> p.sessions[j].active
    ensures r.1.None? ==> r.0 == p
    ensures r.1.Some? ==>
      var i := r.1.value;
      i < MaxSessions && !p.sessions[i].active
      && (forall j :: 0 <= j < i ==> p.sessions[j].active)
      && r.0.sessions == p.sessions[i := Activate(p.sessions[i])]
  {
    var k := FirstInactive(p, 0);
    if k == MaxSessions then (p, None)
    else (Pool(p.sessions[k := Activate(p.sessions[k])]), Some(k))
  }

  /** `free_session`: deactivate a session; an index past the pool is ignored. */
  function Free(p: Pool, idx: nat): (r: Pool)
    requires PoolValid(p)
    ensures PoolValid(r)
    ensures idx >= MaxSessions ==> r == p
    ensures idx < MaxSessions ==> r.sessions == p.sessions[idx := Deactivate(p.sessions[idx])]
  {
    if idx < MaxSessions then Pool(p.sessions[idx := Deactivate(p.sessions[idx])]) else p
  }

  function ActiveSet(p: Pool): (r: set<nat>)
    requires PoolValid(p)
    ensures forall i: nat :: i in r <==> i < MaxSessions && p.sessions[i].active
  {
    set i: nat | i < MaxSessions && p.sessions[i].active
  }

  /** Allocation adds exactly the returned index to the active set and hands
      out a fresh session; freeing it takes the index out again. */
  lemma AllocateThenFree(p: Pool)
    requires PoolValid(p)
    ensures var (p', r) := Allocate(p);
      r.Some? ==>
        r.value !in ActiveSet(p)
        && ActiveSet(p') == ActiveSet(p) + {r.value}
        && p'.sessions[r.value] == Activate(Idle)
        && ActiveSet(Free(p', r.value)) == ActiveSet(p)
  {
  }

  /** Two allocations without a free in between never share a session. */
  lemma AllocationsDistinct(p: Pool)
    requires PoolValid(p)
    requires Allocate(p).1.Some? && Allocate(Allocate(p).0).1.Some?
    ensures Allocate(p).1.value != Allocate(Allocate(p).0).1.value
  {
  }
}
