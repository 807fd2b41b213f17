/** The command history of `src/storage.rs`: a ring of 10 slots of 128
    bytes with a write `index` and a saturating `count`. Abstractly it holds
    the log of every accepted command and shows the last ten, oldest first. */
module History {
  import opened Common
  import Decimal

  const Capacity: nat := 10
  const MaxCommand: nat := 127

  /** `entries[k]` is the command last written into slot `k`; the slot reads
      back as its C string. */
  datatype History = History(entries: seq<seq<byte>>, count: nat, index: nat)

  predicate Valid(h: History) {
    |h.entries| == Capacity && h.count <= Capacity && h.index < Capacity
    && (h.count < Capacity ==> h.index == h.count)
    && forall k :: 0 <= k < Capacity ==> |h.entries[k]| <= MaxCommand
  }

  const Empty: History := History(seq(Capacity, k => []), 0, 0)

  predicate Accepted(cmd: seq<byte>) {
    0 < |cmd| <= MaxCommand
  }

  /** `HistoryStorage::add`: empty and over-long commands are ignored;
      otherwise the command overwrites slot `index`, `index` advances modulo
      10 and `count` grows until it reaches 10. */
  function Add(h: History, cmd: seq<byte>): (r: History)
    requires Valid(h)
    ensures Valid(r)
    ensures !Accepted(cmd) ==> r == h
    ensures Accepted(cmd) ==> r.count == Min(h.count + 1, Capacity) && r.index == (h.index + 1) % Capacity
  {
    if |cmd| == 0 || |cmd| > MaxCommand then h
    else History(h.entries[h.index := cmd], if h.count < Capacity then h.count + 1 else h.count,
                 (h.index + 1) % Capacity)
  }

  /** The slot `list` reads for its `i`-th line. */
  function Slot(h: History, i: nat): (k: nat)
    requires Valid(h) && i < h.count
    ensures k < Capacity
  {
    if h.count < Capacity then i else (h.index + i) % Capacity
  }

  /** The commands `list` shows, in the order it shows them (empty ones
      included; `list` numbers them but prints no line for them). */
  function Shown(h: History): (r: seq<seq<byte>>)
    requires Valid(h)
    ensures |r| == h.count
  {
    seq(h.count, i requires 0 <= i < h.count => CStr(h.entries[Slot(h, i)]))
  }

  const NoHistory: seq<byte> := Ascii("No history\n")

  /** The line `list` prints for the command numbered `n`: "  n: command",
      or nothing for an empty command. */
  function Line(n: nat, cmd: seq<byte>): seq<byte> {
    if |cmd| > 0 then Ascii("  ") + Decimal.Digits(n) + Ascii(": ") + cmd + [LF] else []
  }

  /** The lines of the shown commands, numbered from 1. */
  function Numbered(shown: seq<seq<byte>>): (r: seq<seq<byte>>)
    ensures |r| == |shown|
  {
    seq(|shown|, i requires 0 <= i < |shown| => Line(i + 1, shown[i]))
  }

  /** `HistoryStorage::list`: "No history" when empty, otherwise the
      numbered line of every shown command, oldest first. */
  function List(h: History): (r: seq<byte>)
    requires Valid(h)
    ensures h.count == 0 ==> r == NoHistory
    ensures h.count > 0 ==> r == Concat(Numbered(Shown(h)))
  {
    if h.count == 0 then NoHistory
    else
      LinesAreNumbered(Shown(h), 0);
      Lines(Shown(h), 0)
  }

  /** The loop of `list` from its `i`-th entry on. */
  function Lines(shown: seq<seq<byte>>, i: nat): seq<byte>
    requires i <= |shown|
    decreases |shown| - i
  {
    if i == |shown| then [] else Line(i + 1, shown[i]) + Lines(shown, i + 1)
  }

  /** The loop writes the numbered lines from its index on. */
  lemma {:induction false} LinesAreNumbered(shown: seq<seq<byte>>, i: nat)
    requires i <= |shown|
    ensures Lines(shown, i) == Concat(Numbered(shown)[i..])
    decreases |shown| - i
  {
    if i < |shown| {
      LinesAreNumbered(shown, i + 1);
      assert Numbered(shown)[i..][1..] == Numbered(shown)[i + 1..];
    } else {
      assert Numbered(shown)[i..] == [];
    }
  }

  // ---------------------------------------------------------------- abstraction

  /** `h` holds the accepted commands `log`: the last `count` of them sit in
      slot `k % 10` for their position `k` in the log. */
  predicate Holds(h: History, log: seq<seq<byte>>) {
    Valid(h) && h.count == Min(|log|, Capacity) && h.index == |log| % Capacity
    && forall k :: |log| - h.count <= k < |log| ==> h.entries[k % Capacity] == log[k]
  }

  lemma EmptyHoldsNothing()
    ensures Holds(Empty, [])
  {
  }

  /** `add` appends an accepted command to the log and ignores the rest. */
  lemma AddHolds(h: History, log: seq<seq<byte>>, cmd: seq<byte>)
    requires Holds(h, log)
    ensures Accepted(cmd) ==> Holds(Add(h, cmd), log + [cmd])
    ensures !Accepted(cmd) ==> Holds(Add(h, cmd), log)
  {
    if Accepted(cmd) {
      var r := Add(h, cmd);
      var log' := log + [cmd];
      assert (|log|) % Capacity == h.index;
      assert r.index == |log'| % Capacity;
      forall k | |log'| - r.count <= k < |log'|
        ensures r.entries[k % Capacity] == log'[k]
      {
        if k < |log| {
          assert k % Capacity != h.index by {
            ModDistinct(k, |log|);
          }
        }
      }
    }
  }

  /** Two positions less than ten apart land in different slots. */
  lemma ModDistinct(k: nat, n: nat)
    requires n - Capacity < k < n
    ensures k % Capacity != n % Capacity
  {
    var q := k / Capacity;
    var p := n / Capacity;
    assert k == q * Capacity + k % Capacity;
    assert n == p * Capacity + n % Capacity;
  }

  /** `list` shows the last min(|log|, 10) accepted commands, oldest first. */
  lemma ShownIsLastTen(h: History, log: seq<seq<byte>>)
    requires Holds(h, log)
    ensures |Shown(h)| == Min(|log|, Capacity)
    ensures forall i :: 0 <= i < |Shown(h)| ==> Shown(h)[i] == CStr(log[|log| - h.count + i])
  {
    forall i | 0 <= i < h.count
      ensures Shown(h)[i] == CStr(log[|log| - h.count + i])
    {
      var k := |log| - h.count + i;
      if h.count == Capacity {
        SlotOfPosition(|log|, i);
      }
      assert Slot(h, i) == k % Capacity;
    }
  }

  lemma SlotOfPosition(n: nat, i: nat)
    requires n >= Capacity && i < Capacity
    ensures (n % Capacity + i) % Capacity == (n - Capacity + i) % Capacity
  {
    var m := n - Capacity + i;
    assert n % Capacity + i == m - (n / Capacity - 1) * Capacity by {
      assert n == n / Capacity * Capacity + n % Capacity;
    }
    ModShift(m, n / Capacity - 1);
  }

  lemma ModShift(m: int, q: int)
    requires m - q * Capacity >= 0 && m >= 0
    ensures (m - q * Capacity) % Capacity == m % Capacity
  {
    var x := m - q * Capacity;
    assert m == (x / Capacity + q) * Capacity + x % Capacity;
  }

  /** The last min(|log|, 10) accepted commands, oldest first, as their
      slots read back. */
  function Recent(log: seq<seq<byte>>): (r: seq<seq<byte>>)
    ensures |r| == Min(|log|, Capacity)
  {
    var n := Min(|log|, Capacity);
    seq(n, i requires 0 <= i < n => CStr(log[|log| - n + i]))
  }

  /** What `history` prints: "No history" before any accepted command,
      then the numbered lines of the last ten accepted commands. */
  lemma ListOfLog(h: History, log: seq<seq<byte>>)
    requires Holds(h, log)
    ensures |log| == 0 ==> List(h) == NoHistory
    ensures |log| > 0 ==> List(h) == Concat(Numbered(Recent(log)))
  {
    ShownIsLastTen(h, log);
    if |log| > 0 {
      assert Shown(h) == Recent(log);
    }
  }
}
