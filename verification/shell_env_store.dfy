/** The environment store of `src/shell/storage/env_storage.rs`: the same
    32 x 256-byte table as `src/storage.rs`, but mapped lazily with `mmap` on
    first use. Whether the mapping succeeds is a parameter `mmapOk` of each
    operation; a failed mapping leaves the store unallocated and is retried on
    the next call. Once allocated, every operation behaves exactly like the
    corresponding operation of `EnvStore`. */
module ShellEnvStore {
  import opened Common
  import EnvStore

  const SlotBytes: nat := 256

  datatype ShellStore = Unallocated | Allocated(inner: EnvStore.Store)

  predicate Valid(st: ShellStore) {
    st.Allocated? ==> EnvStore.Valid(st.inner)
  }

  /** `ensure_init`: map and zero the table unless already done. */
  function EnsureInit(st: ShellStore, mmapOk: bool): (r: ShellStore)
    ensures st.Allocated? ==> r == st
    ensures r.Allocated? <==> st.Allocated? || mmapOk
    ensures Valid(st) ==> Valid(r)
  {
    if st.Allocated? then st
    else if mmapOk then Allocated(EnvStore.Empty)
    else Unallocated
  }

  /** `set`: after initialisation, a null table refuses; otherwise the slot
      `count` is zeroed and filled, and `count` grows only when the whole
      entry fits. */
  function Set(st: ShellStore, mmapOk: bool, name: seq<byte>, value: seq<byte>): (r: (ShellStore, bool))
    ensures EnsureInit(st, mmapOk).Unallocated? ==> r == (Unallocated, false)
    ensures EnsureInit(st, mmapOk).Allocated? ==>
      var e := EnvStore.Set(EnsureInit(st, mmapOk).inner, name, value);
      r == (Allocated(e.0), e.1)
    ensures Valid(st) ==> Valid(r.0)
  {
    var s := EnsureInit(st, mmapOk);
    match s
    case Unallocated => (s, false)
    case Allocated(inner) =>
      var count := |inner.slots|;
      if count >= EnvStore.MaxVars then (s, false)
      else if |name| > EnvStore.MaxName then (s, false)
      else if |name| + 1 + |value| > EnvStore.MaxEntry then (s, false)
      else (Allocated(EnvStore.Store(inner.slots + [name + [EQUALS] + value])), true)
  }

  /** The comparison loop of `get` over the 256-byte slot `v`, from index
      `j`: `Some(j')` when it stops at index `j'` without a mismatch,
      `None` when a byte differs. */
  function Compare(v: seq<byte>, name: seq<byte>, j: nat): (r: Option<nat>)
    requires |v| == SlotBytes && v[SlotBytes - 1] == NUL && j <= |name| && j < SlotBytes
    ensures r.Some? ==> j <= r.value < SlotBytes && r.value <= |name|
    decreases |name| - j
  {
    if j < |name| && j < SlotBytes && v[j] != NUL then
      if v[j] != name[j] then None else Compare(v, name, j + 1)
    else Some(j)
  }

  /** The copy loop of `get`: bytes from `j` up to the NUL, at most `cap`. */
  function CopyOut(v: seq<byte>, j: nat, cap: nat): (r: seq<byte>)
    requires j <= |v|
    decreases cap
  {
    if j < |v| && v[j] != NUL && cap > 0 then [v[j]] + CopyOut(v, j + 1, cap - 1) else []
  }

  /** The slot scan of `get` from slot `i` on. */
  function Scan(slots: seq<seq<byte>>, name: seq<byte>, cap: nat, i: nat): (r: seq<byte>)
    requires i <= |slots|
    requires forall k :: 0 <= k < |slots| ==> |slots[k]| <= EnvStore.MaxEntry
    decreases |slots| - i
  {
    if i == |slots| then []
    else
      var v := Pad(slots[i], SlotBytes);
      var c := Compare(v, name, 0);
      if c.Some? && v[c.value] == EQUALS then CopyOut(v, c.value + 1, cap)
      else Scan(slots, name, cap, i + 1)
  }

  /** `get`: nothing from an unallocated table, otherwise the first match. */
  function Get(st: ShellStore, mmapOk: bool, name: seq<byte>, cap: nat): (r: (ShellStore, seq<byte>))
    requires Valid(st)
    ensures r.0 == EnsureInit(st, mmapOk)
    ensures r.0.Unallocated? ==> r.1 == []
    ensures r.0.Allocated? ==> r.1 == EnvStore.Get(r.0.inner, name, cap)
    ensures |r.1| <= cap
  {
    var s := EnsureInit(st, mmapOk);
    match s
    case Unallocated => (s, [])
    case Allocated(inner) =>
      ScanIsLookup(inner.slots, name, cap, 0);
      (s, Scan(inner.slots, name, cap, 0))
  }

  /** The length loop of `iter` over one 256-byte slot. */
  function SlotLen(v: seq<byte>, len: nat): (n: nat)
    requires len <= |v|
    ensures len <= n <= |v|
    decreases |v| - len
  {
    if len < |v| && v[len] != NUL then SlotLen(v, len + 1) else len
  }

  /** `iter` over the slots from `i` on. */
  function IterFrom(slots: seq<seq<byte>>, i: nat): (r: seq<seq<byte>>)
    requires i <= |slots|
    requires forall k :: 0 <= k < |slots| ==> |slots[k]| <= EnvStore.MaxEntry
    decreases |slots| - i
  {
    if i == |slots| then []
    else
      var v := Pad(slots[i], SlotBytes);
      var len := SlotLen(v, 0);
      (if len > 0 then [v[..len]] else []) + IterFrom(slots, i + 1)
  }

  /** `iter`: what an allocated table visits is what `EnvStore.Iter` visits;
      an unallocated one visits nothing. */
  function Iter(st: ShellStore, mmapOk: bool): (r: (ShellStore, seq<seq<byte>>))
    requires Valid(st)
    ensures r.0 == EnsureInit(st, mmapOk)
    ensures r.0.Unallocated? ==> r.1 == []
    ensures r.0.Allocated? ==> r.1 == EnvStore.Iter(r.0.inner.slots)
  {
    var s := EnsureInit(st, mmapOk);
    match s
    case Unallocated => (s, [])
    case Allocated(inner) =>
      IterFromIsIter(inner.slots, 0);
      (s, IterFrom(inner.slots, 0))
  }

  // ---------------------------------------------------------------- equivalence

  lemma PadCStr(s: seq<byte>)
    requires |s| <= EnvStore.MaxEntry
    ensures CStr(Pad(s, SlotBytes)) == CStr(s)
    ensures Pad(s, SlotBytes)[SlotBytes - 1] == NUL
  {
    var v := Pad(s, SlotBytes);
    var c := CStr(s);
    assert v[..|s|] == s;
    assert c <= v;
    CStrUnique(v, c);
  }

  /** The comparison loop stops at `|name|` with no mismatch exactly when the
      C string of the slot starts with `name`. */
  lemma {:induction false} CompareFacts(v: seq<byte>, name: seq<byte>, j: nat)
    requires |v| == SlotBytes && v[SlotBytes - 1] == NUL && j <= |name| && j < SlotBytes
    requires j <= |CStr(v)| && CStr(v)[..j] == name[..j]
    ensures Compare(v, name, j).Some? && v[Compare(v, name, j).value] == EQUALS
      <==> EnvStore.Matches(v, name)
    ensures Compare(v, name, j).Some? && v[Compare(v, name, j).value] == EQUALS
      ==> Compare(v, name, j).value == |name|
    decreases |name| - j
  {
    var c := CStr(v);
    if j < |name| && v[j] != NUL {
      assert j < |c|;
      if v[j] == name[j] {
        assert c[..j + 1] == c[..j] + [c[j]];
        assert name[..j + 1] == name[..j] + [name[j]];
        CompareFacts(v, name, j + 1);
      } else {
        assert c[j] == v[j];
      }
    } else if j < |name| {
      assert |c| == j;
    } else {
      assert name[..j] == name;
      if j < |c| {
        assert v[j] == c[j];
      }
    }
  }

  lemma CopyOutIsTrunc(v: seq<byte>, j: nat, cap: nat)
    requires j <= |CStr(v)|
    ensures CopyOut(v, j, cap) == Trunc(CStr(v)[j..], cap)
    decreases cap
  {
    var c := CStr(v);
    if j < |c| && cap > 0 {
      CopyOutIsTrunc(v, j + 1, cap - 1);
      assert c[j..] == [c[j]] + c[j + 1..];
    }
  }

  /** The shell's slot scan computes the reference first-match lookup. */
  lemma {:induction false} ScanIsLookup(slots: seq<seq<byte>>, name: seq<byte>, cap: nat, i: nat)
    requires i <= |slots|
    requires forall k :: 0 <= k < |slots| ==> |slots[k]| <= EnvStore.MaxEntry
    ensures Scan(slots, name, cap, i) == EnvStore.Get(EnvStore.Store(slots[i..]), name, cap)
    decreases |slots| - i
  {
    if i < |slots| {
      var v := Pad(slots[i], SlotBytes);
      PadCStr(slots[i]);
      CompareFacts(v, name, 0);
      assert slots[i..][0] == slots[i];
      assert slots[i..][1..] == slots[i + 1..];
      assert EnvStore.Matches(v, name) <==> EnvStore.Matches(slots[i], name);
      var c := Compare(v, name, 0);
      if c.Some? && v[c.value] == EQUALS {
        CopyOutIsTrunc(v, |name| + 1, cap);
      } else {
        ScanIsLookup(slots, name, cap, i + 1);
      }
    }
  }

  lemma {:induction false} SlotLenIsCLen(v: seq<byte>, len: nat)
    requires len <= CLen(v)
    ensures SlotLen(v, len) == CLen(v)
    decreases |v| - len
  {
    if len < CLen(v) {
      assert v[..CLen(v)][len] == v[len];
      SlotLenIsCLen(v, len + 1);
    }
  }

  /** One slot of the shell's walk contributes its C string when non-empty. */
  lemma IterFromStep(slots: seq<seq<byte>>, i: nat)
    requires i < |slots|
    requires forall k :: 0 <= k < |slots| ==> |slots[k]| <= EnvStore.MaxEntry
    ensures IterFrom(slots, i) ==
      (if |CStr(slots[i])| > 0 then [CStr(slots[i])] else []) + IterFrom(slots, i + 1)
  {
    var v := Pad(slots[i], SlotBytes);
    PadCStr(slots[i]);
    SlotLenIsCLen(v, 0);
  }

  lemma Associate<T>(a: seq<T>, b: seq<T>, c: seq<T>)
    ensures a + (b + c) == (a + b) + c
  {
  }

  lemma IterSnoc(slots: seq<seq<byte>>, i: nat)
    requires i < |slots|
    ensures EnvStore.Iter(slots[..i + 1]) ==
      EnvStore.Iter(slots[..i]) + (if |CStr(slots[i])| > 0 then [CStr(slots[i])] else [])
  {
    assert slots[..i + 1][..i] == slots[..i];
    assert slots[..i + 1][i] == slots[i];
  }

  /** The shell's slot walk of `iter` visits what `EnvStore.Iter` visits. */
  lemma {:induction false} IterFromIsIter(slots: seq<seq<byte>>, i: nat)
    requires i <= |slots|
    requires forall k :: 0 <= k < |slots| ==> |slots[k]| <= EnvStore.MaxEntry
    ensures EnvStore.Iter(slots[..i]) + IterFrom(slots, i) == EnvStore.Iter(slots)
    decreases |slots| - i
  {
    if i < |slots| {
      var x := if |CStr(slots[i])| > 0 then [CStr(slots[i])] else [];
      IterFromStep(slots, i);
      IterSnoc(slots, i);
      IterFromIsIter(slots, i + 1);
      Associate(EnvStore.Iter(slots[..i]), x, IterFrom(slots, i + 1));
    } else {
      assert slots[..i] == slots;
    }
  }

  /** A failed mapping is retried: while the table is unallocated, every
      operation reports failure or nothing and leaves it unallocated. */
  lemma UnallocatedRefuses(name: seq<byte>, value: seq<byte>, cap: nat)
    ensures Set(Unallocated, false, name, value) == (Unallocated, false)
    ensures Get(Unallocated, false, name, cap) == (Unallocated, [])
    ensures Iter(Unallocated, false) == (Unallocated, [])
    ensures Set(Unallocated, true, name, value).0.Allocated?
  {
  }
}
