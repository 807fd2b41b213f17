/** The environment store of `src/storage.rs`: 32 slots of 256 bytes, each
    holding one `name=value` entry as a C string. Entries are only ever
    appended, and a lookup takes the first entry whose name matches, so the
    first value set for a name is the one every later lookup sees. */
module EnvStore {
  import opened Common

  const MaxVars: nat := 32
  const MaxName: nat := 128
  /** Bytes of an entry before the slot's guaranteed final NUL. */
  const MaxEntry: nat := 255

  /** `slots[i]` is the text written into slot `i`: name, '=', value. */
  datatype Store = Store(slots: seq<seq<byte>>)

  const Empty := Store([])

  /** Capacity invariant: at most 32 slots, each leaving the last byte NUL. */
  predicate Valid(st: Store) {
    |st.slots| <= MaxVars && forall i :: 0 <= i < |st.slots| ==> |st.slots[i]| <= MaxEntry
  }

  function Entry(name: seq<byte>, value: seq<byte>): seq<byte> {
    name + [EQUALS] + value
  }

  /** Whether `set` accepts the pair: a free slot, a name of at most 128
      bytes and an entry of at most 255 bytes. */
  predicate Accepts(st: Store, name: seq<byte>, value: seq<byte>) {
    |st.slots| < MaxVars && |name| <= MaxName && |name| + 1 + |value| <= MaxEntry
  }

  /** `EnvStorage::set`: append the entry to the next slot, or report false
      and leave the store as it was. */
  function Set(st: Store, name: seq<byte>, value: seq<byte>): (r: (Store, bool))
    ensures r.1 <==> Accepts(st, name, value)
    ensures r.1 ==> |r.0.slots| == |st.slots| + 1 && r.0.slots[..|st.slots|] == st.slots
    ensures r.1 ==> r.0.slots[|st.slots|] == Entry(name, value)
    ensures !r.1 ==> r.0 == st
    ensures Valid(st) ==> Valid(r.0)
  {
    if Accepts(st, name, value) then (Store(st.slots + [Entry(name, value)]), true)
    else (st, false)
  }

  /** The comparison loop of `get`: the slot's C string continues with
      exactly `name` and then '='. */
  predicate Matches(slot: seq<byte>, name: seq<byte>) {
    var s := CStr(slot);
    |name| < |s| && s[..|name|] == name && s[|name|] == EQUALS
  }

  /** The value `get` copies out of a matching slot: up to the NUL. */
  function ValueOf(slot: seq<byte>, name: seq<byte>): seq<byte>
    requires Matches(slot, name)
  {
    CStr(slot)[|name| + 1..]
  }

  /** First-match lookup over `slots`, the reference for `get`. */
  function Lookup(slots: seq<seq<byte>>, name: seq<byte>): Option<seq<byte>> {
    if |slots| == 0 then None
    else if Matches(slots[0], name) then Some(ValueOf(slots[0], name))
    else Lookup(slots[1..], name)
  }

  /** A lookup finds nothing exactly when no slot matches, and otherwise
      the value of the first matching slot. */
  lemma {:induction false} LookupFirstMatch(slots: seq<seq<byte>>, name: seq<byte>)
    ensures Lookup(slots, name).None? <==> forall i :: 0 <= i < |slots| ==> !Matches(slots[i], name)
    ensures Lookup(slots, name).Some? ==> exists i :: (0 <= i < |slots| && Matches(slots[i], name)
      && Lookup(slots, name).value == ValueOf(slots[i], name)
      && forall k :: 0 <= k < i ==> !Matches(slots[k], name))
  {
    if |slots| > 0 && !Matches(slots[0], name) {
      LookupFirstMatch(slots[1..], name);
      assert forall k :: 1 <= k < |slots| ==> slots[k] == slots[1..][k - 1];
      if Lookup(slots[1..], name).Some? {
        var i :| 0 <= i < |slots| - 1 && Matches(slots[1..][i], name)
          && Lookup(slots[1..], name).value == ValueOf(slots[1..][i], name)
          && forall k :: 0 <= k < i ==> !Matches(slots[1..][k], name);
        assert slots[i + 1] == slots[1..][i];
      }
    }
  }

  /** `EnvStorage::get` into a buffer of `cap` bytes: the value of the first
      matching entry cut to the buffer, or nothing. */
  function Get(st: Store, name: seq<byte>, cap: nat): (r: seq<byte>)
    ensures |r| <= cap
    ensures Lookup(st.slots, name).None? ==> r == []
    ensures Lookup(st.slots, name).Some? ==> r == Trunc(Lookup(st.slots, name).value, cap)
  {
    match Lookup(st.slots, name)
    case None => []
    case Some(v) => Trunc(v, cap)
  }

  /** `EnvStorage::iter`: the non-empty C strings of the slots, in slot order. */
  function Iter(slots: seq<seq<byte>>): (r: seq<seq<byte>>)
    ensures |r| <= |slots|
    ensures forall j :: 0 <= j < |r| ==> |r[j]| > 0 && NoNul(r[j])
    ensures (forall i :: 0 <= i < |slots| ==> |CStr(slots[i])| > 0) ==> |r| == |slots|
    decreases |slots|
  {
    if |slots| == 0 then []
    else
      var last := CStr(slots[|slots| - 1]);
      Iter(slots[..|slots| - 1]) + (if |last| > 0 then [last] else [])
  }

  // ---------------------------------------------------------------- properties

  /** Appending never changes the outcome of a lookup that already succeeds:
      re-exporting a name does not change the value it expands to. */
  lemma {:induction false} LookupStable(slots: seq<seq<byte>>, extra: seq<byte>, name: seq<byte>)
    requires Lookup(slots, name).Some?
    ensures Lookup(slots + [extra], name) == Lookup(slots, name)
  {
    assert slots != [];
    assert (slots + [extra])[0] == slots[0];
    if !Matches(slots[0], name) {
      assert (slots + [extra])[1..] == slots[1..] + [extra];
      LookupStable(slots[1..], extra, name);
    }
  }

  /** ... and an absent name is found only in the appended entry. */
  lemma {:induction false} LookupAppendMiss(slots: seq<seq<byte>>, extra: seq<byte>, name: seq<byte>)
    requires Lookup(slots, name).None?
    ensures Lookup(slots + [extra], name) == if Matches(extra, name) then Some(ValueOf(extra, name)) else None
  {
    if slots != [] {
      assert (slots + [extra])[0] == slots[0];
      assert (slots + [extra])[1..] == slots[1..] + [extra];
      LookupAppendMiss(slots[1..], extra, name);
    } else {
      assert slots + [extra] == [extra];
    }
  }

  /** A name with no '=' or NUL matches an entry `n=v` exactly when it is `n`:
      neither a prefix nor an extension of the stored name matches. */
  lemma MatchesExactly(n: seq<byte>, v: seq<byte>, m: seq<byte>)
    requires NoNul(n) && NoNul(v) && EQUALS !in n && EQUALS !in m
    ensures Matches(Entry(n, v), m) <==> m == n
    ensures Matches(Entry(n, v), n) ==> ValueOf(Entry(n, v), n) == v
  {
    var e := Entry(n, v);
    assert NoNul(e) by {
      forall i | 0 <= i < |e| ensures e[i] != NUL {
        if i < |n| { assert e[i] == n[i]; }
        else if i > |n| { assert e[i] == v[i - |n| - 1]; }
      }
    }
    CStrOfNoNul(e);
    assert e[..|n|] == n;
    assert e[|n|] == EQUALS;
  }

  /** Setting a fresh name makes it visible with exactly the value given,
      while a name set before keeps its first value. */
  lemma SetThenGet(st: Store, name: seq<byte>, value: seq<byte>, cap: nat)
    requires Accepts(st, name, value)
    requires NoNul(name) && NoNul(value) && EQUALS !in name
    ensures Lookup(st.slots, name).Some? ==>
      Get(Set(st, name, value).0, name, cap) == Get(st, name, cap)
    ensures Lookup(st.slots, name).None? ==>
      Get(Set(st, name, value).0, name, cap) == Trunc(value, cap)
  {
    var st' := Set(st, name, value).0;
    assert st'.slots == st.slots + [Entry(name, value)];
    if Lookup(st.slots, name).Some? {
      LookupStable(st.slots, Entry(name, value), name);
    } else {
      LookupAppendMiss(st.slots, Entry(name, value), name);
      MatchesExactly(name, value, name);
    }
  }

  /** `iter` visits entries in insertion order: a successful `set` adds its
      entry at the end of the iteration and changes nothing before it. */
  lemma IterAfterSet(st: Store, name: seq<byte>, value: seq<byte>)
    requires Accepts(st, name, value)
    requires NoNul(name) && NoNul(value)
    ensures Iter(Set(st, name, value).0.slots) == Iter(st.slots) + [Entry(name, value)]
  {
    var e := Entry(name, value);
    var s' := st.slots + [e];
    assert s'[..|s'| - 1] == st.slots;
    assert NoNul(e) by {
      forall i | 0 <= i < |e| ensures e[i] != NUL {
        if i < |name| { assert e[i] == name[i]; }
        else if i > |name| { assert e[i] == value[i - |name| - 1]; }
      }
    }
    CStrOfNoNul(e);
  }
}
