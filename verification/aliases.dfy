/** The alias table of `src/storage.rs`: 16 pairs of a 32-byte name slot and
    a 128-byte value slot, updated in place when a name is redefined. */
module Aliases {
  import opened Common

  const MaxAliases: nat := 16
  const NameSlot: nat := 32
  const MaxName: nat := 31
  const ValueSlot: nat := 128
  const MaxValue: nat := 127

  /** The bytes copied into the two zero-filled slots of one pair. */
  datatype Alias = Alias(name: seq<byte>, value: seq<byte>)

  datatype Table = Table(aliases: seq<Alias>)

  const Empty := Table([])

  predicate Valid(t: Table) {
    |t.aliases| <= MaxAliases
    && forall i :: 0 <= i < |t.aliases| ==>
         0 < |t.aliases[i].name| <= MaxName && |t.aliases[i].value| <= MaxValue
  }

  /** Names `get` can be asked about without indexing past a name slot: a
      longer name whose byte 31 is NUL would be compared against byte 32. */
  predicate Askable(name: seq<byte>) {
    |name| <= MaxName || NoNul(name)
  }

  /** The comparison of `set` and `get`: the name slot starts with `name`
      and, unless `name` fills 31 bytes, has a NUL right after it. A NUL-free
      name of 32 bytes or more never matches, because byte 31 of every
      slot is NUL. */
  predicate Matches(stored: seq<byte>, name: seq<byte>)
    requires |stored| <= MaxName
  {
    var slot := Pad(stored, NameSlot);
    |name| <= MaxName && slot[..|name|] == name && (|name| == MaxName || slot[|name|] == NUL)
  }

  /** Index of the first pair whose name matches, or `|aliases|`. */
  function Find(aliases: seq<Alias>, name: seq<byte>): (i: nat)
    requires forall k :: 0 <= k < |aliases| ==> |aliases[k].name| <= MaxName
    ensures i <= |aliases|
    ensures forall k :: 0 <= k < i ==> !Matches(aliases[k].name, name)
    ensures i < |aliases| ==> Matches(aliases[i].name, name)
  {
    if |aliases| == 0 then 0
    else if Matches(aliases[0].name, name) then 0
    else 1 + Find(aliases[1..], name)
  }

  predicate AcceptsPair(name: seq<byte>, value: seq<byte>) {
    0 < |name| <= MaxName && |value| <= MaxValue
  }

  /** `AliasStorage::set`: reject bad sizes; overwrite the value of the first
      matching pair in place; else append while fewer than 16 exist. */
  function Set(t: Table, name: seq<byte>, value: seq<byte>): (r: (Table, bool))
    requires Valid(t)
    ensures Valid(r.0)
    ensures !r.1 ==> r.0 == t
    ensures r.1 <==> (AcceptsPair(name, value)
      && (Find(t.aliases, name) < |t.aliases| || |t.aliases| < MaxAliases))
    ensures r.1 && Find(t.aliases, name) < |t.aliases| ==>
      var i := Find(t.aliases, name);
      r.0.aliases == t.aliases[i := Alias(t.aliases[i].name, value)]
    ensures r.1 && Find(t.aliases, name) == |t.aliases| ==>
      r.0.aliases == t.aliases + [Alias(name, value)]
  {
    if |name| == 0 || |name| > MaxName || |value| > MaxValue then (t, false)
    else
      var i := Find(t.aliases, name);
      if i < |t.aliases| then (Table(t.aliases[i := Alias(t.aliases[i].name, value)]), true)
      else if |t.aliases| >= MaxAliases then (t, false)
      else (Table(t.aliases + [Alias(name, value)]), true)
  }

  /** `AliasStorage::get` into a buffer of `cap` bytes: the first matching
      pair's value up to its NUL, cut to the buffer; nothing when no pair
      matches. */
  function Get(t: Table, name: seq<byte>, cap: nat): (r: seq<byte>)
    requires Valid(t) && Askable(name)
    ensures |r| <= cap
    ensures Find(t.aliases, name) == |t.aliases| ==> r == []
    ensures Find(t.aliases, name) < |t.aliases| ==> r == Trunc(CStr(t.aliases[Find(t.aliases, name)].value), cap)
  {
    var i := Find(t.aliases, name);
    if i == |t.aliases| then []
    else
      var v := Pad(t.aliases[i].value, ValueSlot);
      var len := CLen(v);
      CStrPad(t.aliases[i].value);
      v[..Min(len, cap)]
  }

  const NoAliases: seq<byte> := Ascii("No aliases defined\n")

  /** The line `list` prints for a pair: `alias name='value'`, or nothing
      when the name or the value is empty. */
  function Line(a: Alias): seq<byte> {
    var n, v := CStr(a.name), CStr(a.value);
    if |n| > 0 && |v| > 0 then Ascii("alias ") + n + Ascii("='") + v + Ascii("'\n") else []
  }

  /** The lines of the pairs, in table order. */
  function Lines(aliases: seq<Alias>): (r: seq<seq<byte>>)
    ensures |r| == |aliases|
  {
    seq(|aliases|, i requires 0 <= i < |aliases| => Line(aliases[i]))
  }

  /** `AliasStorage::list`: "No aliases defined" for an empty table,
      otherwise the line of every pair, in table order. */
  function List(t: Table): (r: seq<byte>)
    requires Valid(t)
    ensures |t.aliases| == 0 ==> r == NoAliases
    ensures |t.aliases| > 0 ==> r == Concat(Lines(t.aliases))
  {
    if |t.aliases| == 0 then NoAliases
    else
      ListFromLines(t.aliases);
      ListFrom(t.aliases)
  }

  /** The loop of `list` over the remaining pairs. */
  function ListFrom(aliases: seq<Alias>): seq<byte> {
    if |aliases| == 0 then [] else Line(aliases[0]) + ListFrom(aliases[1..])
  }

  lemma {:induction false} ListFromLines(aliases: seq<Alias>)
    ensures ListFrom(aliases) == Concat(Lines(aliases))
  {
    if |aliases| > 0 {
      ListFromLines(aliases[1..]);
      assert Lines(aliases)[1..] == Lines(aliases[1..]);
    }
  }

  /** A newly defined alias is listed last, as `alias name='value'`. */
  lemma NewAliasListedLast(t: Table, name: seq<byte>, value: seq<byte>)
    requires Valid(t) && NoNul(name) && NoNul(value) && |value| > 0
    requires Find(t.aliases, name) == |t.aliases| && Set(t, name, value).1
    ensures var before := if |t.aliases| == 0 then [] else List(t);
      List(Set(t, name, value).0) == before + Line(Alias(name, value))
    ensures Line(Alias(name, value)) == Ascii("alias ") + name + Ascii("='") + value + Ascii("'\n")
  {
    var a := t.aliases + [Alias(name, value)];
    assert Set(t, name, value).0.aliases == a;
    CStrOfNoNul(name);
    CStrOfNoNul(value);
    LinesSnoc(t.aliases, Alias(name, value));
    ConcatSnoc(Lines(t.aliases), Line(Alias(name, value)));
    if |t.aliases| == 0 {
      assert Concat(Lines(t.aliases)) == [];
    }
  }

  lemma LinesSnoc(aliases: seq<Alias>, x: Alias)
    ensures Lines(aliases + [x]) == Lines(aliases) + [Line(x)]
  {
  }

  // ---------------------------------------------------------------- properties

  lemma CStrPad(s: seq<byte>)
    requires |s| <= MaxValue
    ensures CStr(Pad(s, ValueSlot)) == CStr(s)
  {
    var c := CStr(s);
    CStrUnique(Pad(s, ValueSlot), c);
  }

  /** For names without NUL bytes, matching is equality: neither a prefix nor
      an extension of a stored name matches it. */
  lemma MatchesExactly(stored: seq<byte>, name: seq<byte>)
    requires 0 < |stored| <= MaxName && NoNul(stored) && NoNul(name)
    ensures Matches(stored, name) <==> name == stored
  {
    var slot := Pad(stored, NameSlot);
    assert slot[..|stored|] == stored;
    if |name| > |stored| {
      assert name[|stored|] != NUL;
      assert slot[|stored|] == NUL;
      if |name| <= MaxName {
        assert slot[..|name|][|stored|] == NUL;
      }
    } else if |name| < |stored| {
      assert slot[|name|] == stored[|name|] != NUL;
    }
  }

  /** After a successful `set`, `get` of the same NUL-free name returns the
      new value, whether the pair was updated in place or appended. */
  lemma SetThenGet(t: Table, name: seq<byte>, value: seq<byte>, cap: nat)
    requires Valid(t) && NoNul(name) && NoNul(value)
    requires Set(t, name, value).1
    ensures Get(Set(t, name, value).0, name, cap) == Trunc(value, cap)
  {
    var t' := Set(t, name, value).0;
    var i := Find(t.aliases, name);
    CStrOfNoNul(value);
    if i < |t.aliases| {
      assert forall k :: 0 <= k < |t.aliases| ==> t'.aliases[k].name == t.aliases[k].name;
      FindSameNames(t.aliases, t'.aliases, name);
    } else {
      assert t'.aliases[..|t.aliases|] == t.aliases;
      FindSameNames(t.aliases, t'.aliases[..|t.aliases|], name);
      MatchesExactly(name, name);
      FindAppend(t.aliases, Alias(name, value), name);
    }
  }

  /** Redefining a name keeps the number of pairs; only a new name grows it. */
  lemma RedefineKeepsCount(t: Table, name: seq<byte>, value: seq<byte>)
    requires Valid(t) && Find(t.aliases, name) < |t.aliases| && AcceptsPair(name, value)
    ensures Set(t, name, value).1 && |Set(t, name, value).0.aliases| == |t.aliases|
  {
  }

  /** A table full of other names refuses a new one. */
  lemma FullRefusesNew(t: Table, name: seq<byte>, value: seq<byte>)
    requires Valid(t) && |t.aliases| == MaxAliases && Find(t.aliases, name) == |t.aliases|
    ensures Set(t, name, value) == (t, false)
  {
  }

  lemma {:induction false} FindSameNames(a: seq<Alias>, b: seq<Alias>, name: seq<byte>)
    requires |a| == |b|
    requires forall k :: 0 <= k < |a| ==> a[k].name == b[k].name && |a[k].name| <= MaxName
    ensures Find(a, name) == Find(b, name)
    decreases |a|
  {
    if |a| > 0 && !Matches(a[0].name, name) {
      FindSameNames(a[1..], b[1..], name);
    }
  }

  lemma {:induction false} FindAppend(a: seq<Alias>, x: Alias, name: seq<byte>)
    requires forall k :: 0 <= k < |a| ==> |a[k].name| <= MaxName
    requires |x.name| <= MaxName
    requires Find(a, name) == |a|
    ensures Find(a + [x], name) == if Matches(x.name, name) then |a| else |a| + 1
    decreases |a|
  {
    if |a| == 0 {
      assert a + [x] == [x];
    } else {
      assert (a + [x])[1..] == a[1..] + [x];
      FindAppend(a[1..], x, name);
    }
  }
}
