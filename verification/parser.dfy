/** Command-line parsing of `src/parser.rs`: `$NAME` expansion against the
    environment store, the `getdents64` record walker and the command-path
    builder. */
module Parser {
  import opened Common
  import EnvStore

  // ---------------------------------------------------------------- expansion

  /** `is_ascii_alphanumeric() || == b'_'`: the bytes of a variable name. */
  predicate IsNameByte(b: byte) {
    (48 <= b <= 57) || (65 <= b <= 90) || (97 <= b <= 122) || b == 95
  }

  /** The end of the maximal run of name bytes starting at `i`. */
  function NameEnd(s: seq<byte>, i: nat): (e: nat)
    requires i <= |s|
    ensures i <= e <= |s|
    ensures forall k :: i <= k < e ==> IsNameByte(s[k])
    ensures e == |s| || !IsNameByte(s[e])
    decreases |s| - i
  {
    if i < |s| && IsNameByte(s[i]) then NameEnd(s, i + 1) else i
  }

  /** The value a defined variable expands to; nothing when undefined. */
  function ValueOr(env: EnvStore.Store, name: seq<byte>): seq<byte> {
    match EnvStore.Lookup(env.slots, name)
    case Some(v) => v
    case None => []
  }

  /** Reference expansion of `input[i..]` into an unbounded output: literal
      bytes are copied, `$` plus a maximal name is replaced by its value, a
      `$` before a non-name byte is dropped, a `$` that is the last byte is
      kept, and everything from the first NUL on is ignored. */
  function Ideal(input: seq<byte>, env: EnvStore.Store, i: nat): seq<byte>
    requires i <= |input|
    decreases |input| - i
  {
    if i == |input| || input[i] == NUL then []
    else if input[i] == DOLLAR && i + 1 < |input| then
      var e := NameEnd(input, i + 1);
      (if e > i + 1 then ValueOr(env, input[i + 1..e]) else []) + Ideal(input, env, e)
    else [input[i]] + Ideal(input, env, i + 1)
  }

  /** The loop of `expand_env_vars` from input index `i` with `out` already
      written into an output buffer of `cap` bytes. A variable's value is
      copied by `EnvStore.Get` into what is left of the buffer; a literal byte
      that no longer fits ends the expansion. */
  function ExpandFrom(input: seq<byte>, env: EnvStore.Store, cap: nat, i: nat, out: seq<byte>): (r: seq<byte>)
    requires i <= |input| && |out| <= cap
    ensures out <= r && |r| <= cap
    decreases |input| - i
  {
    if i == |input| || input[i] == NUL then out
    else if input[i] == DOLLAR && i + 1 < |input| then
      var e := NameEnd(input, i + 1);
      if e > i + 1 then
        ExpandFrom(input, env, cap, e, out + EnvStore.Get(env, input[i + 1..e], cap - |out|))
      else
        ExpandFrom(input, env, cap, e, out)
    else if |out| >= cap then out
    else ExpandFrom(input, env, cap, i + 1, out + [input[i]])
  }

  /** `expand_env_vars(input, output)` with `|output| == cap`: the output is
      the reference expansion cut to the buffer. */
  function Expand(input: seq<byte>, env: EnvStore.Store, cap: nat): (r: seq<byte>)
    ensures |r| <= cap
    ensures r == Trunc(Ideal(input, env, 0), cap)
  {
    ExpandFromIdeal(input, env, cap, 0, []);
    ExpandFrom(input, env, cap, 0, [])
  }

  /** The bounded loop writes the reference expansion and stops when the
      buffer is full. */
  lemma {:induction false} ExpandFromIdeal(input: seq<byte>, env: EnvStore.Store, cap: nat, i: nat, out: seq<byte>)
    requires i <= |input| && |out| <= cap
    ensures ExpandFrom(input, env, cap, i, out) == Trunc(out + Ideal(input, env, i), cap)
    decreases |input| - i
  {
    if i == |input| || input[i] == NUL {
      StopStep(input, env, cap, i, out);
    } else if input[i] == DOLLAR && i + 1 < |input| {
      var e := NameEnd(input, i + 1);
      if e > i + 1 {
        ExpandFromIdeal(input, env, cap, e, out + EnvStore.Get(env, input[i + 1..e], cap - |out|));
        ReferenceStep(input, env, cap, i, out);
      } else {
        ExpandFromIdeal(input, env, cap, e, out);
        DroppedStep(input, env, cap, i, out);
      }
    } else if |out| < cap {
      ExpandFromIdeal(input, env, cap, i + 1, out + [input[i]]);
      LiteralStep(input, env, cap, i, out);
    } else {
      FullStep(input, env, cap, i, out);
    }
  }

  lemma StopStep(input: seq<byte>, env: EnvStore.Store, cap: nat, i: nat, out: seq<byte>)
    requires i <= |input| && |out| <= cap && (i == |input| || input[i] == NUL)
    ensures ExpandFrom(input, env, cap, i, out) == Trunc(out + Ideal(input, env, i), cap)
  {
    assert Ideal(input, env, i) == [];
    assert out + [] == out;
  }

  lemma DroppedStep(input: seq<byte>, env: EnvStore.Store, cap: nat, i: nat, out: seq<byte>)
    requires i + 1 < |input| && input[i] == DOLLAR && |out| <= cap
    requires NameEnd(input, i + 1) == i + 1
    requires ExpandFrom(input, env, cap, i + 1, out) == Trunc(out + Ideal(input, env, i + 1), cap)
    ensures ExpandFrom(input, env, cap, i, out) == Trunc(out + Ideal(input, env, i), cap)
  {
    IdealAtDollar(input, env, i);
    assert Ideal(input, env, i) == [] + Ideal(input, env, i + 1);
    assert [] + Ideal(input, env, i + 1) == Ideal(input, env, i + 1);
    assert ExpandFrom(input, env, cap, i, out) == ExpandFrom(input, env, cap, i + 1, out);
  }

  lemma FullStep(input: seq<byte>, env: EnvStore.Store, cap: nat, i: nat, out: seq<byte>)
    requires i < |input| && input[i] != NUL && |out| == cap
    requires !(input[i] == DOLLAR && i + 1 < |input|)
    ensures ExpandFrom(input, env, cap, i, out) == Trunc(out + Ideal(input, env, i), cap)
  {
    assert (out + Ideal(input, env, i))[..cap] == out;
  }

  lemma ReferenceStep(input: seq<byte>, env: EnvStore.Store, cap: nat, i: nat, out: seq<byte>)
    requires i + 1 < |input| && input[i] == DOLLAR && |out| <= cap
    requires NameEnd(input, i + 1) > i + 1
    requires var e := NameEnd(input, i + 1);
      var out' := out + EnvStore.Get(env, input[i + 1..e], cap - |out|);
      ExpandFrom(input, env, cap, e, out') == Trunc(out' + Ideal(input, env, e), cap)
    ensures ExpandFrom(input, env, cap, i, out) == Trunc(out + Ideal(input, env, i), cap)
  {
    var e := NameEnd(input, i + 1);
    var v := ValueOr(env, input[i + 1..e]);
    var rest := Ideal(input, env, e);
    assert Ideal(input, env, i) == v + rest;
    assert EnvStore.Get(env, input[i + 1..e], cap - |out|) == Trunc(v, cap - |out|);
    TruncSplice(out, v, rest, cap);
  }

  lemma LiteralStep(input: seq<byte>, env: EnvStore.Store, cap: nat, i: nat, out: seq<byte>)
    requires i < |input| && input[i] != NUL && |out| < cap
    requires !(input[i] == DOLLAR && i + 1 < |input|)
    requires ExpandFrom(input, env, cap, i + 1, out + [input[i]])
      == Trunc(out + [input[i]] + Ideal(input, env, i + 1), cap)
    ensures ExpandFrom(input, env, cap, i, out) == Trunc(out + Ideal(input, env, i), cap)
  {
    var rest := Ideal(input, env, i + 1);
    assert Ideal(input, env, i) == [input[i]] + rest;
    assert out + [input[i]] + rest == out + ([input[i]] + rest);
  }

  /** Writing `out`, then a value cut to the room left, then the rest, and
      cutting the whole to `cap`, is cutting `out + value + rest` to `cap`. */
  lemma TruncSplice(out: seq<byte>, v: seq<byte>, rest: seq<byte>, cap: nat)
    requires |out| <= cap
    ensures Trunc(out + Trunc(v, cap - |out|) + rest, cap) == Trunc(out + (v + rest), cap)
  {
    if |v| > cap - |out| {
      var t := Trunc(v, cap - |out|);
      assert (out + (v + rest))[..cap] == out + t;
      assert (out + t + rest)[..cap] == out + t;
    } else {
      assert out + Trunc(v, cap - |out|) + rest == out + (v + rest);
    }
  }

  /** One step of `Ideal` at a `$` that has a byte after it. */
  lemma IdealAtDollar(s: seq<byte>, env: EnvStore.Store, i: nat)
    requires i + 1 < |s| && s[i] == DOLLAR
    ensures Ideal(s, env, i) == DollarValue(s, env, i) + Ideal(s, env, NameEnd(s, i + 1))
  {
  }

  /** One step of `Ideal` at a byte copied as it is. */
  lemma IdealAtLiteral(s: seq<byte>, env: EnvStore.Store, i: nat)
    requires i < |s| && s[i] != NUL && !(s[i] == DOLLAR && i + 1 < |s|)
    ensures Ideal(s, env, i) == [s[i]] + Ideal(s, env, i + 1)
  {
  }

  /** `t` ends with `s`, which starts at index `off`. */
  predicate SuffixAt(t: seq<byte>, off: nat, s: seq<byte>) {
    |t| == off + |s| && forall k :: 0 <= k < |s| ==> t[off + k] == s[k]
  }

  /** Expansion looks only forward: what precedes index `i` is irrelevant. */
  lemma IdealShift(p: seq<byte>, s: seq<byte>, env: EnvStore.Store, i: nat)
    requires i <= |s|
    ensures Ideal(p + s, env, |p| + i) == Ideal(s, env, i)
  {
    IdealShiftAt(p + s, |p|, s, env, i);
  }

  lemma {:induction false} IdealShiftAt(t: seq<byte>, off: nat, s: seq<byte>, env: EnvStore.Store, i: nat)
    requires SuffixAt(t, off, s) && i <= |s|
    ensures Ideal(t, env, off + i) == Ideal(s, env, i)
    decreases |s| - i
  {
    if i == |s| || s[i] == NUL {
      ShiftAtEnd(t, off, s, env, i);
    } else if s[i] == DOLLAR && i + 1 < |s| {
      var e := NameEnd(s, i + 1);
      IdealShiftAt(t, off, s, env, e);
      ShiftAtDollar(t, off, s, env, i);
    } else {
      IdealShiftAt(t, off, s, env, i + 1);
      ShiftAtLiteral(t, off, s, env, i);
    }
  }

  lemma ShiftAtEnd(t: seq<byte>, off: nat, s: seq<byte>, env: EnvStore.Store, i: nat)
    requires SuffixAt(t, off, s) && i <= |s| && (i == |s| || s[i] == NUL)
    ensures Ideal(t, env, off + i) == Ideal(s, env, i) == []
  {
    assert off + i == |t| || t[off + i] == NUL;
  }

  lemma ShiftAtDollar(t: seq<byte>, off: nat, s: seq<byte>, env: EnvStore.Store, i: nat)
    requires SuffixAt(t, off, s) && i + 1 < |s| && s[i] == DOLLAR
    requires Ideal(t, env, off + NameEnd(s, i + 1)) == Ideal(s, env, NameEnd(s, i + 1))
    ensures Ideal(t, env, off + i) == Ideal(s, env, i)
  {
    assert t[off + i] == s[i];
    NameShift(t, off, s, env, i);
    IdealAtDollar(t, env, off + i);
    IdealAtDollar(s, env, i);
  }

  /** What a `$` at index `i` expands to. */
  function DollarValue(s: seq<byte>, env: EnvStore.Store, i: nat): seq<byte>
    requires i + 1 < |s|
  {
    var e := NameEnd(s, i + 1);
    if e > i + 1 then ValueOr(env, s[i + 1..e]) else []
  }

  lemma NameShift(t: seq<byte>, off: nat, s: seq<byte>, env: EnvStore.Store, i: nat)
    requires SuffixAt(t, off, s) && i + 1 < |s|
    ensures NameEnd(t, off + i + 1) == off + NameEnd(s, i + 1)
    ensures DollarValue(t, env, off + i) == DollarValue(s, env, i)
  {
    NameEndShift(t, off, s, i + 1);
    var e := NameEnd(s, i + 1);
    assert t[off + i + 1..off + e] == s[i + 1..e];
  }

  lemma ShiftAtLiteral(t: seq<byte>, off: nat, s: seq<byte>, env: EnvStore.Store, i: nat)
    requires SuffixAt(t, off, s) && i < |s| && s[i] != NUL && !(s[i] == DOLLAR && i + 1 < |s|)
    requires Ideal(t, env, off + i + 1) == Ideal(s, env, i + 1)
    ensures Ideal(t, env, off + i) == Ideal(s, env, i)
  {
    assert t[off + i] == s[i];
    IdealAtLiteral(t, env, off + i);
    IdealAtLiteral(s, env, i);
  }

  lemma {:induction false} NameEndShift(t: seq<byte>, off: nat, s: seq<byte>, i: nat)
    requires SuffixAt(t, off, s) && i <= |s|
    ensures NameEnd(t, off + i) == off + NameEnd(s, i)
    decreases |s| - i
  {
    if i < |s| {
      assert t[off + i] == s[i];
      NameEndShift(t, off, s, i + 1);
    }
  }

  /** Bytes other than `$` are copied verbatim and in order. */
  lemma {:induction false} IdealLiteral(input: seq<byte>, env: EnvStore.Store, i: nat)
    requires i <= |input| && NoNul(input) && DOLLAR !in input
    ensures Ideal(input, env, i) == input[i..]
    decreases |input| - i
  {
    if i < |input| {
      IdealLiteral(input, env, i + 1);
      assert input[i..] == [input[i]] + input[i + 1..];
    }
  }

  /** Two inputs that agree up to and including a NUL at index `n` have the
      same name runs before it. */
  lemma {:induction false} NameEndAgree(x: seq<byte>, y: seq<byte>, n: nat, i: nat)
    requires n < |x| && n < |y| && x[..n + 1] == y[..n + 1] && x[n] == NUL
    requires i <= n
    ensures NameEnd(x, i) == NameEnd(y, i) <= n
    decreases n - i
  {
    assert x[i] == x[..n + 1][i] == y[i];
    if i < n && IsNameByte(x[i]) {
      NameEndAgree(x, y, n, i + 1);
    }
  }

  /** Two inputs that agree up to and including a NUL at index `n` expand
      alike from every index up to `n`. */
  lemma {:induction false} IdealAgree(x: seq<byte>, y: seq<byte>, env: EnvStore.Store, n: nat, i: nat)
    requires n < |x| && n < |y| && x[..n + 1] == y[..n + 1] && x[n] == NUL
    requires i <= n
    ensures Ideal(x, env, i) == Ideal(y, env, i)
    decreases n - i
  {
    assert x[i] == x[..n + 1][i] == y[i];
    if x[i] != NUL {
      if x[i] == DOLLAR {
        NameEndAgree(x, y, n, i + 1);
        var e := NameEnd(x, i + 1);
        assert x[i + 1..e] == y[i + 1..e] by {
          forall k | i + 1 <= k < e ensures x[k] == y[k] {
            assert x[k] == x[..n + 1][k];
          }
        }
        assert DollarValue(x, env, i) == DollarValue(y, env, i);
        IdealAgree(x, y, env, n, e);
        IdealAtDollar(x, env, i);
        IdealAtDollar(y, env, i);
      } else {
        IdealAgree(x, y, env, n, i + 1);
        IdealAtLiteral(x, env, i);
        IdealAtLiteral(y, env, i);
      }
    }
  }

  /** Expansion stops at the first NUL: nothing after it contributes. */
  lemma IdealStopsAtNul(a: seq<byte>, b: seq<byte>, env: EnvStore.Store)
    ensures Ideal(a + [NUL] + b, env, 0) == Ideal(a + [NUL], env, 0)
  {
    var x, y := a + [NUL] + b, a + [NUL];
    assert x[..|a| + 1] == y[..|a| + 1] == y;
    IdealAgree(x, y, env, |a|, 0);
  }

  /** `$NAME`, with NAME a maximal run of name bytes, becomes the stored
      value of NAME, or nothing when NAME is undefined. */
  lemma Reference(name: seq<byte>, rest: seq<byte>, env: EnvStore.Store)
    requires |name| > 0 && forall k :: 0 <= k < |name| ==> IsNameByte(name[k])
    requires |rest| == 0 || !IsNameByte(rest[0])
    ensures Ideal([DOLLAR] + name + rest, env, 0) == ValueOr(env, name) + Ideal(rest, env, 0)
  {
    var s := [DOLLAR] + name + rest;
    var e := NameEnd(s, 1);
    assert s[1..1 + |name|] == name;
    assert e == 1 + |name|;
    IdealShift([DOLLAR] + name, rest, env, 0);
  }

  /** A `$` followed by a byte that cannot start a name is dropped... */
  lemma DollarDropped(b: byte, rest: seq<byte>, env: EnvStore.Store)
    requires !IsNameByte(b)
    ensures Ideal([DOLLAR, b] + rest, env, 0) == Ideal([b] + rest, env, 0)
  {
    var s := [DOLLAR, b] + rest;
    assert s[1] == b;
    assert NameEnd(s, 1) == 1;
    IdealAtDollar(s, env, 0);
    assert s == [DOLLAR] + ([b] + rest);
    IdealShift([DOLLAR], [b] + rest, env, 0);
  }

  /** ... while a `$` that is the last byte is kept. */
  lemma TrailingDollar(a: seq<byte>, env: EnvStore.Store)
    ensures Ideal(a + [DOLLAR], env, |a|) == [DOLLAR]
  {
    var s := a + [DOLLAR];
    assert s[|a|] == DOLLAR;
  }

  // ---------------------------------------------------------------- directory entries

  /** `d_reclen` sits at offset 16 of a record and the name at offset 19. */
  const ReclenOffset: nat := 16
  const NameOffset: nat := 19

  /** The outcome of one `DirentParser::next` call. `Overread` is a record
      header that runs past the buffer, which the parser reads anyway;
      `Spin` is the unbounded recursion on a zero-length record too short to
      hold a name. */
  datatype Step = Done | Entry(name: seq<byte>, next: nat) | Overread | Spin

  function U16Le(lo: byte, hi: byte): nat {
    lo + 256 * hi
  }

  /** The name scan: from `k` while inside the buffer, before `maxEnd` and
      not at a NUL. */
  function NameScan(buf: seq<byte>, k: nat, maxEnd: nat): (e: nat)
    requires k <= |buf|
    ensures k <= e <= |buf|
    ensures e <= maxEnd || e == k
    ensures forall j :: k <= j < e ==> buf[j] != NUL
    ensures e == |buf| || e >= maxEnd || buf[e] == NUL
    decreases |buf| - k
  {
    if k < |buf| && k < maxEnd && buf[k] != NUL then NameScan(buf, k + 1, maxEnd) else k
  }

  /** `DirentParser::next` at position `pos` of `buf`. */
  function Next(buf: seq<byte>, pos: nat): (r: Step)
    ensures r.Entry? ==> pos <= r.next <= |buf| && NoNul(r.name)
    ensures r.Entry? && r.next == pos ==> r.name == []
    decreases |buf| - pos
  {
    if pos >= |buf| then Done
    else if pos + ReclenOffset + 2 > |buf| then Overread
    else
      var reclen := U16Le(buf[pos + ReclenOffset], buf[pos + ReclenOffset + 1]);
      if pos + reclen > |buf| then Done
      else if pos + NameOffset >= |buf| then
        if reclen == 0 then Spin else Next(buf, pos + reclen)
      else
        var e := NameScan(buf, pos + NameOffset, pos + reclen);
        Entry(buf[pos + NameOffset..e], pos + reclen)
  }

  function Cons(name: seq<byte>, rest: Option<seq<seq<byte>>>): Option<seq<seq<byte>>> {
    match rest
    case Some(names) => Some([name] + names)
    case None => None
  }

  /** What a caller's `while let Some(entry) = parser.next()` loop collects:
      the names in order, or `None` when the walk never ends or over-reads. */
  function Walk(buf: seq<byte>, pos: nat): Option<seq<seq<byte>>>
    decreases |buf| - pos
  {
    match Next(buf, pos)
    case Done => Some([])
    case Entry(name, next) =>
      if next == pos then None else Cons(name, Walk(buf, next))
    case Overread => None
    case Spin => None
  }

  /** A record as the kernel lays it out: inode and offset (zero here),
      `d_reclen`, type, the name and a NUL, padded to a multiple of 8. */
  function RecLen(name: seq<byte>): nat {
    (NameOffset + |name| + 1 + 7) / 8 * 8
  }

  function Record(name: seq<byte>): (r: seq<byte>)
    requires |name| <= 255
    ensures |r| == RecLen(name) >= 24
  {
    var n := RecLen(name);
    Zeros(ReclenOffset) + [n % 256, n / 256] + [0] + name + [NUL] + Zeros(n - NameOffset - |name| - 1)
  }

  predicate GoodNames(names: seq<seq<byte>>) {
    forall k :: 0 <= k < |names| ==> |names[k]| <= 255 && NoNul(names[k])
  }

  function Encode(names: seq<seq<byte>>): seq<byte>
    requires GoodNames(names)
  {
    if |names| == 0 then [] else Record(names[0]) + Encode(names[1..])
  }

  /** One well-formed record at `|pre|` yields its name and advances by
      exactly its length. */
  lemma NextRecord(pre: seq<byte>, name: seq<byte>, post: seq<byte>)
    requires |name| <= 255 && NoNul(name)
    ensures Next(pre + Record(name) + post, |pre|) == Entry(name, |pre| + RecLen(name))
  {
    var buf := pre + Record(name) + post;
    var pos := |pre|;
    var n := RecLen(name);
    var rec := Record(name);
    assert buf[pos + ReclenOffset] == rec[ReclenOffset] == n % 256;
    assert buf[pos + ReclenOffset + 1] == rec[ReclenOffset + 1] == n / 256;
    assert U16Le(n % 256, n / 256) == n;
    var e := NameScan(buf, pos + NameOffset, pos + n);
    forall j | 0 <= j < |name| ensures buf[pos + NameOffset + j] == name[j] {
      assert buf[pos + NameOffset + j] == rec[NameOffset + j];
    }
    assert buf[pos + NameOffset + |name|] == rec[NameOffset + |name|] == NUL;
    assert e == pos + NameOffset + |name|;
    assert buf[pos + NameOffset..e] == name;
  }

  /** The walker reads back exactly the names a directory listing encodes. */
  lemma {:induction false} WalkEncode(pre: seq<byte>, names: seq<seq<byte>>)
    requires GoodNames(names)
    ensures Walk(pre + Encode(names), |pre|) == Some(names)
    decreases |names|
  {
    if |names| == 0 {
      assert pre + Encode(names) == pre;
    } else {
      var post := Encode(names[1..]);
      var pre' := pre + Record(names[0]);
      var buf := pre + Encode(names);
      assert buf == pre + Record(names[0]) + post == pre' + post;
      NextRecord(pre, names[0], post);
      WalkStep(buf, |pre|, names[0], |pre'|);
      WalkEncode(pre', names[1..]);
      assert names == [names[0]] + names[1..];
    }
  }

  lemma WalkStep(buf: seq<byte>, pos: nat, name: seq<byte>, next: nat)
    requires Next(buf, pos) == Entry(name, next) && next > pos
    ensures Walk(buf, pos) == Cons(name, Walk(buf, next))
  {
  }

  /** A record of length 0 that holds a name is returned forever. */
  lemma ZeroReclenRepeats(buf: seq<byte>, pos: nat)
    requires pos + NameOffset < |buf|
    requires buf[pos + ReclenOffset] == 0 && buf[pos + ReclenOffset + 1] == 0
    ensures Next(buf, pos) == Entry([], pos)
    ensures Walk(buf, pos) == None
  {
  }

  // ---------------------------------------------------------------- command path

  const BinDir: seq<byte> := [47, 98, 105, 110, 47]  // "/bin/"

  predicate IsAbsolute(cmd: seq<byte>) {
    |cmd| > 0 && cmd[0] == 47
  }

  /** What `find_in_path` leaves in its buffer of `cap` bytes. */
  function CommandPath(cmd: seq<byte>, cap: nat): seq<byte>
    requires cap >= 1
    requires IsAbsolute(cmd) || |cmd| + 1 <= cap
  {
    if IsAbsolute(cmd) then Trunc(cmd, cap - 1) + [NUL]
    else Trunc(BinDir, cap - |cmd| - 1) + cmd + [NUL]
  }

  /** `find_in_path(cmd, out_buf)` with `|out_buf| == cap`. A relative
      command needs `|cmd| + 1 <= cap`, or the bound of the prefix loop
      underflows. Only "/bin/" is ever tried and the answer is always true. */
  method FindInPath(cmd: seq<byte>, cap: nat) returns (out: seq<byte>, found: bool)
    requires cap >= 1
    requires IsAbsolute(cmd) || |cmd| + 1 <= cap
    ensures found
    ensures out == CommandPath(cmd, cap)
    ensures |out| <= cap && out[|out| - 1] == NUL
    ensures IsAbsolute(cmd) ==> out[..|out| - 1] <= cmd
    ensures !IsAbsolute(cmd) && |cmd| + 6 <= cap ==> out == BinDir + cmd + [NUL]
  {
    out := [];
    if IsAbsolute(cmd) {
      var k := 0;
      while k < |cmd|
        invariant k <= |cmd| && out == cmd[..k] && |out| <= cap - 1
      {
        if |out| >= cap - 1 {
          break;
        }
        out := out + [cmd[k]];
        k := k + 1;
      }
      assert out == Trunc(cmd, cap - 1);
      out := out + [NUL];
      return out, true;
    }
    var k := 0;
    while k < |BinDir|
      invariant k <= |BinDir| && out == BinDir[..k] && |out| <= cap - |cmd| - 1
    {
      if |out| >= cap - |cmd| - 1 {
        break;
      }
      out := out + [BinDir[k]];
      k := k + 1;
    }
    assert out == Trunc(BinDir, cap - |cmd| - 1);
    var prefix := out;
    k := 0;
    while k < |cmd|
      invariant k <= |cmd| && out == prefix + cmd[..k]
    {
      if |out| >= cap - 1 {
        break;
      }
      out := out + [cmd[k]];
      k := k + 1;
    }
    assert out == prefix + cmd;
    out := out + [NUL];
    return out, true;
  }
}
