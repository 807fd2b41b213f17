/** The builtins of `src/builtins.rs`. Each builtin is a function of the
    stores it reads or updates and of the results of the system calls it
    makes (`getcwd`, `chdir`, `open`, the `getdents64` buffers), returning
    the new store and the output calls it performs. */
module Builtins {
  import opened Common
  import Utils
  import Decimal
  import EnvStore
  import Parser
  import History
  import Aliases
  import Io

  /** A fixed message passed to `print`. */
  function Msg(m: seq<byte>): (r: seq<Io.Chunk>)
    ensures Io.Text(r) == m
  {
    var r := [Io.Printed(m)];
    assert r[1..] == [];
    r
  }

  const ExportFormatMsg: seq<byte> := Ascii("export: invalid format (use NAME=VALUE)\n")
  const ExportFullMsg: seq<byte> := Ascii("export: too many variables\n")
  const PwdErrorMsg: seq<byte> := Ascii("pwd: error getting current directory\n")
  const AliasFormatMsg: seq<byte> := Ascii("alias: invalid format (use NAME=VALUE)\n")
  const AliasFailMsg: seq<byte> := Ascii("alias: failed to set alias\n")
  const CdMissingMsg: seq<byte> := Ascii("cd: missing argument\n")
  const CdLongMsg: seq<byte> := Ascii("cd: path too long\n")
  const CdFailMsg: seq<byte> := Ascii("cd: cannot change directory\n")
  const LsLongMsg: seq<byte> := Ascii("ls: path too long\n")
  const LsOpenMsg: seq<byte> := Ascii("ls: cannot open directory\n")
  const Dot: seq<byte> := Ascii(".")

  const ExpandBuf: nat := 512
  const PathBuf: nat := 256

  // ---------------------------------------------------------------- NAME=VALUE

  /** The split at the first `=` used by `export` and `alias`. */
  function SplitAssignment(a: seq<byte>): (r: Option<(seq<byte>, seq<byte>)>)
    ensures r.None? <==> EQUALS !in a
    ensures r.Some? ==> a == r.value.0 + [EQUALS] + r.value.1 && EQUALS !in r.value.0
  {
    var i := Utils.IndexOf(a, EQUALS);
    if i == |a| then None
    else
      assert a == a[..i] + [EQUALS] + a[i + 1..];
      Some((a[..i], a[i + 1..]))
  }

  /** The split undoes the joining of a name without `=` and any value. */
  lemma SplitJoin(name: seq<byte>, value: seq<byte>)
    requires EQUALS !in name
    ensures SplitAssignment(name + [EQUALS] + value) == Some((name, value))
  {
    var a := name + [EQUALS] + value;
    var i := Utils.IndexOf(a, EQUALS);
    assert a[|name|] == EQUALS;
    assert forall k :: 0 <= k < |name| ==> a[k] == name[k];
    assert i == |name|;
    assert a[..i] == name;
    assert a[i + 1..] == value;
  }

  // ---------------------------------------------------------------- export

  /** Each variable written raw, each followed by a printed newline. */
  function ListVars(vars: seq<seq<byte>>): (r: seq<Io.Chunk>)
    ensures Io.Text(r) == Lines(vars)
  {
    if |vars| == 0 then []
    else
      var rest := ListVars(vars[1..]);
      Io.TextAppend(Io.Line(vars[0]), rest);
      Io.Line(vars[0]) + rest
  }

  /** The outcome of `export` on trimmed arguments `a`, given the set. */
  datatype ExportAction = ListAll | Assign(name: seq<byte>, value: seq<byte>) | BadFormat

  function ExportParse(args: seq<byte>): (r: ExportAction)
    ensures r.ListAll? <==> Utils.TrimSpaces(args) == []
    ensures r.BadFormat? <==> Utils.TrimSpaces(args) != [] && EQUALS !in Utils.TrimSpaces(args)
    ensures r.Assign? ==> Utils.TrimSpaces(args) == r.name + [EQUALS] + r.value && EQUALS !in r.name
  {
    var a := Utils.TrimSpaces(args);
    if a == [] then ListAll
    else match SplitAssignment(a)
      case None => BadFormat
      case Some((n, v)) => Assign(n, v)
  }

  /** `builtin_export` on the environment store. A refused `set` reports
      "too many variables" whatever the reason. */
  function Export(st: EnvStore.Store, args: seq<byte>): (r: (EnvStore.Store, seq<Io.Chunk>))
    requires EnvStore.Valid(st)
    ensures EnvStore.Valid(r.0)
    ensures ExportParse(args).ListAll? ==> r == (st, ListVars(EnvStore.Iter(st.slots)))
    ensures ExportParse(args).BadFormat? ==> r.0 == st
    ensures ExportParse(args).Assign? ==>
      var a := ExportParse(args);
      r.0 == EnvStore.Set(st, a.name, a.value).0
      && (r.1 == [] <==> EnvStore.Accepts(st, a.name, a.value))
  {
    match ExportParse(args)
    case ListAll => (st, ListVars(EnvStore.Iter(st.slots)))
    case BadFormat => (st, Msg(ExportFormatMsg))
    case Assign(n, v) =>
      var s := EnvStore.Set(st, n, v);
      (s.0, if s.1 then [] else Msg(ExportFullMsg))
  }

  /** `export NAME=VALUE` followed by `$NAME` expansion gives VALUE, for a
      fresh name; a name that is already defined keeps its first value,
      because lookup returns the first matching slot. */
  lemma ExportThenExpand(st: EnvStore.Store, name: seq<byte>, value: seq<byte>)
    requires EnvStore.Valid(st) && EnvStore.Accepts(st, name, value)
    requires NoNul(name) && NoNul(value) && EQUALS !in name
    requires |name| > 0 && name[0] != SPACE
    requires |value| == 0 || !Utils.IsTrailingPad(value[|value| - 1])
    ensures var st' := Export(st, name + [EQUALS] + value).0;
      Parser.ValueOr(st', name) == match EnvStore.Lookup(st.slots, name)
        case None => value
        case Some(prev) => prev
  {
    var a := name + [EQUALS] + value;
    Utils.TrimSpacesFixed(a);
    SplitJoin(name, value);
    EnvStore.SetThenGet(st, name, value, 0);
    var st' := EnvStore.Set(st, name, value).0;
    match EnvStore.Lookup(st.slots, name)
    case None =>
      EnvStore.LookupAppendMiss(st.slots, EnvStore.Entry(name, value), name);
      EnvStore.MatchesExactly(name, value, name);
    case Some(prev) =>
      EnvStore.LookupStable(st.slots, EnvStore.Entry(name, value), name);
  }

  // ---------------------------------------------------------------- echo, pwd, history

  /** `builtin_echo`: the arguments expanded into 512 bytes, then a newline. */
  function Echo(st: EnvStore.Store, args: seq<byte>): (r: seq<Io.Chunk>)
    ensures Io.Text(r) == Trunc(Parser.Ideal(args, st, 0), ExpandBuf) + [LF]
  {
    Io.Line(Parser.Expand(args, st, ExpandBuf))
  }

  /** `builtin_pwd` given `getcwd`'s return value and buffer. */
  function Pwd(ret: int, buf: seq<byte>): (r: seq<Io.Chunk>)
    requires |buf| == ExpandBuf
    ensures 0 < ret < ExpandBuf ==> Io.Text(r) == buf[..ret] + [LF]
    ensures !(0 < ret < ExpandBuf) ==> Io.Text(r) == PwdErrorMsg
  {
    if 0 < ret < ExpandBuf then Io.Line(buf[..ret])
    else Msg(PwdErrorMsg)
  }

  /** `builtin_history`: the history listing, written raw. */
  function HistoryCmd(h: History.History): (r: seq<Io.Chunk>)
    requires History.Valid(h)
    ensures Io.Text(r) == History.List(h)
  {
    [Io.Raw(History.List(h))]
  }

  // ---------------------------------------------------------------- serve

  const DefaultPort: nat := 8000
  const U16Max: nat := 65535

  /** The leading decimal digits of `a`. */
  function LeadingDigits(a: seq<byte>): (r: seq<byte>)
    ensures r <= a && Decimal.AllDigits(r)
    ensures |r| == |a| || !Decimal.IsDigit(a[|r|])
  {
    if |a| > 0 && Decimal.IsDigit(a[0]) then [a[0]] + LeadingDigits(a[1..]) else []
  }

  const U16Modulus: nat := 65536

  /** The digits of `s` read into a `u16` as release builds do it: each
      step `acc * 10 + digit` wraps modulo 2^16. Wrapping the product and
      then the sum, as the source does, gives the same value as wrapping
      once. */
  function U16Value(s: seq<byte>): (r: nat)
    requires Decimal.AllDigits(s)
    ensures r <= U16Max
  {
    if |s| == 0 then 0 else (10 * U16Value(s[..|s| - 1]) + (s[|s| - 1] - 48)) % U16Modulus
  }

  /** One wrapped step depends only on the accumulator modulo 2^16. */
  lemma ModStep(x: nat, d: nat)
    ensures (10 * (x % U16Modulus) + d) % U16Modulus == (10 * x + d) % U16Modulus
  {
  }

  /** Wrapping at every digit is the true value of the digits modulo 2^16. */
  lemma {:induction false} U16ValueIsMod(s: seq<byte>)
    requires Decimal.AllDigits(s)
    ensures U16Value(s) == Decimal.Value(s) % U16Modulus
    decreases |s|
  {
    if |s| > 0 {
      var p := s[..|s| - 1];
      U16ValueIsMod(p);
      ModStep(Decimal.Value(p), s[|s| - 1] - 48);
    }
  }

  /** The port `builtin_serve` listens on, as a release build computes it:
      the leading digits modulo 2^16, with 8000 in place of 0. */
  function ServePort(args: seq<byte>): (r: nat)
    ensures 0 < r <= U16Max
    ensures Decimal.Value(LeadingDigits(Utils.TrimSpaces(args))) % U16Modulus == 0 ==> r == DefaultPort
    ensures r != DefaultPort ==> r == Decimal.Value(LeadingDigits(Utils.TrimSpaces(args))) % U16Modulus
  {
    var a := Utils.TrimSpaces(args);
    var d := LeadingDigits(a);
    U16ValueIsMod(d);
    var v := U16Value(d);
    if a == [] || v == 0 then DefaultPort else v
  }

  /** The digit loop of `builtin_serve`, with the `u16` accumulator
      wrapping as it does in a release build. */
  method ParsePort(args: seq<byte>) returns (port: nat)
    ensures port == ServePort(args)
    ensures 0 < port <= U16Max
  {
    var a := Utils.TrimSpaces(args);
    if a == [] {
      return DefaultPort;
    }
    var d := LeadingDigits(a);
    var num: nat := 0;
    var k := 0;
    while k < |a|
      invariant k <= |d| && num == U16Value(d[..k])
    {
      if !Decimal.IsDigit(a[k]) {
        break;
      }
      assert d[..k + 1][..k] == d[..k];
      num := (num * 10 + (a[k] - 48)) % U16Modulus;
      k := k + 1;
    }
    assert d[..k] == d;
    port := if num == 0 then DefaultPort else num;
  }

  /** `serve` followed by the decimal text of any positive number listens
      on that number modulo 2^16, or on 8000 when that is 0. */
  lemma ServeDigitsWrap(n: nat)
    requires n > 0
    ensures ServePort(Decimal.Digits(n)) == if n % U16Modulus == 0 then DefaultPort else n % U16Modulus
  {
    var d := Decimal.Digits(n);
    Utils.TrimSpacesFixed(d);
    AllDigitsLeading(d);
    Decimal.ValueOfDigits(n);
    U16ValueIsMod(d);
  }

  /** `serve` followed by the decimal text of a port listens on that port. */
  lemma ServeDigits(p: nat)
    requires 0 < p <= U16Max
    ensures ServePort(Decimal.Digits(p)) == p
  {
    SmallMod(p);
    ServeDigitsWrap(p);
  }

  lemma SmallMod(x: nat)
    requires x < U16Modulus
    ensures x % U16Modulus == x
  {
  }

  /** Ports past 65535 wrap: `serve 70000` listens on 4464, and
      `serve 65536` wraps to 0 and so falls back to 8000. */
  lemma ServeWraps()
    ensures ServePort(Decimal.Digits(70000)) == 4464
    ensures ServePort(Decimal.Digits(65536)) == DefaultPort
  {
    ServeDigitsWrap(70000);
    ServeDigitsWrap(65536);
  }

  lemma {:induction false} AllDigitsLeading(d: seq<byte>)
    requires Decimal.AllDigits(d)
    ensures LeadingDigits(d) == d
    decreases |d|
  {
    if |d| > 0 {
      AllDigitsLeading(d[1..]);
      assert d == [d[0]] + d[1..];
    }
  }

  // ---------------------------------------------------------------- alias

  datatype AliasAction = ListAliases | Define(name: seq<byte>, value: seq<byte>) | AliasBadFormat

  /** `builtin_alias` parsing: split at the first `=` and trim both sides. */
  function AliasParse(args: seq<byte>): (r: AliasAction)
    ensures r.ListAliases? <==> Utils.TrimSpaces(args) == []
    ensures r.AliasBadFormat? <==> Utils.TrimSpaces(args) != [] && EQUALS !in Utils.TrimSpaces(args)
    ensures r.Define? ==> exists n, v :: (Utils.TrimSpaces(args) == n + [EQUALS] + v && EQUALS !in n
      && r.name == Utils.TrimSpaces(n) && r.value == Utils.TrimSpaces(v))
  {
    var a := Utils.TrimSpaces(args);
    if a == [] then ListAliases
    else match SplitAssignment(a)
      case None => AliasBadFormat
      case Some((n, v)) => Define(Utils.TrimSpaces(n), Utils.TrimSpaces(v))
  }

  /** `builtin_alias` on the alias table. */
  function AliasCmd(t: Aliases.Table, args: seq<byte>): (r: (Aliases.Table, seq<Io.Chunk>))
    requires Aliases.Valid(t)
    ensures Aliases.Valid(r.0)
    ensures AliasParse(args).ListAliases? ==> r == (t, [Io.Raw(Aliases.List(t))])
    ensures AliasParse(args).AliasBadFormat? ==> r.0 == t
    ensures AliasParse(args).Define? ==>
      var a := AliasParse(args);
      r.0 == Aliases.Set(t, a.name, a.value).0 && (r.1 == [] <==> Aliases.Set(t, a.name, a.value).1)
  {
    match AliasParse(args)
    case ListAliases => (t, [Io.Raw(Aliases.List(t))])
    case AliasBadFormat => (t, Msg(AliasFormatMsg))
    case Define(n, v) =>
      var s := Aliases.Set(t, n, v);
      (s.0, if s.1 then [] else Msg(AliasFailMsg))
  }

  /** `alias name = value` with spaces around `=` defines `name` as `value`. */
  lemma AliasDefines(t: Aliases.Table, name: seq<byte>, value: seq<byte>, cap: nat)
    requires Aliases.Valid(t) && NoNul(name) && NoNul(value) && EQUALS !in name
    requires |name| > 0 && name[0] != SPACE && !Utils.IsTrailingPad(name[|name| - 1])
    requires |value| > 0 && value[0] != SPACE && !Utils.IsTrailingPad(value[|value| - 1])
    requires Aliases.Set(t, name, value).1
    ensures var t' := AliasCmd(t, name + Ascii(" = ") + value).0;
      Aliases.Valid(t') && Aliases.Get(t', name, cap) == Trunc(value, cap)
  {
    AliasParseSpaced(name, value);
    Aliases.SetThenGet(t, name, value, cap);
  }

  lemma AliasParseSpaced(name: seq<byte>, value: seq<byte>)
    requires EQUALS !in name
    requires |name| > 0 && name[0] != SPACE && !Utils.IsTrailingPad(name[|name| - 1])
    requires |value| > 0 && value[0] != SPACE && !Utils.IsTrailingPad(value[|value| - 1])
    ensures AliasParse(name + Ascii(" = ") + value) == Define(name, value)
  {
    var a := name + Ascii(" = ") + value;
    var n := name + [SPACE];
    var v := [SPACE] + value;
    assert a == n + [EQUALS] + v;
    assert a[0] == name[0] && a[|a| - 1] == value[|value| - 1];
    Utils.TrimSpacesFixed(a);
    assert EQUALS !in n;
    SplitJoin(n, v);
    TrimTrailingSpace(name);
    TrimLeadingSpace(value);
  }

  lemma TrimTrailingSpace(s: seq<byte>)
    requires |s| > 0 && s[0] != SPACE && !Utils.IsTrailingPad(s[|s| - 1])
    ensures Utils.TrimSpaces(s + [SPACE]) == s
  {
    var t := s + [SPACE];
    var b := Utils.TrimBounds(t);
    assert t[|s| - 1] == s[|s| - 1];
    assert Utils.IsTrailingPad(t[|s|]);
    assert b.0 == 0;
    assert b.1 == |s|;
  }

  lemma TrimLeadingSpace(s: seq<byte>)
    requires |s| == 0 || (s[0] != SPACE && !Utils.IsTrailingPad(s[|s| - 1]))
    ensures Utils.TrimSpaces([SPACE] + s) == s
  {
    var t := [SPACE] + s;
    var b := Utils.TrimBounds(t);
    assert b.0 == 1;
    if |s| > 0 {
      assert t[|t| - 1] == s[|s| - 1];
      assert b.1 == |t|;
    }
  }

  // ---------------------------------------------------------------- paths

  /** The NUL-terminated copy into a 256-byte path buffer, or `None` for
      "path too long". */
  function PathArg(e: seq<byte>): (r: Option<seq<byte>>)
    ensures r.Some? <==> |e| < PathBuf
    ensures r.Some? ==> r.value == e + [NUL] && |r.value| <= PathBuf
  {
    if |e| < PathBuf then Some(e + [NUL]) else None
  }

  /** The copy loop of `builtin_cd` and `builtin_ls`: it refuses as soon as
      the index reaches 255 with bytes left, so 255 expanded bytes still
      fit and 256 do not. */
  method CopyPath(e: seq<byte>) returns (r: Option<seq<byte>>)
    ensures r == PathArg(e)
  {
    var buf: seq<byte> := [];
    var i := 0;
    while i < |e|
      invariant i <= |e| && buf == e[..i] && i <= PathBuf - 1
    {
      if |buf| >= PathBuf - 1 {
        return None;
      }
      buf := buf + [e[i]];
      i := i + 1;
    }
    assert buf == e;
    return Some(buf + [NUL]);
  }

  /** The argument `builtin_cd` passes to `chdir`, or the message it prints. */
  function Cd(st: EnvStore.Store, path: seq<byte>, chdirOk: bool): (r: (Option<seq<byte>>, seq<Io.Chunk>))
    ensures Utils.TrimSpaces(path) == [] ==> r == (None, Msg(CdMissingMsg))
    ensures Utils.TrimSpaces(path) != [] ==>
      var e := Parser.Expand(Utils.TrimSpaces(path), st, ExpandBuf);
      r.0 == PathArg(e)
      && (|e| >= PathBuf ==> r.1 == Msg(CdLongMsg))
      && (|e| < PathBuf ==> r.1 == if chdirOk then [] else Msg(CdFailMsg))
  {
    var p := Utils.TrimSpaces(path);
    if p == [] then (None, Msg(CdMissingMsg))
    else
      var e := Parser.Expand(p, st, ExpandBuf);
      match PathArg(e)
      case None => (None, Msg(CdLongMsg))
      case Some(arg) => (Some(arg), if chdirOk then [] else Msg(CdFailMsg))
  }

  /** The directory `builtin_ls` opens: "." when the trimmed path is empty or
      expands to nothing. */
  function LsPath(expanded: seq<byte>): (r: Option<seq<byte>>)
    ensures expanded == [] ==> r == Some(Dot + [NUL])
    ensures expanded != [] ==> r == PathArg(expanded)
  {
    if expanded == [] then Some(Dot + [NUL]) else PathArg(expanded)
  }

  function LsExpand(st: EnvStore.Store, path: seq<byte>): seq<byte> {
    var p := Utils.TrimSpaces(path);
    if p == [] then [] else Parser.Expand(p, st, ExpandBuf)
  }

  // ---------------------------------------------------------------- listing

  const MaxEntries: nat := 128

  predicate Listable(name: seq<byte>) {
    0 < |name| < PathBuf
  }

  /** Reference: the names `ls` may keep, in directory order. */
  function Filter(names: seq<seq<byte>>): (r: seq<seq<byte>>)
    ensures forall i :: 0 <= i < |r| ==> Listable(r[i])
    ensures forall x :: x in r ==> x in names
  {
    if |names| == 0 then []
    else (if Listable(names[0]) then [names[0]] else []) + Filter(names[1..])
  }

  function Flatten(batches: seq<seq<seq<byte>>>): seq<seq<byte>> {
    if |batches| == 0 then [] else batches[0] + Flatten(batches[1..])
  }

  /** The inner loop over one `getdents64` buffer: stop once 128 names are
      held, skip names that are empty or too long for an entry slot. */
  function CollectBatch(names: seq<seq<byte>>, acc: seq<seq<byte>>): (r: seq<seq<byte>>)
    decreases |names|
  {
    if |names| == 0 || |acc| >= MaxEntries then acc
    else CollectBatch(names[1..], if Listable(names[0]) then acc + [names[0]] else acc)
  }

  /** The outer loop over the buffers read until `getdents64` returns 0. */
  function CollectAll(batches: seq<seq<seq<byte>>>, acc: seq<seq<byte>>): (r: seq<seq<byte>>)
    decreases |batches|
  {
    if |batches| == 0 then acc
    else
      var acc' := CollectBatch(batches[0], acc);
      if |acc'| >= MaxEntries then acc' else CollectAll(batches[1..], acc')
  }

  lemma FilterAppend(a: seq<seq<byte>>, b: seq<seq<byte>>)
    ensures Filter(a + b) == Filter(a) + Filter(b)
  {
    if |a| > 0 {
      assert (a + b)[1..] == a[1..] + b;
      FilterAppend(a[1..], b);
    } else {
      assert a + b == b;
    }
  }

  lemma {:induction false} CollectBatchIsTrunc(names: seq<seq<byte>>, acc: seq<seq<byte>>)
    requires |acc| <= MaxEntries
    ensures CollectBatch(names, acc) == Trunc(acc + Filter(names), MaxEntries)
    decreases |names|
  {
    if |names| == 0 {
      assert acc + [] == acc;
    } else if |acc| >= MaxEntries {
      assert (acc + Filter(names))[..MaxEntries] == acc;
    } else {
      var acc' := if Listable(names[0]) then acc + [names[0]] else acc;
      CollectBatchIsTrunc(names[1..], acc');
      assert acc + Filter(names) == acc' + Filter(names[1..]);
    }
  }

  lemma {:induction false} CollectAllIsTrunc(batches: seq<seq<seq<byte>>>, acc: seq<seq<byte>>)
    requires |acc| <= MaxEntries
    ensures CollectAll(batches, acc) == Trunc(acc + Filter(Flatten(batches)), MaxEntries)
    decreases |batches|
  {
    if |batches| == 0 {
      assert acc + [] == acc;
    } else {
      var acc' := CollectBatch(batches[0], acc);
      CollectBatchIsTrunc(batches[0], acc);
      FilterAppend(batches[0], Flatten(batches[1..]));
      var all := acc + Filter(batches[0]) + Filter(Flatten(batches[1..]));
      assert acc + Filter(Flatten(batches)) == all;
      if |acc'| >= MaxEntries {
        assert all[..MaxEntries] == (acc + Filter(batches[0]))[..MaxEntries];
      } else {
        CollectAllIsTrunc(batches[1..], acc');
      }
    }
  }

  /** `ls` keeps the first 128 listable names over all buffers. */
  lemma CollectKeepsFirst(batches: seq<seq<seq<byte>>>)
    ensures CollectAll(batches, []) == Trunc(Filter(Flatten(batches)), MaxEntries)
    ensures |CollectAll(batches, [])| <= MaxEntries
  {
    CollectAllIsTrunc(batches, []);
    assert [] + Filter(Flatten(batches)) == Filter(Flatten(batches));
  }

  /** The names of each buffer, or `None` when a buffer holds a malformed
      record (which the source would read past or loop on). */
  function WalkAll(bufs: seq<seq<byte>>): (r: Option<seq<seq<seq<byte>>>>)
    ensures r.Some? ==> |r.value| == |bufs|
  {
    if |bufs| == 0 then Some([])
    else match Parser.Walk(bufs[0], 0)
      case None => None
      case Some(names) =>
        match WalkAll(bufs[1..])
        case None => None
        case Some(rest) => Some([names] + rest)
  }

  /** The sorted names, each written raw and followed by a printed newline. */
  function NameLines(names: seq<seq<byte>>): seq<Io.Chunk> {
    if |names| == 0 then []
    else (if |names[0]| > 0 then Io.Line(names[0]) else []) + NameLines(names[1..])
  }

  /** Collect, sort with `sort_entries` and print. */
  function Listing(batches: seq<seq<seq<byte>>>): (r: seq<Io.Chunk>) {
    var names := CollectAll(batches, []);
    NameLines(Utils.SortEntries(names, |names|))
  }

  /** `builtin_ls` given whether `open` succeeds and the buffers `getdents64`
      fills, whose records must be well formed. */
  function Ls(st: EnvStore.Store, path: seq<byte>, openOk: bool, bufs: seq<seq<byte>>): (r: seq<Io.Chunk>)
    requires WalkAll(bufs).Some?
    ensures LsPath(LsExpand(st, path)).None? ==> r == Msg(LsLongMsg)
    ensures LsPath(LsExpand(st, path)).Some? && !openOk ==> r == Msg(LsOpenMsg)
    ensures LsPath(LsExpand(st, path)).Some? && openOk ==> r == Listing(WalkAll(bufs).value)
  {
    match LsPath(LsExpand(st, path))
    case None => Msg(LsLongMsg)
    case Some(_) =>
      if !openOk then Msg(LsOpenMsg) else Listing(WalkAll(bufs).value)
  }

  /** What `ls` prints: the first 128 listable names of the directory, in
      sorted order, one per line. */
  lemma ListingSorted(batches: seq<seq<seq<byte>>>)
    ensures var kept := Trunc(Filter(Flatten(batches)), MaxEntries);
      exists sorted :: (Listing(batches) == NameLines(sorted)
        && |sorted| == |kept| && multiset(sorted) == multiset(kept)
        && Utils.SortedUpTo(sorted, |sorted|))
  {
    var names := CollectAll(batches, []);
    CollectKeepsFirst(batches);
    var sorted := Utils.SortEntries(names, |names|);
    assert sorted[..|names|] == sorted;
    assert names[..|names|] == names;
    var kept := Filter(Flatten(batches));
    assert Utils.NonEmptyUpTo(names, |names|) by {
      forall k | 0 <= k < |names| ensures |names[k]| > 0 {
        assert names[k] == kept[k];
      }
    }
  }

  lemma {:induction false} NameLinesText(names: seq<seq<byte>>)
    requires forall i :: 0 <= i < |names| ==> |names[i]| > 0
    ensures Io.Text(NameLines(names)) == Lines(names)
    decreases |names|
  {
    if |names| > 0 {
      NameLinesText(names[1..]);
      Io.TextAppend(Io.Line(names[0]), NameLines(names[1..]));
    }
  }

  /** One name per line. */
  function Lines(names: seq<seq<byte>>): seq<byte> {
    if |names| == 0 then [] else names[0] + [LF] + Lines(names[1..])
  }

  /** A listing of well-formed buffers reads back the encoded names. */
  lemma LsReadsEncoded(names: seq<seq<byte>>)
    requires Parser.GoodNames(names)
    ensures WalkAll([Parser.Encode(names)]) == Some([names])
  {
    var e := Parser.Encode(names);
    assert [] + e == e;
    Parser.WalkEncode([], names);
    var bufs := [e];
    assert bufs[0] == e && bufs[1..] == [];
    assert WalkAll(bufs[1..]) == Some([]);
    assert [names] + [] == [names];
  }
}
