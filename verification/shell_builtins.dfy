/** The builtins under `src/shell/builtins/`: `export` over the lazily mapped
    shell store, and `cd` and `ls` using the shell parser copies. Each one is
    related to its counterpart in `Builtins`, and differs only while the
    store is unallocated. */
module ShellBuiltins {
  import opened Common
  import EnvStore
  import ShellEnvStore
  import Parser
  import ShellParser
  import Utils
  import Io
  import Builtins

  /** `builtin_export` of `env.rs`. */
  function Export(st: ShellEnvStore.ShellStore, mmapOk: bool, args: seq<byte>)
    : (r: (ShellEnvStore.ShellStore, seq<Io.Chunk>))
    requires ShellEnvStore.Valid(st)
    ensures ShellEnvStore.Valid(r.0)
    ensures st.Allocated? ==>
      var b := Builtins.Export(st.inner, args);
      r == (ShellEnvStore.Allocated(b.0), b.1)
    ensures st.Unallocated? && !mmapOk ==> r.0 == ShellEnvStore.Unallocated
    ensures st.Unallocated? && !mmapOk && Builtins.ExportParse(args).Assign? ==>
      r.1 == Builtins.Msg(Builtins.ExportFullMsg)
  {
    match Builtins.ExportParse(args)
    case ListAll =>
      var it := ShellEnvStore.Iter(st, mmapOk);
      (it.0, Builtins.ListVars(it.1))
    case BadFormat => (st, Builtins.Msg(Builtins.ExportFormatMsg))
    case Assign(n, v) =>
      var s := ShellEnvStore.Set(st, mmapOk, n, v);
      (s.0, if s.1 then [] else Builtins.Msg(Builtins.ExportFullMsg))
  }

  /** `builtin_cd` of `builtins_fs.rs`: the store after expansion, the
      `chdir` argument if any, and the output. */
  function Cd(st: ShellEnvStore.ShellStore, mmapOk: bool, path: seq<byte>, chdirOk: bool)
    : (r: (ShellEnvStore.ShellStore, Option<seq<byte>>, seq<Io.Chunk>))
    requires ShellEnvStore.Valid(st)
    ensures ShellEnvStore.Valid(r.0)
    ensures st.Allocated? ==>
      var b := Builtins.Cd(st.inner, path, chdirOk);
      r == (st, b.0, b.1)
    ensures Utils.TrimSpaces(path) == [] ==> r == (st, None, Builtins.Msg(Builtins.CdMissingMsg))
  {
    var p := Utils.TrimSpaces(path);
    if p == [] then (st, None, Builtins.Msg(Builtins.CdMissingMsg))
    else
      var x := ShellParser.Expand(p, st, mmapOk, Builtins.ExpandBuf);
      var st' := x.1;
      match Builtins.PathArg(x.0)
      case None => (st', None, Builtins.Msg(Builtins.CdLongMsg))
      case Some(arg) => (st', Some(arg), if chdirOk then [] else Builtins.Msg(Builtins.CdFailMsg))
  }

  /** The names of each buffer as the shell walker reads them. */
  function WalkAll(bufs: seq<seq<byte>>): (r: Option<seq<seq<seq<byte>>>>)
    ensures r.Some? ==> |r.value| == |bufs|
  {
    if |bufs| == 0 then Some([])
    else match ShellParser.Walk(bufs[0], 0)
      case None => None
      case Some(names) =>
        match WalkAll(bufs[1..])
        case None => None
        case Some(rest) => Some([names] + rest)
  }

  /** `builtin_ls` of `builtins_fs.rs`. */
  function Ls(st: ShellEnvStore.ShellStore, mmapOk: bool, path: seq<byte>, openOk: bool, bufs: seq<seq<byte>>)
    : (r: (ShellEnvStore.ShellStore, seq<Io.Chunk>))
    requires ShellEnvStore.Valid(st) && WalkAll(bufs).Some?
    ensures ShellEnvStore.Valid(r.0)
    ensures st.Allocated? && Builtins.WalkAll(bufs) == WalkAll(bufs) ==>
      r == (st, Builtins.Ls(st.inner, path, openOk, bufs))
  {
    var p := Utils.TrimSpaces(path);
    var x := if p == [] then ([], st) else ShellParser.Expand(p, st, mmapOk, Builtins.ExpandBuf);
    match Builtins.LsPath(x.0)
    case None => (x.1, Builtins.Msg(Builtins.LsLongMsg))
    case Some(_) =>
      (x.1, if !openOk then Builtins.Msg(Builtins.LsOpenMsg) else Builtins.Listing(WalkAll(bufs).value))
  }

  /** On buffers of well-formed records both walkers read the same names, so
      the two `ls` copies list the same directory identically. */
  lemma {:induction false} WalkAllAgree(listings: seq<seq<seq<byte>>>, bufs: seq<seq<byte>>)
    requires |bufs| == |listings|
    requires forall i :: 0 <= i < |listings| ==> Parser.GoodNames(listings[i])
    requires forall i :: 0 <= i < |bufs| ==> bufs[i] == Parser.Encode(listings[i])
    ensures WalkAll(bufs) == Builtins.WalkAll(bufs) == Some(listings)
    decreases |listings|
  {
    if |listings| > 0 {
      WalkFirst(listings[0], bufs[0]);
      WalkAllAgree(listings[1..], bufs[1..]);
      WalkAllStep(listings, bufs);
    }
  }

  lemma WalkFirst(names: seq<seq<byte>>, buf: seq<byte>)
    requires Parser.GoodNames(names) && buf == Parser.Encode(names)
    ensures ShellParser.Walk(buf, 0) == Parser.Walk(buf, 0) == Some(names)
  {
    assert [] + buf == buf;
    Parser.WalkEncode([], names);
    ShellParser.WalkEncode([], names);
  }

  lemma WalkAllStep(listings: seq<seq<seq<byte>>>, bufs: seq<seq<byte>>)
    requires |bufs| == |listings| > 0
    requires ShellParser.Walk(bufs[0], 0) == Parser.Walk(bufs[0], 0) == Some(listings[0])
    requires WalkAll(bufs[1..]) == Builtins.WalkAll(bufs[1..]) == Some(listings[1..])
    ensures WalkAll(bufs) == Builtins.WalkAll(bufs) == Some(listings)
  {
    assert listings == [listings[0]] + listings[1..];
  }
}
