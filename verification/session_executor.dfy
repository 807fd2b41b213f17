/** `execute_command_in_session` of `src/shell/session_executor.rs`: the
    session-mode command runner, which writes every result into the
    session's output buffer instead of standard output and runs no external
    programs. `Run` gives the bytes a command writes, in order; by
    `Session.WriteOutputConcat` they are stored as one `write_output` call
    would store them. The system call results are the parameter `Sys`. */
module SessionExecutor {
  import opened Common
  import Utils
  import Decimal
  import EnvStore
  import ShellEnvStore
  import Parser
  import ShellParser
  import Session
  import Executor
  import ShellExecutor
  import Builtins
  import ShellBuiltins
  import Io

  /** What the kernel answers: `getcwd`'s length and buffer, whether `chdir`
      and `open` succeed, the buffers `getdents64` fills until it returns 0,
      and the thread counts. */
  datatype Sys = Sys(cwdLen: int, cwd: seq<byte>, chdirOk: bool, openOk: bool,
                     dents: seq<seq<byte>>, active: nat, total: nat)

  predicate SysValid(sys: Sys) {
    |sys.cwd| == Builtins.ExpandBuf && sys.cwdLen <= Builtins.ExpandBuf
    && ShellBuiltins.WalkAll(sys.dents).Some?
    && sys.active <= I64Max && sys.total <= I64Max
  }

  const I64Max: nat := 0x7FFF_FFFF_FFFF_FFFF

  const ClosedMsg: seq<byte> := Ascii("Session closed\n")
  const ExternalMsg: seq<byte> := Ascii("External commands not yet ") + Ascii("supported in session mode\n")
  const PwdErrorMsg: seq<byte> := Ascii("pwd: error\n")
  const CdPrefix: seq<byte> := Ascii("cd: ")
  const CdSuffix: seq<byte> := Ascii(": No such directory\n")
  const ThreadsPrefix: seq<byte> := Ascii("Active threads: ")
  const Slash: seq<byte> := Ascii(" / ")
  const Gap: seq<byte> := Ascii("  ")
  const DotDir: seq<byte> := Ascii(".") + [NUL]
  const MaxEntries: nat := 64

  // ---------------------------------------------------------------- numbers

  /** `write_number_to_session`: "0" for zero, the decimal digits of a
      positive number, nothing for a negative one. */
  function Number(n: int): (r: seq<byte>)
    ensures n >= 0 ==> |r| > 0 && Decimal.AllDigits(r) && Decimal.Value(r) == n
    ensures n < 0 ==> r == []
  {
    if n < 0 then []
    else
      Decimal.ValueOfDigits(n);
      Decimal.Digits(n)
  }

  // ---------------------------------------------------------------- handlers

  /** `execute_builtin_pwd`: the same bytes as the shell's `pwd` whenever
      `getcwd` succeeds below the buffer size. It differs in two places:
      a directory name filling all 512 bytes is still written, where the
      shell reports an error, and the error text is shorter. */
  function Pwd(sys: Sys): (r: seq<byte>)
    requires SysValid(sys)
    ensures 0 < sys.cwdLen < Builtins.ExpandBuf ==> r == Io.Text(Builtins.Pwd(sys.cwdLen, sys.cwd))
    ensures sys.cwdLen == Builtins.ExpandBuf ==>
      r == sys.cwd + [LF] && Io.Text(Builtins.Pwd(sys.cwdLen, sys.cwd)) == Builtins.PwdErrorMsg
    ensures sys.cwdLen <= 0 ==>
      r == PwdErrorMsg && Io.Text(Builtins.Pwd(sys.cwdLen, sys.cwd)) == Builtins.PwdErrorMsg
      && PwdErrorMsg != Builtins.PwdErrorMsg
  {
    assert |PwdErrorMsg| != |Builtins.PwdErrorMsg|;
    assert sys.cwd[..Builtins.ExpandBuf] == sys.cwd;
    if sys.cwdLen > 0 then sys.cwd[..sys.cwdLen] + [LF] else PwdErrorMsg
  }

  /** The buffer passed to `chdir`: at most 511 expanded bytes, then zeros. */
  function ChdirArg(e: seq<byte>): (r: seq<byte>)
    ensures |r| == Builtins.ExpandBuf
    ensures CStr(r) == Trunc(CStr(e), Builtins.ExpandBuf - 1)
  {
    var k := Trunc(e, Builtins.ExpandBuf - 1);
    var r := Pad(k, Builtins.ExpandBuf);
    CStrUnique(r, CStr(k));
    assert CStr(k) == Trunc(CStr(e), Builtins.ExpandBuf - 1) by {
      CStrOfTrunc(e, Builtins.ExpandBuf - 1);
    }
    r
  }

  lemma CStrOfTrunc(e: seq<byte>, n: nat)
    ensures CStr(Trunc(e, n)) == Trunc(CStr(e), n)
  {
    var k := Trunc(e, n);
    var c := Trunc(CStr(e), n);
    assert c <= k;
    if |c| < |k| {
      assert k[|c|] == e[|c|];
    }
    CStrUnique(k, c);
  }

  /** `execute_builtin_cd`: the store, the `chdir` buffer if called, and the
      output. `chdir` always gets the C string of the trimmed argument's
      expansion, cut to 511 bytes; the failure message repeats the whole
      expansion. */
  function Cd(st: ShellEnvStore.ShellStore, mmapOk: bool, path: seq<byte>, sys: Sys)
    : (r: (ShellEnvStore.ShellStore, Option<seq<byte>>, seq<byte>))
    requires ShellEnvStore.Valid(st)
    ensures ShellEnvStore.Valid(r.0)
    ensures Utils.TrimSpaces(path) == [] ==> r == (st, None, Builtins.CdMissingMsg)
    ensures Utils.TrimSpaces(path) != [] ==>
      var e := CdExpansion(st, mmapOk, path);
      && r.0 == ShellParser.Expand(Utils.TrimSpaces(path), st, mmapOk, Builtins.ExpandBuf).1
      && r.1.Some? && |r.1.value| == Builtins.ExpandBuf
      && CStr(r.1.value) == Trunc(CStr(e), Builtins.ExpandBuf - 1)
      && (r.2 == [] <==> sys.chdirOk)
      && (!sys.chdirOk ==> r.2 == CdPrefix + e + CdSuffix)
  {
    var p := Utils.TrimSpaces(path);
    if p == [] then (st, None, Builtins.CdMissingMsg)
    else
      var x := ShellParser.Expand(p, st, mmapOk, Builtins.ExpandBuf);
      (x.1, Some(ChdirArg(x.0)), if sys.chdirOk then [] else CdPrefix + x.0 + CdSuffix)
  }

  /** What the trimmed argument of `cd` expands to: the reference expansion
      over the store's variables, cut to the 512-byte buffer. */
  function CdExpansion(st: ShellEnvStore.ShellStore, mmapOk: bool, path: seq<byte>): seq<byte>
    requires ShellEnvStore.Valid(st)
  {
    Trunc(Parser.Ideal(Utils.TrimSpaces(path), ShellParser.View(ShellEnvStore.EnsureInit(st, mmapOk)), 0),
          Builtins.ExpandBuf)
  }

  /** Session `cd` and the shell's `cd` change to the same directory when
      the expansion is shorter than 256 bytes, and leave the store alike.
      From 256 bytes on the shell refuses with "path too long" and calls no
      `chdir`, while the session still passes the first 511 bytes. When
      `chdir` fails the two report different texts. */
  lemma CdAgreesWithShell(st: ShellEnvStore.ShellStore, mmapOk: bool, path: seq<byte>, sys: Sys)
    requires ShellEnvStore.Valid(st) && Utils.TrimSpaces(path) != []
    ensures var c := Cd(st, mmapOk, path, sys);
      var b := ShellBuiltins.Cd(st, mmapOk, path, sys.chdirOk);
      var e := CdExpansion(st, mmapOk, path);
      && c.0 == b.0
      && (|e| < Builtins.PathBuf ==> b.1.Some? && c.1.Some? && CStr(c.1.value) == CStr(b.1.value))
      && (|e| >= Builtins.PathBuf ==> b.1.None? && Io.Text(b.2) == Builtins.CdLongMsg && c.1.Some?)
      && (|e| < Builtins.PathBuf && !sys.chdirOk ==>
            Io.Text(b.2) == Builtins.CdFailMsg && c.2 == CdPrefix + e + CdSuffix)
  {
    var e := CdExpansion(st, mmapOk, path);
    var c := Cd(st, mmapOk, path, sys);
    if |e| < Builtins.PathBuf {
      var arg := e + [NUL];
      CStrUnique(arg, CStr(e));
      assert Trunc(CStr(e), Builtins.ExpandBuf - 1) == CStr(e);
    }
  }

  /** `execute_builtin_echo`: unlike the other `echo` copies, the arguments
      are trimmed before expansion. */
  function Echo(st: ShellEnvStore.ShellStore, mmapOk: bool, args: seq<byte>)
    : (r: (ShellEnvStore.ShellStore, seq<byte>))
    requires ShellEnvStore.Valid(st)
    ensures ShellEnvStore.Valid(r.0)
    ensures r.1 == Trunc(Parser.Ideal(Utils.TrimSpaces(args), ShellParser.View(ShellEnvStore.EnsureInit(st, mmapOk)), 0),
                         Builtins.ExpandBuf) + [LF]
  {
    var x := ShellParser.Expand(Utils.TrimSpaces(args), st, mmapOk, Builtins.ExpandBuf);
    (x.1, x.0 + [LF])
  }

  /** Each variable and a newline after it. */
  function VarLines(vars: seq<seq<byte>>): seq<byte> {
    if |vars| == 0 then [] else vars[0] + [LF] + VarLines(vars[1..])
  }

  /** `execute_builtin_export`: list when empty, store at the first `=`,
      and say nothing at all on failure or without `=`. */
  function Export(st: ShellEnvStore.ShellStore, mmapOk: bool, args: seq<byte>)
    : (r: (ShellEnvStore.ShellStore, seq<byte>))
    requires ShellEnvStore.Valid(st)
    ensures ShellEnvStore.Valid(r.0)
    ensures Builtins.ExportParse(args).ListAll? ==>
      var it := ShellEnvStore.Iter(st, mmapOk);
      r == (it.0, VarLines(it.1))
    ensures Builtins.ExportParse(args).BadFormat? ==> r == (st, [])
    ensures Builtins.ExportParse(args).Assign? ==>
      r.1 == []
      && r.0 == ShellBuiltins.Export(st, mmapOk, args).0
  {
    match Builtins.ExportParse(args)
    case ListAll =>
      var it := ShellEnvStore.Iter(st, mmapOk);
      (it.0, VarLines(it.1))
    case BadFormat => (st, [])
    case Assign(n, v) => (ShellEnvStore.Set(st, mmapOk, n, v).0, [])
  }

  /** `threads`: the two counts in decimal, which read back as the counts. */
  function Threads(sys: Sys): (r: seq<byte>)
    requires SysValid(sys)
    ensures exists a, t ::
              && r == ThreadsPrefix + a + Slash + t + [LF]
              && Decimal.AllDigits(a) && Decimal.Value(a) == sys.active
              && Decimal.AllDigits(t) && Decimal.Value(t) == sys.total
  {
    ThreadsPrefix + Number(sys.active) + Slash + Number(sys.total) + [LF]
  }

  // ---------------------------------------------------------------- ls

  predicate IsDotEntry(name: seq<byte>) {
    name == Ascii(".") || name == Ascii("..")
  }

  /** The names kept from a directory: not `.` or `..`, each cut to a
      256-byte entry slot. */
  function KeepNames(names: seq<seq<byte>>): (r: seq<seq<byte>>)
    ensures |r| <= |names|
  {
    if |names| == 0 then []
    else (if IsDotEntry(names[0]) then [] else [Trunc(names[0], Builtins.PathBuf)]) + KeepNames(names[1..])
  }

  /** The inner loop over one buffer: every entry is read, but only the
      first 64 are stored. */
  function CollectBatch(names: seq<seq<byte>>, acc: seq<seq<byte>>): (r: seq<seq<byte>>)
    decreases |names|
  {
    if |names| == 0 then acc
    else if IsDotEntry(names[0]) then CollectBatch(names[1..], acc)
    else CollectBatch(names[1..], if |acc| < MaxEntries then acc + [Trunc(names[0], Builtins.PathBuf)] else acc)
  }

  /** The outer loop: every buffer is read, even after 64 names are held. */
  function CollectAll(batches: seq<seq<seq<byte>>>, acc: seq<seq<byte>>): (r: seq<seq<byte>>)
    decreases |batches|
  {
    if |batches| == 0 then acc else CollectAll(batches[1..], CollectBatch(batches[0], acc))
  }

  /** Each name followed by two spaces, and one newline if anything was
      listed. */
  function Joined(names: seq<seq<byte>>): seq<byte> {
    if |names| == 0 then [] else names[0] + Gap + Joined(names[1..])
  }

  function Ls(path: seq<byte>, sys: Sys): (r: (seq<byte>, seq<byte>))
    requires SysValid(sys)
    ensures Utils.TrimSpaces(path) == [] ==> r.0 == DotDir
    ensures !sys.openOk ==> r.1 == Builtins.LsOpenMsg
  {
    var p := Utils.TrimSpaces(path);
    var dir := if p == [] then DotDir else p;
    if !sys.openOk then (dir, Builtins.LsOpenMsg)
    else
      var names := CollectAll(ShellBuiltins.WalkAll(sys.dents).value, []);
      var sorted := Utils.SortEntries(names, |names|);
      (dir, Joined(sorted) + if |names| > 0 then [LF] else [])
  }

  lemma KeepAppend(a: seq<seq<byte>>, b: seq<seq<byte>>)
    ensures KeepNames(a + b) == KeepNames(a) + KeepNames(b)
  {
    if |a| > 0 {
      assert (a + b)[1..] == a[1..] + b;
      KeepAppend(a[1..], b);
    } else {
      assert a + b == b;
    }
  }

  lemma {:induction false} CollectBatchIsTrunc(names: seq<seq<byte>>, acc: seq<seq<byte>>)
    requires |acc| <= MaxEntries
    ensures CollectBatch(names, acc) == Trunc(acc + KeepNames(names), MaxEntries)
    decreases |names|
  {
    if |names| == 0 {
      assert acc + [] == acc;
    } else if IsDotEntry(names[0]) {
      CollectBatchIsTrunc(names[1..], acc);
    } else {
      var x := Trunc(names[0], Builtins.PathBuf);
      assert acc + KeepNames(names) == acc + [x] + KeepNames(names[1..]);
      if |acc| < MaxEntries {
        CollectBatchIsTrunc(names[1..], acc + [x]);
      } else {
        CollectBatchIsTrunc(names[1..], acc);
        assert (acc + [x] + KeepNames(names[1..]))[..MaxEntries] == acc;
        assert (acc + KeepNames(names[1..]))[..MaxEntries] == acc;
      }
    }
  }

  lemma {:induction false} CollectAllIsTrunc(batches: seq<seq<seq<byte>>>, acc: seq<seq<byte>>)
    requires |acc| <= MaxEntries
    ensures CollectAll(batches, acc) == Trunc(acc + KeepNames(Builtins.Flatten(batches)), MaxEntries)
    decreases |batches|
  {
    if |batches| == 0 {
      assert acc + [] == acc;
    } else {
      var acc' := CollectBatch(batches[0], acc);
      CollectBatchIsTrunc(batches[0], acc);
      CollectAllIsTrunc(batches[1..], acc');
      KeepFlatten(batches);
      TruncJoin(acc, KeepNames(batches[0]), KeepNames(Builtins.Flatten(batches[1..])), MaxEntries);
    }
  }

  lemma KeepFlatten(batches: seq<seq<seq<byte>>>)
    requires |batches| > 0
    ensures KeepNames(Builtins.Flatten(batches)) == KeepNames(batches[0]) + KeepNames(Builtins.Flatten(batches[1..]))
  {
    KeepAppend(batches[0], Builtins.Flatten(batches[1..]));
  }

  /** Cutting at `n` twice is cutting once. */
  lemma TruncJoin<T>(a: seq<T>, b: seq<T>, c: seq<T>, n: nat)
    ensures Trunc(Trunc(a + b, n) + c, n) == Trunc(a + (b + c), n)
  {
    assert a + b + c == a + (b + c);
    if |a + b| > n {
      assert (a + b + c)[..n] == (a + b)[..n];
      assert ((a + b)[..n] + c)[..n] == (a + b)[..n];
    }
  }

  /** What session `ls` writes: the first 64 entries other than `.` and
      `..`, permuted by `sort_entries` (sorted when none is empty), each
      followed by two spaces, and a newline when there was at least one. */
  lemma LsListing(path: seq<byte>, sys: Sys)
    requires SysValid(sys) && sys.openOk
    ensures var kept := Trunc(KeepNames(Builtins.Flatten(ShellBuiltins.WalkAll(sys.dents).value)), MaxEntries);
      var sorted := Utils.SortEntries(kept, |kept|);
      && Ls(path, sys).1 == Joined(sorted) + (if |kept| > 0 then [LF] else [])
      && |sorted| == |kept| && multiset(sorted) == multiset(kept)
      && (Utils.NonEmptyUpTo(kept, |kept|) ==> Utils.SortedUpTo(sorted, |sorted|))
  {
    var batches := ShellBuiltins.WalkAll(sys.dents).value;
    var kept := Trunc(KeepNames(Builtins.Flatten(batches)), MaxEntries);
    assert CollectAll(batches, []) == kept by {
      CollectAllIsTrunc(batches, []);
      assert [] + KeepNames(Builtins.Flatten(batches)) == KeepNames(Builtins.Flatten(batches));
    }
    SortedWhole(kept);
  }

  /** `sort_entries` over a whole sequence permutes it, and sorts it when
      no name is empty. */
  lemma SortedWhole(names: seq<seq<byte>>)
    ensures var sorted := Utils.SortEntries(names, |names|);
      && |sorted| == |names| && multiset(sorted) == multiset(names)
      && (Utils.NonEmptyUpTo(names, |names|) ==> Utils.SortedUpTo(sorted, |sorted|))
  {
    var sorted := Utils.SortEntries(names, |names|);
    assert sorted[..|names|] == sorted;
    assert names[..|names|] == names;
  }

  /** `ls` never expands variables in its path and passes it without a
      terminating NUL; only the default `.` carries one. */
  lemma LsPathVerbatim(path: seq<byte>, sys: Sys)
    requires SysValid(sys) && Utils.TrimSpaces(path) != []
    ensures Ls(path, sys).0 == Utils.TrimSpaces(path)
  {
  }

  // ---------------------------------------------------------------- dispatch

  /** The effect of one command on the session: the store, and the bytes
      written to the session output. */
  function Run(st: ShellEnvStore.ShellStore, mmapOk: bool, cmd: seq<byte>, sys: Sys)
    : (r: (ShellEnvStore.ShellStore, seq<byte>))
    requires ShellEnvStore.Valid(st) && SysValid(sys)
    ensures ShellEnvStore.Valid(r.0)
    ensures Utils.TrimNewline(cmd) == [] ==> r == (st, [])
    ensures Utils.TrimNewline(cmd) == Executor.ExitWord ==> r == (st, ClosedMsg)
    ensures ShellExecutor.Execute(cmd).External? ==> r == (st, ExternalMsg)
    ensures ShellExecutor.Execute(cmd).Pwd? ==> r == (st, Pwd(sys))
    ensures ShellExecutor.Execute(cmd).Threads? ==> r == (st, Threads(sys))
  {
    match ShellExecutor.Execute(cmd)
    case Ignore => (st, [])
    case Exit => (st, ClosedMsg)
    case Pwd => (st, Pwd(sys))
    case Cd(args) => var c := Cd(st, mmapOk, args, sys); (c.0, c.2)
    case Ls(args) => (st, Ls(args, sys).1)
    case Echo(args) => Echo(st, mmapOk, args)
    case Export(args) => Export(st, mmapOk, args)
    case Env => Export(st, mmapOk, [])
    case Threads => (st, Threads(sys))
    case External(_) => (st, ExternalMsg)
    case _ => assert false; (st, [])
  }

  /** `execute_command_in_session` on a session and the shell store. */
  function Execute(s: Session.Session, st: ShellEnvStore.ShellStore, mmapOk: bool, cmd: seq<byte>, sys: Sys)
    : (r: (Session.Session, ShellEnvStore.ShellStore))
    requires Session.Valid(s) && ShellEnvStore.Valid(st) && SysValid(sys)
    ensures Session.Valid(r.0)
    ensures Session.Pending(r.0) == Session.Pending(s)
      + Trunc(Run(st, mmapOk, cmd, sys).1, Session.MaxOutput - |s.output|)
  {
    var x := Run(st, mmapOk, cmd, sys);
    (Session.WriteOutput(s, x.1), x.0)
  }

  /** Session `echo` and the shell's `echo` differ only by the trimming:
      a leading space is kept by one and dropped by the other. */
  lemma EchoTrims(st: ShellEnvStore.ShellStore, args: seq<byte>)
    requires ShellEnvStore.Valid(st) && st.Allocated?
    ensures Echo(st, false, args).1 == Builtins.Echo(st.inner, Utils.TrimSpaces(args))[0].data + [LF]
  {
  }
}
