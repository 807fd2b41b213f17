/** Command dispatch of `src/shell/executor.rs`: the same line handling as
    `src/executor.rs` but with no history, no aliases, a smaller builtin set
    that includes `threads`, and `exit` running the shutdown sequence. */
module ShellExecutor {
  import opened Common
  import Utils
  import Executor

  /** The program names this executor runs itself. */
  const Names: set<seq<byte>> :=
    {Executor.CdWord, Executor.LsWord, Executor.PwdWord, Executor.ExportWord,
     Executor.EchoWord, Executor.EnvWord, Executor.ThreadsWord}

  function Dispatch(program: seq<byte>, args: seq<byte>): (r: Executor.Action)
    ensures r.External? <==> program !in Names
    ensures Executor.WordOf(r) == program
    ensures Executor.TakesArgs(r) ==> Executor.ArgsOf(r) == args
    ensures !r.Ignore? && !r.Exit? && !r.HistoryList? && !r.Alias? && !r.Serve? && !r.ServePty?
  {
    if program == Executor.CdWord then Executor.Cd(args)
    else if program == Executor.LsWord then Executor.Ls(args)
    else if program == Executor.PwdWord then Executor.Pwd
    else if program == Executor.ExportWord then Executor.Export(args)
    else if program == Executor.EchoWord then Executor.Echo(args)
    else if program == Executor.EnvWord then Executor.Env
    else if program == Executor.ThreadsWord then Executor.Threads
    else Executor.External(program)
  }

  /** `execute_command`: `Exit` stands for `cleanup_and_exit(0)`. */
  function Execute(cmd: seq<byte>): (r: Executor.Action)
    ensures Utils.TrimNewline(cmd) == [] <==> r.Ignore?
    ensures r.Exit? <==> Utils.TrimNewline(cmd) == Executor.ExitWord
    ensures !r.Ignore? && !r.Exit? ==>
      r == Dispatch(Utils.SplitFirstWord(Utils.TrimNewline(cmd)).0, Utils.SplitFirstWord(Utils.TrimNewline(cmd)).1)
  {
    var c := Utils.TrimNewline(cmd);
    if c == [] then Executor.Ignore
    else if c == Executor.ExitWord then Executor.Exit
    else
      var (program, args) := Utils.SplitFirstWord(c);
      Dispatch(program, args)
  }

  /** The two executors agree on the builtins they share; `history`, `alias`
      and `serve` are external programs here, `threads` is external there. */
  lemma SharedBuiltinsAgree(program: seq<byte>, args: seq<byte>)
    ensures program in Names * Executor.Names ==> Dispatch(program, args) == Executor.Dispatch(program, args)
    ensures program in Executor.Names - Names ==> Dispatch(program, args).External?
    ensures program in Names - Executor.Names ==> Executor.Dispatch(program, args).External?
  {
    assert Executor.ThreadsWord[0] != Executor.HistoryWord[0];
    assert Executor.ThreadsWord !in Executor.Names;
  }

  /** A line ending in any run of CR and LF runs the same as without it. */
  lemma LineEndIgnored(cmd: seq<byte>, ends: seq<byte>)
    requires forall i :: 0 <= i < |ends| ==> Utils.IsNewline(ends[i])
    ensures Execute(cmd + ends) == Execute(cmd)
    decreases |ends|
  {
    if |ends| > 0 {
      var e := ends[..|ends| - 1];
      assert (cmd + ends)[..|cmd + ends| - 1] == cmd + e;
      LineEndIgnored(cmd, e);
    } else {
      assert cmd + ends == cmd;
    }
  }
}
