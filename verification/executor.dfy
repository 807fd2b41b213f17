/** Command dispatch of `src/executor.rs`: strip the line end, record the
    command in the history, expand one level of alias, and choose a builtin
    by exact program name or hand the program to `fork`/`execve`. The model
    returns the chosen action; running it is the business of `Builtins`. */
module Executor {
  import opened Common
  import Utils
  import History
  import Aliases

  /** What one input line makes the shell do. */
  datatype Action =
    | Ignore
    | Exit
    | Cd(args: seq<byte>)
    | Ls(args: seq<byte>)
    | Pwd
    | Export(args: seq<byte>)
    | Echo(args: seq<byte>)
    | Env
    | HistoryList
    | Alias(args: seq<byte>)
    | Serve(args: seq<byte>)
    | ServePty(args: seq<byte>)
    | Threads
    | External(program: seq<byte>)

  const ExitWord: seq<byte> := Ascii("exit")
  const CdWord: seq<byte> := Ascii("cd")
  const LsWord: seq<byte> := Ascii("ls")
  const PwdWord: seq<byte> := Ascii("pwd")
  const ExportWord: seq<byte> := Ascii("export")
  const EchoWord: seq<byte> := Ascii("echo")
  const EnvWord: seq<byte> := Ascii("env")
  const HistoryWord: seq<byte> := Ascii("history")
  const AliasWord: seq<byte> := Ascii("alias")
  const ServeWord: seq<byte> := Ascii("serve")
  const ServePtyWord: seq<byte> := Ascii("servepty")
  const ThreadsWord: seq<byte> := Ascii("threads")

  /** The program names this executor runs itself. */
  const Names: set<seq<byte>> :=
    {CdWord, LsWord, PwdWord, ExportWord, EchoWord, EnvWord, HistoryWord, AliasWord, ServeWord, ServePtyWord}

  /** The command word that selects a builtin action. */
  function WordOf(a: Action): seq<byte> {
    match a
    case Cd(_) => CdWord
    case Ls(_) => LsWord
    case Pwd => PwdWord
    case Export(_) => ExportWord
    case Echo(_) => EchoWord
    case Env => EnvWord
    case HistoryList => HistoryWord
    case Alias(_) => AliasWord
    case Serve(_) => ServeWord
    case ServePty(_) => ServePtyWord
    case Threads => ThreadsWord
    case External(p) => p
    case Ignore => []
    case Exit => ExitWord
  }

  /** The arguments a builtin action receives (none for `pwd`, `env`,
      `history`). */
  predicate TakesArgs(a: Action) {
    a.Cd? || a.Ls? || a.Export? || a.Echo? || a.Alias? || a.Serve? || a.ServePty?
  }

  function ArgsOf(a: Action): seq<byte>
    requires TakesArgs(a)
  {
    match a
    case Cd(x) => x
    case Ls(x) => x
    case Export(x) => x
    case Echo(x) => x
    case Alias(x) => x
    case Serve(x) => x
    case ServePty(x) => x
  }

  /** The chain of `bytes_equal` tests, first match wins. */
  function Dispatch(program: seq<byte>, args: seq<byte>): (r: Action)
    ensures r.External? <==> program !in Names
    ensures WordOf(r) == program
    ensures TakesArgs(r) ==> ArgsOf(r) == args
    ensures !r.Ignore? && !r.Exit? && !r.Threads?
  {
    if program == CdWord then Cd(args)
    else if program == LsWord then Ls(args)
    else if program == PwdWord then Pwd
    else if program == ExportWord then Export(args)
    else if program == EchoWord then Echo(args)
    else if program == EnvWord then Env
    else if program == HistoryWord then HistoryList
    else if program == AliasWord then Alias(args)
    else if program == ServeWord then Serve(args)
    else if program == ServePtyWord then ServePty(args)
    else External(program)
  }

  const AliasBuf: nat := 128

  /** One level of alias expansion: on a hit the program becomes the first
      word of the alias value, and the alias's own arguments are used only
      when none were typed. */
  function Resolve(t: Aliases.Table, program: seq<byte>, args: seq<byte>): (r: (seq<byte>, seq<byte>))
    requires Aliases.Valid(t) && Aliases.Askable(program)
    ensures Aliases.Find(t.aliases, program) == |t.aliases| ==> r == (program, args)
    ensures var v := Aliases.Get(t, program, AliasBuf);
      v != [] ==> (r.0 == Utils.SplitFirstWord(v).0
        && (args != [] ==> r.1 == args)
        && (args == [] ==> r.1 == Utils.SplitFirstWord(v).1))
  {
    var v := Aliases.Get(t, program, AliasBuf);
    if |v| == 0 then (program, args)
    else
      var w := Utils.SplitFirstWord(v);
      (w.0, if w.1 == [] then args else if args == [] then w.1 else args)
  }

  /** The program word of a line, which `get` is asked about. */
  function ProgramOf(cmd: seq<byte>): seq<byte> {
    Utils.SplitFirstWord(Utils.TrimNewline(cmd)).0
  }

  /** `execute_command`: the history after the line and the chosen action. */
  function Execute(h: History.History, t: Aliases.Table, cmd: seq<byte>): (r: (History.History, Action))
    requires History.Valid(h) && Aliases.Valid(t) && Aliases.Askable(ProgramOf(cmd))
    ensures History.Valid(r.0)
    ensures Utils.TrimNewline(cmd) == [] <==> r.1.Ignore?
    ensures r.1.Ignore? ==> r.0 == h
    ensures !r.1.Ignore? ==> r.0 == History.Add(h, Utils.TrimNewline(cmd))
    ensures r.1.Exit? <==> Utils.TrimNewline(cmd) == ExitWord
  {
    var c := Utils.TrimNewline(cmd);
    if c == [] then (h, Ignore)
    else
      var h' := History.Add(h, c);
      if c == ExitWord then (h', Exit)
      else
        var w := Utils.SplitFirstWord(c);
        var pa := Resolve(t, w.0, w.1);
        (h', Dispatch(pa.0, pa.1))
  }

  // ---------------------------------------------------------------- properties

  /** Every non-empty line, `exit` included, is appended to the history log
      before anything runs (the history keeps lines of 1 to 127 bytes). */
  lemma ExecuteRecords(h: History.History, log: seq<seq<byte>>, t: Aliases.Table, cmd: seq<byte>)
    requires History.Holds(h, log) && Aliases.Valid(t) && Aliases.Askable(ProgramOf(cmd))
    requires History.Accepted(Utils.TrimNewline(cmd))
    ensures History.Holds(Execute(h, t, cmd).0, log + [Utils.TrimNewline(cmd)])
  {
    History.AddHolds(h, log, Utils.TrimNewline(cmd));
  }

  /** Without an alias for the program, the first word selects the builtin
      and the rest of the line is its argument string. */
  lemma UnaliasedDispatch(h: History.History, t: Aliases.Table, program: seq<byte>, args: seq<byte>)
    requires History.Valid(h) && Aliases.Valid(t)
    requires |program| > 0 && SPACE !in program && program != ExitWord
    requires |args| == 0 || !Utils.IsNewline(args[|args| - 1])
    requires Aliases.Askable(program) && Aliases.Find(t.aliases, program) == |t.aliases|
    ensures var cmd := program + [SPACE] + args;
      Aliases.Askable(ProgramOf(cmd)) && Execute(h, t, cmd).1 == Dispatch(program, args)
  {
    var cmd := program + [SPACE] + args;
    FirstWordOf(program, args);
    assert cmd[|program|] == SPACE;
    assert cmd != ExitWord;
    ResolvedLine(h, t, cmd, program, args);
  }

  /** A line that is neither blank nor `exit`, whose first word has no
      alias, runs that word with the rest of the line. */
  lemma ResolvedLine(h: History.History, t: Aliases.Table, cmd: seq<byte>, program: seq<byte>, args: seq<byte>)
    requires History.Valid(h) && Aliases.Valid(t)
    requires Utils.TrimNewline(cmd) == cmd && cmd != [] && cmd != ExitWord
    requires Utils.SplitFirstWord(cmd) == (program, args)
    requires Aliases.Askable(program) && Aliases.Find(t.aliases, program) == |t.aliases|
    ensures Aliases.Askable(ProgramOf(cmd)) && Execute(h, t, cmd).1 == Dispatch(program, args)
  {
    ExecuteResolves(h, t, cmd);
    assert Resolve(t, program, args) == (program, args);
  }

  /** A line that is neither blank nor `exit` runs what its first word
      resolves to. */
  lemma ExecuteResolves(h: History.History, t: Aliases.Table, cmd: seq<byte>)
    requires History.Valid(h) && Aliases.Valid(t) && Aliases.Askable(ProgramOf(cmd))
    requires Utils.TrimNewline(cmd) != [] && Utils.TrimNewline(cmd) != ExitWord
    ensures var w := Utils.SplitFirstWord(Utils.TrimNewline(cmd));
      Execute(h, t, cmd).1 == Dispatch(Resolve(t, w.0, w.1).0, Resolve(t, w.0, w.1).1)
  {
  }

  lemma FirstWordOf(program: seq<byte>, args: seq<byte>)
    requires |program| > 0 && SPACE !in program
    requires |args| == 0 || !Utils.IsNewline(args[|args| - 1])
    ensures Utils.TrimNewline(program + [SPACE] + args) == program + [SPACE] + args
    ensures Utils.SplitFirstWord(program + [SPACE] + args) == (program, args)
  {
    var cmd := program + [SPACE] + args;
    assert cmd[|cmd| - 1] == if |args| == 0 then SPACE else args[|args| - 1];
    SplitAtSpace(program, args);
  }

  /** Splitting at the first space undoes joining a space-free word. */
  lemma SplitAtSpace(word: seq<byte>, rest: seq<byte>)
    requires SPACE !in word
    ensures Utils.SplitFirstWord(word + [SPACE] + rest) == (word, rest)
  {
    var v := word + [SPACE] + rest;
    var k := Utils.IndexOf(v, SPACE);
    assert v[|word|] == SPACE;
    assert forall i :: 0 <= i < |word| ==> v[i] == word[i];
    assert k == |word|;
    assert v[..k] == word && v[k + 1..] == rest;
  }

  /** An alias whose value is `word rest` runs `word` with the typed
      arguments, or with `rest` when nothing was typed. The word is not
      looked up again, even when it is itself an alias. */
  lemma AliasedDispatch(h: History.History, t: Aliases.Table, name: seq<byte>, args: seq<byte>,
                        word: seq<byte>, rest: seq<byte>)
    requires History.Valid(h) && Aliases.Valid(t)
    requires |name| > 0 && SPACE !in name && name != ExitWord && NoNul(name)
    requires |args| == 0 || !Utils.IsNewline(args[|args| - 1])
    requires SPACE !in word
    requires Aliases.Get(t, name, AliasBuf) == word + [SPACE] + rest
    ensures var cmd := name + [SPACE] + args;
      Aliases.Askable(ProgramOf(cmd))
      && Execute(h, t, cmd).1 == Dispatch(word, if args == [] then rest else args)
  {
    var cmd := name + [SPACE] + args;
    FirstWordOf(name, args);
    SplitAtSpace(word, rest);
    assert cmd[|name|] == SPACE;
    assert cmd != ExitWord;
    AliasedLine(h, t, cmd, name, args, word, rest);
  }

  lemma AliasedLine(h: History.History, t: Aliases.Table, cmd: seq<byte>, name: seq<byte>, args: seq<byte>,
                    word: seq<byte>, rest: seq<byte>)
    requires History.Valid(h) && Aliases.Valid(t)
    requires Utils.TrimNewline(cmd) == cmd && cmd != [] && cmd != ExitWord
    requires Utils.SplitFirstWord(cmd) == (name, args) && Aliases.Askable(name)
    requires Aliases.Get(t, name, AliasBuf) == word + [SPACE] + rest
    requires Utils.SplitFirstWord(word + [SPACE] + rest) == (word, rest)
    ensures Aliases.Askable(ProgramOf(cmd))
      && Execute(h, t, cmd).1 == Dispatch(word, if args == [] then rest else args)
  {
    ExecuteResolves(h, t, cmd);
    assert Resolve(t, name, args) == (word, if args == [] then rest else args);
  }
}
