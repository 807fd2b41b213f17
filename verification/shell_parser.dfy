/** The parser copies under `src/shell/parser/`: `$NAME` expansion against
    the lazily mapped shell store, a `getdents64` walker that first checks
    that a whole record header remains, and the same command-path builder.
    Each is related to its counterpart in `Parser`. */
module ShellParser {
  import opened Common
  import EnvStore
  import ShellEnvStore
  import Parser

  // ---------------------------------------------------------------- expansion

  /** The entries a shell store shows: none while unallocated. */
  function View(st: ShellEnvStore.ShellStore): EnvStore.Store {
    match st
    case Unallocated => EnvStore.Empty
    case Allocated(inner) => inner
  }

  /** `expand_env_vars` of `env_expansion.rs`, threading the shell store
      through each lookup (a lookup may map the table). Its output is what
      `Parser` writes for the entries the initialised store shows, and the
      store ends either unchanged or initialised. */
  function ExpandFrom(input: seq<byte>, st: ShellEnvStore.ShellStore, mmapOk: bool, cap: nat, i: nat, out: seq<byte>)
    : (r: (seq<byte>, ShellEnvStore.ShellStore))
    requires i <= |input| && |out| <= cap && ShellEnvStore.Valid(st)
    ensures r.0 == Parser.ExpandFrom(input, View(ShellEnvStore.EnsureInit(st, mmapOk)), cap, i, out)
    ensures r.1 == st || r.1 == ShellEnvStore.EnsureInit(st, mmapOk)
    decreases |input| - i
  {
    if i == |input| || input[i] == NUL then (out, st)
    else if input[i] == DOLLAR && i + 1 < |input| then
      var e := Parser.NameEnd(input, i + 1);
      if e > i + 1 then
        var g := ShellEnvStore.Get(st, mmapOk, input[i + 1..e], cap - |out|);
        assert ShellEnvStore.EnsureInit(g.0, mmapOk) == g.0;
        ExpandFrom(input, g.0, mmapOk, cap, e, out + g.1)
      else
        ExpandFrom(input, st, mmapOk, cap, e, out)
    else if |out| >= cap then (out, st)
    else ExpandFrom(input, st, mmapOk, cap, i + 1, out + [input[i]])
  }

  /** Once the shell store is mapped, expansion agrees with `src/parser.rs`
      for the same entries; before that, every variable is undefined. */
  function Expand(input: seq<byte>, st: ShellEnvStore.ShellStore, mmapOk: bool, cap: nat)
    : (r: (seq<byte>, ShellEnvStore.ShellStore))
    requires ShellEnvStore.Valid(st)
    ensures st.Allocated? ==> r == (Parser.Expand(input, st.inner, cap), st)
    ensures r.0 == Parser.Expand(input, View(ShellEnvStore.EnsureInit(st, mmapOk)), cap)
    ensures |r.0| <= cap
  {
    ExpandFrom(input, st, mmapOk, cap, 0, [])
  }

  // ---------------------------------------------------------------- directory entries

  /** `size_of::<LinuxDirent64>()`: u64, i64, u16, u8 and a zero-length
      name array, aligned to 8. */
  const HeaderSize: nat := 24

  /** The name scan of the shell copy, bounded by `maxEnd <= |buf|`. */
  function NameScan(buf: seq<byte>, k: nat, maxEnd: nat): (e: nat)
    requires k <= |buf| && maxEnd <= |buf|
    ensures e == Parser.NameScan(buf, k, maxEnd)
    decreases |buf| - k
  {
    if k < maxEnd && buf[k] != NUL then NameScan(buf, k + 1, maxEnd) else k
  }

  /** `DirentParser::next` of `dirent_parser.rs`. It never reads past the
      buffer and never recurses; whenever a whole header remains it does
      what the `src/parser.rs` copy does. */
  function Next(buf: seq<byte>, pos: nat): (r: Parser.Step)
    ensures r.Done? || r.Entry?
    ensures r.Entry? ==> pos + HeaderSize <= |buf| && pos <= r.next <= |buf|
    ensures pos + HeaderSize <= |buf| ==> r == Parser.Next(buf, pos)
  {
    if pos >= |buf| then Parser.Done
    else if |buf| - pos < HeaderSize then Parser.Done
    else
      var reclen := Parser.U16Le(buf[pos + Parser.ReclenOffset], buf[pos + Parser.ReclenOffset + 1]);
      if pos + reclen > |buf| then Parser.Done
      else
        var nameStart := pos + Parser.NameOffset;
        var e := NameScan(buf, nameStart, Min(pos + reclen, |buf|));
        Parser.Entry(buf[nameStart..e], pos + reclen)
  }

  function Walk(buf: seq<byte>, pos: nat): Option<seq<seq<byte>>>
    decreases |buf| - pos
  {
    match Next(buf, pos)
    case Entry(name, next) =>
      if next == pos then None else Parser.Cons(name, Walk(buf, next))
    case _ => Some([])
  }

  /** A tail shorter than a header ends the walk where `src/parser.rs`
      would read past the buffer. */
  lemma ShortTailEnds(buf: seq<byte>, pos: nat)
    requires pos < |buf| < pos + Parser.ReclenOffset + 2
    ensures Next(buf, pos) == Parser.Done
    ensures Parser.Next(buf, pos) == Parser.Overread
  {
  }

  /** The shell walker reads back exactly the names a listing encodes. */
  lemma {:induction false} WalkEncode(pre: seq<byte>, names: seq<seq<byte>>)
    requires Parser.GoodNames(names)
    ensures Walk(pre + Parser.Encode(names), |pre|) == Some(names)
    decreases |names|
  {
    if |names| == 0 {
      assert pre + Parser.Encode(names) == pre;
    } else {
      var pre' := pre + Parser.Record(names[0]);
      WalkStep(pre, names);
      WalkEncode(pre', names[1..]);
      assert names == [names[0]] + names[1..];
    }
  }

  lemma WalkStep(pre: seq<byte>, names: seq<seq<byte>>)
    requires Parser.GoodNames(names) && |names| > 0
    ensures Parser.GoodNames(names[1..])
    ensures var pre' := pre + Parser.Record(names[0]);
      Walk(pre + Parser.Encode(names), |pre|) == Parser.Cons(names[0], Walk(pre' + Parser.Encode(names[1..]), |pre'|))
  {
    var post := Parser.Encode(names[1..]);
    var pre' := pre + Parser.Record(names[0]);
    var buf := pre + Parser.Encode(names);
    assert buf == pre + Parser.Record(names[0]) + post == pre' + post;
    Parser.NextRecord(pre, names[0], post);
    assert Next(buf, |pre|) == Parser.Entry(names[0], |pre'|);
  }

  // ---------------------------------------------------------------- command path

  /** `find_in_path` of `path_finder.rs`: the same loops as `src/parser.rs`,
      so the same buffer contents. */
  method FindInPath(cmd: seq<byte>, cap: nat) returns (out: seq<byte>, found: bool)
    requires cap >= 1
    requires Parser.IsAbsolute(cmd) || |cmd| + 1 <= cap
    ensures found
    ensures out == Parser.CommandPath(cmd, cap)
  {
    out := [];
    if Parser.IsAbsolute(cmd) {
      var k := 0;
      while k < |cmd|
        invariant k <= |cmd| && out == cmd[..k] && |out| <= cap - 1
      {
        if |out| >= cap - 1 {
          break;
        }
        out := out + [cmd[k]];
        k := k + 1;
      }
      out := out + [NUL];
      return out, true;
    }
    var k := 0;
    while k < |Parser.BinDir|
      invariant k <= |Parser.BinDir| && out == Parser.BinDir[..k] && |out| <= cap - |cmd| - 1
    {
      if |out| >= cap - |cmd| - 1 {
        break;
      }
      out := out + [Parser.BinDir[k]];
      k := k + 1;
    }
    var prefix := out;
    k := 0;
    while k < |cmd|
      invariant k <= |cmd| && out == prefix + cmd[..k]
    {
      if |out| >= cap - 1 {
        break;
      }
      out := out + [cmd[k]];
      k := k + 1;
    }
    assert out == prefix + cmd;
    out := out + [NUL];
    return out, true;
  }
}
