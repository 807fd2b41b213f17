/** Console output, output capture and line editing of `src/io.rs`.
    Standard output is the byte log `stdout`; the capture buffer is a flag
    and its first `len` bytes. The terminal `ioctl` calls and the blocking
    `read` of one key are replaced by a given key sequence, whose end stands
    for end of input. */
module Io {
  import opened Common
  import Decimal

  const CaptureSize: nat := 4096

  datatype Capture = Capture(enabled: bool, buf: seq<byte>)

  datatype Console = Console(stdout: seq<byte>, capture: Capture)

  predicate Valid(c: Console) {
    |c.capture.buf| <= CaptureSize
  }

  /** `enable_output_capture`: start an empty capture. */
  function EnableCapture(c: Console): (r: Console)
    ensures Valid(r) && r.capture == Capture(true, []) && r.stdout == c.stdout
  {
    c.(capture := Capture(true, []))
  }

  /** `disable_output_capture`: stop capturing; what was captured stays. */
  function DisableCapture(c: Console): (r: Console)
    requires Valid(c)
    ensures Valid(r) && !r.capture.enabled && r.capture.buf == c.capture.buf && r.stdout == c.stdout
  {
    c.(capture := c.capture.(enabled := false))
  }

  /** `append_to_capture`: nothing while disabled; otherwise bytes are kept
      until 4096 are held and the rest is dropped. */
  function AppendCapture(k: Capture, s: seq<byte>): (r: Capture)
    requires |k.buf| <= CaptureSize
    ensures |r.buf| <= CaptureSize && r.enabled == k.enabled
    ensures !k.enabled ==> r == k
    ensures k.enabled ==> r.buf == k.buf + Trunc(s, CaptureSize - |k.buf|)
  {
    if !k.enabled then k
    else k.(buf := k.buf + Trunc(s, CaptureSize - |k.buf|))
  }

  /** `get_captured_output` into a buffer of `cap` bytes: the oldest captured
      bytes that fit; the capture is emptied, so the remainder is lost. */
  function GetCaptured(c: Console, cap: nat): (r: (Console, seq<byte>))
    requires Valid(c)
    ensures Valid(r.0) && r.0.capture == c.capture.(buf := []) && r.0.stdout == c.stdout
    ensures r.1 <= c.capture.buf && |r.1| == Min(|c.capture.buf|, cap)
  {
    (c.(capture := c.capture.(buf := [])), Trunc(c.capture.buf, cap))
  }

  /** `print`: write to standard output and to the capture. */
  function Print(c: Console, s: seq<byte>): (r: Console)
    requires Valid(c)
    ensures Valid(r) && r.stdout == c.stdout + s
    ensures r.capture == AppendCapture(c.capture, s)
  {
    Console(c.stdout + s, AppendCapture(c.capture, s))
  }

  /** One output call of a builtin: `write(STDOUT, ..)` goes to standard
      output only, `print(..)` to standard output and the capture. */
  datatype Chunk = Raw(data: seq<byte>) | Printed(data: seq<byte>)

  /** Everything a sequence of chunks puts on standard output. */
  function Text(chunks: seq<Chunk>): seq<byte> {
    if |chunks| == 0 then [] else chunks[0].data + Text(chunks[1..])
  }

  /** Carry out the output calls in order. */
  function Emit(c: Console, chunks: seq<Chunk>): (r: Console)
    requires Valid(c)
    ensures Valid(r)
    ensures r.stdout == c.stdout + Text(chunks)
    decreases |chunks|
  {
    if |chunks| == 0 then c
    else
      var c' := match chunks[0]
        case Raw(d) => c.(stdout := c.stdout + d)
        case Printed(d) => Print(c, d);
      Emit(c', chunks[1..])
  }

  /** Bytes written raw and a printed newline after them: one output line. */
  function Line(d: seq<byte>): (r: seq<Chunk>)
    ensures Text(r) == d + [LF]
  {
    var r := [Raw(d), Printed([LF])];
    assert r[1..][1..] == [];
    assert Text(r[1..]) == [LF] + Text(r[1..][1..]);
    r
  }

  lemma TextAppend(a: seq<Chunk>, b: seq<Chunk>)
    ensures Text(a + b) == Text(a) + Text(b)
  {
    if |a| > 0 {
      assert (a + b)[1..] == a[1..] + b;
      TextAppend(a[1..], b);
    } else {
      assert a + b == b;
    }
  }

  const I64Min: int := -0x8000_0000_0000_0000
  const I64Max: int := 0x7FFF_FFFF_FFFF_FFFF

  /** `print_number` of an `i64`: zero goes through `print`; a positive number
      is written digit by digit straight to standard output, so it is not
      captured; a negative number writes nothing. */
  function PrintNumber(c: Console, n: int): (r: Console)
    requires Valid(c) && I64Min <= n <= I64Max
    ensures Valid(r)
    ensures n == 0 ==> r == Print(c, Ascii("0"))
    ensures n > 0 ==> r.stdout == c.stdout + Decimal.Digits(n) && r.capture == c.capture
    ensures n < 0 ==> r == c
  {
    if n == 0 then Print(c, Ascii("0"))
    else if n < 0 then c
    else c.(stdout := c.stdout + Decimal.Digits(n))
  }

  /** Everything `print_number` writes reads back as the number it was given. */
  lemma PrintNumberReadsBack(c: Console, n: int)
    requires Valid(c) && 0 <= n <= I64Max
    ensures var w := PrintNumber(c, n).stdout[|c.stdout|..];
      Decimal.AllDigits(w) && Decimal.Value(w) == n
  {
    var w := PrintNumber(c, n).stdout[|c.stdout|..];
    assert w == Decimal.Digits(n);
    Decimal.ValueOfDigits(n);
  }

  /** Prints of several pieces, one after another. */
  function PrintAll(c: Console, pieces: seq<seq<byte>>): (r: Console)
    requires Valid(c)
    ensures Valid(r)
    decreases |pieces|
  {
    if |pieces| == 0 then c else PrintAll(Print(c, pieces[0]), pieces[1..])
  }

  lemma TruncAppend(a: seq<byte>, b: seq<byte>, n: nat)
    requires |a| <= n
    ensures a + Trunc(b, n - |a|) == Trunc(a + b, n)
  {
  }

  /** While capture stays enabled, it holds the first 4096 bytes printed
      since it was last enabled, and standard output holds all of them. */
  lemma {:induction false} CaptureIsPrefix(c: Console, pieces: seq<seq<byte>>)
    requires Valid(c) && c.capture.enabled
    ensures PrintAll(c, pieces).stdout == c.stdout + Concat(pieces)
    ensures PrintAll(c, pieces).capture.buf == Trunc(c.capture.buf + Concat(pieces), CaptureSize)
    decreases |pieces|
  {
    if |pieces| > 0 {
      var c' := Print(c, pieces[0]);
      CaptureIsPrefix(c', pieces[1..]);
      TruncAppend(c.capture.buf, pieces[0], CaptureSize);
      var rest := Concat(pieces[1..]);
      assert c.capture.buf + Concat(pieces) == c.capture.buf + pieces[0] + rest;
      if |c.capture.buf + pieces[0]| <= CaptureSize {
        TruncAppend(c.capture.buf + pieces[0], rest, CaptureSize);
      } else {
        assert c'.capture.buf == (c.capture.buf + pieces[0])[..CaptureSize];
        assert (c.capture.buf + pieces[0] + rest)[..CaptureSize] == (c.capture.buf + pieces[0])[..CaptureSize];
      }
    } else {
      assert Concat(pieces) == [];
      assert c.capture.buf + [] == c.capture.buf;
    }
  }

  /** While capture is disabled, printing never touches it. */
  lemma {:induction false} DisabledCaptureUnchanged(c: Console, pieces: seq<seq<byte>>)
    requires Valid(c) && !c.capture.enabled
    ensures PrintAll(c, pieces).capture == c.capture
    decreases |pieces|
  {
    if |pieces| > 0 {
      DisabledCaptureUnchanged(Print(c, pieces[0]), pieces[1..]);
    }
  }

  // ---------------------------------------------------------------- line editing

  const BS: byte := 8
  const DEL: byte := 127
  const ETX: byte := 3
  const BEL: byte := 7

  /** The characters the terminal echoes to erase one character. */
  function Erase(): seq<byte> {
    [BS, SPACE, BS]
  }

  /** The completion `read_line_with_tab` offers for a single typed byte. */
  function Completion(ch: byte): (r: Option<seq<byte>>)
    ensures r.Some? ==> |r.value| > 0 && forall i :: 0 <= i < |r.value| ==> 32 <= r.value[i] < 127
  {
    if ch == 'l' as byte then Some(Ascii("ls "))
    else if ch == 'c' as byte then Some(Ascii("cd "))
    else if ch == 'p' as byte then Some(Ascii("pwd"))
    else if ch == 'e' as byte then Some(Ascii("echo "))
    else if ch == 'a' as byte then Some(Ascii("alias "))
    else if ch == 'h' as byte then Some(Ascii("history"))
    else if ch == 's' as byte then Some(Ascii("serve "))
    else None
  }

  /** What one key does to the line typed so far (`buf[..pos]`): the line
      continues or is finished, and the key's echo. */
  datatype KeyResult = Continue(line: seq<byte>, echo: seq<byte>) | Finish(line: seq<byte>, echo: seq<byte>)

  predicate Printable(ch: byte) {
    32 <= ch < 127
  }

  /** One iteration of the key loop for a buffer of `cap` bytes, in which
      the line leaves room for the final newline. */
  function Key(line: seq<byte>, ch: byte, cap: nat): (r: KeyResult)
    requires 1 <= cap && |line| < cap
    ensures |r.line| < cap || (r.Finish? && |r.line| == cap)
    ensures r.Continue? ==> |r.line| < cap
    ensures (ch == LF || ch == CR) ==> r == Finish(line + [LF], [LF])
    ensures ch == ETX ==> r.Finish? && r.line == []
    ensures r.Finish? <==> ch == LF || ch == CR || ch == ETX
    ensures Printable(ch) ==> r == if |line| < cap - 1 then Continue(line + [ch], [ch]) else Continue(line, [])
    ensures (ch == DEL || ch == BS) && |line| > 0 ==> r == Continue(line[..|line| - 1], Erase())
  {
    if ch == LF || ch == CR then Finish(line + [LF], [LF])
    else if ch == TAB then
      if |line| == 1 && Completion(line[0]).Some? then
        var comp := Completion(line[0]).value;
        Continue(Trunc(comp, cap - 1), Erase() + comp)
      else Continue(line, [BEL])
    else if ch == DEL || ch == BS then
      if |line| > 0 then Continue(line[..|line| - 1], Erase()) else Continue(line, [])
    else if ch == ETX then Finish([], Ascii("^C\n"))
    else if Printable(ch) then
      if |line| < cap - 1 then Continue(line + [ch], [ch]) else Continue(line, [])
    else Continue(line, [])
  }

  /** The whole key loop: keys are read until a line end or Ctrl-C, or until
      they run out (end of input). Returns the stored bytes `buf[..pos]` and
      everything echoed. */
  function ReadLine(line: seq<byte>, keys: seq<byte>, cap: nat): (r: (seq<byte>, seq<byte>))
    requires 1 <= cap && |line| < cap
    ensures |r.0| <= cap
    decreases |keys|
  {
    if |keys| == 0 then (line, [])
    else
      match Key(line, keys[0], cap)
      case Finish(l, e) => (l, e)
      case Continue(l, e) =>
        var rest := ReadLine(l, keys[1..], cap);
        (rest.0, e + rest.1)
  }

  predicate AllPrintable(s: seq<byte>) {
    forall i :: 0 <= i < |s| ==> Printable(s[i])
  }

  /** Plain typing followed by Enter stores the typed bytes that fit in the
      buffer, leaving one byte for the newline, and echoes exactly what it
      stores. */
  lemma {:induction false} TypedLine(line: seq<byte>, typed: seq<byte>, cap: nat)
    requires 1 <= cap && |line| < cap && AllPrintable(typed)
    ensures ReadLine(line, typed + [LF], cap).0 == Trunc(line + typed, cap - 1) + [LF]
    ensures line + ReadLine(line, typed + [LF], cap).1 == Trunc(line + typed, cap - 1) + [LF]
    decreases |typed|
  {
    var keys := typed + [LF];
    if |typed| == 0 {
      assert keys == [LF];
      assert Trunc(line, cap - 1) == line;
    } else {
      var ch := typed[0];
      assert keys[0] == ch && keys[1..] == typed[1..] + [LF];
      if |line| < cap - 1 {
        TypedLine(line + [ch], typed[1..], cap);
        assert line + typed == line + [ch] + typed[1..];
      } else {
        TypedLine(line, typed[1..], cap);
        assert Trunc(line + typed, cap - 1) == line by {
          assert (line + typed)[..cap - 1] == line;
        }
        assert Trunc(line + typed[1..], cap - 1) == line by {
          assert (line + typed[1..])[..cap - 1] == line;
        }
      }
    }
  }

  /** Typing a printable byte and erasing it leaves the line as it was. */
  lemma TypeThenErase(line: seq<byte>, ch: byte, rest: seq<byte>, cap: nat)
    requires 1 <= cap && |line| < cap - 1 && Printable(ch)
    ensures ReadLine(line, [ch, DEL] + rest, cap).0 == ReadLine(line, rest, cap).0
  {
    var keys := [ch, DEL] + rest;
    assert keys[0] == ch && keys[1..] == [DEL] + rest;
    assert keys[1..][0] == DEL && keys[1..][1..] == rest;
    assert (line + [ch])[..|line|] == line;
  }

  /** `read_line_with_tab`. When `TCGETS` fails, standard input is not a
      terminal and a single raw `read` fills the buffer: no echo, no
      editing, no line-end rewriting. `raw` is what that `read` returns
      (nothing when it fails). Otherwise the key loop runs on an empty line
      over the bytes `keys` read one at a time. */
  function ReadLineWithTab(isTerminal: bool, raw: seq<byte>, keys: seq<byte>, cap: nat): (r: (seq<byte>, seq<byte>))
    requires isTerminal ==> 1 <= cap
    ensures |r.0| <= cap
    ensures isTerminal ==> r == ReadLine([], keys, cap)
    ensures !isTerminal ==> r.1 == [] && r.0 <= raw
    ensures !isTerminal && |raw| <= cap ==> r.0 == raw
  {
    if isTerminal then ReadLine([], keys, cap) else (Trunc(raw, cap), [])
  }

  /** Without a terminal nothing is edited: a Ctrl-C byte that the key loop
      would answer by discarding the line arrives in the line unchanged. */
  lemma PipedInputNotEdited(typed: seq<byte>, cap: nat)
    requires |typed| < cap && AllPrintable(typed)
    ensures ReadLineWithTab(false, typed + [ETX], [], cap).0 == typed + [ETX]
    ensures ReadLineWithTab(true, [], typed + [ETX], cap).0 == []
  {
    InterruptDiscards([], typed, [], cap);
    assert typed + [ETX] + [] == typed + [ETX];
  }

  /** Ctrl-C discards the line whatever was typed before it. */
  lemma {:induction false} InterruptDiscards(line: seq<byte>, typed: seq<byte>, rest: seq<byte>, cap: nat)
    requires 1 <= cap && |line| < cap && AllPrintable(typed)
    ensures ReadLine(line, typed + [ETX] + rest, cap).0 == []
    decreases |typed|
  {
    var keys := typed + [ETX] + rest;
    if |typed| == 0 {
      assert keys[0] == ETX;
    } else {
      assert keys[0] == typed[0] && keys[1..] == typed[1..] + [ETX] + rest;
      var l := Key(line, typed[0], cap).line;
      InterruptDiscards(l, typed[1..], rest, cap);
    }
  }

  /** Tab after exactly one letter with a completion replaces the line by the
      completion; a Tab anywhere else changes nothing but rings the bell. */
  lemma TabCompletes(ch: byte, cap: nat)
    requires cap >= 8 && Completion(ch).Some?
    ensures Key([ch], TAB, cap) == Continue(Completion(ch).value, Erase() + Completion(ch).value)
  {
  }

  lemma TabElsewhereRings(line: seq<byte>, cap: nat)
    requires 1 <= cap && |line| < cap && (|line| != 1 || Completion(line[0]).None?)
    ensures Key(line, TAB, cap) == Continue(line, [BEL])
  {
  }
}
