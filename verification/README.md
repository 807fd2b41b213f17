# reshell, modelled in Dafny

reshell is a `no_std` Rust shell for Linux. It has builtins, an
environment store, a command history and aliases, a per-connection
session mode, and a small HTTP and WebSocket server through which a
browser terminal (`html/terminal.js`) drives shell sessions. This project
models the sequential logic of that shell as pure Dafny functions and
proves what the code promises about it. That logic is the byte-string
work over fixed-size buffers: trimming, splitting, `$NAME` expansion, the
`getdents64` walker, the bounded stores and rings, the HTTP and WebSocket
codecs, SHA-1 and base64, and the browser client's reconnect counter and
key mapping.

Every module follows one source file, and a second copy of a file gets a
module of its own:

- `Utils` models `src/utils.rs`.
- `Decimal` models the digit loops of `src/io.rs`, `src/server.rs`, `src/network/http_handler.rs` and `src/shell/session_executor.rs`.
- `EnvStore`, `History` and `Aliases` model `src/storage.rs`; `ShellEnvStore` models `src/shell/storage/env_storage.rs`.
- `Parser` models `src/parser.rs`; `ShellParser` models `src/shell/parser/*`.
- `Session` models `src/shell/session.rs`; `Io` models `src/io.rs`.
- `Builtins` models `src/builtins.rs`; `ShellBuiltins` models `src/shell/builtins/env.rs` and `builtins_fs.rs`.
- `Executor`, `ShellExecutor` and `SessionExecutor` model the three command runners.
- `Http` models the helpers of `src/server.rs`; `HttpHandler` models `src/network/http_handler.rs`.
- `Sha1` and `Base64` model `src/crypto.rs`.
- `WsFrame`, `WsHandshake`, `WsHub` and `WsEcho` model `src/network/websocket.rs` and `src/websocket.rs`.
- `Terminal` models `html/terminal.js`.

Where the source has two copies of the same logic, a lemma relates them:

- the two expanders, walkers and path builders;
- the two environment stores, once the lazily mapped one is allocated;
- the two `cd` and `ls` builtins;
- the builtins the two executors share.

The shell's `pwd` in `src/shell/builtins/builtins_fs.rs:6-18` is the same
code as `builtin_pwd` and is modelled once, by `Builtins.Pwd`.

Conventions:

- A byte is an `int` in 0..255. Bit operations convert locally to
  bit-vectors.
- Every fixed buffer is a sequence cut at its capacity.
- Every system call result is a parameter: `getcwd`, `chdir`, `open`, the
  `getdents64` buffers, `mmap` success, thread statistics, whether the
  `TCGETS` `ioctl` succeeds, `poll` and `read` outcomes.
- An operation returns the new state and the bytes or output calls it
  produces.

Behaviour of the code that a reader might not expect, modelled as
written:

- The browser client reconnects after a fixed 2000 ms with no backoff.
- The browser client has no separate user-initiated close.
- When the socket constructor throws, the client reports the failure and
  schedules no retry.
- The client sends each key as it is typed and keeps no line buffer.
- `cd` and `ls` reject an expanded path of 256 bytes or more. The copy
  loop fails only when its index reaches 255 with bytes left, so a path
  of 255 bytes is still accepted.

## Model

| member | source | states |
|---|---|---|
| Decimal.WriteDigits | src/io.rs:54-72 | the digit loop (remainders by ten collected least significant first, then written in reverse, `0` alone for zero) produces exactly the reference decimal text `Digits(n)` |
| Decimal.ValueOfDigits | src/io.rs:54-72 | the decimal text of `n` reads back as `n` |
| Decimal.DigitsInjective | src/io.rs:54-72 | two numbers with the same decimal text are equal |
| Utils.BytesEqual | src/utils.rs:1-11 | the length check and the early-exit loop answer true exactly when the two byte strings are equal |
| Utils.TrimNewline | src/utils.rs:13-19 | the result is a prefix of the input, does not end in CR or LF, and every byte removed is a CR or LF |
| Utils.TrimNewlineIdempotent | src/utils.rs:13-19 | trimming an already trimmed line changes nothing |
| Utils.TrimBounds | src/utils.rs:21-31 | `start` passes exactly the leading spaces; `end` stops at the last byte that is neither space nor NUL, never below `start` |
| Utils.LeadingSpaces | src/utils.rs:25-27 | the first loop stops at the first byte that is not a space, or at the end |
| Utils.TrailingEnd | src/utils.rs:29-31 | the second loop removes exactly the trailing spaces and NULs down to `start` |
| Utils.TrimSpaces | src/utils.rs:21-34 | the result is the middle slice between those bounds, and it neither starts with a space nor ends with a space or NUL |
| Utils.TrimSpacesIdempotent | src/utils.rs:21-34 | trimming a trimmed slice changes nothing |
| Utils.TrimSpacesFixed | src/utils.rs:21-34 | a slice that does not start with a space and does not end with a space or NUL comes back unchanged |
| Utils.IndexOf | src/utils.rs:37-41 | the search for the first space: no earlier byte matches, and the byte at the returned index does unless it is the length |
| Utils.SplitFirstWord | src/utils.rs:36-43 | the word holds no space; when the input has a space, word, space and rest rebuild the input; without one, the word is the whole input and the rest is empty |
| Utils.BytesLessThan | src/utils.rs:45-57 | the scan over the common length answers exactly the lexicographic order: the first differing byte decides, and otherwise the shorter string is smaller |
| Utils.LexLessIrreflexive | src/utils.rs:45-57 | no byte string is below itself |
| Utils.LexLessAsymmetric | src/utils.rs:45-57 | two byte strings are never below each other |
| Utils.LexLessTransitive | src/utils.rs:45-57 | the order is transitive |
| Utils.LexLessTotal | src/utils.rs:45-57 | any two different byte strings are ordered one way or the other |
| Utils.ProperPrefixIsLess | src/utils.rs:56 | a proper prefix sorts before the longer string |
| Utils.CompareSwapFacts | src/utils.rs:66-85 | one inner step changes at most positions `j` and `j+1`, permutes the entries, and, when both names are non-empty, leaves them in order |
| Utils.PassShape | src/utils.rs:65-86 | an inner pass over `lo..m` touches only those positions and permutes the entries |
| Utils.PassMax | src/utils.rs:65-86 | after an inner pass over non-empty names the largest of the first `m+1` sits at position `m` |
| Utils.PassStep | src/utils.rs:64-86 | one outer iteration keeps the first `count` names non-empty and extends the sorted tail by one position |
| Utils.PassesShape | src/utils.rs:64-87 | the outer loop leaves every entry from `count` on in place and permutes the entries |
| Utils.PassesSorted | src/utils.rs:64-87 | after the outer loop the first `count` non-empty names are in ascending order |
| Utils.SortEntries | src/utils.rs:59-88 | `sort_entries` keeps the length, does not touch entries from `count` on, permutes the first `count`, and sorts them when they are all non-empty |
| EnvStore.Set | src/storage.rs:28-57 | `set` succeeds exactly when a slot is free, the name has at most 128 bytes and name, `=` and value fit in 255 bytes; on success the entry `name=value` is appended after the old slots, which stay as they were; on failure nothing changes; the capacity invariant is kept |
| EnvStore.LookupFirstMatch | src/storage.rs:64-88 | the lookup fails exactly when no slot matches, and otherwise returns the value of the first matching slot |
| EnvStore.Get | src/storage.rs:59-90 | `get` returns nothing when no slot matches and otherwise the first match's value cut to the buffer |
| EnvStore.Iter | src/storage.rs:92-108 | `iter` visits at most one non-empty, NUL-free string per slot, and exactly one per slot when no slot is empty |
| EnvStore.LookupStable | src/storage.rs:28-90 | appending an entry never changes a lookup that already succeeds: an earlier definition shadows a later one |
| EnvStore.LookupAppendMiss | src/storage.rs:28-90 | a name that was absent is found only in the appended entry |
| EnvStore.MatchesExactly | src/storage.rs:69-77 | for names without `=` or NUL, the comparison loop followed by the `=` check matches an entry `n=v` exactly when the name is `n`, and then the value copied out is `v` |
| EnvStore.SetThenGet | src/storage.rs:28-90 | after a successful `set` of a fresh name, `get` returns the value given (cut to the buffer); for a name already set, `get` keeps returning the older value |
| EnvStore.IterAfterSet | src/storage.rs:28-108 | a successful `set` adds its entry at the end of what `iter` visits |
| History.Add | src/storage.rs:132-153 | empty commands and commands over 127 bytes change nothing; an accepted command moves the write index on by one modulo 10 and raises the count up to 10, keeping the ring's invariant |
| History.Slot | src/storage.rs:166-171 | the slot read for line `i` is one of the ten slots |
| History.Shown | src/storage.rs:166-186 | `list` considers exactly `count` slots |
| History.EmptyHoldsNothing | src/storage.rs:120-126 | the new, zeroed history holds no commands |
| History.AddHolds | src/storage.rs:132-153 | `add` appends an accepted command to the log of commands the ring holds and ignores any other |
| History.ModDistinct | src/storage.rs:148 | two write positions less than ten apart use different slots, so the last ten commands are all still there |
| History.ShownIsLastTen | src/storage.rs:155-188 | `list` shows the last `min(n, 10)` accepted commands, oldest first, each cut at its first NUL |
| History.List | src/storage.rs:155-188 | an empty history prints `No history`; otherwise each shown command is printed as two spaces, its position counted from 1, `: `, the command and a newline |
| History.LinesAreNumbered | src/storage.rs:166-185 | the printing loop from line `i` on writes exactly the numbered lines from `i` on |
| History.ListOfLog | src/storage.rs:132-188 | for a history holding a log of accepted commands, `list` prints `No history` for an empty log and otherwise the last `min(n, 10)` commands numbered from 1, oldest first |
| Aliases.Find | src/storage.rs:219-233 | the index of the first pair whose name matches, or the count when none does |
| Aliases.Set | src/storage.rs:210-247 | `set` fails on an empty name, a name over 31 bytes or a value over 127 bytes, and on a full table when the name is new; on a matching name it overwrites that pair's value, and otherwise appends a new pair; a failed call changes nothing; the table invariant is kept |
| Aliases.Get | src/storage.rs:249-275 | `get` returns nothing when no pair matches and otherwise the stored value up to its NUL, cut to the output buffer |
| Aliases.CStrPad | src/storage.rs:241-243 | a value copied into the zeroed 128-byte slot reads back as itself up to its first NUL |
| Aliases.MatchesExactly | src/storage.rs:222-228 | for NUL-free names, the prefix comparison plus the NUL (or full-length) check is plain equality |
| Aliases.SetThenGet | src/storage.rs:210-275 | after a successful `set`, `get` of the same NUL-free name returns the value given, cut to the output buffer |
| Aliases.RedefineKeepsCount | src/storage.rs:228-232 | redefining a name succeeds and keeps the number of pairs |
| Aliases.FullRefusesNew | src/storage.rs:235-237 | a table of 16 pairs refuses a new name and stays unchanged |
| Aliases.FindSameNames | src/storage.rs:229-231 | overwriting a value does not change which pair a name finds |
| Aliases.FindAppend | src/storage.rs:239-244 | after a new pair is appended, a name that was absent finds the new pair exactly when it matches it |
| Aliases.List | src/storage.rs:277-308 | an empty table prints `No aliases defined`; otherwise every pair is printed in table order as `alias NAME='VALUE'` and a newline |
| Aliases.ListFromLines | src/storage.rs:287-306 | the printing loop from pair `i` on writes exactly the lines of the pairs from `i` on |
| Aliases.NewAliasListedLast | src/storage.rs:210-308 | after a new alias is defined the listing is the old listing followed by `alias NAME='VALUE'` and a newline |
| Parser.NameEnd | src/parser.rs:13-16 | the name scan stops at the first byte that is not alphanumeric or `_`, or at the end |
| Parser.ExpandFrom | src/parser.rs:10-30 | the loop only appends to what it has written and never writes more than the buffer holds |
| Parser.Expand | src/parser.rs:6-33 | `expand_env_vars` writes exactly the reference expansion (literal bytes kept, `$NAME` replaced by its stored value, stopping at the first NUL) cut to the output buffer |
| Parser.ExpandFromIdeal | src/parser.rs:10-30 | from any input index and any output written so far, the bounded loop produces the written output followed by the reference expansion of the rest, cut to the buffer |
| Parser.StopStep | src/parser.rs:10 | the loop ends at the end of the input or at a NUL, where the reference expansion is empty |
| Parser.DroppedStep | src/parser.rs:11-23 | a `$` followed by no name byte is skipped and writes nothing |
| Parser.ReferenceStep | src/parser.rs:11-23 | a `$NAME` writes the variable's value cut to the room left, then the loop goes on after the name |
| Parser.FullStep | src/parser.rs:25 | with the buffer full, a literal byte ends the expansion |
| Parser.LiteralStep | src/parser.rs:24-29 | a literal byte is copied when there is room |
| Parser.TruncSplice | src/parser.rs:20-22 | writing a value cut to the room left and continuing is the same as cutting the whole output once |
| Parser.IdealShift | src/parser.rs:10-30 | expansion from an index depends only on the bytes from there on |
| Parser.IdealShiftAt | src/parser.rs:10-30 | expansion of a suffix placed at an offset equals expansion of the suffix alone |
| Parser.IdealLiteral | src/parser.rs:24-29 | input with no `$` and no NUL is copied verbatim and in order |
| Parser.IdealAgree | src/parser.rs:10 | two inputs that agree up to and including a NUL expand alike: bytes after the NUL are never read |
| Parser.IdealStopsAtNul | src/parser.rs:10 | nothing after the first NUL contributes to the expansion |
| Parser.Reference | src/parser.rs:11-23 | `$NAME` with a maximal name becomes the stored value, or nothing when the variable is undefined |
| Parser.DollarDropped | src/parser.rs:11-18 | a `$` followed by a byte that cannot start a name is dropped and that byte is kept |
| Parser.TrailingDollar | src/parser.rs:11 | a `$` that is the last byte is copied as it is |
| Parser.NameScan | src/parser.rs:66-70 | the scan stops inside the buffer and the record, at the first NUL, and every byte it passes is non-NUL |
| Parser.Next | src/parser.rs:45-79 | an entry's name holds no NUL and the position moves forward within the buffer; a position that does not move yields an empty name |
| Parser.Record | src/parser.rs:51-59 | a record as the kernel lays it out is at least 24 bytes long, the size of the record header |
| Parser.NextRecord | src/parser.rs:45-79 | at a well-formed record, `next` returns exactly its name and moves past the record by `d_reclen` |
| Parser.WalkStep | src/parser.rs:45-79 | an entry that moves forward is followed by the rest of the walk |
| Parser.WalkEncode | src/parser.rs:45-79 | iterating `next` over a buffer of well-formed records reads back exactly the names, in order |
| Parser.ZeroReclenRepeats | src/parser.rs:53-77 | a record whose `d_reclen` is 0 and that holds a name yields an empty name without moving, so a caller's loop never ends |
| Parser.FindInPath | src/parser.rs:86-128 | the answer is always true; an absolute command is copied, cut to leave room, then NUL-terminated; a relative one gets the prefix `/bin/` (cut to the room left) and a NUL, and when it fits the buffer holds exactly `/bin/` + command + NUL |
| ShellParser.ExpandFrom | src/shell/parser/env_expansion.rs:7-27 | the shell copy's loop writes what the `src/parser.rs` loop writes over the shell store's entries, and the only state change is the store's first-use mapping |
| ShellParser.Expand | src/shell/parser/env_expansion.rs:3-30 | the shell copy agrees with `src/parser.rs` expansion over the store's entries (an unmapped store expands every variable to nothing), never writes past the buffer, and leaves a mapped store as it was |
| ShellParser.NameScan | src/shell/parser/dirent_parser.rs:38-44 | the name scan bounded by `min(pos + reclen, len)` stops where the `src/parser.rs` scan stops |
| ShellParser.Next | src/shell/parser/dirent_parser.rs:13-52 | the shell copy only ever ends or yields an entry; an entry needs a whole 24-byte header and moves forward within the buffer; with a whole header it agrees with `src/parser.rs` |
| ShellParser.ShortTailEnds | src/shell/parser/dirent_parser.rs:18-21 | a tail shorter than a header ends the walk here, where `src/parser.rs` reads the header past the buffer |
| ShellParser.WalkStep | src/shell/parser/dirent_parser.rs:13-52 | a well-formed first record yields its name and the walk continues at the next record |
| ShellParser.WalkEncode | src/shell/parser/dirent_parser.rs:13-52 | the shell walker reads back exactly the names a buffer of well-formed records encodes |
| ShellParser.FindInPath | src/shell/parser/path_finder.rs:1-43 | the shell copy computes the same path as `src/parser.rs`: always true, the command's path NUL-terminated in the buffer, and exactly `/bin/` + command + NUL when it fits |
| ShellEnvStore.EnsureInit | src/shell/storage/env_storage.rs:20-54 | a mapped table is left alone; otherwise the table becomes mapped (and empty) exactly when the mapping succeeds |
| ShellEnvStore.Set | src/shell/storage/env_storage.rs:56-95 | after initialisation an unmapped table refuses; a mapped one behaves exactly like `set` of `src/storage.rs`, so count grows by one only when the whole entry fits |
| ShellEnvStore.Compare | src/shell/storage/env_storage.rs:115-121 | the comparison loop stops inside the slot and never past the name's length |
| ShellEnvStore.Get | src/shell/storage/env_storage.rs:97-136 | an unmapped table yields nothing; a mapped one returns what `get` of `src/storage.rs` returns: the first exact match cut to the buffer |
| ShellEnvStore.SlotLen | src/shell/storage/env_storage.rs:153-156 | the length loop stays within the slot |
| ShellEnvStore.Iter | src/shell/storage/env_storage.rs:138-162 | an unmapped table visits nothing; a mapped one visits what `iter` of `src/storage.rs` visits, in insertion order |
| ShellEnvStore.PadCStr | src/shell/storage/env_storage.rs:73-90 | an entry written into a zeroed 256-byte slot reads back as itself, and the slot's last byte stays NUL |
| ShellEnvStore.CompareFacts | src/shell/storage/env_storage.rs:115-123 | the comparison loop with the `=` check succeeds exactly when the slot's C string continues the name with `=`, and then it stops at the name's length |
| ShellEnvStore.CopyOutIsTrunc | src/shell/storage/env_storage.rs:124-131 | the copy loop returns the slot's text after the `=` up to its NUL, cut to the buffer |
| ShellEnvStore.ScanIsLookup | src/shell/storage/env_storage.rs:110-135 | the shell's slot scan computes the reference first-match lookup of `src/storage.rs` |
| ShellEnvStore.SlotLenIsCLen | src/shell/storage/env_storage.rs:153-156 | the length loop finds the slot's first NUL |
| ShellEnvStore.IterFromStep | src/shell/storage/env_storage.rs:151-160 | one slot of the walk contributes its C string when it is non-empty |
| ShellEnvStore.IterFromIsIter | src/shell/storage/env_storage.rs:151-160 | the shell's slot walk visits exactly what the `src/storage.rs` walk visits |
| ShellEnvStore.UnallocatedRefuses | src/shell/storage/env_storage.rs:39-42 | while mapping fails, `set` refuses, `get` returns nothing and `iter` visits nothing, and the table stays unmapped; a later successful mapping is retried and takes effect |
| Session.Activate | src/shell/session.rs:32-37 | an activated session is active with no input, no output and nothing pending |
| Session.Deactivate | src/shell/session.rs:39-41 | deactivation clears only the active flag; the buffers and positions stay |
| Session.AppendInput | src/shell/session.rs:48-54 | a byte is appended while the line holds fewer than 512 bytes; at 512 it is dropped and the session is unchanged |
| Session.GetInput | src/shell/session.rs:56-62 | the copy is a prefix of the line, as long as the line or the buffer, whichever is shorter |
| Session.ClearInput | src/shell/session.rs:64-66 | the line becomes empty and the output side is untouched |
| Session.BackspaceInput | src/shell/session.rs:68-73 | the last byte of a non-empty line is removed; an empty line is left as it is |
| Session.WriteOutput | src/shell/session.rs:80-92 | the pending output grows by the written bytes cut to the room left of the 4096 slots since activation; input and read position are untouched |
| Session.ReadOutput | src/shell/session.rs:94-111 | the read returns the oldest pending bytes cut to the buffer, and what it returns followed by what stays pending is what was pending |
| Session.HasOutput | src/shell/session.rs:113-115 | output is reported exactly when some written byte is still unread |
| Session.BackspaceUndoesAppend | src/shell/session.rs:48-73 | typing a byte below the 512 limit and erasing it restores the session |
| Session.WriteThenRead | src/shell/session.rs:80-115 | a read with room for everything returns the earlier pending bytes and then the written ones, and leaves nothing pending |
| Session.WriteOutputConcat | src/shell/session.rs:80-92 | two writes store exactly what one write of both pieces stores |
| Session.FullBufferDropsWrites | src/shell/session.rs:84-86 | once 4096 bytes were written since activation every further write is dropped, even after all of them were read |
| Session.GetSession | src/shell/session.rs:122-128 | a session is returned exactly for indices below 16, and it is the pool's session at that index |
| Session.Allocate | src/shell/session.rs:130-138 | allocation activates the lowest-numbered inactive session and returns its index, and fails, changing nothing, exactly when all 16 are active |
| Session.Free | src/shell/session.rs:140-144 | freeing deactivates the indexed session only; an index of 16 or more changes nothing |
| Session.AllocateThenFree | src/shell/session.rs:130-144 | allocation adds exactly the returned, previously inactive index to the active set with a freshly activated session, and freeing that index restores the active set |
| Session.AllocationsDistinct | src/shell/session.rs:130-138 | two allocations without a free between them never return the same index |
| Session.FirstInactive | src/shell/session.rs:130-137 | the allocation scan stops at the lowest index from its start whose session is inactive, or at 16 when every session from there is active |
| Io.EnableCapture | src/io.rs:10-13 | enabling starts an empty, enabled capture and leaves standard output alone |
| Io.DisableCapture | src/io.rs:15-17 | disabling keeps what was captured and only clears the flag |
| Io.AppendCapture | src/io.rs:31-47 | a disabled capture ignores the bytes; an enabled one appends them cut to the room left of 4096 |
| Io.GetCaptured | src/io.rs:19-29 | the copy is the oldest captured bytes cut to the buffer, and the capture is emptied even when the buffer was too small |
| Io.Print | src/io.rs:49-52 | printing appends the bytes to standard output and hands them to the capture |
| Io.PrintNumber | src/io.rs:54-73 | zero is printed through `print`; a positive number writes its decimal digits straight to standard output without capture; a negative number writes nothing |
| Io.PrintNumberReadsBack | src/io.rs:54-73 | what `print_number` writes for a non-negative number is all digits and reads back as that number |
| Io.CaptureIsPrefix | src/io.rs:31-52 | while capture stays enabled it holds exactly the first 4096 bytes of what was printed since it was enabled |
| Io.DisabledCaptureUnchanged | src/io.rs:31-34 | while capture is disabled no print changes it |
| Io.Completion | src/io.rs:186-197 | a completion is offered for seven letters only, and it is non-empty printable text |
| Io.Key | src/io.rs:172-230 | one key: Enter or CR finishes the line with a newline; Ctrl-C finishes it empty; a printable byte is stored and echoed while one byte of room for the newline remains; Delete or Backspace removes the last byte and echoes an erase |
| Io.TypedLine | src/io.rs:169-235 | printable typing followed by Enter stores the typed bytes that fit in all but the last byte of the buffer, then the newline, and echoes the same |
| Io.TypeThenErase | src/io.rs:215-229 | typing a printable byte and deleting it leaves the stored line as it would have been |
| Io.InterruptDiscards | src/io.rs:220-223 | Ctrl-C returns an empty line whatever was typed before it |
| Io.TabCompletes | src/io.rs:185-208 | Tab after one letter with a completion replaces the line by the completion and echoes an erase and the completion |
| Io.TabElsewhereRings | src/io.rs:185-214 | Tab in any other position leaves the line and rings the bell |
| Io.ReadLine | src/io.rs:169-235 | the key loop, key by key, never stores more bytes than the buffer |
| Io.ReadLineWithTab | src/io.rs:142-235 | when `TCGETS` fails one raw read is the line, kept whole when it fits, with nothing echoed; on a terminal the key loop runs on an empty line |
| Io.PipedInputNotEdited | src/io.rs:159-161 | without a terminal a Ctrl-C byte arrives in the line unchanged, where the key loop would discard the line |
| Builtins.SplitAssignment | src/builtins.rs:18-31 | the split exists exactly when the text holds `=`; it splits at the first `=`, and putting the pieces back together gives the text |
| Builtins.ListVars | src/builtins.rs:10-13 | `export` without arguments writes each stored variable followed by a newline, in store order |
| Builtins.SplitJoin | src/builtins.rs:18-31 | splitting a name without `=` joined to any value by `=` gives back that name and value |
| Builtins.ExportParse | src/builtins.rs:7-34 | `export` lists everything exactly when the trimmed arguments are empty, reports a bad format exactly when they hold no `=`, and otherwise assigns the text before and after the first `=` |
| Builtins.Export | src/builtins.rs:7-34 | listing leaves the store alone; a bad format changes nothing; an assignment is the store's `set`, and the message appears exactly when `set` refuses |
| Builtins.ExportThenExpand | src/builtins.rs:7-34 | after `export NAME=VALUE` expansion of `$NAME` gives VALUE for a new name and the earlier value for a name already defined |
| Builtins.Echo | src/builtins.rs:36-41 | `echo` writes the arguments expanded into 512 bytes, then a newline |
| Builtins.Pwd | src/builtins.rs:43-55 | a return value strictly between 0 and 512 prints that many bytes of the buffer and a newline; any other prints the error message |
| Builtins.HistoryCmd | src/builtins.rs:57-59 | `history` writes exactly the history listing |
| Builtins.LeadingDigits | src/builtins.rs:71-77 | the digit loop consumes the longest prefix of digits |
| Builtins.ParsePort | src/builtins.rs:61-83 | the port loop, with its `u16` accumulator wrapping at every digit, picks exactly the port `ServePort` describes, and that port is never 0 and fits 16 bits |
| Builtins.ServeDigits | src/builtins.rs:61-83 | `serve` given the decimal text of a port between 1 and 65535 listens on that port |
| Builtins.ServeDigitsWrap | src/builtins.rs:61-83 | `serve` given the decimal text of any positive number listens on that number modulo 65536, and on 8000 when that is 0 |
| Builtins.ServeWraps | src/builtins.rs:73 | `serve 70000` listens on 4464, and `serve 65536` wraps to 0 and falls back to 8000 |
| Builtins.ServePort | src/builtins.rs:61-83 | `serve` never picks port 0 and always picks a 16-bit port: when the leading digits are empty or their value is a multiple of 65536 it picks 8000, and any other port is the value of the leading digits modulo 65536 |
| Builtins.U16ValueIsMod | src/builtins.rs:72-74 | reading digits into a `u16` that wraps after every step gives the true value of the digits modulo 65536 |
| Builtins.AliasParse | src/builtins.rs:88-109 | `alias` lists exactly when the trimmed arguments are empty, reports a bad format exactly when they hold no `=`, and otherwise defines the trimmed text before the first `=` as the trimmed text after it |
| Builtins.AliasCmd | src/builtins.rs:88-109 | listing writes the table's listing and changes nothing; a bad format changes nothing; a definition is the table's `set`, with the message exactly when `set` refuses |
| Builtins.AliasDefines | src/builtins.rs:88-109 | `alias name = value` with spaces around `=`, when accepted, makes `name` look up as `value` |
| Builtins.AliasParseSpaced | src/builtins.rs:96-100 | spaces around `=` are trimmed from both the name and the value |
| Builtins.PathArg | src/builtins.rs:122-132 | the NUL-terminated copy exists exactly when the expanded path is shorter than 256 bytes |
| Builtins.CopyPath | src/builtins.rs:122-132 | the copy loop that refuses once the index reaches 255 with bytes left accepts exactly the paths of at most 255 bytes and NUL-terminates them |
| Builtins.Cd | src/builtins.rs:111-138 | an empty argument prints the missing-argument message; otherwise the expanded path is passed to `chdir` when it fits, a too-long path prints its message instead, and a failing `chdir` prints the failure message |
| Builtins.LsPath | src/builtins.rs:149-166 | an empty expansion opens `.`; otherwise the expanded path is copied as for `cd` |
| Builtins.Filter | src/builtins.rs:191-198 | every name kept is between 1 and 255 bytes long and comes from the directory |
| Builtins.FilterAppend | src/builtins.rs:179-204 | filtering two runs of names one after the other is filtering them together |
| Builtins.CollectBatchIsTrunc | src/builtins.rs:186-199 | the inner collection loop appends the listable names of one buffer and stops at 128 |
| Builtins.CollectAllIsTrunc | src/builtins.rs:179-204 | the outer loop over all buffers keeps the first 128 listable names overall |
| Builtins.CollectKeepsFirst | src/builtins.rs:174-204 | `ls` collects exactly the first 128 listable names of the directory, in directory order |
| Builtins.WalkAll | src/builtins.rs:185-186 | every buffer contributes one batch of names |
| Builtins.Ls | src/builtins.rs:140-222 | a too-long path and an unopenable directory print their messages; otherwise the listing of the buffers is printed |
| Builtins.ListingSorted | src/builtins.rs:206-221 | `ls` prints, one per line, a sorted permutation of the first 128 listable names |
| Builtins.NameLinesText | src/builtins.rs:212-221 | the print loop writes each non-empty name followed by a newline |
| Builtins.LsReadsEncoded | src/builtins.rs:179-186 | a buffer of well-formed records is read back as the names encoded in it |
| ShellBuiltins.Export | src/shell/builtins/env.rs:6-33 | on a mapped store the shell's `export` is exactly `export` of `src/builtins.rs`; on a store that cannot be mapped an assignment is refused with the too-many-variables message and the store stays unmapped |
| ShellBuiltins.Cd | src/shell/builtins/builtins_fs.rs:20-47 | on a mapped store the shell's `cd` passes the same `chdir` argument and prints the same messages as `cd` of `src/builtins.rs`; an empty argument reports the missing argument without touching the store |
| ShellBuiltins.Ls | src/shell/builtins/builtins_fs.rs:49-128 | on a mapped store, and where both directory walkers read the buffers alike, the shell's `ls` prints exactly what `ls` of `src/builtins.rs` prints |
| ShellBuiltins.WalkAllAgree | src/shell/builtins/builtins_fs.rs:86-112 | on buffers of well-formed records the shell's walker and the top-level walker read the same names |
| Executor.Dispatch | src/executor.rs:39-89 | the chain of comparisons picks the builtin named by the program word, passes it the arguments, and falls through to an external program exactly when the word names no builtin |
| Executor.Execute | src/executor.rs:10-37 | a blank line does nothing and leaves the history alone; any other line is added to the history first; the line exits exactly when it is `exit` |
| Executor.ExecuteRecords | src/executor.rs:17 | every accepted non-blank line, `exit` included, is appended to the history log |
| Executor.UnaliasedDispatch | src/executor.rs:24-89 | a line `program args` whose program has no alias runs the builtin or external program `program` with `args` |
| Executor.ResolvedLine | src/executor.rs:24-37 | a line whose first word has no alias is dispatched on its own first word and rest |
| Executor.ExecuteResolves | src/executor.rs:24-37 | a line that is neither blank nor `exit` runs what its first word resolves to through one level of alias lookup |
| Executor.FirstWordOf | src/executor.rs:11-24 | a space-free word, a space and arguments not ending in a line end split back into that word and those arguments |
| Executor.SplitAtSpace | src/executor.rs:24-29 | splitting at the first space undoes joining a space-free word with a space and the rest |
| Executor.AliasedDispatch | src/executor.rs:26-37 | an alias whose value is `word rest` runs `word`, with the typed arguments when there are any and the alias's own arguments otherwise |
| Executor.AliasedLine | src/executor.rs:26-37 | the same for a line already split into name and arguments |
| Executor.Resolve | src/executor.rs:24-37 | a program without an alias runs as typed with its arguments; an alias runs the first word of its value, with the typed arguments when there are any and the value's own arguments otherwise |
| ShellExecutor.Dispatch | src/shell/executor.rs:43-78 | the shell's chain picks its builtin by the program word and falls through to an external program exactly when the word names none of its seven builtins |
| ShellExecutor.Execute | src/shell/executor.rs:30-41 | a blank line does nothing, `exit` shuts down, and any other line dispatches on its first word without alias lookup or history |
| ShellExecutor.SharedBuiltinsAgree | src/shell/executor.rs:43-76 | the two executors pick the same action for every builtin both know, and each treats the other's extra builtins as external programs |
| ShellExecutor.LineEndIgnored | src/shell/executor.rs:31 | trailing CR and LF bytes do not change what a line does |
| SessionExecutor.Number | src/shell/session_executor.rs:203-222 | the digits written for a non-negative count read back as that count; a negative one writes nothing |
| SessionExecutor.Pwd | src/shell/session_executor.rs:60-70 | a `getcwd` length strictly between 0 and 512 writes what `pwd` of `src/builtins.rs` prints; a length of 512 writes the whole buffer and a newline where that `pwd` reports an error; otherwise the session writes its own error message, which differs from that `pwd`'s |
| SessionExecutor.ChdirArg | src/shell/session_executor.rs:88-91 | the `chdir` buffer is 512 bytes whose C string is the expansion's C string cut to 511 bytes |
| SessionExecutor.CStrOfTrunc | src/shell/session_executor.rs:88-91 | cutting a buffer and then taking its C string is taking the C string and then cutting it |
| SessionExecutor.Cd | src/shell/session_executor.rs:72-99 | an empty argument reports the missing argument; otherwise the store is the one expansion leaves, `chdir` receives the expansion cut to 511 bytes in a 512-byte buffer, nothing is written exactly when `chdir` succeeds, and a failure repeats the whole expansion in the message |
| SessionExecutor.CdAgreesWithShell | src/shell/session_executor.rs:72-99 | session `cd` and the shell's `cd` leave the same store and pass the same path below 256 bytes; from 256 bytes the shell refuses while the session still calls `chdir`; on failure they report different messages |
| SessionExecutor.Echo | src/shell/session_executor.rs:157-168 | session `echo` writes the trimmed arguments expanded into 512 bytes against the initialised store, then a newline |
| SessionExecutor.Export | src/shell/session_executor.rs:170-189 | empty arguments list every variable followed by a newline; an assignment updates the store exactly as the shell's `export` does but writes nothing, even when refused; text without `=` writes nothing and changes nothing |
| SessionExecutor.Threads | src/shell/session_executor.rs:191-201 | `threads` writes the prefix, the active count, ` / `, the total count and a newline, and both numbers read back as the counts |
| SessionExecutor.KeepNames | src/shell/session_executor.rs:126-140 | the kept names are never more than the names read |
| SessionExecutor.KeepAppend | src/shell/session_executor.rs:119-141 | keeping names from two runs one after the other is keeping them from both together |
| SessionExecutor.CollectBatchIsTrunc | src/shell/session_executor.rs:126-140 | the inner loop appends the names other than `.` and `..`, each cut to 256 bytes, and stores no more than 64 |
| SessionExecutor.CollectAllIsTrunc | src/shell/session_executor.rs:119-141 | over all buffers the stored names are the first 64 entries other than `.` and `..` |
| SessionExecutor.LsListing | src/shell/session_executor.rs:101-155 | session `ls` writes a permutation of the first 64 entries other than `.` and `..`, sorted when none is empty, each followed by two spaces, and a newline when there was at least one |
| SessionExecutor.SortedWhole | src/shell/session_executor.rs:145 | `sort_entries` over a whole sequence permutes it, and sorts it when no name is empty |
| SessionExecutor.LsPathVerbatim | src/shell/session_executor.rs:106-109 | session `ls` opens the trimmed path as typed, without expansion and without a terminating NUL |
| SessionExecutor.Ls | src/shell/session_executor.rs:101-155 | an empty argument opens `.`, and a directory that does not open writes the open-failure message |
| SessionExecutor.Run | src/shell/session_executor.rs:4-58 | a blank line writes nothing; `exit` writes the closed message and nothing else happens; an unknown program writes the not-supported message; `pwd` and `threads` write their output and leave the store alone |
| SessionExecutor.Execute | src/shell/session_executor.rs:4-58 | everything a command writes reaches the session's pending output, cut to the room left in the 4096-byte buffer |
| SessionExecutor.EchoTrims | src/shell/session_executor.rs:157-168 | on a mapped store session `echo` writes what the shell's `echo` writes for the trimmed arguments |
| Http.Htons | src/server.rs:9-11 | the result is a 16-bit value whose high byte is the port's low byte and whose low byte is the port's high byte |
| Http.HtonsInvolution | src/server.rs:9-11 | swapping the bytes twice gives the port back |
| Http.FindBlank | src/server.rs:123-130 | the search finds the first `\r\n\r\n` at or after the start, or reports correctly that there is none |
| Http.BlankAfter | src/server.rs:123-130 | after a header block in which no CR is followed two bytes later by another CR, the blank line is found exactly where it was appended |
| Http.PathEnd | src/server.rs:111-114 | the target ends at the first space or `?`, or at the end of the request |
| Http.MethodEnd | src/server.rs:99-102 | the method ends at the first space, or at the end of the request |
| Http.BodyOf | src/server.rs:123-136 | the body is a suffix of the request |
| Http.ParseRequest | src/server.rs:97-139 | a request without a space reads as `GET /` with no body; otherwise the method is a prefix of the request and the body is what follows the first blank line; the method and the target never contain a space, the target never contains `?` and is never empty |
| Http.RequestRoundTrip | src/server.rs:97-139 | a request built from a method, a target, the rest of the request line and headers, a blank line and a body parses back into that method, target and body |
| Http.ParseParts | src/server.rs:97-139 | a request whose method, target and body sit where the scans stop parses into them |
| Http.HexValue | src/server.rs:392-399 | the value is below 16 exactly for a hex digit of either case, and 255 otherwise |
| Http.HexDigit | src/server.rs:392-399 | the upper-case digit of a nibble is a hex digit whose value is the nibble |
| Http.UrlDecode | src/server.rs:360-390 | the decoding loop writes the reference decoding of the whole input cut to the output buffer, and never more bytes than it read |
| Http.DecodeAt | src/server.rs:365-386 | one pass of the loop body writes the reference step's byte and consumes the reference step's length |
| Http.DecodeEncoded | src/server.rs:360-390 | decoding undoes percent-encoding of every byte |
| Http.DecodePlain | src/server.rs:360-390 | text without `+` or `%` decodes to itself |
| Http.FindKey | src/server.rs:304-309 | the key search returns the first position in its range at which the key starts, or reports correctly that there is none |
| Http.AmpEnd | src/server.rs:316-319 | the file name ends at the first `&` after its start, or at the end of the body |
| Http.ParseUpload | src/server.rs:296-334 | an accepted form has a non-empty file name without `&` |
| Http.UploadRoundTrip | src/server.rs:296-334 | a body `filename=NAME&content=CONTENT` with a non-empty name without `&` and non-empty content reads back as that name and content |
| Http.EmptyContentRefused | src/server.rs:322-331 | a form whose content is empty is refused, because the search for `content=` stops one position early |
| Http.Upload | src/server.rs:296-338 | the upload is refused exactly when the form is; otherwise the name and the content are each decoded and cut to their 256- and 4096-byte buffers |
| Http.DotScan | src/server.rs:424-433 | the backward scan finds a `.` after which there is no `.`, `/` or NUL, or there is none |
| Http.LastDot | src/server.rs:424-433 | the extension starts after the last `.` of the final path component, and there is none when the component has no `.` or a NUL follows it |
| Http.TypeOfExt | src/server.rs:435-468 | every answer is one of the ten content types of the table |
| Http.OctetStreamIffUnknown | src/server.rs:435-468 | `application/octet-stream` is given exactly to extensions that start with none of the eleven table entries |
| Http.ContentType | src/server.rs:422-469 | a path whose last byte is NUL is always typed `application/octet-stream` |
| Http.ContentTypeOfName | src/server.rs:422-469 | a name `stem.ext` whose extension holds no `.`, `/` or NUL is typed by the table's first prefix match on `ext` |
| Http.JsonServedAsJavascript | src/server.rs:445-450 | since `js` is tested before `json`, an extension beginning `json` is typed `application/javascript` |
| Http.Response | src/server.rs:13-95 | the response is the head with the body's decimal length, then as much of the body as fits the 8192-byte buffer |
| Http.TrailingDigits | src/server.rs:54-73 | the digits at the end of a text are a suffix of it |
| Http.ReadAfterHead | src/server.rs:47-83 | a head ending in `: ` and digits, then a blank line, reads back as the digits' value and what follows |
| Http.ResponseReadsBack | src/server.rs:13-95 | a client reads the declared length as the body's length, and the body whole when it fits the buffer |
| Http.EscapeByte | src/server.rs:551-574 | one escaped byte takes between one and five bytes |
| Http.Escape | src/server.rs:548-575 | the escaped text is at least as long as the input and at most five times as long |
| Http.EscapeAppend | src/server.rs:548-575 | escaping two pieces one after the other is escaping them together |
| Http.EscapeFrom | src/server.rs:549-550 | the escaping loop that starts below the limit never writes past the limit plus four |
| Http.EscapeFromPrefix | src/server.rs:548-575 | what the escaping loop writes is the escaping of a prefix of the content |
| Http.EscapeFromWhole | src/server.rs:548-575 | with room for five bytes per content byte the loop escapes the whole content |
| Http.UnescapeEscaped | src/server.rs:548-575 | reading the entities back gives the content, so escaping loses nothing |
| Http.EscapePlain | src/server.rs:570-573 | text without `<`, `>` or `&` is copied verbatim |
| Http.RouteOf | src/server.rs:680-707 | a POST to `/upload` or `/` handles an upload; a GET of a path longer than `/` starting with `/` serves a file; other GETs list the directory; everything else is refused |
| Http.FilePath | src/server.rs:709-731 | the file name opened is NUL-terminated and fits the 512-byte buffer |
| Http.ServedFilesAreOctetStream | src/server.rs:731-733 | because the path handed to the type detection ends in NUL, every served file is typed `application/octet-stream` |
| Http.ServedType | src/server.rs:401-420 | the corrected type of a served file, taken from the file name without its terminating NUL, is one of the ten content types of the table |
| Http.ServedTypeOfName | src/server.rs:709-733 | with the NUL left out, a target `/dir/stem.ext` that fits the path buffer is typed by its extension |
| HttpHandler.ParseRequest | src/network/http_handler.rs:3-43 | the terminal server's parser splits every request exactly as the directory server's parser does |
| HttpHandler.ScanMethod | src/network/http_handler.rs:4-7 | the first loop stops at the first space or the end |
| HttpHandler.ScanPath | src/network/http_handler.rs:15-19 | the second loop stops at the next space or `?`, or the end |
| HttpHandler.ScanBody | src/network/http_handler.rs:27-34 | the third loop returns the position after the first blank line, or 0 without one |
| HttpHandler.AppendCapped | src/network/http_handler.rs:71-84 | one capped copy appends the part and cuts the header at 512 bytes |
| HttpHandler.SimpleHeader | src/network/http_handler.rs:66-84 | the header is the response head with the body's decimal length, cut at 512 bytes |
| HttpHandler.TruncAppend | src/network/http_handler.rs:71-84 | a capped copy after a cut header cuts the same as one cut of the whole |
| HttpHandler.SimpleResponse | src/network/http_handler.rs:66-88 | with a head that fits, the header and then the whole body are written |
| HttpHandler.SimpleResponseReadsBack | src/network/http_handler.rs:66-88 | with a head that fits, a client reads the body's true length and the whole body |
| HttpHandler.CannedLengthsDisagree | src/network/http_handler.rs:51-61 | the canned 404 and 405 responses declare 20 and 23 bytes for bodies of 22 and 24 bytes |
| HttpHandler.CannedReads | src/network/http_handler.rs:51-61 | a head with given digits and a body reads back as the digits' value and the body |
| HttpHandler.Canned | src/network/http_handler.rs:51-61 | the corrected canned response declares its body's own length and reads back whole |
| HttpHandler.HandleInline | src/network/http_handler.rs:45-64 | as written: a method other than GET gets the canned 405, whose head declares 23 bytes for its 24-byte body; GET of `/` or `/terminal.html` gets the page and of `/terminal.js` the script, each read back whole when the head fits; any other GET gets the canned 404, whose head declares 20 bytes for its 22-byte body |
| HttpHandler.Route | src/network/http_handler.rs:45-64 | routing by method and path: non-GET gets the 405 response given, `/` and `/terminal.html` the page, `/terminal.js` the script, and any other path the 404 response given |
| HttpHandler.AssetsReadBack | src/network/http_handler.rs:45-64 | the page and the script read back whole, with their true lengths, when their heads fit the header buffer |
| HttpHandler.HandleInlineCorrected | src/network/http_handler.rs:45-64 | with correct Content-Length the 405 and 404 answers read back whole; the page and script routes are as written |
| Sha1.BigEndian | src/crypto.rs:37-42 | the big-endian form of a value has exactly the requested number of bytes |
| Sha1.BigEndianInjective | src/crypto.rs:37-42 | below 256 to the power of the width, distinct values have distinct big-endian bytes |
| Sha1.Pad | src/crypto.rs:11-42 | the standard padding of section 5.1.1 of FIPS 180-4: a multiple of 64 bytes holding the message, the marker byte 0x80, zeros, and the bit length in eight big-endian bytes |
| Sha1.PadLength | src/crypto.rs:28-35 | the zero run brings the message, marker and length field to the next multiple of 64 |
| Sha1.PadInjective | src/crypto.rs:11-42 | the standard padding keeps distinct messages of fewer than 2^61 bytes apart |
| Sha1.PadLoop | src/crypto.rs:13-42 | the padding loops as written fill the 128-byte buffer with the standard padding cut at 128 bytes |
| Sha1.CopyLoop | src/crypto.rs:16-21 | the copy loop keeps at most the first 128 bytes of the message |
| Sha1.ZeroLoop | src/crypto.rs:28-35 | the zero loop stops where the length field starts, or when the buffer is full |
| Sha1.LengthLoop | src/crypto.rs:37-42 | the length loop completes the cut padding |
| Sha1.PadGap | src/crypto.rs:28-35 | between the marker and the length field the first position at 56 modulo 64 is the start of the length field |
| Sha1.PadAgrees | src/crypto.rs:13-42 | up to 119 bytes the buffer holds the standard padding whole |
| Sha1.PadBlocks | src/crypto.rs:44 | up to 55 bytes pad to one block, and 56 to 119 bytes pad to two |
| Sha1.PadCollides | src/crypto.rs:13-42 | from 120 bytes on the buffer lacks the length field: a 120-byte message and the same message followed by 0x80 and seven zeros fill it identically |
| Sha1.Schedule | src/crypto.rs:47-58 | the message schedule of section 6.1.2 of FIPS 180-4 has the requested number of words |
| Sha1.ScheduleRecurrence | src/crypto.rs:49-58 | each schedule word is the block's big-endian word, or from word 16 on the XOR of words 3, 8, 14 and 16 back rotated left by one |
| Sha1.ScheduleStep | src/crypto.rs:49-58 | each schedule extends the previous one by exactly the next word |
| Sha1.ScheduleLoop | src/crypto.rs:47-58 | the two schedule loops compute the full 80-word schedule |
| Sha1.SetWord | src/crypto.rs:50-57 | storing the next word extends the computed prefix of the schedule by one |
| Sha1.RoundsLoop | src/crypto.rs:60-87 | the round loop performs the 80 rounds in order |
| Sha1.Digest | src/crypto.rs:96-103 | the digest is 20 bytes |
| Sha1.WordBytes | src/crypto.rs:97-103 | each chaining word gives four bytes |
| Sha1.Sha1 | src/crypto.rs:4-106 | the SHA-1 digest of FIPS 180-4 is 20 bytes |
| Sha1.Sha1AsWritten | src/crypto.rs:4-106 | `sha1` as written hashes the whole blocks of the cut padding, and equals the standard digest for every message of at most 119 bytes |
| Sha1.HashLoop | src/crypto.rs:44-94 | the block loop folds every 64-byte block into the chaining value in order |
| Sha1.UsedIsPad | src/crypto.rs:44 | up to 119 bytes the whole blocks of the buffer are the standard padding |
| Sha1.HashFirstBlock | src/crypto.rs:44-94 | hashing a padded message compresses its first block and goes on with the rest |
| Sha1.Sha1AsWrittenCollides | src/crypto.rs:4-106 | as written, a 120-byte message and a different 128-byte message get the same digest |
| Base64.Sym | src/crypto.rs:110 | a table symbol is never `=` |
| Base64.SymValue | src/crypto.rs:110 | the reverse lookup yields a six-bit value |
| Base64.SymRoundTrip | src/crypto.rs:110 | the table and its reverse lookup are inverse bijections between 0..63 and the 64 symbols |
| Base64.Encode | src/crypto.rs:109-151 | the encoding of section 4 of RFC 4648 has four symbols for every started group of three bytes |
| Base64.EncodeShape | src/crypto.rs:131-148 | the `=` of an encoding are exactly its last one or two bytes for inputs of length 2 or 1 modulo 3, and every other byte is a table symbol |
| Base64.ShapedCons | src/crypto.rs:115-129 | a whole quantum of symbols in front keeps that shape |
| Base64.EncodeSplit | src/crypto.rs:115-129 | encoding a cut at a group boundary encodes the two halves apart |
| Base64.WrittenLength | src/crypto.rs:115-150 | what is written fits the buffer and is whole quanta |
| Base64.EncodeInto | src/crypto.rs:109-151 | the encoder writes the longest run of whole quanta of the encoding that fits the buffer, so never a partial quantum |
| Base64.EncodeTail | src/crypto.rs:131-150 | the padded last quantum is written only when four bytes are free, completing what fits |
| Base64.TailWritten | src/crypto.rs:131-148 | writing the short last group completes the encoding |
| Base64.EncodeStep | src/crypto.rs:115-129 | one more group of three appends its four symbols |
| Base64.EncodeLast | src/crypto.rs:131-148 | one final byte gives two symbols and `==`; two final bytes give three symbols and `=` |
| Base64.EncodeStop | src/crypto.rs:116-132 | stopping at a group boundary for lack of room leaves exactly what fits |
| Base64.EncodeFits | src/crypto.rs:109-151 | an encoding that fits the buffer is written whole |
| Base64.DecodeQuad | src/crypto.rs:122-146 | a valid quantum stands for one to three bytes |
| Base64.Quad3Decodes | src/crypto.rs:118-125 | the four symbols of three bytes decode back to them |
| Base64.Quad2Decodes | src/crypto.rs:141-146 | the three symbols and `=` of two bytes decode back to them |
| Base64.Quad1Decodes | src/crypto.rs:136-140 | the two symbols and `==` of one byte decode back to it |
| Base64.DecodeEncode | src/crypto.rs:109-151 | decoding undoes encoding |
| Base64.DecodeCons | src/crypto.rs:115-129 | a full quantum in front decodes in front |
| Base64.DecodeLastQuad | src/crypto.rs:131-148 | a lone last quantum decodes to its bytes |
| Base64.EncodeInjective | src/crypto.rs:109-151 | distinct inputs never share an encoding |
| Base64.DigestEncoding | src/crypto.rs:109-151 | a 20-byte SHA-1 digest encodes as 27 symbols and one `=` |
| WsFrame.XorBits | src/network/websocket.rs:387 | the exclusive or of the low `k` bits stays below two to the `k` |
| WsFrame.XorBitsInvolution | src/network/websocket.rs:387 | combining twice with the same bits gives the value back |
| WsFrame.XorInvolution | src/network/websocket.rs:387 | masking a byte twice with the same key byte gives it back |
| WsFrame.XorZero | src/network/websocket.rs:371-376 | a zero key byte leaves a byte as it is |
| WsFrame.Unmask | src/network/websocket.rs:386-388 | byte `i` of the payload is combined with byte `i mod 4` of the key, and the length is kept |
| WsFrame.UnmaskInvolution | src/network/websocket.rs:386-388 | unmasking undoes masking, as section 5.3 of RFC 6455 requires |
| WsFrame.UnmaskNoMask | src/network/websocket.rs:371-376 | an unmasked frame, read with the all-zero key, is left as it is |
| WsFrame.UnmaskPrefix | src/network/websocket.rs:385-388 | unmasking commutes with cutting the payload at 512 bytes |
| WsFrame.LayoutOf | src/network/websocket.rs:352-376 | a header the read holds gives a payload start between 2 and the read's length and a four-byte key |
| WsFrame.LayoutExtends | src/network/websocket.rs:352-376 | a complete header reads the same whatever follows it |
| WsFrame.Decode | src/network/websocket.rs:352-442 | a decoded text payload is at most 512 bytes; nothing is decoded from fewer than two bytes; the frame is text, close or ping exactly when its low four opcode bits say so |
| WsFrame.TrailingBytesDropped | src/network/websocket.rs:338-442 | bytes after a complete frame in the same read are ignored |
| WsFrame.DecodeFrame | src/network/websocket.rs:352-442 | the decoding code, with its early `continue`s and its unmasking loop, computes the reference decoding |
| WsFrame.UnmaskLoop | src/network/websocket.rs:386-388 | the unmasking loop computes the reference unmasking |
| WsFrame.TextHeader | src/network/websocket.rs:451-467 | the header is two bytes below 126 payload bytes and four with a 16-bit length otherwise |
| WsFrame.Encode | src/network/websocket.rs:447-476 | nothing is sent for 64 KiB or more; otherwise the frame starts with FIN and text, fits 1024 bytes, and ends in the whole payload when the payload fits |
| WsFrame.SendText | src/network/websocket.rs:447-476 | the sending loop builds exactly the reference frame |
| WsFrame.EncodeDecodes | src/network/websocket.rs:352-476 | a payload the frame buffer holds decodes back to itself, cut at 512 bytes |
| WsFrame.ShortDecodes | src/network/websocket.rs:352-476 | a short frame as sent decodes to its payload cut at 512 bytes |
| WsFrame.MediumDecodes | src/network/websocket.rs:352-476 | a frame with a 16-bit length as sent decodes to its payload cut at 512 bytes |
| WsFrame.BroadcastDecodes | src/network/websocket.rs:352-476 | every payload of at most 512 bytes decodes back whole |
| WsFrame.LongEncodeSkipped | src/network/websocket.rs:469-475 | a longer payload is cut at 1024 bytes while its header announces more, so this code skips the frame it sends |
| WsFrame.ClientText | src/network/websocket.rs:356-376 | a browser's masked text frame is the payload plus a six- or eight-byte header |
| WsFrame.ClientTextDecodes | src/network/websocket.rs:352-388 | a complete masked browser frame decodes to its payload, cut at 512 bytes |
| WsFrame.ControlReplies | src/network/websocket.rs:431-440 | the close reply reads as a close, and the pong is not a ping |
| WsHub.Append | src/network/websocket.rs:25-32 | a typed byte is added to the client's line only while it is shorter than 512 bytes, so the line never exceeds 512 |
| WsHub.Backspace | src/network/websocket.rs:47-52 | erasing drops the last byte of a non-empty line and leaves an empty line empty |
| WsHub.BackspaceUndoes | src/network/websocket.rs:25-52 | on a line with room, erasing right after typing restores the line |
| WsHub.EmptyQueueHolds | src/network/websocket.rs:10-14 | the zeroed command queue holds no pending command |
| WsHub.EnqueueHolds | src/network/websocket.rs:54-75 | queueing a command appends it, cut at 512 bytes, to the pending commands in order; a queue with ten pending drops it and changes nothing |
| WsHub.Enqueue | src/network/websocket.rs:54-75 | queueing keeps the queue well formed: no more than ten pending commands, each at most 512 bytes |
| WsHub.Dequeue | src/network/websocket.rs:77-101 | taking a command keeps the queue well formed and returns at most the caller's buffer size |
| WsHub.DequeueHolds | src/network/websocket.rs:77-101 | taking a command yields the oldest pending one cut at the buffer size and leaves the rest pending, first in first out; an empty queue yields nothing and is unchanged |
| WsHub.EmptyRingHolds | src/network/websocket.rs:103-105 | the zeroed broadcast ring holds an empty log |
| WsHub.Broadcast | src/network/websocket.rs:107-121 | broadcasting keeps the ring well formed and counts one more message |
| WsHub.BroadcastHolds | src/network/websocket.rs:107-121 | after a broadcast the ring holds the last hundred messages of the log with the new one appended, each cut at 512 bytes |
| WsHub.GetNext | src/network/websocket.rs:123-155 | a client that has read every message gets nothing and keeps its index; otherwise its index advances by one and it gets at most 512 bytes |
| WsHub.GetNextRecent | src/network/websocket.rs:123-145 | a client fewer than a hundred messages behind reads exactly the next message of the log, cut at 512 bytes |
| WsHub.GetNextOverrun | src/network/websocket.rs:123-145 | a client more than a hundred messages behind reads the newest message that shares its slot, not the one at its index, because the ring overwrote it |
| WsHub.DrainCatchesUp | src/network/websocket.rs:310-316 | a client within a hundred messages of the newest, none of them empty, is sent one text frame per message in order and ends at the message count |
| WsHub.NewClientDrainsNothing | src/network/websocket.rs:281-283 | a client that starts at the current message count is sent nothing by its first drain |
| WsHub.DrainLoop | src/network/websocket.rs:310-316 | the drain loop stops at the first message that reads as nothing and sends the text frames of those before it |
| WsHub.HandleByte | src/network/websocket.rs:391-429 | a line end on a non-empty line clears the line and broadcasts one message; any other byte leaves the ring and the queue alone |
| WsHub.HandleText | src/network/websocket.rs:383-429 | processing a text payload byte by byte keeps the hub well formed |
| WsHub.ControlBytesIgnored | src/network/websocket.rs:391-429 | a control byte other than LF, CR, BS and DEL changes nothing |
| WsHub.TabAndInterruptsIgnored | src/network/websocket.rs:391-429 | the Tab, Ctrl+C and Ctrl+D bytes change nothing |
| WsHub.TypingFillsLine | src/network/websocket.rs:391-429 | a run of printable bytes extends the line by them up to 512 bytes and touches nothing shared |
| WsHub.EnterHolds | src/network/websocket.rs:394-421 | entering a non-empty line appends `> `, the line and LF to the broadcast log, queues the line when the queue has room, and clears the line |
| WsHub.TypedCommandQueued | src/network/websocket.rs:383-429 | a command typed on a fresh line and entered is what the shell next takes from a queue that was empty |
| WsHub.LoopTurn | src/network/websocket.rs:302-443 | one turn ends the loop exactly on shutdown, a poll or read failure, end of file or a close frame, and only a text frame changes the shared state |
| WsHub.ControlFramesAnswered | src/network/websocket.rs:431-440 | a close frame is answered with a close frame and a ping with a pong, after the drained messages |
| WsHandshake.IsUpgrade | src/network/websocket.rs:157-165 | the corrected upgrade test holds exactly when `websocket` or `WebSocket` occurs somewhere in the request |
| WsHandshake.UpgradeAtEndMissed | src/network/websocket.rs:157-165 | the test as written rejects `Upgrade: websocket` when the token ends the request, which the corrected test accepts |
| WsHandshake.IsUpgradeAsWritten | src/network/websocket.rs:157-165 | the test as written holds exactly when `websocket` or `WebSocket` starts at an index strictly below the request length minus nine |
| WsHandshake.UpgradeDiffersOnlyAtEnd | src/websocket.rs:7-16 | whatever the test as written accepts the corrected test accepts, and they differ only on a token that ends the request |
| WsHandshake.UpgradeAgreesOnRequests | src/websocket.rs:7-16 | on a request that ends in its blank line the test as written and the corrected test agree |
| WsHandshake.NoTokenBeforeLf | src/network/websocket.rs:157-165 | no upgrade token ends on a line feed, because both spellings end in `t` |
| WsHandshake.FindHeader | src/network/websocket.rs:176-203 | the key header search finds the first index in its range where `Sec-WebSocket-Key: ` starts, or reports that none of the range holds it |
| WsHandshake.KeyFrom | src/network/websocket.rs:191-199 | the key copy takes the bytes after the header name up to a CR, an LF or the end of the request, at most the cap of them |
| WsHandshake.KeyFromMaximal | src/network/websocket.rs:191-199 | the copied key is the longest run without a line end that fits the cap |
| WsHandshake.KeyOf | src/network/websocket.rs:171-203 | the key read from a request never exceeds the 64-byte key buffer |
| WsHandshake.KeySearchBoundHarmless | src/network/websocket.rs:176-177 | searching up to `len-19` rather than `len-18` misses only a header name that ends the request, which carries no key, so the key is the same |
| WsHandshake.KeyRoundTrip | src/websocket.rs:22-57 | a request whose headers carry `Sec-WebSocket-Key: <key>` followed by CR, with no earlier such header, yields exactly that key |
| WsHandshake.ExtractKey | src/websocket.rs:22-57 | the nested search and copy loops return the key the request carries |
| WsHandshake.MatchesAt | src/network/websocket.rs:178-185 | the byte-by-byte comparison reports a match exactly when the header name starts at the index |
| WsHandshake.ReadKey | src/network/websocket.rs:191-199 | the copy loop returns the key up to the line end, at most 64 bytes |
| WsHandshake.AcceptKey | src/network/websocket.rs:215-240 | the accept value is 28 base64 characters ending in one `=`, and for keys of at most 60 bytes it is the base64 of the SHA-1 digest of the key followed by the RFC 6455 GUID (section 4.2.2 of RFC 6455) |
| WsHandshake.Combine | src/websocket.rs:71-88 | the combined buffer holds the key cut at 60 bytes followed by the GUID, at most 96 bytes, so the 128-byte guard never drops a byte |
| WsHandshake.ComputeAccept | src/websocket.rs:71-95 | the accept computation returns the accept value of the key |
| WsHandshake.Handshake | src/network/websocket.rs:205-268 | a request without a key gets no answer and its socket is closed; otherwise the answer is the 101 head, the accept value and the blank line |
| WsHandshake.HandshakeWellFormed | src/network/websocket.rs:246-265 | the 101 response fits its 512-byte buffer, its first blank line ends the head, and the accept value is the last header's value |
| WsHandshake.HandshakeSteps | src/websocket.rs:19-123 | the handshake step by step answers as the handshake does |
| WsHandshake.HandshakeAnswersKey | src/websocket.rs:19-123 | a request carrying a key of at most 60 bytes is answered with the accept value of that key as section 4.2.2 of RFC 6455 defines it |
| WsEcho.EchoTurn | src/websocket.rs:140-215 | a turn ends the loop exactly on a read failure, end of file or a close frame; a text frame is sent back carrying the same text; a close frame is answered with a close frame and a ping with a pong; anything else sends nothing |
| WsEcho.EchoesClientText | src/websocket.rs:188-201 | a browser's masked text frame comes back unmasked with the same text cut at 512 bytes, and the loop goes on |
| Terminal.Connect | html/terminal.js:14-59 | connecting opens a socket in the connecting state; a constructor that throws leaves the socket as it was, shows Disconnected and schedules no retry |
| Terminal.Opened | html/terminal.js:23-31 | an open socket shows Connected and resets the reconnect counter to zero |
| Terminal.Closed | html/terminal.js:43-54 | a close below five attempts counts one more attempt and schedules one reconnect; at five it only reports; the counter never exceeds five |
| Terminal.TimerFires | html/terminal.js:50 | a scheduled reconnect fires once and connects again without touching the counter |
| Terminal.Step | html/terminal.js:14-59 | every socket event keeps the reconnect counter within 0..5 |
| Terminal.ErrorsIgnored | html/terminal.js:38-41 | an error event anywhere in a run changes nothing: the run ends as it would without it |
| Terminal.Run | html/terminal.js:14-59 | whatever the events, the reconnect counter stays within 0..5 |
| Terminal.ClosesCounted | html/terminal.js:43-54 | `k` closes in a row leave the counter at the smaller of its start plus `k` and five, with one reconnect scheduled per counted attempt |
| Terminal.OpenRestoresBudget | html/terminal.js:23-54 | after an open, five closes schedule five reconnects again |
| Terminal.SendChar | html/terminal.js:62-66 | data is sent exactly when the socket is open, and unchanged |
| Terminal.KeyChar | html/terminal.js:115-128 | Enter, Backspace and Tab send one character each, as do Ctrl+C, Ctrl+D and every key whose name is one UTF-16 code unit; every other key sends nothing |
| Terminal.KeyDown | html/terminal.js:101-131 | with no open socket nothing happens; F5, F12 and Ctrl+R go through to the browser; any other key is taken and sends its character |
| Terminal.CharacterKeys | html/terminal.js:121-128 | a key whose name is one UTF-16 code unit sends itself, except that Ctrl with `c` or `d` sends the interrupt or end-of-file byte |
| Terminal.NamedKeysSendNothing | html/terminal.js:115-128 | arrows, Escape, function keys and every other key whose name is not one UTF-16 code unit are taken and send nothing |
| Terminal.Utf16Length | html/terminal.js:121 | a string is at least as many UTF-16 code units long as it has characters |
| Terminal.Utf16LengthOne | html/terminal.js:121 | a string is one UTF-16 code unit long exactly when it is one character of the Basic Multilingual Plane |
| Terminal.AstralKeySendsNothing | html/terminal.js:121-128 | a key producing one character outside the Basic Multilingual Plane has a `key` of length 2 and sends nothing |
| Terminal.SpecialKeysAtServer | html/terminal.js:115-124 | at the server the Enter byte ends a line, the Backspace byte erases, and Tab, Ctrl+C and Ctrl+D change nothing |
| Terminal.Url | html/terminal.js:15-16 | the address is `wss://` + host + `/ws` under `https:` and `ws://` + host + `/ws` otherwise, so it starts with `wss:` exactly under `https:` |
| Terminal.UrlHostRoundTrip | html/terminal.js:15-16 | the page's host is read back from the address under either scheme |

## Left out

- System calls (`src/syscalls*`): the inline-assembly wrappers are replaced by parameters that carry their results.
- Threads (`src/thread.rs`, `src/system/thread/*`): the model is sequential.
- Atomic orderings and the `StaticBuffer` spin lock (`src/io.rs:104-135`): every buffer is plain state, and each operation is one whole step. Nothing is claimed about interleavings.
- Process entry and the accept, poll and read loops (`src/main.rs`, `src/network/server.rs`, the socket code of `start_http_server`) are not part of this model, and neither is the shutdown flag beyond a `Shutdown` event of `WsHub.LoopTurn`.
- File and directory I/O is not modelled: `generate_directory_listing`, the reading in `serve_file`, the file creation of `handle_post_upload`, `find_completions` and `read_line_with_completion`. The `fork`, `execve` and `waitpid` branches of the executors end at an `External` action.
- Fixed HTML and CSS templates and the asset contents: only their lengths and the escaping around them matter, and assets are parameters.
- The DOM work of `html/terminal.js` (`addOutput`, `clearTerminal`, `updateStatus`, scrolling, focus) and console logging are left out. Real timers are a count of scheduled connects.
- `src/shell/builtins/builtins_misc.rs`, `builtins_server.rs` and the `mod.rs` files are thin print wrappers. `servepty` and `serve` are modelled only up to the action chosen and the port parsed.
- Console messages that only log (`[WS] ...`, `[Shell] Command queue full!`) are not part of the output model of the WebSocket server.
- Builtins.ServePort: follows a release build, where the `u16` arithmetic wraps; a debug build panics on the overflow instead, and that panic is not modelled.
- Builtins.Ls: requires well-formed `getdents64` buffers, because a record with a zero length makes the source loop forever.
- ShellBuiltins.Ls: requires well-formed `getdents64` buffers, for the same reason.
- Executor.Execute: requires that a program name longer than 31 bytes holds no NUL, because for such a name the source's `AliasStorage.get` would compare past the 32-byte name slot.
- SessionExecutor.Run: requires well-formed system results (`SysValid`): a `getcwd` length within its buffer, well-formed `getdents64` buffers, and thread counts that fit an `i64`.
- SessionExecutor.Execute: requires `SysValid`, as `Run` does.
- Http.Response: requires the head to fit the 8192-byte buffer, which the source's unchecked header loops assume.
- Http.Upload: stops at the decoded, cut name and content. The path copy of `handle_post_upload` (src/server.rs:340-347) is not modelled: a name that decodes to 256 bytes fills the 256-byte path buffer, so the terminating NUL is written at index 256, out of bounds, and the panic handler (src/main.rs:21-25) ends the whole server.
- Http.FilePath: requires a working directory of at most 510 bytes, the room the 512-byte path buffer leaves for `/` and NUL.
- Http.Htons: works on values below 65536, the `u16` domain.
- Io.Key: requires a line buffer of at least one byte, as the source's `buf.len() - 1` does.
- Io.ReadLine: requires a line buffer of at least one byte, as `Io.Key` does; `Io.ReadLineWithTab` asks this only on the terminal path.
- Terminal.TimerFires: requires a scheduled connect; a timer event with none scheduled is ignored by `Terminal.Step`.
- Sha1.PadInjective: holds below 2^61 bytes, where the 64-bit bit count does not wrap.
- WsHub.GetNextRecent: covers only clients fewer than a hundred messages behind. Further behind, `WsHub.GetNextOverrun` states what they read instead.

## Findings

| source | as written | input that shows it | evidently intended | confidence | as-written member | corrected member |
|---|---|---|---|---|---|---|
| src/network/http_handler.rs:51-61 | the canned 404 and 405 responses declare Content-Length 20 and 23 | their bodies are 22 and 24 bytes, so a client that trusts the header loses the last bytes | Content-Length equal to the body's length | not executed | HttpHandler.HandleInline | HttpHandler.HandleInlineCorrected |
| src/network/websocket.rs:157-165 | the start index runs over `0..len-9`, leaving out the last place the token fits; `src/websocket.rs:7-16` is the same code | `Upgrade: websocket` with nothing after it is not recognised | the token found anywhere in the request | not executed | WsHandshake.UpgradeAtEndMissed | WsHandshake.IsUpgrade |
| src/crypto.rs:13-44 | padding into a 128-byte buffer drops the length field from 120 bytes on | a 120-byte message and the same message followed by 0x80 and seven zeros hash alike | the padding of section 5.1.1 of FIPS 180-4 for every length | not executed | Sha1.Sha1AsWrittenCollides | Sha1.PadInjective |
| src/server.rs:731-733 | `serve_file` receives the path with its terminating NUL, and type detection stops at that NUL | every served file, `index.html` included, is sent as `application/octet-stream` | the type of the file's extension | not executed | Http.ServedFilesAreOctetStream | Http.ServedTypeOfName |
