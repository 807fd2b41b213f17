/** `html/terminal.js`, the browser side of the terminal: the connection
    life cycle with its bounded reconnection, the guard on sending, the key
    mapping and the server address. The page's DOM work is left out; the
    reconnection timer is a count of scheduled connects. */
module Terminal {
  import opened Common
  import WsHub

  /** `WebSocket.readyState`. */
  datatype ReadyState = Connecting | Open | Closing | Closed

  /** The script's state: its socket (`ws`, null at first), the reconnect
      counter, how many delayed connects are scheduled, and the status
      indicator. */
  datatype Client = Client(ws: Option<ReadyState>, attempts: nat, scheduled: nat, connected: bool)

  const MaxAttempts: nat := 5
  /** The fixed delay before a reconnect, in milliseconds. */
  const ReconnectDelay: nat := 2000

  const Initial: Client := Client(None, 0, 0, false)

  predicate Valid(c: Client) {
    c.attempts <= MaxAttempts
  }

  // ---------------------------------------------------------------- connection

  /** `connect`: a new socket in state Connecting, or, when the constructor
      throws, a Disconnected status and no retry. */
  function Connect(c: Client, throws: bool): (r: Client)
    ensures r.attempts == c.attempts && r.scheduled == c.scheduled
    ensures throws ==> r.ws == c.ws && !r.connected
    ensures !throws ==> r.ws == Some(Connecting) && r.connected == c.connected
  {
    if throws then c.(connected := false) else c.(ws := Some(Connecting))
  }

  /** `onopen`: the counter starts over. */
  function Opened(c: Client): (r: Client)
    ensures r.ws == Some(Open) && r.connected && r.attempts == 0 && r.scheduled == c.scheduled
  {
    c.(ws := Some(Open), connected := true, attempts := 0)
  }

  /** `onclose`: below five attempts, count one more and schedule one
      connect; at five, only report. */
  function Closed(c: Client): (r: Client)
    requires Valid(c)
    ensures Valid(r) && r.ws == Some(ReadyState.Closed) && !r.connected
    ensures c.attempts < MaxAttempts ==> r.attempts == c.attempts + 1 && r.scheduled == c.scheduled + 1
    ensures c.attempts == MaxAttempts ==> r.attempts == c.attempts && r.scheduled == c.scheduled
  {
    var c' := c.(ws := Some(ReadyState.Closed), connected := false);
    if c.attempts < MaxAttempts then c'.(attempts := c.attempts + 1, scheduled := c.scheduled + 1)
    else c'
  }

  /** A scheduled connect fires. */
  function TimerFires(c: Client, throws: bool): (r: Client)
    requires c.scheduled > 0
    ensures r.scheduled == c.scheduled - 1 && r.attempts == c.attempts
  {
    Connect(c.(scheduled := c.scheduled - 1), throws)
  }

  /** The events the script reacts to. */
  datatype Event = OpenEvent | CloseEvent | ErrorEvent | Timer(throws: bool)

  /** One event, with a timer event ignored when nothing is scheduled;
      `onerror` only reports. */
  function Step(c: Client, e: Event): (r: Client)
    requires Valid(c)
    ensures Valid(r)
  {
    match e
    case OpenEvent => Opened(c)
    case CloseEvent => Closed(c)
    case ErrorEvent => c
    case Timer(throws) => if c.scheduled > 0 then TimerFires(c, throws) else c
  }

  function Run(c: Client, es: seq<Event>): (r: Client)
    requires Valid(c)
    ensures Valid(r)
    decreases |es|
  {
    if es == [] then c else Run(Step(c, es[0]), es[1..])
  }

  /** An error event anywhere in a run changes nothing: the socket, the
      counter and the scheduled connects are as if it never came. */
  lemma {:induction false} ErrorsIgnored(c: Client, before: seq<Event>, after: seq<Event>)
    requires Valid(c)
    ensures Run(c, before + [ErrorEvent] + after) == Run(c, before + after)
    decreases |before|
  {
    if before == [] {
      assert before + [ErrorEvent] + after == [ErrorEvent] + after;
      assert ([ErrorEvent] + after)[1..] == after;
      assert before + after == after;
    } else {
      var es := before + [ErrorEvent] + after;
      assert es[0] == before[0] && es[1..] == before[1..] + [ErrorEvent] + after;
      assert (before + after)[0] == before[0] && (before + after)[1..] == before[1..] + after;
      ErrorsIgnored(Step(c, before[0]), before[1..], after);
    }
  }

  /** The counter never leaves 0..5, whatever the events. */
  lemma AttemptsBounded(es: seq<Event>)
    ensures Run(Initial, es).attempts <= MaxAttempts
  {
  }

  /** `k` closes in a row, with no open between them, leave the counter at
      the smaller of its start plus `k` and five, and schedule one connect
      per counted attempt. */
  lemma {:induction false} ClosesCounted(c: Client, k: nat)
    requires Valid(c)
    ensures var r := Run(c, seq(k, _ => CloseEvent));
      && r.attempts == Min(c.attempts + k, MaxAttempts)
      && r.scheduled == c.scheduled + (Min(c.attempts + k, MaxAttempts) - c.attempts)
    decreases k
  {
    if k > 0 {
      var es := seq(k, _ => CloseEvent);
      assert es[1..] == seq(k - 1, _ => CloseEvent);
      ClosesCounted(Closed(c), k - 1);
    }
  }

  /** After an open the script again has five reconnects left. */
  lemma OpenRestoresBudget(c: Client)
    requires Valid(c)
    ensures Run(c, [OpenEvent] + seq(MaxAttempts, _ => CloseEvent)).scheduled == c.scheduled + MaxAttempts
  {
    var es := [OpenEvent] + seq(MaxAttempts, _ => CloseEvent);
    assert es[1..] == seq(MaxAttempts, _ => CloseEvent);
    ClosesCounted(Opened(c), MaxAttempts);
  }

  // ---------------------------------------------------------------- sending

  predicate IsOpen(c: Client) {
    c.ws == Some(Open)
  }

  /** `sendChar`: the data goes out only on an open socket. */
  function SendChar(c: Client, data: string): (sent: Option<string>)
    ensures sent.Some? <==> IsOpen(c)
    ensures sent.Some? ==> sent.value == data
  {
    if IsOpen(c) then Some(data) else None
  }

  /** A key press: its name and whether Ctrl is held. */
  datatype Key = Key(name: string, ctrl: bool)

  /** What the keydown handler does: nothing when the socket is not open,
      let a refresh key through to the browser, or take the key and maybe
      send one character. */
  datatype KeyAction = NotOpen | PassThrough | Taken(sent: Option<string>)

  const Enter: string := "Enter"
  const BackspaceKey: string := "Backspace"
  const TabKey: string := "Tab"
  const DelChar: char := 0x7f as char
  const CtrlCChar: char := 3 as char
  const CtrlDChar: char := 4 as char

  predicate IsRefresh(k: Key) {
    k.name == "F5" || k.name == "F12" || (k.ctrl && k.name == "r")
  }

  /** `String.length` in JavaScript: UTF-16 code units, two for a
      character outside the Basic Multilingual Plane. */
  function Utf16Length(s: string): (n: nat)
    ensures n >= |s|
  {
    if s == [] then 0
    else (if s[0] as int >= 0x1_0000 then 2 else 1) + Utf16Length(s[1..])
  }

  /** One UTF-16 unit is exactly one character of the Basic Multilingual
      Plane. */
  lemma Utf16LengthOne(s: string)
    ensures Utf16Length(s) == 1 <==> |s| == 1 && (s[0] as int) < 0x1_0000
  {
    if |s| > 1 {
      assert Utf16Length(s) >= |s|;
    }
  }

  /** The character a taken key sends, if any. */
  function KeyChar(k: Key): (r: Option<string>)
    ensures r.Some? ==> |r.value| == 1
    ensures r.None? <==> Utf16Length(k.name) != 1 && k.name !in {Enter, BackspaceKey, TabKey}
  {
    if k.name == Enter then Some("\n")
    else if k.name == BackspaceKey then Some([DelChar])
    else if k.name == TabKey then Some("\t")
    else if k.ctrl && k.name == "c" then Some([CtrlCChar])
    else if k.ctrl && k.name == "d" then Some([CtrlDChar])
    else if Utf16Length(k.name) == 1 then
      Utf16LengthOne(k.name);
      Some(k.name)
    else None
  }

  /** The keydown listener. */
  function KeyDown(c: Client, k: Key): (a: KeyAction)
    ensures !IsOpen(c) <==> a == NotOpen
    ensures IsOpen(c) && IsRefresh(k) ==> a == PassThrough
    ensures a.Taken? ==> a.sent == KeyChar(k)
  {
    if !IsOpen(c) then NotOpen
    else if IsRefresh(k) then PassThrough
    else match KeyChar(k)
      case Some(ch) => Taken(SendChar(c, ch))
      case None => Taken(None)
  }

  /** A plain character key sends itself, except that Ctrl with `c` or `d`
      sends the interrupt and end-of-file bytes instead. */
  lemma CharacterKeys(c: Client, k: Key)
    requires IsOpen(c) && Utf16Length(k.name) == 1 && !IsRefresh(k)
    ensures k.ctrl && k.name == "c" ==> KeyDown(c, k) == Taken(Some([CtrlCChar]))
    ensures k.ctrl && k.name == "d" ==> KeyDown(c, k) == Taken(Some([CtrlDChar]))
    ensures !(k.ctrl && k.name in {"c", "d"}) ==> KeyDown(c, k) == Taken(Some(k.name))
  {
    Utf16LengthOne(k.name);
    assert |Enter| != 1 && |BackspaceKey| != 1 && |TabKey| != 1;
  }

  /** Every other named key (arrows, Escape, function keys) sends nothing. */
  lemma NamedKeysSendNothing(c: Client, k: Key)
    requires IsOpen(c) && !IsRefresh(k) && Utf16Length(k.name) != 1
    requires k.name !in {Enter, BackspaceKey, TabKey}
    ensures KeyDown(c, k) == Taken(None)
  {
  }

  /** A key whose value is one character outside the Basic Multilingual
      Plane, such as an emoji from an input method, is two UTF-16 units
      long and sends nothing. */
  lemma AstralKeySendsNothing(c: Client, ch: char)
    requires IsOpen(c) && ch as int >= 0x1_0000
    ensures KeyDown(c, Key([ch], false)) == Taken(None)
  {
    Utf16LengthOne([ch]);
    assert [ch] != Enter && [ch] != BackspaceKey && [ch] != TabKey;
  }

  /** The byte an ASCII character arrives as in a text frame. */
  function ByteOf(ch: char): byte
    requires ch as int < 128
  {
    ch as int
  }

  /** What the special keys do at the server: Enter ends the line,
      Backspace erases, and Tab, Ctrl+C and Ctrl+D change nothing. */
  lemma SpecialKeysAtServer(h: WsHub.Hub)
    requires WsHub.ValidHub(h)
    ensures ByteOf('\n') == LF && ByteOf(DelChar) == WsHub.DEL
    ensures WsHub.HandleByte(h, ByteOf(DelChar)).line == WsHub.Backspace(h.line)
    ensures WsHub.HandleByte(h, ByteOf('\t')) == h
    ensures WsHub.HandleByte(h, ByteOf(CtrlCChar)) == h
    ensures WsHub.HandleByte(h, ByteOf(CtrlDChar)) == h
  {
    WsHub.TabAndInterruptsIgnored(h);
  }

  // ---------------------------------------------------------------- address

  /** The server address: `wss:` under `https:`, `ws:` otherwise, then the
      page's host and the path `/ws`. */
  function Url(protocol: string, host: string): (r: string)
    ensures |r| >= 8
    ensures (protocol == "https:") <==> r[..4] == "wss:"
    ensures protocol == "https:" ==> r == "wss://" + host + "/ws"
    ensures protocol != "https:" ==> r == "ws://" + host + "/ws"
    ensures r[|r| - 3..] == "/ws"
  {
    var scheme := if protocol == "https:" then "wss:" else "ws:";
    var r := scheme + "//" + host + "/ws";
    assert r[2] == (if protocol == "https:" then 's' else ':');
    r
  }

  /** The host part of a server address: what lies between the scheme with
      its `//` and the final `/ws`. */
  function HostOf(url: string): (h: string)
    requires |url| >= 8
    ensures |h| <= |url| - 8
  {
    var start := if |url| >= 9 && url[..4] == "wss:" then 6 else 5;
    url[start..|url| - 3]
  }

  /** The page's host can be read back from the address, under either
      scheme. */
  lemma UrlHostRoundTrip(protocol: string, host: string)
    ensures HostOf(Url(protocol, host)) == host
  {
    var r := Url(protocol, host);
    if protocol == "https:" {
      assert r[6..|r| - 3] == host;
    } else {
      assert r[5..|r| - 3] == host;
    }
  }
}
