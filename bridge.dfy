/**
 * The bridge itself (main.go): the console commands it sends over RCON to
 * register for and unregister from the server's UDP log, the command that
 * relays a room message into the game chat, `execRcon`, and the log
 * listener's reaction to each read.
 */
module Bridge {
  import opened Common
  import opened Net
  import opened Packets
  import opened Rcon
  import opened Clean
  import opened Pipeline

  // ---------------------------------------------------------------------
  // Decimal numbers, as `fmt.Sprint` prints an int
  // ---------------------------------------------------------------------

  const Minus: byte := 0x2D

  /** The decimal digits of `n`, most significant first, without leading zeros. */
  function Digits(n: nat): (r: seq<byte>)
    ensures |r| >= 1
    ensures forall i | 0 <= i < |r| :: IsDigit(r[i])
    ensures r[0] == 0x30 ==> n == 0
    decreases n
  {
    if n < 10 then [0x30 + n] else Digits(n / 10) + [0x30 + n % 10]
  }

  /** The decimal text of `n`, with a minus sign when it is negative. */
  function Decimal(n: int): (r: seq<byte>)
    ensures |r| >= 1 && (r[0] == Minus <==> n < 0)
    ensures forall i | 0 <= i < |r| :: IsDigit(r[i]) || (i == 0 && r[i] == Minus)
  {
    if n < 0 then [Minus] + Digits(-n) else Digits(n)
  }

  /** The value of a string of decimal digits. */
  function DigitsValue(s: seq<byte>): nat
    requires forall i | 0 <= i < |s| :: IsDigit(s[i])
  {
    if s == [] then 0
    else
      var d := s[|s| - 1];
      assert IsDigit(d);
      DigitsValue(s[..|s| - 1]) * 10 + (d - 0x30) as int
  }

  /** Reading a decimal number back: an optional minus sign and at least one digit. */
  function ParseDecimal(s: seq<byte>): Option<int> {
    if s != [] && s[0] == Minus then
      var t := s[1..];
      if t != [] && forall i | 0 <= i < |t| :: IsDigit(t[i]) then Some(0 - DigitsValue(t) as int) else None
    else if s != [] && forall i | 0 <= i < |s| :: IsDigit(s[i]) then Some(DigitsValue(s))
    else None
  }

  lemma {:induction false} DigitsRoundTrip(n: nat)
    ensures DigitsValue(Digits(n)) == n
    decreases n
  {
    if n >= 10 {
      var d := Digits(n);
      assert d[..|d| - 1] == Digits(n / 10);
      DigitsRoundTrip(n / 10);
    }
  }

  /** The printed number reads back as itself. */
  lemma DecimalRoundTrip(n: int)
    ensures ParseDecimal(Decimal(n)) == Some(n)
  {
    if n < 0 {
      DigitsRoundTrip(-n);
      assert Decimal(n)[1..] == Digits(-n);
    } else {
      DigitsRoundTrip(n);
    }
  }

  // ---------------------------------------------------------------------
  // Registration with the server's UDP log
  // ---------------------------------------------------------------------

  const Colon: byte := 0x3A
  const Quote: byte := 0x22
  const AddPrefix: seq<byte> := Ascii("addtolist log_dest_udp \"")
  const RemovePrefix: seq<byte> := Ascii("removefromlist log_dest_udp \"")

  /** `address:port`, the log destination this bridge listens on. */
  function Destination(address: seq<byte>, port: int): seq<byte> {
    address + [Colon] + Decimal(port)
  }

  /** `addToRcon`'s command: add the listen address to `log_dest_udp`. */
  function AddCommand(address: seq<byte>, port: int): seq<byte> {
    AddPrefix + Destination(address, port) + [Quote]
  }

  /** `removeFromRcon`'s command: remove it again. */
  function RemoveCommand(address: seq<byte>, port: int): seq<byte> {
    RemovePrefix + Destination(address, port) + [Quote]
  }

  /** The index of the last occurrence of `x` in `s`. */
  function LastIndexOf(s: seq<byte>, x: byte): (r: Option<nat>)
    ensures r.Some? ==> r.value < |s| && s[r.value] == x && x !in s[r.value + 1..]
    ensures r.None? ==> x !in s
  {
    if s == [] then None
    else if s[|s| - 1] == x then Some(|s| - 1)
    else LastIndexOf(s[..|s| - 1], x)
  }

  lemma {:induction false} LastIndexOfBefore(a: seq<byte>, x: byte, b: seq<byte>)
    requires x !in b
    ensures LastIndexOf(a + [x] + b, x) == Some(|a|)
    decreases |b|
  {
    var s := a + [x] + b;
    if b != [] {
      assert s[..|s| - 1] == a + [x] + b[..|b| - 1];
      LastIndexOfBefore(a, x, b[..|b| - 1]);
    }
  }

  /** How the server would read a log destination: the address before the last colon and the port after it. */
  function ParseDestination(s: seq<byte>): Option<(seq<byte>, int)> {
    match LastIndexOf(s, Colon)
    case None => None
    case Some(k) =>
      match ParseDecimal(s[k + 1..])
      case None => None
      case Some(port) => Some((s[..k], port))
  }

  datatype ListCommand = AddToList(address: seq<byte>, port: int) | RemoveFromList(address: seq<byte>, port: int)

  /** The destination in `prefix + destination + "\""`, if `c` has that shape. */
  function ParseQuoted(c: seq<byte>, prefix: seq<byte>): Option<(seq<byte>, int)> {
    if |prefix| < |c| && HasPrefix(c, prefix) && c[|c| - 1] == Quote then ParseDestination(c[|prefix|..|c| - 1])
    else None
  }

  /** The reading of a registration command. */
  function ParseListCommand(c: seq<byte>): Option<ListCommand> {
    match ParseQuoted(c, AddPrefix)
    case Some((address, port)) => Some(AddToList(address, port))
    case None =>
      match ParseQuoted(c, RemovePrefix)
      case Some((address, port)) => Some(RemoveFromList(address, port))
      case None => None
  }

  lemma DestinationRoundTrip(address: seq<byte>, port: int)
    ensures ParseDestination(Destination(address, port)) == Some((address, port))
  {
    var d := Decimal(port);
    assert Colon !in d;
    LastIndexOfBefore(address, Colon, d);
    var s := Destination(address, port);
    assert s[|address| + 1..] == d;
    assert s[..|address|] == address;
    DecimalRoundTrip(port);
  }

  lemma QuotedRoundTrip(prefix: seq<byte>, address: seq<byte>, port: int)
    ensures ParseQuoted(prefix + Destination(address, port) + [Quote], prefix) == Some((address, port))
  {
    var dest := Destination(address, port);
    var c := prefix + dest + [Quote];
    assert c[..|prefix|] == prefix;
    assert c[|prefix|..|c| - 1] == dest;
    DestinationRoundTrip(address, port);
  }

  lemma PrefixesDiffer()
    ensures |AddPrefix| > 0 && |RemovePrefix| > 0 && AddPrefix[0] != RemovePrefix[0]
  {
  }

  /**
   * Both registration commands read back as what they ask for, with the
   * same address and port: the command is cut at its last quote and the
   * destination at its last colon.
   */
  lemma ListCommandRoundTrip(address: seq<byte>, port: int)
    ensures ParseListCommand(AddCommand(address, port)) == Some(AddToList(address, port))
    ensures ParseListCommand(RemoveCommand(address, port)) == Some(RemoveFromList(address, port))
  {
    QuotedRoundTrip(AddPrefix, address, port);
    QuotedRoundTrip(RemovePrefix, address, port);
    var remove := RemoveCommand(address, port);
    PrefixesDiffer();
    assert remove[0] == RemovePrefix[0];
    assert !HasPrefix(remove, AddPrefix);
  }

  /** Different destinations give different commands. */
  lemma AddCommandInjective(a1: seq<byte>, p1: int, a2: seq<byte>, p2: int)
    requires AddCommand(a1, p1) == AddCommand(a2, p2)
    ensures a1 == a2 && p1 == p2
  {
    ListCommandRoundTrip(a1, p1);
    ListCommandRoundTrip(a2, p2);
  }

  // ---------------------------------------------------------------------
  // Relaying a room message into the game
  // ---------------------------------------------------------------------

  /** The class of a Matrix event type. */
  datatype EventClass = MessageEvent | StateEvent | EphemeralEvent | AccountDataEvent | ToDeviceEvent | UnknownEvent

  /**
   * The fields of a Matrix event the handler reads. `senderUri` is the
   * sender's ID as its Matrix URI writes it, without the sigil
   * (`localpart:server`).
   */
  datatype MatrixEvent = MatrixEvent(timestamp: int, kind: EventClass, roomId: seq<byte>,
                                     sender: seq<byte>, senderUri: seq<byte>, body: seq<byte>)

  /** `strings.Split(uri, ":")[0]`: the text before the first colon. */
  function Localpart(uri: seq<byte>): (r: seq<byte>)
    ensures HasPrefix(uri, r) && Colon !in r
    ensures r == uri || uri[|r|] == Colon
  {
    match IndexOf(uri, Colon)
    case None => uri
    case Some(k) => uri[..k]
  }

  const SayPrefix: seq<byte> := Ascii("settemp sv_adminnick \"[M] ")
  const SayMiddle: seq<byte> := Ascii("\"; say \"")
  const SaySuffix: seq<byte> := Ascii("\"; settemp_restore sv_adminnick")

  /**
   * The console command that says `body` in the game chat under the
   * temporary admin nick `[M] sender`. The body goes in as it is: quotes
   * and semicolons in it are not escaped.
   */
  function SayCommand(sender: seq<byte>, body: seq<byte>): seq<byte> {
    SayPrefix + sender + SayMiddle + body + SaySuffix
  }

  /**
   * The command the message handler passes to `execRcon` for an event, if
   * any: events from before the bridge started, of another class than
   * message, from another room or sent by the bridge itself are ignored.
   */
  function RelayCommand(start: int, self: seq<byte>, room: seq<byte>, e: MatrixEvent): (r: Option<seq<byte>>)
    ensures r.Some? <==> e.timestamp >= start && e.kind == MessageEvent && e.roomId == room && e.sender != self
  {
    if start > e.timestamp then None
    else if e.kind != MessageEvent then None
    else if e.roomId != room then None
    else if e.sender == self then None
    else Some(SayCommand(Localpart(e.senderUri), e.body))
  }

  /**
   * `c` read as `prefix + name + middle + line + suffix`, where the name
   * ends at the first quote, which must begin `middle`.
   */
  function ParseFramed(c: seq<byte>, prefix: seq<byte>, middle: seq<byte>, suffix: seq<byte>): Option<(seq<byte>, seq<byte>)> {
    if !HasPrefix(c, prefix) || !HasSuffix(c[|prefix|..], suffix) then None
    else
      var inner := c[|prefix|..|c| - |suffix|];
      match IndexOf(inner, Quote)
      case None => None
      case Some(k) =>
        if HasPrefix(inner[k..], middle) then Some((inner[..k], inner[k + |middle|..])) else None
  }

  /**
   * The relay command taken apart at its fixed framing: the nick's name up
   * to the first quote, and everything between `"; say "` and the closing
   * `"; settemp_restore sv_adminnick`.
   */
  function ParseSayCommand(c: seq<byte>): Option<(seq<byte>, seq<byte>)> {
    ParseFramed(c, SayPrefix, SayMiddle, SaySuffix)
  }

  const CR: byte := 0x0D

  /**
   * A byte that ends a quoted console argument: the closing quote, or a
   * line break, which also ends the whole command line.
   */
  predicate EndsArgument(x: byte) {
    x == Quote || x == NL || x == CR
  }

  /** No byte of `s` ends a quoted argument. */
  predicate InsideArgument(s: seq<byte>) {
    forall i | 0 <= i < |s| :: !EndsArgument(s[i])
  }

  /** `b` up to the first byte that ends a quoted argument: what of `b` the console keeps inside one. */
  function QuotedArgument(b: seq<byte>): (r: seq<byte>)
    ensures HasPrefix(b, r) && InsideArgument(r)
    ensures r == b <==> InsideArgument(b)
    ensures r != b ==> EndsArgument(b[|r|])
  {
    if b == [] || EndsArgument(b[0]) then []
    else [b[0]] + QuotedArgument(b[1..])
  }

  /**
   * The model's reading of a relay command by the game console: the nick
   * argument runs to its closing quote, `"; say "` must follow it, and the
   * said text is the quoted argument after it.
   */
  function ConsoleSay(c: seq<byte>): Option<(seq<byte>, seq<byte>)> {
    ConsoleQuoted(c, SayPrefix, SayMiddle)
  }

  /** `c` read as `prefix`, a quoted name closed where `middle` begins, then a quoted argument. */
  function ConsoleQuoted(c: seq<byte>, prefix: seq<byte>, middle: seq<byte>): Option<(seq<byte>, seq<byte>)> {
    if !HasPrefix(c, prefix) then None
    else
      var rest := c[|prefix|..];
      var name := QuotedArgument(rest);
      if HasPrefix(rest[|name|..], middle) then Some((name, QuotedArgument(rest[|name| + |middle|..]))) else None
  }

  lemma ConsoleQuotedRead(prefix: seq<byte>, name: seq<byte>, middle: seq<byte>, body: seq<byte>, suffix: seq<byte>)
    requires InsideArgument(name) && |middle| > 0 && middle[0] == Quote && |suffix| > 0 && suffix[0] == Quote
    ensures ConsoleQuoted(prefix + name + middle + body + suffix, prefix, middle) == Some((name, QuotedArgument(body)))
  {
    var c := prefix + name + middle + body + suffix;
    var tail := middle + (body + suffix);
    assert c == prefix + (name + tail);
    ArgumentBefore(name, tail);
    ArgumentBefore(body, suffix);
    ConsoleQuotedOf(c, prefix, name, middle, body + suffix);
  }

  /** The reading of `prefix + name + middle + tail` once the name is known to end where `middle` begins. */
  lemma ConsoleQuotedOf(c: seq<byte>, prefix: seq<byte>, name: seq<byte>, middle: seq<byte>, tail: seq<byte>)
    requires c == prefix + (name + (middle + tail))
    requires QuotedArgument(name + (middle + tail)) == name
    ensures ConsoleQuoted(c, prefix, middle) == Some((name, QuotedArgument(tail)))
  {
    var rest := name + (middle + tail);
    assert c[|prefix|..] == rest;
    assert rest[|name|..] == middle + tail;
    assert rest[|name| + |middle|..] == tail;
  }

  /** A byte that ends the argument right after `b` ends it where `b` alone would. */
  lemma {:induction false} ArgumentBefore(b: seq<byte>, t: seq<byte>)
    requires |t| > 0 && EndsArgument(t[0])
    ensures QuotedArgument(b + t) == QuotedArgument(b)
  {
    if b == [] {
      assert (b + t)[0] == t[0];
    } else if !EndsArgument(b[0]) {
      assert (b + t)[1..] == b[1..] + t;
      ArgumentBefore(b[1..], t);
    } else {
      assert (b + t)[0] == b[0];
    }
  }

  lemma NameThenMiddle(name: seq<byte>, middle: seq<byte>, tail: seq<byte>)
    requires Quote !in name && |middle| > 0 && middle[0] == Quote
    ensures var rest := name + middle + tail;
            && IndexOf(rest, Quote) == Some(|name|)
            && rest[..|name|] == name
            && HasPrefix(rest[|name|..], middle)
            && rest[|name| + |middle|..] == tail
  {
    var rest := name + middle + tail;
    assert rest == name + [Quote] + (middle[1..] + tail);
    IndexOfAfter(name, Quote, middle[1..] + tail);
    assert rest[|name|..] == middle + tail;
  }

  lemma FramedRoundTrip(prefix: seq<byte>, name: seq<byte>, middle: seq<byte>, line: seq<byte>, suffix: seq<byte>)
    requires Quote !in name && |middle| > 0 && middle[0] == Quote
    ensures ParseFramed(prefix + name + middle + line + suffix, prefix, middle, suffix) == Some((name, line))
  {
    var inner := name + middle + line;
    assert prefix + name + middle + line + suffix == prefix + inner + suffix;
    Framed(prefix, inner, suffix);
    NameThenMiddle(name, middle, line);
  }

  lemma Framed(prefix: seq<byte>, inner: seq<byte>, suffix: seq<byte>)
    ensures var c := prefix + inner + suffix;
            && HasPrefix(c, prefix)
            && HasSuffix(c[|prefix|..], suffix)
            && c[|prefix|..|c| - |suffix|] == inner
  {
    var c := prefix + inner + suffix;
    assert c[|prefix|..] == inner + suffix;
    assert (inner + suffix)[|inner|..] == suffix;
  }

  lemma SayMiddleQuoted()
    ensures |SayMiddle| > 0 && SayMiddle[0] == Quote
    ensures |SaySuffix| > 0 && SaySuffix[0] == Quote
  {
  }

  /**
   * The relay command keeps the nick's name and the body apart: its framing
   * gives both back. For a name the console keeps whole, it sets the nick
   * to the name and says the body only up to its first quote or line
   * break: all of it exactly when it holds none, a proper prefix otherwise.
   */
  lemma SayCommandRoundTrip(sender: seq<byte>, body: seq<byte>)
    requires Quote !in sender
    ensures ParseSayCommand(SayCommand(sender, body)) == Some((sender, body))
    ensures InsideArgument(sender) ==> ConsoleSay(SayCommand(sender, body)) == Some((sender, QuotedArgument(body)))
    ensures InsideArgument(body) <==> QuotedArgument(body) == body
    ensures !InsideArgument(body) ==> |QuotedArgument(body)| < |body|
  {
    SayMiddleQuoted();
    FramedRoundTrip(SayPrefix, sender, SayMiddle, body, SaySuffix);
    if InsideArgument(sender) {
      ConsoleQuotedRead(SayPrefix, sender, SayMiddle, body, SaySuffix);
    }
  }

  /** Different names or bodies give different relay commands. */
  lemma SayCommandInjective(s1: seq<byte>, b1: seq<byte>, s2: seq<byte>, b2: seq<byte>)
    requires Quote !in s1 && Quote !in s2
    requires SayCommand(s1, b1) == SayCommand(s2, b2)
    ensures s1 == s2 && b1 == b2
  {
    SayCommandRoundTrip(s1, b1);
    SayCommandRoundTrip(s2, b2);
  }

  /**
   * A relayed event reaches the console as the command for the sender's
   * localpart and the body. When the localpart holds no quote or line
   * break, the game says, under `[M] ` and that localpart, the body whole
   * when it holds none either, and only the part before the first
   * otherwise.
   */
  lemma RelayCommandSays(start: int, self: seq<byte>, room: seq<byte>, e: MatrixEvent)
    requires RelayCommand(start, self, room, e).Some?
    requires Quote !in Localpart(e.senderUri)
    ensures ParseSayCommand(RelayCommand(start, self, room, e).value) == Some((Localpart(e.senderUri), e.body))
    ensures InsideArgument(Localpart(e.senderUri)) ==>
              ConsoleSay(RelayCommand(start, self, room, e).value) == Some((Localpart(e.senderUri), QuotedArgument(e.body)))
    ensures InsideArgument(Localpart(e.senderUri)) && InsideArgument(e.body) ==>
              ConsoleSay(RelayCommand(start, self, room, e).value).value.1 == e.body
  {
    SayCommandRoundTrip(Localpart(e.senderUri), e.body);
  }

  // ---------------------------------------------------------------------
  // execRcon
  // ---------------------------------------------------------------------

  /** The size of the first buffer `io.ReadAll` reads into. */
  const ReadAllChunk: nat := 512

  /**
   * `execRcon`: run the command and collect the replies. When the exchange
   * fails the result is empty and the error is returned; otherwise the
   * reply payloads are read until the reading fails, and that error is
   * dropped.
   */
  method ExecRcon(server: ServerConfig, cmd: seq<byte>, dialError: Option<NetError>, conn: Conn,
                  timeStr: seq<byte>, hmac: Hmac)
    returns (result: seq<byte>, err: Option<NetError>)
    modifies conn
    ensures var x := Exchanged(server, cmd, dialError, old(conn.incoming), conn.writeError, timeStr, hmac);
            && conn.sent == old(conn.sent) + x.sent
            && err == x.err
            && (err.Some? ==> result == [] && conn.incoming == x.rest)
            && (err.None? ==> result == Drain(x.rest).bytes && conn.incoming == Drain(x.rest).rest)
  {
    var reader;
    reader, err := Execute(server, cmd, dialError, conn, timeStr, hmac);
    if err.Some? {
      return [], err;
    }
    var readError;
    result, readError := ReadAll(reader, ReadAllChunk);
  }

  /** `addToRcon`: ask the server to copy its log to `address:port`. */
  method AddToRcon(server: ServerConfig, address: seq<byte>, port: int, dialError: Option<NetError>, conn: Conn,
                   timeStr: seq<byte>, hmac: Hmac)
    returns (err: Option<NetError>)
    modifies conn
    ensures var x := Exchanged(server, AddCommand(address, port), dialError, old(conn.incoming), conn.writeError, timeStr, hmac);
            conn.sent == old(conn.sent) + x.sent && err == x.err
  {
    var reply;
    reply, err := ExecRcon(server, AddCommand(address, port), dialError, conn, timeStr, hmac);
  }

  /** `removeFromRcon`: ask the server to stop copying its log to `address:port`. */
  method RemoveFromRcon(server: ServerConfig, address: seq<byte>, port: int, dialError: Option<NetError>, conn: Conn,
                        timeStr: seq<byte>, hmac: Hmac)
    returns (err: Option<NetError>)
    modifies conn
    ensures var x := Exchanged(server, RemoveCommand(address, port), dialError, old(conn.incoming), conn.writeError, timeStr, hmac);
            conn.sent == old(conn.sent) + x.sent && err == x.err
  {
    var reply;
    reply, err := ExecRcon(server, RemoveCommand(address, port), dialError, conn, timeStr, hmac);
  }

  /**
   * The room-message handler: an event that passes the filters is said in
   * the game through `execRcon`; any other event sends nothing.
   */
  method OnMessage(start: int, self: seq<byte>, room: seq<byte>, e: MatrixEvent,
                   server: ServerConfig, dialError: Option<NetError>, conn: Conn, timeStr: seq<byte>, hmac: Hmac)
    returns (err: Option<NetError>)
    modifies conn
    ensures RelayCommand(start, self, room, e).None? ==>
              conn.sent == old(conn.sent) && conn.incoming == old(conn.incoming) && err.None?
    ensures RelayCommand(start, self, room, e).Some? ==>
              var x := Exchanged(server, RelayCommand(start, self, room, e).value, dialError,
                                 old(conn.incoming), conn.writeError, timeStr, hmac);
              conn.sent == old(conn.sent) + x.sent && err == x.err
  {
    var cmd := RelayCommand(start, self, room, e);
    if cmd.None? {
      return None;
    }
    var reply;
    reply, err := ExecRcon(server, cmd.value, dialError, conn, timeStr, hmac);
  }

  // ---------------------------------------------------------------------
  // The log listener
  // ---------------------------------------------------------------------

  /** What one turn of the listener loop sees. */
  datatype ListenerEvent =
    | DeadlineFailed(err: NetError)
    | ReadFailed(err: NetError)
    | Received(datagram: seq<byte>)

  /** What `f` yields for each turn, concatenated in the order of the turns. */
  function Collect(evs: seq<ListenerEvent>, f: ListenerEvent -> seq<seq<byte>>): seq<seq<byte>> {
    if evs == [] then [] else f(evs[0]) + Collect(evs[1..], f)
  }

  /** The registration one turn makes: the add command after a read timeout. */
  function RegistrationOf(address: seq<byte>, port: int): ListenerEvent -> seq<seq<byte>> {
    ev => if ev == ReadFailed(Timeout) then [AddCommand(address, port)] else []
  }

  /** The registrations a run of the loop makes. */
  function Registrations(evs: seq<ListenerEvent>, address: seq<byte>, port: int): seq<seq<byte>> {
    Collect(evs, RegistrationOf(address, port))
  }

  /** The number of reads that timed out. */
  function Timeouts(evs: seq<ListenerEvent>): nat {
    if evs == [] then 0 else (if evs[0] == ReadFailed(Timeout) then 1 else 0) + Timeouts(evs[1..])
  }

  /** The texts one turn posts: those of the chat lines of the datagram it received, if any. */
  function TurnPosts(ev: ListenerEvent, table: DecodeTable): seq<seq<byte>> {
    if ev.Received? then OutboundTexts(DatagramLines(Truncated(ev.datagram, XonMSS)), table) else []
  }

  /** `TurnPosts` as a function of the turn alone. */
  function PostsOf(table: DecodeTable): ListenerEvent -> seq<seq<byte>> {
    ev => TurnPosts(ev, table)
  }

  /** The texts a run of the loop posts. */
  function Posts(evs: seq<ListenerEvent>, table: DecodeTable): seq<seq<byte>> {
    Collect(evs, PostsOf(table))
  }

  /**
   * The listener re-registers exactly once per read timeout and never
   * otherwise: its registrations are that many copies of the add command.
   */
  lemma {:induction false} RegistrationsPerTimeout(evs: seq<ListenerEvent>, address: seq<byte>, port: int)
    ensures Registrations(evs, address, port) == seq(Timeouts(evs), _ => AddCommand(address, port))
  {
    if evs != [] {
      RegistrationsPerTimeout(evs[1..], address, port);
    }
  }

  class LogListener {
    const address: seq<byte>
    const port: int
    const table: DecodeTable
    /** Every command handed to `execRcon`, in order. */
    var commands: seq<seq<byte>>
    /** Every text handed to `SendText`, in order. */
    var posted: seq<seq<byte>>
    /** The startup registration failed and the process exited. */
    var exited: bool

    /** `startXonotic`'s start: register with the server; failing that is fatal. */
    constructor (address: seq<byte>, port: int, table: DecodeTable, startupError: Option<NetError>)
      ensures this.address == address && this.port == port && this.table == table
      ensures commands == [AddCommand(address, port)] && posted == []
      ensures exited == startupError.Some?
    {
      this.address := address;
      this.port := port;
      this.table := table;
      commands := [AddCommand(address, port)];
      posted := [];
      exited := startupError.Some?;
    }

    /** The message loop over one datagram: post a text for each chat line. */
    method ProcessDatagram(d: seq<byte>)
      modifies this
      ensures posted == old(posted) + OutboundTexts(DatagramLines(d), table)
      ensures commands == old(commands) && exited == old(exited)
    {
      PostLines(DatagramLines(d));
    }

    /** The inner loop: each line that matches the chat pattern posts its text. */
    method PostLines(messages: seq<seq<byte>>)
      modifies this
      ensures posted == old(posted) + OutboundTexts(messages, table)
      ensures commands == old(commands) && exited == old(exited)
    {
      for i := 0 to |messages|
        invariant posted == old(posted) + OutboundTexts(messages[..i], table)
        invariant commands == old(commands) && exited == old(exited)
      {
        OutboundTextsStep(old(posted), messages, i, table);
        PostLine(messages[i]);
      }
      assert messages[..|messages|] == messages;
    }

    /** The body of the inner loop: a line that matches the chat pattern posts its cleaned, formatted text. */
    method PostLine(line: seq<byte>)
      modifies this
      ensures posted == old(posted) + LineTexts(line, table)
      ensures commands == old(commands) && exited == old(exited)
    {
      var chat := ChatMatch(line);
      if chat.Some? {
        var speaker := CleanXonoticText(chat.value.speaker, table);
        var message := CleanXonoticText(chat.value.message, table);
        posted := posted + [Format(speaker, message)];
      }
    }

    /** One turn of the loop. */
    method Step(ev: ListenerEvent)
      requires !exited
      modifies this
      ensures commands == old(commands) + (if ev == ReadFailed(Timeout) then [AddCommand(address, port)] else [])
      ensures posted == old(posted) + TurnPosts(ev, table)
      ensures exited == old(exited)
    {
      match ev {
        case DeadlineFailed(_) =>
        case ReadFailed(e) =>
          if e.Timeout? {
            commands := commands + [AddCommand(address, port)];
          }
        case Received(d) =>
          Receive(d);
      }
    }

    /** A turn that read a datagram: its first `XonMSS` bytes are processed. */
    method Receive(d: seq<byte>)
      modifies this
      ensures posted == old(posted) + TurnPosts(Received(d), table)
      ensures commands == old(commands) && exited == old(exited)
    {
      ProcessDatagram(Truncated(d, XonMSS));
    }

    /** The loop over a sequence of turns. */
    method Run(evs: seq<ListenerEvent>)
      requires !exited
      modifies this
      ensures commands == old(commands) + Registrations(evs, address, port)
      ensures posted == old(posted) + Posts(evs, table)
    {
      for i := 0 to |evs|
        invariant !exited
        invariant commands == old(commands) + Registrations(evs[..i], address, port)
        invariant posted == old(posted) + Posts(evs[..i], table)
      {
        Step(evs[i]);
        CollectStep(old(commands), evs, i, RegistrationOf(address, port));
        CollectStep(old(posted), evs, i, PostsOf(table));
      }
      assert evs[..|evs|] == evs;
    }

    /** `removeFromRcon` at shutdown. */
    method Shutdown()
      modifies this
      ensures commands == old(commands) + [RemoveCommand(address, port)]
      ensures posted == old(posted) && exited == old(exited)
    {
      commands := commands + [RemoveCommand(address, port)];
    }

  }

  /** One more turn adds that turn's output after the earlier ones. */
  lemma CollectStep(base: seq<seq<byte>>, evs: seq<ListenerEvent>, i: nat, f: ListenerEvent -> seq<seq<byte>>)
    requires i < |evs|
    ensures base + Collect(evs[..i], f) + f(evs[i]) == base + Collect(evs[..i + 1], f)
  {
    var before, ev := evs[..i], evs[i];
    assert evs[..i + 1] == before + [ev];
    CollectAppend(before, [ev], f);
    var none: seq<ListenerEvent> := [];
    assert [ev][1..] == none;
    assert Collect([ev], f) == f(ev) + Collect(none, f);
    assert base + Collect(before, f) + f(ev) == base + (Collect(before, f) + f(ev));
  }

  /** Collecting over two runs in a row is collecting over each, in order. */
  lemma {:induction false} CollectAppend(a: seq<ListenerEvent>, b: seq<ListenerEvent>, f: ListenerEvent -> seq<seq<byte>>)
    ensures Collect(a + b, f) == Collect(a, f) + Collect(b, f)
  {
    if a != [] {
      assert (a + b)[1..] == a[1..] + b;
      CollectAppend(a[1..], b, f);
    } else {
      assert a + b == b;
    }
  }
}
