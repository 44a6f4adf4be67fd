/**
 * The RCON client of rcon.go: the packet writers over a caller's buffer,
 * the challenge handshake and mode dispatch of `rconExecute`, and
 * `rconReader`, which hands out the payloads of "FF FF FF FF n" reply
 * datagrams in caller-sized pieces.
 */
module Rcon {
  import opened Common
  import opened Net
  import opened Packets

  /** `ServerConfig`: where the game server is and how to authenticate to it. */
  datatype ServerConfig = ServerConfig(server: seq<byte>, port: int, rconPassword: seq<byte>, rconMode: int)

  /** The growing byte buffer the packet writers append to (`bytes.Buffer`). */
  class Buffer {
    var bytes: seq<byte>

    constructor ()
      ensures bytes == []
    {
      bytes := [];
    }

    method Write(s: seq<byte>)
      modifies this
      ensures bytes == old(bytes) + s
    {
      bytes := bytes + s;
    }
  }

  method RconNonSecurePacket(command: seq<byte>, password: seq<byte>, buf: Buffer)
    modifies buf
    ensures buf.bytes == old(buf.bytes) + PlainPacket(command, password)
  {
    buf.Write(QHeader);
    buf.Write(PlainTag);
    assert buf.bytes == old(buf.bytes) + (QHeader + PlainTag);
    buf.Write(password);
    assert buf.bytes == old(buf.bytes) + (QHeader + PlainTag + password);
    buf.Write(Space);
    assert buf.bytes == old(buf.bytes) + (QHeader + PlainTag + password + Space);
    buf.Write(command);
  }

  /** `timeStr` stands for the formatted wall-clock time, which is not modelled. */
  method RconSecureTimePacket(command: seq<byte>, password: seq<byte>, timeStr: seq<byte>, hmac: Hmac, buf: Buffer)
    modifies buf
    ensures buf.bytes == old(buf.bytes) + TimePacket(command, password, timeStr, hmac)
  {
    var mac := hmac(password, timeStr + Space + command);
    ghost var packet := QHeader;
    buf.Write(QHeader);
    AppendStep(old(buf.bytes), packet, TimeTag);
    buf.Write(TimeTag);
    packet := packet + TimeTag;
    AppendStep(old(buf.bytes), packet, mac);
    buf.Write(mac);
    packet := packet + mac;
    AppendStep(old(buf.bytes), packet, Space);
    buf.Write(Space);
    packet := packet + Space;
    AppendStep(old(buf.bytes), packet, timeStr);
    buf.Write(timeStr);
    packet := packet + timeStr;
    AppendStep(old(buf.bytes), packet, Space);
    buf.Write(Space);
    packet := packet + Space;
    AppendStep(old(buf.bytes), packet, command);
    buf.Write(command);
  }

  method RconSecureChallengePacket(command: seq<byte>, password: seq<byte>, challenge: seq<byte>, hmac: Hmac, buf: Buffer)
    modifies buf
    ensures buf.bytes == old(buf.bytes) + ChallengePacket(command, password, challenge, hmac)
  {
    var mac := hmac(password, challenge + Space + command);
    ghost var packet := QHeader;
    buf.Write(QHeader);
    AppendStep(old(buf.bytes), packet, ChallengeTag);
    buf.Write(ChallengeTag);
    packet := packet + ChallengeTag;
    AppendStep(old(buf.bytes), packet, mac);
    buf.Write(mac);
    packet := packet + mac;
    AppendStep(old(buf.bytes), packet, Space);
    buf.Write(Space);
    packet := packet + Space;
    AppendStep(old(buf.bytes), packet, challenge);
    buf.Write(challenge);
    packet := packet + challenge;
    AppendStep(old(buf.bytes), packet, Space);
    buf.Write(Space);
    packet := packet + Space;
    AppendStep(old(buf.bytes), packet, command);
    buf.Write(command);
  }

  /** Writing `s` after `packet` has been written extends the written packet by `s`. */
  lemma AppendStep(start: seq<byte>, packet: seq<byte>, s: seq<byte>)
    ensures start + packet + s == start + (packet + s)
  {
  }

  // ---------------------------------------------------------------------
  // Challenge replies
  // ---------------------------------------------------------------------

  /**
   * The token of a challenge reply: the bytes after "FF FF FF FF challenge "
   * up to the first NUL. A reply without a NUL yields the EMPTY token.
   */
  function ChallengeToken(d: seq<byte>): (token: seq<byte>)
    requires HasPrefix(d, ChallengeHeader)
    ensures 0 !in token
    ensures HasPrefix(d[|ChallengeHeader|..], token)
    ensures 0 in d[|ChallengeHeader|..] ==> |ChallengeHeader| + |token| < |d| && d[|ChallengeHeader| + |token|] == 0
    ensures 0 !in d[|ChallengeHeader|..] ==> token == []
  {
    var body := d[|ChallengeHeader|..];
    match IndexOf(body, 0)
    case Some(k) => body[..k]
    case None => []
  }

  /** The index loop of `rconExecute` that finds the end of the challenge. */
  method ExtractChallenge(d: seq<byte>) returns (challenge: seq<byte>)
    requires HasPrefix(d, ChallengeHeader)
    ensures challenge == ChallengeToken(d)
  {
    var challengeEnd := |ChallengeHeader|;
    var i := |ChallengeHeader|;
    while i < |d|
      invariant |ChallengeHeader| <= i <= |d|
      invariant challengeEnd == |ChallengeHeader|
      invariant 0 !in d[|ChallengeHeader|..i]
    {
      if d[i] == 0 {
        challengeEnd := i;
        break;
      }
      i := i + 1;
    }
    challenge := d[|ChallengeHeader|..challengeEnd];
    assert d[|ChallengeHeader|..] == d[|ChallengeHeader|..i] + d[i..];
  }

  // ---------------------------------------------------------------------
  // Scanning the datagrams a connection delivers
  // ---------------------------------------------------------------------

  /** A read result that is a datagram without the expected prefix, which the readers skip. */
  predicate Foreign(r: ReadResult, prefix: seq<byte>) {
    r.Datagram? && !HasPrefix(Truncated(r.payload, XonMSS), prefix)
  }

  datatype Scanned =
    | Found(datagram: seq<byte>, rest: seq<ReadResult>)
    | Failed(err: NetError, rest: seq<ReadResult>)

  /**
   * Reading datagrams until one starts with `prefix`, as both read loops of
   * rcon.go do; `rest` is what is left unread.
   */
  function Scan(rs: seq<ReadResult>, prefix: seq<byte>): (r: Scanned)
    ensures |r.rest| <= |rs| && r.rest == rs[|rs| - |r.rest|..]
    ensures rs != [] ==> |r.rest| < |rs|
    ensures r.Found? ==> HasPrefix(r.datagram, prefix)
    decreases |rs|
  {
    if rs == [] then Failed(Timeout, [])
    else match rs[0]
      case Failure(e) => Failed(e, rs[1..])
      case Datagram(d) =>
        var t := Truncated(d, XonMSS);
        if HasPrefix(t, prefix) then Found(t, rs[1..])
        else
          var r := Scan(rs[1..], prefix);
          assert r.rest == rs[|rs| - |r.rest|..];
          r
  }

  /**
   * What scanning delivers: the first datagram (as read into the XonMSS
   * buffer) that starts with `prefix`, with every foreign datagram before
   * it dropped, or the first read error; with nothing left to read, a
   * time-out.
   */
  predicate ScanOutcome(rs: seq<ReadResult>, prefix: seq<byte>, r: Scanned)
    requires |r.rest| <= |rs|
  {
    var i := |rs| - |r.rest| - 1;
    && (r.Found? ==>
          && 0 <= i
          && rs[i].Datagram?
          && r.datagram == Truncated(rs[i].payload, XonMSS)
          && HasPrefix(r.datagram, prefix)
          && forall j | 0 <= j < i :: Foreign(rs[j], prefix))
    && (r.Failed? ==>
          || (r == Failed(Timeout, []) && forall j | 0 <= j < |rs| :: Foreign(rs[j], prefix))
          || (&& 0 <= i
              && rs[i] == Failure(r.err)
              && forall j | 0 <= j < i :: Foreign(rs[j], prefix)))
  }

  lemma {:induction false} ScanStops(rs: seq<ReadResult>, prefix: seq<byte>)
    ensures ScanOutcome(rs, prefix, Scan(rs, prefix))
    decreases |rs|
  {
    if rs != [] && rs[0].Datagram? && !HasPrefix(Truncated(rs[0].payload, XonMSS), prefix) {
      ScanStops(rs[1..], prefix);
      assert forall j | 1 <= j < |rs| :: rs[j] == rs[1..][j - 1];
    }
  }

  /** What a reply datagram delivers: everything after its 5-byte header. */
  function Payload(d: seq<byte>): seq<byte>
    requires HasPrefix(d, RconResponseHeader)
  {
    d[|RconResponseHeader|..]
  }

  datatype Drained = Drained(bytes: seq<byte>, err: NetError, rest: seq<ReadResult>)

  /**
   * Reading replies until a read fails: the payloads in arrival order, the
   * error that ended the reading and the results left unread.
   */
  function Drain(rs: seq<ReadResult>): Drained
    decreases |rs|
  {
    match Scan(rs, RconResponseHeader)
    case Failed(e, rest) => Drained([], e, rest)
    case Found(d, rest) =>
      var t := Drain(rest);
      Drained(Payload(d) + t.bytes, t.err, t.rest)
  }

  /** Reference definition: the payloads of the reply datagrams before the first read error. */
  function Payloads(rs: seq<ReadResult>): seq<byte> {
    if rs == [] then []
    else match rs[0]
      case Failure(_) => []
      case Datagram(d) =>
        var t := Truncated(d, XonMSS);
        (if HasPrefix(t, RconResponseHeader) then Payload(t) else []) + Payloads(rs[1..])
  }

  /**
   * The bytes a reader hands out are the reply payloads concatenated in
   * arrival order, headers removed and foreign datagrams skipped.
   */
  lemma {:induction false} DrainIsPayloads(rs: seq<ReadResult>)
    ensures Drain(rs).bytes == Payloads(rs)
  {
    if rs != [] {
      match rs[0]
      case Failure(e) =>
        DrainStops(rs);
      case Datagram(d) =>
        DrainIsPayloads(rs[1..]);
        DrainNext(rs);
    }
  }

  /** A read error ends the draining. */
  lemma DrainStops(rs: seq<ReadResult>)
    requires rs != [] && rs[0].Failure?
    ensures Drain(rs).bytes == []
  {
    assert Scan(rs, RconResponseHeader) == Failed(rs[0].err, rs[1..]);
  }

  /** A datagram adds its payload when it is a reply and nothing otherwise. */
  lemma DrainNext(rs: seq<ReadResult>)
    requires rs != [] && rs[0].Datagram?
    ensures var t := Truncated(rs[0].payload, XonMSS);
            Drain(rs).bytes
            == (if HasPrefix(t, RconResponseHeader) then Payload(t) else []) + Drain(rs[1..]).bytes
  {
    var t := Truncated(rs[0].payload, XonMSS);
    if HasPrefix(t, RconResponseHeader) {
      assert Scan(rs, RconResponseHeader) == Found(t, rs[1..]);
    } else {
      assert Scan(rs, RconResponseHeader) == Scan(rs[1..], RconResponseHeader);
    }
  }


  // ---------------------------------------------------------------------
  // rconReader
  // ---------------------------------------------------------------------

  /** What one `Read` call has to hand out: the pending payload, or else the next reply's. */
  datatype Refill = Refill(pending: seq<byte>, err: Option<NetError>, rest: seq<ReadResult>)

  function NextRead(slice: seq<byte>, rs: seq<ReadResult>): (r: Refill)
    ensures r.err.Some? ==> r.pending == []
  {
    if slice != [] then Refill(slice, None, rs)
    else match Scan(rs, RconResponseHeader)
      case Found(d, rest) => Refill(Payload(d), None, rest)
      case Failed(e, rest) => Refill([], Some(e), rest)
  }

  /** A refill neither loses nor reorders reply bytes. */
  lemma DrainAfterRefill(slice: seq<byte>, rs: seq<ReadResult>)
    ensures var r := NextRead(slice, rs);
            r.err.None? ==>
              && slice + Drain(rs).bytes == r.pending + Drain(r.rest).bytes
              && Drain(rs).err == Drain(r.rest).err
              && Drain(rs).rest == Drain(r.rest).rest
              && (slice == [] ==> |r.rest| < |rs|)
    ensures var r := NextRead(slice, rs);
            r.err.Some? ==> slice == [] && Drain(rs) == Drained([], r.err.value, r.rest)
  {
  }

  class RconReader {
    const conn: Conn
    /** The undelivered rest of the current reply's payload. */
    var slice: seq<byte>

    constructor (conn: Conn)
      ensures this.conn == conn && slice == []
    {
      this.conn := conn;
      slice := [];
    }

    /**
     * `rconReader.Read`: with payload pending, hand out as much of it as
     * fits without touching the connection; otherwise first read datagrams
     * until a reply arrives (or a read fails), dropping the others.
     */
    method Read(buffer: array<byte>) returns (n: nat, err: Option<NetError>)
      modifies this, conn, buffer
      ensures conn.sent == old(conn.sent)
      ensures old(slice) != [] ==> conn.incoming == old(conn.incoming)
      ensures var r := NextRead(old(slice), old(conn.incoming));
              && conn.incoming == r.rest && err == r.err
              && n == Min(buffer.Length, |r.pending|)
              && buffer[..n] == r.pending[..n]
              && buffer[n..] == old(buffer[n..])
              && slice == r.pending[n..]
    {
      if |slice| == 0 {
        while true
          invariant slice == []
          invariant conn.sent == old(conn.sent)
          invariant buffer[..] == old(buffer[..])
          invariant Scan(conn.incoming, RconResponseHeader) == Scan(old(conn.incoming), RconResponseHeader)
          decreases |conn.incoming|
        {
          ghost var before := conn.incoming;
          var data, e := conn.Read(XonMSS);
          if e.Some? {
            return 0, e;
          }
          if HasPrefix(data, RconResponseHeader) {
            assert Scan(before, RconResponseHeader) == Found(data, conn.incoming);
            slice := data[|RconResponseHeader|..];
            break;
          }
        }
      }
      n := Min(buffer.Length, |slice|);
      forall i | 0 <= i < n {
        buffer[i] := slice[i];
      }
      slice := slice[n..];
      err := None;
    }
  }

  /**
   * `io.ReadAll` over a reader: read into free space of `chunk` bytes until
   * a read fails. The result does not depend on the chunk size.
   */
  method ReadAll(reader: RconReader, chunk: nat) returns (b: seq<byte>, err: NetError)
    requires chunk > 0
    modifies reader, reader.conn
    ensures var t := Drain(old(reader.conn.incoming));
            && b == old(reader.slice) + t.bytes
            && err == t.err
            && reader.conn.incoming == t.rest
    ensures reader.slice == [] && reader.conn.sent == old(reader.conn.sent)
  {
    ghost var whole := reader.slice + Drain(reader.conn.incoming).bytes;
    ghost var t := Drain(reader.conn.incoming);
    b := [];
    while true
      invariant b + reader.slice + Drain(reader.conn.incoming).bytes == whole
      invariant Drain(reader.conn.incoming).err == t.err
      invariant Drain(reader.conn.incoming).rest == t.rest
      invariant reader.conn.sent == old(reader.conn.sent)
      decreases |reader.conn.incoming|, |reader.slice|
    {
      ghost var slice0, rs0, b0 := reader.slice, reader.conn.incoming, b;
      var buf := new byte[chunk];
      var n, e := reader.Read(buf);
      b := b + buf[..n];
      if e.Some? {
        ReadStops(slice0, rs0);
        err := e.value;
        return;
      }
      ReadStep(b0, slice0, rs0, chunk, b, reader.slice, reader.conn.incoming);
    }
  }

  /**
   * A `Read` of `chunk` bytes inside `ReadAll` that succeeds moves bytes
   * from the reader into the result without losing or reordering any, and
   * makes progress.
   */
  lemma ReadStep(b0: seq<byte>, slice0: seq<byte>, rs0: seq<ReadResult>, chunk: nat,
                 b1: seq<byte>, slice1: seq<byte>, rs1: seq<ReadResult>)
    requires chunk > 0
    requires var r := NextRead(slice0, rs0);
             var n := Min(chunk, |r.pending|);
             && r.err.None? && rs1 == r.rest && b1 == b0 + r.pending[..n] && slice1 == r.pending[n..]
    ensures b1 + slice1 + Drain(rs1).bytes == b0 + slice0 + Drain(rs0).bytes
    ensures Drain(rs1).err == Drain(rs0).err && Drain(rs1).rest == Drain(rs0).rest
    ensures |rs1| < |rs0| || (rs1 == rs0 && |slice1| < |slice0|)
  {
    var r := NextRead(slice0, rs0);
    DrainAfterRefill(slice0, rs0);
    Regroup(b0, slice0, Drain(rs0).bytes, r.pending, Drain(rs1).bytes, Min(chunk, |r.pending|));
  }

  /** A `Read` inside `ReadAll` that fails ends the reading where `Drain` ends it. */
  lemma ReadStops(slice0: seq<byte>, rs0: seq<ReadResult>)
    requires NextRead(slice0, rs0).err.Some?
    ensures var r := NextRead(slice0, rs0);
            && slice0 == [] && r.pending == []
            && Drain(rs0) == Drained([], r.err.value, r.rest)
  {
    DrainAfterRefill(slice0, rs0);
  }

  /** Moving the first `n` pending bytes to the result keeps the concatenation. */
  lemma Regroup(b0: seq<byte>, slice0: seq<byte>, d0: seq<byte>, pending: seq<byte>, d1: seq<byte>, n: nat)
    requires n <= |pending| && slice0 + d0 == pending + d1
    ensures (b0 + pending[..n]) + pending[n..] + d1 == b0 + slice0 + d0
  {
    assert pending == pending[..n] + pending[n..];
    assert (b0 + pending[..n]) + pending[n..] + d1 == b0 + (pending + d1);
  }

  // ---------------------------------------------------------------------
  // rconExecute
  // ---------------------------------------------------------------------

  datatype Exchange = Exchange(sent: seq<seq<byte>>, rest: seq<ReadResult>, err: Option<NetError>)

  /**
   * What `rconExecute` sends and consumes: in challenge mode a challenge
   * request, then the command keyed with the token of the first challenge
   * reply; in time mode the time-keyed command; otherwise the plain one.
   * `dialError` is the outcome of opening the association; `writeError`
   * says whether writes to it fail.
   */
  function Exchanged(server: ServerConfig, cmd: seq<byte>, dialError: Option<NetError>,
                     rs: seq<ReadResult>, writeError: Option<NetError>,
                     timeStr: seq<byte>, hmac: Hmac): Exchange
  {
    if dialError.Some? then Exchange([], rs, dialError)
    else if writeError.Some? then Exchange([], rs, writeError)
    else if server.rconMode == ChallengeSecureMode then
      match Scan(rs, ChallengeHeader)
      case Failed(e, rest) => Exchange([ChallengeRequest], rest, Some(e))
      case Found(d, rest) =>
        Exchange([ChallengeRequest, ChallengePacket(cmd, server.rconPassword, ChallengeToken(d), hmac)], rest, None)
    else
      Exchange([CommandPacket(server.rconMode, cmd, server.rconPassword, timeStr, [], hmac)], rs, None)
  }

  /**
   * A successful exchange ends with a command packet that reads back as
   * `cmd` and passes `Authentic`, keyed by the mode the configuration names.
   */
  lemma ExchangeSendsAuthenticCommand(server: ServerConfig, cmd: seq<byte>, rs: seq<ReadResult>,
                                      timeStr: seq<byte>, hmac: Hmac)
    requires server.rconMode != ChallengeSecureMode && server.rconMode != TimeSecureMode ==> SpaceByte !in server.rconPassword
    requires server.rconMode == TimeSecureMode ==> SpaceByte !in timeStr
    requires server.rconMode == ChallengeSecureMode && Scan(rs, ChallengeHeader).Found? ==>
               SpaceByte !in ChallengeToken(Scan(rs, ChallengeHeader).datagram)
    ensures var x := Exchanged(server, cmd, None, rs, None, timeStr, hmac);
            x.err.None? ==>
              && |x.sent| >= 1
              && var r := ParseCommandPacket(x.sent[|x.sent| - 1]);
              && r.Some? && r.value.command == cmd
              && Authentic(r.value, server.rconPassword, hmac)
              && (server.rconMode == ChallengeSecureMode <==> r.value.ChallengeRequestOf?)
              && (server.rconMode == TimeSecureMode <==> r.value.TimeRequest?)
  {
    var x := Exchanged(server, cmd, None, rs, None, timeStr, hmac);
    if server.rconMode == ChallengeSecureMode {
      match Scan(rs, ChallengeHeader)
      case Failed(_, _) =>
      case Found(d, _) =>
        var p := ChallengePacket(cmd, server.rconPassword, ChallengeToken(d), hmac);
        assert x.sent == [ChallengeRequest, p];
        ChallengePacketRoundTrip(cmd, server.rconPassword, ChallengeToken(d), hmac);
    } else {
      var p := CommandPacket(server.rconMode, cmd, server.rconPassword, timeStr, [], hmac);
      assert x.sent == [p];
      CommandPacketAuthentic(server.rconMode, cmd, server.rconPassword, timeStr, [], hmac);
    }
  }

  /** The loop of `rconExecute` that waits for the challenge reply, dropping every other datagram. */
  method AwaitChallenge(conn: Conn) returns (reply: seq<byte>, err: Option<NetError>)
    modifies conn
    ensures var s := Scan(old(conn.incoming), ChallengeHeader);
            && conn.incoming == s.rest && conn.sent == old(conn.sent)
            && (s.Found? ==> err.None? && reply == s.datagram)
            && (s.Failed? ==> err == Some(s.err))
  {
    while true
      invariant conn.sent == old(conn.sent)
      invariant Scan(conn.incoming, ChallengeHeader) == Scan(old(conn.incoming), ChallengeHeader)
      decreases |conn.incoming|
    {
      ghost var before := conn.incoming;
      var data, rerr := conn.Read(XonMSS);
      if rerr.Some? {
        assert Scan(before, ChallengeHeader) == Failed(rerr.value, conn.incoming);
        return [], rerr;
      }
      if HasPrefix(data, ChallengeHeader) {
        assert Scan(before, ChallengeHeader) == Found(data, conn.incoming);
        return data, None;
      }
    }
  }

  /**
   * `rconExecute`: open the association, authenticate and send `cmd`, and
   * return a reader for the reply. The connection is given by `conn`;
   * `timeStr` stands for the formatted wall-clock time.
   */
  method Execute(server: ServerConfig, cmd: seq<byte>, dialError: Option<NetError>, conn: Conn,
                 timeStr: seq<byte>, hmac: Hmac)
    returns (reader: RconReader?, err: Option<NetError>)
    modifies conn
    ensures var x := Exchanged(server, cmd, dialError, old(conn.incoming), conn.writeError, timeStr, hmac);
            && conn.sent == old(conn.sent) + x.sent
            && conn.incoming == x.rest
            && err == x.err
    ensures (reader != null) == err.None?
    ensures reader != null ==> fresh(reader) && reader.conn == conn && reader.slice == []
  {
    if dialError.Some? {
      return null, dialError;
    }
    var challenge: seq<byte> := [];
    var outputBuffer := new Buffer();
    if server.rconMode == ChallengeSecureMode {
      var werr := conn.Write(ChallengeRequest);
      if werr.Some? {
        return null, werr;
      }
      var reply, rerr := AwaitChallenge(conn);
      if rerr.Some? {
        return null, rerr;
      }
      challenge := ExtractChallenge(reply);
      RconSecureChallengePacket(cmd, server.rconPassword, challenge, hmac, outputBuffer);
    } else if server.rconMode == TimeSecureMode {
      RconSecureTimePacket(cmd, server.rconPassword, timeStr, hmac, outputBuffer);
    } else {
      RconNonSecurePacket(cmd, server.rconPassword, outputBuffer);
    }
    assert outputBuffer.bytes == CommandPacket(server.rconMode, cmd, server.rconPassword, timeStr, challenge, hmac);
    ghost var sentBefore := conn.sent;
    var werr := conn.Write(outputBuffer.bytes);
    if werr.Some? {
      return null, werr;
    }
    assert conn.sent == sentBefore + [outputBuffer.bytes];
    reader := new RconReader(conn);
    err := None;
  }
}
