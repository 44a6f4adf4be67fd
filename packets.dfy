/**
 * The DarkPlaces out-of-band RCON packet shapes built by rcon.go, and the
 * model's reading of them as their inverse.
 *
 * Every packet starts with the out-of-band marker FF FF FF FF. A command
 * goes out in one of three authentication modes: the password in clear
 * ("rcon"), or an HMAC-MD4 over a timestamp or a server challenge and the
 * command ("srcon HMAC-MD4 TIME" / "srcon HMAC-MD4 CHALLENGE"). HMAC-MD4
 * itself is not modelled: it is a parameter returning 16 bytes, written
 * into the packet raw, not as hex.
 */
module Packets {
  import opened Common

  /** Size of the read buffer, and so the largest datagram read whole. */
  const XonMSS: nat := 1460

  const QHeader: seq<byte> := [0xFF, 0xFF, 0xFF, 0xFF]
  const RconResponseHeader: seq<byte> := QHeader + Ascii("n")
  const ChallengeRequest: seq<byte> := QHeader + Ascii("getchallenge")
  const ChallengeHeader: seq<byte> := QHeader + Ascii("challenge ")

  const Space: seq<byte> := Ascii(" ")
  const SpaceByte: byte := 0x20
  const PlainTag: seq<byte> := Ascii("rcon ")
  const TimeTag: seq<byte> := Ascii("srcon HMAC-MD4 TIME ")
  const ChallengeTag: seq<byte> := Ascii("srcon HMAC-MD4 CHALLENGE ")

  /** Authentication modes as the configuration numbers them; any other number means plain. */
  const TimeSecureMode: int := 1
  const ChallengeSecureMode: int := 2

  /** An MD4 digest. */
  type Mac = s: seq<byte> | |s| == 16 witness seq(16, i => 0)

  /** HMAC-MD4 keyed with the first argument over the second (RFC 2104 over RFC 1320). */
  type Hmac = (seq<byte>, seq<byte>) -> Mac

  /** What `RconNonSecurePacket` writes. */
  function PlainPacket(command: seq<byte>, password: seq<byte>): seq<byte> {
    QHeader + PlainTag + password + Space + command
  }

  /** What `RconSecureTimePacket` writes for the formatted time `timeStr`. */
  function TimePacket(command: seq<byte>, password: seq<byte>, timeStr: seq<byte>, hmac: Hmac): seq<byte> {
    QHeader + TimeTag + hmac(password, timeStr + Space + command) + Space + timeStr + Space + command
  }

  /** What `RconSecureChallengePacket` writes for the server's challenge. */
  function ChallengePacket(command: seq<byte>, password: seq<byte>, challenge: seq<byte>, hmac: Hmac): seq<byte> {
    QHeader + ChallengeTag + hmac(password, challenge + Space + command) + Space + challenge + Space + command
  }

  /** The command packet `rconExecute` sends for a configured mode. */
  function CommandPacket(mode: int, command: seq<byte>, password: seq<byte>,
                         timeStr: seq<byte>, challenge: seq<byte>, hmac: Hmac): seq<byte> {
    if mode == ChallengeSecureMode then ChallengePacket(command, password, challenge, hmac)
    else if mode == TimeSecureMode then TimePacket(command, password, timeStr, hmac)
    else PlainPacket(command, password)
  }

  // ---------------------------------------------------------------------
  // The model's reading of a command packet: an independent inverse of
  // the three builders above. The game server is not part of this model;
  // this reading and `Authentic` are what the model assumes of it.
  // ---------------------------------------------------------------------

  datatype Request =
    | PlainRequest(password: seq<byte>, command: seq<byte>)
    | TimeRequest(mac: seq<byte>, time: seq<byte>, command: seq<byte>)
    | ChallengeRequestOf(mac: seq<byte>, challenge: seq<byte>, command: seq<byte>)

  /** Splits `s` at its first space: the word before it and the rest after it. */
  function SplitWord(s: seq<byte>): Option<(seq<byte>, seq<byte>)> {
    match IndexOf(s, SpaceByte)
    case None => None
    case Some(k) => Some((s[..k], s[k + 1..]))
  }

  /** A 16-byte MAC, a space, a word, a space and the command. */
  function ParseKeyed(s: seq<byte>): Option<(seq<byte>, seq<byte>, seq<byte>)> {
    if |s| < 17 || s[16] != SpaceByte then None
    else match SplitWord(s[17..])
      case None => None
      case Some((word, command)) => Some((s[..16], word, command))
  }

  /** The model's reading of an out-of-band command packet: tag, then the words the tag announces. */
  function ParseCommandPacket(p: seq<byte>): Option<Request> {
    if !HasPrefix(p, QHeader) then None
    else
      var body := p[|QHeader|..];
      if HasPrefix(body, PlainTag) then
        match SplitWord(body[|PlainTag|..])
        case None => None
        case Some((password, command)) => Some(PlainRequest(password, command))
      else if HasPrefix(body, TimeTag) then
        match ParseKeyed(body[|TimeTag|..])
        case None => None
        case Some((mac, time, command)) => Some(TimeRequest(mac, time, command))
      else if HasPrefix(body, ChallengeTag) then
        match ParseKeyed(body[|ChallengeTag|..])
        case None => None
        case Some((mac, challenge, command)) => Some(ChallengeRequestOf(mac, challenge, command))
      else None
  }

  /**
   * The model's MAC check for a request: the password matches, or the MAC
   * is the one over the word and the command the request carries. Whether
   * the time string or the challenge is acceptable is not judged here.
   */
  predicate Authentic(r: Request, password: seq<byte>, hmac: Hmac) {
    match r
    case PlainRequest(pw, _) => pw == password
    case TimeRequest(mac, time, command) => mac == hmac(password, time + Space + command)
    case ChallengeRequestOf(mac, challenge, command) => mac == hmac(password, challenge + Space + command)
  }

  lemma SplitWordAfter(word: seq<byte>, rest: seq<byte>)
    requires SpaceByte !in word
    ensures SplitWord(word + Space + rest) == Some((word, rest))
  {
    IndexOfAfter(word, SpaceByte, rest);
    assert word + Space + rest == word + [SpaceByte] + rest;
    assert (word + [SpaceByte] + rest)[..|word|] == word;
    assert (word + [SpaceByte] + rest)[|word| + 1..] == rest;
  }

  lemma ParseKeyedAfter(mac: Mac, word: seq<byte>, command: seq<byte>)
    requires SpaceByte !in word
    ensures ParseKeyed(mac + Space + word + Space + command) == Some((mac, word, command))
  {
    var s := mac + Space + word + Space + command;
    assert s[17..] == word + Space + command;
    SplitWordAfter(word, command);
    assert s[..16] == mac;
  }

  /** The plain packet reads back as the password and the command. */
  lemma PlainPacketRoundTrip(command: seq<byte>, password: seq<byte>)
    requires SpaceByte !in password
    ensures ParseCommandPacket(PlainPacket(command, password)) == Some(PlainRequest(password, command))
  {
    var p := PlainPacket(command, password);
    assert p[|QHeader|..] == PlainTag + (password + Space + command);
    assert HasPrefix(p, QHeader);
    SplitWordAfter(password, command);
  }

  /**
   * The time packet reads back as the MAC, the time string and the
   * command, and the MAC is the one over that same time string and
   * command: it passes `Authentic`.
   */
  lemma TimePacketRoundTrip(command: seq<byte>, password: seq<byte>, timeStr: seq<byte>, hmac: Hmac)
    requires SpaceByte !in timeStr
    ensures ParseCommandPacket(TimePacket(command, password, timeStr, hmac))
            == Some(TimeRequest(hmac(password, timeStr + Space + command), timeStr, command))
    ensures Authentic(ParseCommandPacket(TimePacket(command, password, timeStr, hmac)).value, password, hmac)
  {
    var mac := hmac(password, timeStr + Space + command);
    var p := TimePacket(command, password, timeStr, hmac);
    assert p[|QHeader|..] == TimeTag + (mac + Space + timeStr + Space + command);
    assert HasPrefix(p, QHeader);
    assert !HasPrefix(p[|QHeader|..], PlainTag) by {
      assert p[|QHeader|..][0] == TimeTag[0];
    }
    ParseKeyedAfter(mac, timeStr, command);
  }

  /** The challenge packet reads back likewise, its MAC binding the challenge it carries. */
  lemma ChallengePacketRoundTrip(command: seq<byte>, password: seq<byte>, challenge: seq<byte>, hmac: Hmac)
    requires SpaceByte !in challenge
    ensures ParseCommandPacket(ChallengePacket(command, password, challenge, hmac))
            == Some(ChallengeRequestOf(hmac(password, challenge + Space + command), challenge, command))
    ensures Authentic(ParseCommandPacket(ChallengePacket(command, password, challenge, hmac)).value, password, hmac)
  {
    var mac := hmac(password, challenge + Space + command);
    var p := ChallengePacket(command, password, challenge, hmac);
    assert p[|QHeader|..] == ChallengeTag + (mac + Space + challenge + Space + command);
    assert HasPrefix(p, QHeader);
    assert !HasPrefix(p[|QHeader|..], PlainTag) by {
      assert p[|QHeader|..][0] == ChallengeTag[0];
    }
    assert !HasPrefix(p[|QHeader|..], TimeTag) by {
      assert p[|QHeader|..][15] == ChallengeTag[15];
    }
    ParseKeyedAfter(mac, challenge, command);
  }

  /**
   * Mode dispatch: mode 2 sends a challenge-keyed packet, mode 1 a
   * time-keyed one and every other number a plain one; whichever it is,
   * the packet reads back as the command and passes `Authentic`.
   */
  lemma CommandPacketAuthentic(mode: int, command: seq<byte>, password: seq<byte>,
                               timeStr: seq<byte>, challenge: seq<byte>, hmac: Hmac)
    requires mode != ChallengeSecureMode && mode != TimeSecureMode ==> SpaceByte !in password
    requires mode == TimeSecureMode ==> SpaceByte !in timeStr
    requires mode == ChallengeSecureMode ==> SpaceByte !in challenge
    ensures var r := ParseCommandPacket(CommandPacket(mode, command, password, timeStr, challenge, hmac));
            && r.Some?
            && r.value.command == command
            && Authentic(r.value, password, hmac)
            && (mode == ChallengeSecureMode <==> r.value.ChallengeRequestOf?)
            && (mode == TimeSecureMode <==> r.value.TimeRequest?)
            && (r.value.ChallengeRequestOf? ==> r.value.challenge == challenge)
            && (r.value.TimeRequest? ==> r.value.time == timeStr)
  {
    if mode == ChallengeSecureMode {
      ChallengePacketRoundTrip(command, password, challenge, hmac);
    } else if mode == TimeSecureMode {
      TimePacketRoundTrip(command, password, timeStr, hmac);
    } else {
      PlainPacketRoundTrip(command, password);
    }
  }
}
