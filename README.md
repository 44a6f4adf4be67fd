# rcon2matrix in Dafny

rcon2matrix bridges the in-game chat of a Xonotic (DarkPlaces) server and a
Matrix room. This project models its core in Dafny and proves properties of
the model. The core has three parts.

- **The RCON client** (`rcon.go`). It builds the three kinds of command
  packet: plain, time-keyed HMAC-MD4 and challenge-keyed HMAC-MD4. It runs the
  challenge handshake and the mode dispatch of `rconExecute`. Its
  `rconReader` hands out the payloads of `FF FF FF FF n` reply datagrams in
  pieces the caller chooses.
- **The log pipeline** (`startXonotic` and `cleanXonoticText` in `main.go`).
  A log datagram loses its out-of-band padding, its `n` type marker and its
  surrounding white space, and is split into lines. Each chat line
  `^\x01?\^\d(.+)\^7: (.+)` becomes the text `<speaker>: message` posted to
  the room. Both parts are cleaned first: private glyphs go through a decode
  table, then colour codes are deleted.
- **The bridge** (`main.go`). It builds the `addtolist`/`removefromlist`
  commands that register the bridge for the server's UDP log. It builds the
  `settemp … say … settemp_restore` command that relays a room message into
  the game, with its event filters. It also covers `execRcon` and the
  listener loop's reaction to each read.

The files, one module each:

- `common.dfy`: bytes, `Option`, prefixes and searching.
- `utf8.dfy`: UTF-8 decoding and encoding the way Go does them.
- `packets.dfy`: the packet builders, and the model's reading of a command
  packet as their inverse.
- `net.dfy`: the UDP association.
- `rcon.dfy`: the RCON client.
- `clean.dfy`: `cleanXonoticText`.
- `pipeline.dfy`: datagrams to posted texts.
- `bridge.dfy`: commands, `execRcon` and the listener.

Modelling choices:

- **The connection is a script.** It is a `Conn` object holding the read
  results still to come: datagrams or errors, in order. Once the script is
  used up, every read times out, as a read past its deadline does. Datagrams
  are cut to the 1460-byte read buffer. Writes fail when the association's
  `writeError` is set.
- **Parameters stand in for what is outside the model.** HMAC-MD4 is a
  function parameter returning 16 bytes. The formatted wall-clock time is a
  parameter (`timeStr`), and so is the glyph decode table.
- **Each builder has an independent inverse.** `ParseCommandPacket` is the
  model's reading of a command packet and `Authentic` its MAC check. They
  are an assumption about the game server, which is not part of this model;
  a real server also judges the time string and the challenge against its
  own state. `ParseListCommand` reads a
  registration command back by its framing. `ParseSayCommand` takes the
  relay command apart at its fixed framing. `ConsoleSay` is the model's
  assumption about how the game console reads it: a quoted argument ends
  at the next quote or line break.
  `ParseDecimal` reads a printed port back. The round-trip lemmas tie each
  builder to its inverse.
- **Reading replies.** `execRcon` reads with `io.ReadAll`. The model follows
  the code: every reply datagram that arrives before a read fails is
  concatenated, and the final error is dropped. `Rcon.DrainIsPayloads`
  proves that the result is exactly the reply payloads in arrival order,
  with headers removed and foreign datagrams skipped.
- **Matching works on bytes.** Every delimiter involved is ASCII, and Go
  never reads an ASCII byte as part of a longer rune, so the trims, the split
  and the chat pattern work on bytes. The exceptions are the two trims that
  decode runes: `strings.TrimSpace`, and `bytes.Trim` with the cutset
  `"\xFF"`, which is not ASCII. `strings.TrimSpace` is modelled as
  `bytes.TrimLeftFunc` followed by `bytes.TrimRightFunc`; the `bytes.Trim`
  call as `bytes.TrimRightFunc` followed by `bytes.TrimLeftFunc`, the order
  Go's `trimRightUnicode` and `trimLeftUnicode` run in. `bytes.TrimRightFunc`
  reads each trailing rune with `utf8.DecodeLastRune`.
- **Colour stripping is one pass.** `cleanXonoticText` decodes the text to
  runes and substitutes them in place in an array. It then deletes colour
  codes in one left-to-right pass that tries `^digit` before `^xNNN`. The
  class `[0-f]` is the ASCII range from `0` to `f`, capitals and punctuation
  included.
- **Relayed bodies are not escaped.** The relay command inserts the message
  body as it is. A body containing `"; ` therefore ends the `say` and can
  start further console commands, and so can a line break.
  `Bridge.RelayCommandSays` states what the game says under the model's
  reading of the console (`Bridge.ConsoleSay`): the body up to its first
  quote or line break, which is the whole body exactly when it holds none.
  The framing still gives back the name and the whole body, so different
  messages give different commands.

## Model

| member | source | states |
|---|---|---|
| `Packets.PlainPacketRoundTrip` | rcon.go:144-150 | the plain packet is header, `rcon `, password, space, command; it reads back as exactly that password and command |
| `Packets.TimePacketRoundTrip` | rcon.go:152-166 | the time packet reads back as MAC, time string and command, and its raw 16-byte MAC is HMAC(password, time + " " + command) over the same time string it carries, so it passes the MAC check |
| `Packets.ChallengePacketRoundTrip` | rcon.go:168-180 | the challenge packet reads back as MAC, challenge and command, with the MAC over that challenge and command |
| `Packets.CommandPacket` | rcon.go:118-123 | the packet `rconExecute` builds for a mode: the challenge-keyed one for mode 2, the time-keyed one for mode 1, the plain one for any other number |
| `Packets.CommandPacketAuthentic` | rcon.go:118-123 | mode 2 yields a challenge-keyed packet, mode 1 a time-keyed one and every other integer a plain one; each reads back as the command and authenticates, provided the word the mode puts before the command (password, time string or challenge) holds no space |
| `Rcon.RconNonSecurePacket` | rcon.go:144-150 | appends exactly the plain packet to the buffer, earlier contents kept |
| `Rcon.RconSecureTimePacket` | rcon.go:152-166 | appends exactly the time-keyed packet to the buffer, earlier contents kept |
| `Rcon.RconSecureChallengePacket` | rcon.go:168-180 | appends exactly the challenge-keyed packet to the buffer, earlier contents kept |
| `Rcon.ChallengeToken` | rcon.go:102-113 | the token follows the challenge header, holds no NUL, ends at the first NUL, and is empty when the reply has no NUL |
| `Rcon.ExtractChallenge` | rcon.go:103-113 | the index loop returns exactly that token |
| `Rcon.Scan` | rcon.go:93-117 | reading until a datagram with the wanted prefix arrives consumes a non-empty prefix of the results (when there are any), and a datagram it stops at has that prefix |
| `Rcon.ScanStops` | rcon.go:93-117 | scanning skips only foreign datagrams and stops at the first datagram with the wanted prefix, as read into the 1460-byte buffer, or at the first read error; with nothing to read it times out |
| `Rcon.NextRead` | rcon.go:39-51 | a read with nothing pending refills from the next reply; an error leaves nothing pending |
| `Rcon.DrainAfterRefill` | rcon.go:39-57 | a refill neither loses nor reorders reply bytes and makes progress; a failed refill ends the reading |
| `Rcon.DrainIsPayloads` | rcon.go:39-51 | the bytes a reader yields are the reply payloads in arrival order, the 5-byte header never included and foreign datagrams skipped |
| `Rcon.RconReader.constructor` | rcon.go:132 | a fresh reader has nothing pending |
| `Rcon.RconReader.Read` | rcon.go:38-58 | with data pending it does not touch the connection; it copies min(len(buffer), pending) bytes from the front of the pending payload, the rest stays pending and the buffer beyond them is untouched; a read error returns 0 bytes and leaves nothing pending |
| `Rcon.ReadAll` | main.go:277 | reading until an error yields the pending bytes followed by every later reply payload, whatever the chunk size, and returns the error that ended it |
| `Rcon.ReadStep` | main.go:277 | one successful read conserves the bytes still to come and makes progress |
| `Rcon.ReadStops` | main.go:277 | a failed read happens only with nothing pending, where the reading ends |
| `Rcon.ExchangeSendsAuthenticCommand` | rcon.go:85-125 | a successful exchange ends by sending a command packet that reads back as the command and passes the MAC check, keyed by the configured mode, provided the password (plain mode), the time string (mode 1) or the received challenge (mode 2) holds no space |
| `Rcon.AwaitChallenge` | rcon.go:93-117 | the challenge loop consumes exactly what scanning for the challenge header consumes, sends nothing, and returns the challenge reply or the read error that ended it |
| `Rcon.Exchanged` | rcon.go:64-133 | what an exchange sends, leaves unread and fails with: nothing on a dial or write error; in mode 2 the challenge request, then the command keyed with the first challenge reply's token, or a read error; otherwise the one command packet |
| `Rcon.Execute` | rcon.go:64-133 | sends the challenge request (mode 2) and the command packet, consumes the results up to the challenge reply, returns a reader exactly when no error occurred, and fails on a dial, write or read error |
| `Net.Truncated` | rcon.go:82 | a datagram read into the 1460-byte buffer keeps its first min(length, 1460) bytes |
| `Utf8.DecodeRune` | main.go:238 | a rune occupies 1 to 4 bytes, an ASCII byte is its own rune, and only a rune-start byte begins a multi-byte rune |
| `Utf8.DecodeLastRune` | main.go:148 | the last rune of a non-empty text and its width, from 1 to the text's length, U+FFFD of width 1 when the trailing bytes are not one valid rune |
| `Utf8.DecodeLastValid` | main.go:148 | a last rune read as valid spans bytes that start with a rune-start byte and read forwards as the same rune |
| `Utf8.Decode` | main.go:238 | `[]rune(text)`: the runes `DecodeRune` reads one after another, never more runes than bytes |
| `Utf8.EncodeRune` | main.go:247 | the UTF-8 encoding of one rune, 1 to 4 bytes, which `DecodeEncodeRune` reads back as that rune |
| `Utf8.Encode` | main.go:247 | `string(runes)`: the encodings of the runes one after another |
| `Utf8.DecodeEncode` | main.go:247 | decoding `string(runes)` gives back the runes, so the colour pattern sees the substituted runes |
| `Utf8.EncodeAppend` | main.go:247 | encoding runes is concatenation of their encodings |
| `Utf8.DecodeAscii` | main.go:238 | each ASCII byte decodes to the rune of the same value |
| `Utf8.EncodeDecodeAscii` | main.go:238 | ASCII text survives decoding and re-encoding unchanged |
| `Clean.Substituted` | main.go:240-245 | substitution keeps the rune count |
| `Clean.SubstituteInPlace` | main.go:240-245 | the loop replaces each rune found in the table by its image and leaves every other rune as it was |
| `Clean.CodeLength` | main.go:235 | a colour code starts with a caret; its length is 2 exactly when the text starts with `^digit`, and 5 exactly when it starts with `^x` and three runes from `0`..`f` |
| `Clean.StripColours` | main.go:247 | deleting colour codes never lengthens the text |
| `Clean.CleanXonoticText` | main.go:237-248 | the array-based cleaning returns decode, substitute, strip colour codes, encode |
| `Clean.StripColoursNoCaret` | main.go:247 | text without a caret is unchanged |
| `Clean.StripColoursKeepsPlain` | main.go:247 | every rune that cannot belong to a colour code survives, in order |
| `Clean.StripColoursSinglePass` | main.go:235 | a single pass: `^^11` becomes `^1`, `^x0Fa!` becomes `!`, `^xg00` is kept |
| `Clean.CleanTextIdentity` | main.go:237-248 | well-formed text with no caret and no rune in the table comes back unchanged |
| `Pipeline.TrimPadding` | main.go:148 | the trim the model uses in place of main.go:148: 0xFF bytes cut off the back, then off the front |
| `Pipeline.TrimLeftPadding` | main.go:148 | removes exactly the leading 0xFF bytes |
| `Pipeline.TrimRightPadding` | main.go:148 | removes exactly the trailing 0xFF bytes |
| `Pipeline.TrimPaddingShape` | main.go:148 | the padding trim leaves the part of the datagram between leading and trailing runs of 0xFF, starting and ending with another byte |
| `Utf8.TrimLeftFunc` | main.go:148-152 | the result is a suffix of the text that is empty or starts with a rune the predicate rejects |
| `Utf8.TrimLeftFuncCut` | main.go:148-152 | every rune cut off the front, read from the front, satisfies the predicate |
| `Utf8.TrimRightFunc` | main.go:148-152 | the result is a prefix of the text that is empty or ends, as `utf8.DecodeLastRune` reads it, with a rune the predicate rejects |
| `Utf8.TrimRightFuncCut` | main.go:148-152 | read from the back, the text is the runes of what is kept followed only by runes satisfying the predicate |
| `Utf8.TrimRightFuncCutForward` | main.go:152 | for a predicate that rejects U+FFFD, the part cut off the back, read from the front, is runes satisfying the predicate only |
| `Utf8.TrimFuncAround` | main.go:152 | trimming front then back keeps a part of the text with nothing but rejected runes around it |
| `Pipeline.TrimsAgree` | main.go:148 | for padding followed by a text that starts and ends with an ASCII byte, the rune trim as written and the padding trim both give the text, so both readings split the datagram into the same lines |
| `Pipeline.TrimRuneErrors` | main.go:148 | `bytes.Trim(buf, "\xFF")` as written: runes read as U+FFFD are cut off the back, then off the front |
| `Pipeline.TrimRuneErrorsDropsText` | main.go:148 | the trim as written drops a trailing Latin-1 letter that the padding trim keeps |
| `Pipeline.TrimTypeMarker` | main.go:152 | at most one leading `n` is removed |
| `Pipeline.TrimSpace` | main.go:152 | `strings.TrimSpace`: white-space runes cut off the front, then off the back, the last rune read with `utf8.DecodeLastRune` |
| `Pipeline.TrimSpaceShape` | main.go:152 | the trimmed text occurs in the input with only white-space runes before and after it, and its first and last runes are not white space |
| `Pipeline.TrimSpaceEdges` | main.go:152 | the trimmed text is empty or its first and last runes are not white space |
| `Pipeline.Split` | main.go:152 | splitting gives at least one piece, no piece holds a newline, and joining with newlines restores the text |
| `Pipeline.SplitJoin` | main.go:152 | splitting newline-free pieces joined by newlines gives the pieces back |
| `Pipeline.DatagramLines` | main.go:148-152 | a datagram, its padding trimmed as 0xFF bytes, always yields at least one line, and no line holds a newline |
| `Pipeline.DatagramLinesAsWritten` | main.go:148-152 | the lines main.go:148-152 cuts a datagram into as written: rune trim, `n` prefix, white space, split at newlines |
| `Pipeline.OneLineDatagram` | main.go:148-152 | a datagram of header, `n`, one line and a newline yields exactly that line |
| `Pipeline.LastSplit` | main.go:119 | finds the last `^7: ` in range that leaves a non-empty message, or reports that none exists |
| `Pipeline.FirstSegment` | main.go:119 | `.` stops at the first newline: the segment is the whole line or is followed by a newline, and it is the whole line when there is none |
| `Pipeline.ChatMatch` | main.go:119 | the chat pattern applied to a log line: it matches within the line's first segment (`.` stops at a newline) |
| `Pipeline.MatchSegment` | main.go:158 | `FindStringSubmatch` on one newline-free segment: an optional 0x01, a caret and a digit, then the last `^7: ` that leaves a non-empty message, giving the speaker and the message |
| `Pipeline.ChatMatchSound` | main.go:119 | a match is an optional 0x01, a caret, a digit, a non-empty speaker, `^7: ` and a non-empty message |
| `Pipeline.ChatMatchComplete` | main.go:158 | every line of that shape matches, and the matched speaker is the longest possible (greedy) |
| `Pipeline.Format` | main.go:160 | `fmt.Sprintf("<%s>: %s", speaker, message)` |
| `Pipeline.ChatText` | main.go:160 | the posted text starts with `<`, the cleaned speaker and `>: `, ends with the cleaned message, and holds nothing else |
| `Pipeline.LineTexts` | main.go:158-168 | a line posts one text when it matches the chat pattern and nothing otherwise |
| `Pipeline.OutboundTexts` | main.go:154-169 | a datagram posts at most one text per line |
| `Pipeline.OutboundTextsAppend` | main.go:154-169 | posting goes line by line in order: the texts for consecutive runs of lines concatenate |
| `Pipeline.ChatDatagramExample` | main.go:148-168 | the datagram `FF FF FF FF n^3Bob^7: hi\n` posts exactly `<Bob>: hi` |
| `Bridge.Decimal` | main.go:261 | the port prints as an optional minus sign followed by digits |
| `Bridge.DecimalRoundTrip` | main.go:261 | the printed port reads back as the same integer |
| `Bridge.ListCommandRoundTrip` | main.go:250-268 | the `addtolist`/`removefromlist log_dest_udp "address:port"` commands read back, cut at their last quote and last colon, as the right command with the same address and port |
| `Bridge.AddCommand` | main.go:261 | `addtolist log_dest_udp "`, the address, a colon, the printed port and a closing quote |
| `Bridge.RemoveCommand` | main.go:251 | `removefromlist log_dest_udp "`, the address, a colon, the printed port and a closing quote |
| `Bridge.AddCommandInjective` | main.go:261 | different listen addresses give different registration commands |
| `Bridge.Localpart` | main.go:211 | the sender name is the text before the first colon of the sender's ID, or all of it |
| `Bridge.RelayCommand` | main.go:198-221 | an event is relayed exactly when it is not older than the start, is a message event, is from the bridged room and is not from the bridge itself |
| `Bridge.SayCommand` | main.go:221 | the relay command: `settemp sv_adminnick "[M] `, the name, `"; say "`, the body as it is, `"; settemp_restore sv_adminnick` |
| `Bridge.QuotedArgument` | main.go:221 | the part of a body a quoted console argument keeps is a prefix of it free of quotes and line breaks, the whole body exactly when it holds none, and otherwise followed by one |
| `Bridge.SayCommandRoundTrip` | main.go:221 | for a name without quotes, the framing gives back the name and the whole body; when the name holds no line break either, the console as modelled sets the nick to the name and says the body up to its first quote or line break: all of it exactly when it holds none, a proper prefix otherwise |
| `Bridge.SayCommandInjective` | main.go:221 | different names or bodies give different relay commands |
| `Bridge.RelayCommandSays` | main.go:198-223 | for a localpart without quotes, a relayed event's command frames the localpart and the whole body; when the localpart holds no line break either, the console as modelled says under `[M] ` and the localpart the body up to its first quote or line break, the whole body when it holds none |
| `Bridge.ExecRcon` | main.go:270-280 | on a failed exchange it returns nothing and the error; otherwise it returns every reply payload and no error, the read error dropped |
| `Bridge.AddToRcon` | main.go:260-268 | runs the exchange for the `addtolist` command and returns its error |
| `Bridge.RemoveFromRcon` | main.go:250-258 | runs the exchange for the `removefromlist` command and returns its error |
| `Bridge.OnMessage` | main.go:195-227 | a filtered-out event sends nothing; a relayed one runs the exchange for its relay command |
| `Bridge.RegistrationsPerTimeout` | main.go:131-146 | over any run, the listener sends one `addtolist` command per read timeout and no other registration |
| `Bridge.LogListener.constructor` | main.go:97-101 | the listener starts by registering, and a failed registration is fatal |
| `Bridge.LogListener.ProcessDatagram` | main.go:148-169 | a received datagram posts the texts of its chat lines (as `Pipeline.DatagramLines` cuts them) in order, and nothing else changes |
| `Bridge.LogListener.PostLines` | main.go:154-169 | the per-line loop posts exactly the texts of the matching lines, in order |
| `Bridge.LogListener.PostLine` | main.go:156-168 | a line posts its text when it matches the chat pattern and nothing otherwise |
| `Bridge.LogListener.Step` | main.go:121-170 | a read timeout re-registers once; a deadline failure or another read error changes nothing; a datagram (cut to 1460 bytes) posts its chat texts |
| `Bridge.LogListener.Receive` | main.go:148-169 | a received datagram is cut to 1460 bytes and posts the texts of that turn |
| `Bridge.LogListener.Run` | main.go:121-170 | the loop over any sequence of turns sends the registrations and posts the texts of its turns, in order |
| `Bridge.LogListener.Shutdown` | main.go:89-91 | at shutdown the bridge sends the `removefromlist` command |

## Left out

- Opening, deadlining and closing the UDP sockets (`net.Dial`, `SetDeadline`, `SetReadDeadline`, `SetReadBuffer`, `ListenUDP`, `Close`) and the panics when they fail. The connection is a script of read results, and a dial failure is a parameter.
- The internals of HMAC-MD4 (RFC 2104 over RFC 1320). They are an uninterpreted function returning 16 bytes.
- Formatting the wall-clock time as a decimal string. The formatted string is a parameter.
- The contents of the game's glyph decode table. The table is a parameter.
- The Matrix client: creating it, joining the room, syncing, `SendText` and its errors, and the computation of the sender's Matrix URI. The event carries the fields the handler reads, and posted texts are recorded in order.
- Logging, flag parsing, loading the JSON configuration, signal handling and starting the two loops concurrently.
- The regular-expression engine. The two patterns are written as matchers.
- `Rcon.ReadAll`: uses a fixed chunk size, not the growing capacity `io.ReadAll` allocates. The result is proved independent of the chunk size.
- Classifying a read error as a timeout (`errors.As` into `net.Error`, then `Timeout()`). The model has a single timeout error value.
- `Bridge.OnMessage`: the reply text that the handler logs on failure is not recorded.
- `Pipeline.DatagramLines`: uses the padding trim, not the rune trim main.go:148 calls (`Pipeline.DatagramLinesAsWritten`). The two agree when the text after the padding starts and ends with an ASCII byte (`Pipeline.TrimsAgree`). They differ when the text starts or ends with bytes that are not valid UTF-8 or with U+FFFD: the source drops those, the model keeps them. `Bridge.LogListener.ProcessDatagram`, `Receive`, `Step` and `Run` post through `Pipeline.DatagramLines`, so a chat line ending in an invalid byte is posted with U+FFFD where the program drops the byte.
- `Bridge.ConsoleSay`: the game console is not part of this model. `ConsoleSay` is an assumption about it: a quoted argument ends at the next quote, line feed or carriage return, and `say` takes that one argument. Its backslash escapes inside quotes, its splitting of a line at `;`, the commands it runs after a quote or line break in the body, and any reading of `say` that takes its whole raw argument string are not modelled.
- `Bridge.ListCommandRoundTrip`: how the console tokenises an address that holds a quote or a space is not modelled. The reading cuts the command at its last quote.

## Findings

| source | as written | input that shows it | evidently intended | confidence | as-written member | corrected member |
|---|---|---|---|---|---|---|
| main.go:148 | `bytes.Trim(buf, "\xFF")` has a cutset that is not ASCII, so Go reads it as runes. `"\xFF"` is invalid UTF-8 and reads as U+FFFD. The trim therefore removes, at either end, every byte sequence that decodes to U+FFFD: any invalid UTF-8, not only 0xFF padding | the log datagram `FF FF FF FF 6E 63 61 66 E9` (`ncaf` followed by a Latin-1 `é`) trims to `ncaf`, losing the letter | remove only 0xFF bytes from both ends, giving `ncaf` followed by `E9` | medium; not executed | `Pipeline.TrimRuneErrorsDropsText` (over `Pipeline.TrimRuneErrors`) | `Pipeline.TrimPaddingShape` (over `Pipeline.TrimPadding`, which `Pipeline.DatagramLines` uses) |
