/**
 * The log listener's text handling (`startXonotic`): a log datagram is
 * stripped of its out-of-band padding, of the one-letter `n` type marker
 * and of surrounding white space, and split into lines; each line that
 * has the shape of a chat event is turned into the text posted to the
 * room, `<speaker>: message`, both parts cleaned.
 *
 * All delimiters involved are ASCII, and an ASCII byte is always a rune
 * of its own when Go decodes UTF-8, so matching on bytes is matching on
 * runes.
 */
module Pipeline {
  import opened Common
  import opened Utf8
  import opened Clean
  import Packets

  const NL: byte := 0x0A
  const PadByte: byte := 0xFF

  // ---------------------------------------------------------------------
  // Trimming the out-of-band padding (`bytes.Trim(buf, "\xFF")`)
  // ---------------------------------------------------------------------

  function TrimLeftPadding(s: seq<byte>): (r: seq<byte>)
    ensures HasSuffix(s, r)
    ensures r == [] || r[0] != PadByte
    ensures forall k | 0 <= k < |s| - |r| :: s[k] == PadByte
  {
    if s != [] && s[0] == PadByte then
      var r := TrimLeftPadding(s[1..]);
      assert forall k | 1 <= k < |s| - |r| :: s[k] == s[1..][k - 1];
      r
    else s
  }

  function TrimRightPadding(s: seq<byte>): (r: seq<byte>)
    ensures HasPrefix(s, r)
    ensures r == [] || r[|r| - 1] != PadByte
    ensures forall k | |r| <= k < |s| :: s[k] == PadByte
  {
    if s != [] && s[|s| - 1] == PadByte then TrimRightPadding(s[..|s| - 1]) else s
  }

  /** `bytes.Trim(buf, "\xFF")` as the padding trim it is meant to be: the back first, then the front. */
  function TrimPadding(s: seq<byte>): seq<byte> {
    TrimLeftPadding(TrimRightPadding(s))
  }

  /** `r` occurs in `s` at `i` with nothing but padding before and after it. */
  predicate PaddedAround(s: seq<byte>, r: seq<byte>, i: int) {
    && OccursAt(s, r, i)
    && (forall k | 0 <= k < i :: s[k] == PadByte)
    && (forall k | i + |r| <= k < |s| :: s[k] == PadByte)
  }

  /**
   * 0xFF bytes are removed from both ends: the result is the part of `s`
   * between a run of padding at the front and one at the back, and it
   * neither starts nor ends with padding.
   */
  lemma TrimPaddingShape(s: seq<byte>)
    ensures var r := TrimPadding(s);
            && (r == [] || (r[0] != PadByte && r[|r| - 1] != PadByte))
            && exists i :: PaddedAround(s, r, i)
  {
    var right := TrimRightPadding(s);
    var r := TrimLeftPadding(right);
    PaddingFront(s, right, r);
    assert PaddedAround(s, r, |right| - |r|);
    if r != [] {
      assert r[|r| - 1] == right[|right| - 1];
    }
  }

  /** The front trim keeps a part of `s` preceded by padding only. */
  lemma PaddingFront(s: seq<byte>, right: seq<byte>, r: seq<byte>)
    requires right == TrimRightPadding(s) && r == TrimLeftPadding(right)
    ensures OccursAt(s, r, |right| - |r|)
    ensures forall k | 0 <= k < |right| - |r| :: s[k] == PadByte
  {
    var i := |right| - |r|;
    assert right == s[..|right|];
    assert r == right[i..];
    assert forall k | 0 <= k < i :: s[k] == right[k];
  }

  /**
   * What `bytes.Trim(buf, "\xFF")` does as written. The cutset is not
   * ASCII, so it is read as a string of runes; "\xFF" is not valid UTF-8
   * and reads as the one rune U+FFFD. Trimming then removes, at either end,
   * every rune that decodes to U+FFFD: any byte that is not valid UTF-8
   * there, and a genuine U+FFFD too. The back is trimmed first, then the
   * front.
   */
  function TrimRuneErrors(s: seq<byte>): seq<byte> {
    TrimLeftFunc(TrimRightFunc(s, IsRuneError), IsRuneError)
  }

  /**
   * The trim as written drops more than padding: a log datagram whose text
   * ends in a Latin-1 "é" (the single byte 0xE9) loses that letter, while
   * trimming 0xFF bytes keeps it.
   */
  lemma TrimRuneErrorsDropsText(d: seq<byte>, text: seq<byte>)
    requires text == Ascii("ncaf") && d == Packets.QHeader + text + [0xE9]
    ensures TrimRuneErrors(d) == text
    ensures TrimPadding(d) == text + [0xE9]
  {
    assert text == [0x6E, 0x63, 0x61, 0x66];
    var body := text + [0xE9];
    assert d == Packets.QHeader + body;
    TrailingLatin1(Packets.QHeader + text);
    TrimHeader(Packets.QHeader, text);
    TrimHeader(Packets.QHeader, body);
    assert TrimRightPadding(d) == d;
  }

  /** A trailing 0xE9 is not valid UTF-8 and goes; the ASCII `f` before it stays. */
  lemma TrailingLatin1(head: seq<byte>)
    requires |head| >= 1 && head[|head| - 1] == 0x66
    ensures TrimRightFunc(head + [0xE9], IsRuneError) == head
  {
    var s := head + [0xE9];
    var lim := if |s| < 4 then 0 else |s| - 4;
    assert RuneStartBefore(s, |s| - 2, lim) == |s| - 2;
    assert s[|s| - 2..] == [0x66, 0xE9];
    assert DecodeRune([0x66, 0xE9]) == (0x66 as char, 1);
    assert DecodeLastRune(s) == (RuneError, 1);
    assert s[..|s| - 1] == head;
    assert DecodeLastRune(head).0 == 0x66 as char;
  }

  /** On the out-of-band header both trims agree: the padding goes and the text stays. */
  lemma {:induction false} TrimHeader(pad: seq<byte>, body: seq<byte>)
    requires forall i | 0 <= i < |pad| :: pad[i] == PadByte
    requires body == [] || body[0] < 0x80
    ensures TrimLeftFunc(pad + body, IsRuneError) == body
    ensures TrimLeftPadding(pad + body) == body
  {
    if pad != [] {
      assert DecodeRune(pad + body) == (RuneError, 1);
      assert (pad + body)[1..] == pad[1..] + body;
      TrimHeader(pad[1..], body);
    } else {
      assert pad + body == body;
    }
  }

  // ---------------------------------------------------------------------
  // `strings.TrimPrefix(packet, "n")` and `strings.TrimSpace`
  // ---------------------------------------------------------------------

  /** The type marker of a log datagram: `n`. */
  const TypeMarker: byte := 0x6E

  /** `strings.TrimPrefix(s, "n")`: at most one leading `n` removed. */
  function TrimTypeMarker(s: seq<byte>): (r: seq<byte>)
    ensures s != [] && s[0] == TypeMarker ==> [TypeMarker] + r == s
    ensures s == [] || s[0] != TypeMarker ==> r == s
  {
    if s != [] && s[0] == TypeMarker then s[1..] else s
  }

  /** `unicode.IsSpace`. */
  predicate IsSpace(c: char) {
    || c == '\t' || c == '\n' || c == '\U{000B}' || c == '\U{000C}' || c == '\r' || c == ' '
    || c == '\U{0085}' || c == '\U{00A0}' || c == '\U{1680}'
    || ('\U{2000}' <= c <= '\U{200A}')
    || c == '\U{2028}' || c == '\U{2029}' || c == '\U{202F}' || c == '\U{205F}' || c == '\U{3000}'
  }

  /** `strings.TrimSpace`: white-space runes removed from the front, then from the back. */
  function TrimSpace(s: seq<byte>): seq<byte> {
    TrimRightFunc(TrimLeftFunc(s, IsSpace), IsSpace)
  }

  /**
   * The trimmed text is the part of `s` between white space at the front
   * and white space at the back, and its first and last runes are not
   * white space.
   */
  lemma TrimSpaceShape(s: seq<byte>)
    ensures var r := TrimSpace(s);
            && (exists i :: RunesAround(s, r, i, IsSpace))
            && (r == [] || (!IsSpace(DecodeRune(r).0) && !IsSpace(DecodeLastRune(r).0)))
  {
    TrimSpaceEdges(s);
    SpaceNotRuneError();
    TrimFuncAround(s, IsSpace);
    assert RunesAround(s, TrimSpace(s), |s| - |TrimLeftFunc(s, IsSpace)|, IsSpace);
  }

  lemma SpaceNotRuneError()
    ensures !IsSpace(RuneError)
  {
  }

  lemma TrimSpaceEdges(s: seq<byte>)
    ensures var r := TrimSpace(s);
            r == [] || (!IsSpace(DecodeRune(r).0) && !IsSpace(DecodeLastRune(r).0))
  {
    var left := TrimLeftFunc(s, IsSpace);
    var r := TrimRightFunc(left, IsSpace);
    if r != [] {
      FirstRuneOfPrefix(left, r);
    }
  }

  /**
   * Cutting whole runes off the back of a text whose first rune is not a
   * white space rune keeps that first rune: the trimmed text still starts
   * with a non-space rune.
   */
  lemma {:induction false} FirstRuneOfPrefix(left: seq<byte>, r: seq<byte>)
    requires r == TrimRightFunc(left, IsSpace) && r != []
    requires !IsSpace(DecodeRune(left).0)
    ensures !IsSpace(DecodeRune(r).0)
    decreases |left|
  {
    var (c, n) := DecodeLastRune(left);
    if IsSpace(c) {
      var shorter := left[..|left| - n];
      DecodeRunePrefix(left, shorter);
      FirstRuneOfPrefix(shorter, r);
    }
  }

  // ---------------------------------------------------------------------
  // `strings.Split(s, "\n")` and its inverse
  // ---------------------------------------------------------------------

  /** `strings.Join(pieces, "\n")`. */
  function Join(pieces: seq<seq<byte>>): seq<byte>
    requires |pieces| >= 1
  {
    if |pieces| == 1 then pieces[0] else pieces[0] + [NL] + Join(pieces[1..])
  }

  /**
   * `strings.Split(s, "\n")`: the pieces between newlines. There is always
   * at least one piece, no piece holds a newline, and joining the pieces
   * with newlines restores `s`.
   */
  function Split(s: seq<byte>): (r: seq<seq<byte>>)
    ensures |r| >= 1
    ensures forall i | 0 <= i < |r| :: NL !in r[i]
    ensures Join(r) == s
    decreases |s|
  {
    match IndexOf(s, NL)
    case None => [s]
    case Some(k) =>
      var r := [s[..k]] + Split(s[k + 1..]);
      assert r[1..] == Split(s[k + 1..]);
      assert s == s[..k] + [NL] + s[k + 1..];
      r
  }

  /** Splitting newline-free pieces joined with newlines gives the pieces back. */
  lemma {:induction false} SplitJoin(pieces: seq<seq<byte>>)
    requires |pieces| >= 1
    requires forall i | 0 <= i < |pieces| :: NL !in pieces[i]
    ensures Split(Join(pieces)) == pieces
  {
    if |pieces| > 1 {
      var rest := Join(pieces[1..]);
      IndexOfAfter(pieces[0], NL, rest);
      var s := pieces[0] + [NL] + rest;
      assert s[..|pieces[0]|] == pieces[0];
      assert s[|pieces[0]| + 1..] == rest;
      SplitJoin(pieces[1..]);
    } else {
      assert IndexOf(pieces[0], NL) == None;
    }
  }

  /** The lines of a log datagram, as `startXonotic` iterates over them. */
  function DatagramLines(d: seq<byte>): (lines: seq<seq<byte>>)
    ensures |lines| >= 1
    ensures forall i | 0 <= i < |lines| :: NL !in lines[i]
  {
    Split(TrimSpace(TrimTypeMarker(TrimPadding(d))))
  }

  /** The lines of a log datagram cut with the rune trim main.go:148 calls. */
  function DatagramLinesAsWritten(d: seq<byte>): seq<seq<byte>> {
    Split(TrimSpace(TrimTypeMarker(TrimRuneErrors(d))))
  }

  /**
   * On a datagram made of padding and a text that starts and ends with an
   * ASCII byte, the rune trim and the padding trim both leave the text,
   * and so the two readings give the same lines.
   */
  lemma TrimsAgree(pad: seq<byte>, body: seq<byte>)
    requires forall i | 0 <= i < |pad| :: pad[i] == PadByte
    requires body != [] && body[0] < 0x80 && body[|body| - 1] < 0x80
    ensures TrimRuneErrors(pad + body) == body
    ensures TrimPadding(pad + body) == body
    ensures DatagramLinesAsWritten(pad + body) == DatagramLines(pad + body)
  {
    var d := pad + body;
    assert d[|d| - 1] == body[|body| - 1];
    assert DecodeLastRune(d).0 == body[|body| - 1] as char;
    assert TrimRightFunc(d, IsRuneError) == d;
    assert TrimRightPadding(d) == d;
    TrimHeader(pad, body);
  }

  // ---------------------------------------------------------------------
  // The chat pattern `^\x01?\^\d(.+)\^7: (.+)`
  // ---------------------------------------------------------------------

  const ChatLead: byte := 0x01
  const Caret: byte := 0x5E
  /** The separator between speaker and message: `^7: `. */
  const Separator: seq<byte> := [0x5E, 0x37, 0x3A, 0x20]

  /** `\d`: an ASCII digit. */
  predicate IsDigit(b: byte) {
    0x30 <= b <= 0x39
  }

  datatype ChatLine = ChatLine(speaker: seq<byte>, message: seq<byte>)

  /** The separator occurs at `k` with at least one byte after it. */
  predicate SplitsAt(s: seq<byte>, k: int) {
    0 <= k && k + |Separator| < |s| && s[k..k + |Separator|] == Separator
  }

  /** The greatest `k` in `[lo, hi]` at which `s` splits. */
  function LastSplit(s: seq<byte>, lo: nat, hi: int): (r: Option<nat>)
    ensures r.Some? ==> lo <= r.value <= hi && SplitsAt(s, r.value)
    ensures r.Some? ==> forall k | r.value < k <= hi :: !SplitsAt(s, k)
    ensures r.None? ==> forall k | lo <= k <= hi :: !SplitsAt(s, k)
    decreases hi - lo
  {
    if hi < lo then None
    else if SplitsAt(s, hi) then Some(hi)
    else LastSplit(s, lo, hi - 1)
  }

  /** The line up to its first newline, which neither `.` may cross. */
  function FirstSegment(line: seq<byte>): (seg: seq<byte>)
    ensures HasPrefix(line, seg) && NL !in seg
    ensures seg == line || line[|seg|] == NL
    ensures NL !in line ==> seg == line
  {
    match IndexOf(line, NL)
    case None => line
    case Some(k) => line[..k]
  }

  /**
   * `FindStringSubmatch` with the chat pattern: the optional 0x01 is taken
   * when present, the greedy speaker group runs to the last `^7: ` that
   * still leaves a message, and the message runs to the end of the line.
   */
  function ChatMatch(line: seq<byte>): Option<ChatLine> {
    MatchSegment(FirstSegment(line))
  }

  /** The pattern on the part of the line it can see. */
  function MatchSegment(seg: seq<byte>): Option<ChatLine> {
    var lead := if |seg| > 0 && seg[0] == ChatLead then 1 else 0;
    if |seg| < lead + 2 || seg[lead] != Caret || !IsDigit(seg[lead + 1]) then None
    else match LastSplit(seg, lead + 3, |seg| - 1)
      case None => None
      case Some(k) => Some(ChatLine(seg[lead + 2..k], seg[k + |Separator|..]))
  }

  /**
   * A line of the chat shape: `lead` bytes of 0x01 (zero or one), a caret,
   * a digit, a non-empty speaker, the separator and a non-empty message.
   */
  predicate ChatShape(line: seq<byte>, lead: nat, c: ChatLine) {
    && lead <= 1
    && |line| >= lead + 2
    && (lead == 1 ==> line[0] == ChatLead)
    && line[lead] == Caret
    && IsDigit(line[lead + 1])
    && c.speaker != []
    && c.message != []
    && line[lead + 2..] == c.speaker + Separator + c.message
  }

  /** `c` is one reading of `line` as a chat event. */
  predicate IsChat(line: seq<byte>, c: ChatLine) {
    NL !in line && (ChatShape(line, 0, c) || ChatShape(line, 1, c))
  }

  /** Whatever the matcher returns is a reading of the line as a chat event. */
  lemma ChatMatchSound(line: seq<byte>)
    requires NL !in line
    ensures ChatMatch(line).Some? ==> IsChat(line, ChatMatch(line).value)
  {
    if ChatMatch(line).Some? {
      var lead := if |line| > 0 && line[0] == ChatLead then 1 else 0;
      var k := LastSplit(line, lead + 3, |line| - 1).value;
      assert FirstSegment(line) == line;
      var c := ChatMatch(line).value;
      SplitAround(line, lead + 2, k);
      assert ChatShape(line, lead, c);
    }
  }

  /** Around a split at `k`, the text from `a` on is what precedes the separator, the separator and what follows it. */
  lemma SplitAround(s: seq<byte>, a: nat, k: nat)
    requires a <= k && SplitsAt(s, k)
    ensures s[a..] == s[a..k] + Separator + s[k + |Separator|..]
  {
  }

  /**
   * Every reading of the line as a chat event is found, and the matcher's
   * speaker is at least as long as that reading's: the speaker group is
   * greedy.
   */
  lemma ChatMatchComplete(line: seq<byte>, c: ChatLine)
    requires IsChat(line, c)
    ensures ChatMatch(line).Some?
    ensures |c.speaker| <= |ChatMatch(line).value.speaker|
  {
    var lead := if ChatShape(line, 1, c) then 1 else 0;
    assert ChatShape(line, lead, c);
    assert lead == 0 ==> line[0] == Caret;
    var k := lead + 2 + |c.speaker|;
    assert line[k..k + |Separator|] == Separator by {
      assert line[lead + 2..][|c.speaker|..|c.speaker| + |Separator|] == Separator;
    }
    assert SplitsAt(line, k);
  }

  // ---------------------------------------------------------------------
  // Outbound texts
  // ---------------------------------------------------------------------

  /** `<` */
  const Open: seq<byte> := [0x3C]
  /** `>: ` */
  const Close: seq<byte> := [0x3E, 0x3A, 0x20]

  /** `fmt.Sprintf("<%s>: %s", speaker, message)`. */
  function Format(speaker: seq<byte>, message: seq<byte>): seq<byte> {
    Open + speaker + Close + message
  }

  /** The text posted for a chat line: its cleaned speaker and message, formatted. */
  function ChatText(c: ChatLine, table: DecodeTable): (t: seq<byte>)
    ensures HasPrefix(t, Open + CleanText(c.speaker, table) + Close)
    ensures HasSuffix(t, CleanText(c.message, table))
    ensures |t| == |Open| + |CleanText(c.speaker, table)| + |Close| + |CleanText(c.message, table)|
  {
    Format(CleanText(c.speaker, table), CleanText(c.message, table))
  }

  /** What one line posts: its chat text when it is a chat event, nothing otherwise. */
  function LineTexts(line: seq<byte>, table: DecodeTable): (r: seq<seq<byte>>)
    ensures |r| <= 1
    ensures r != [] <==> ChatMatch(line).Some?
  {
    match ChatMatch(line)
    case None => []
    case Some(c) => [ChatText(c, table)]
  }

  /**
   * The texts posted for `lines`, line by line in order: each line's
   * `LineTexts`, as `OutboundTextsAppend` and `OutboundTextsOne` state.
   */
  function OutboundTexts(lines: seq<seq<byte>>, table: DecodeTable): (r: seq<seq<byte>>)
    ensures |r| <= |lines|
  {
    if lines == [] then [] else LineTexts(lines[0], table) + OutboundTexts(lines[1..], table)
  }

  /** One more line posts that line's texts after the earlier ones. */
  lemma OutboundTextsStep(posted: seq<seq<byte>>, lines: seq<seq<byte>>, i: nat, table: DecodeTable)
    requires i < |lines|
    ensures posted + OutboundTexts(lines[..i], table) + LineTexts(lines[i], table)
            == posted + OutboundTexts(lines[..i + 1], table)
  {
    assert lines[..i + 1] == lines[..i] + [lines[i]];
    OutboundTextsAppend(lines[..i], [lines[i]], table);
    OutboundTextsOne(lines[i], table);
  }

  /** Posting is line by line: the texts for consecutive runs of lines concatenate. */
  lemma {:induction false} OutboundTextsAppend(a: seq<seq<byte>>, b: seq<seq<byte>>, table: DecodeTable)
    ensures OutboundTexts(a + b, table) == OutboundTexts(a, table) + OutboundTexts(b, table)
  {
    if a != [] {
      assert (a + b)[1..] == a[1..] + b;
      OutboundTextsAppend(a[1..], b, table);
    } else {
      assert a + b == b;
    }
  }

  /** A chat event datagram from the server, end to end. */
  lemma ChatDatagramExample(d: seq<byte>, table: DecodeTable, posted: seq<byte>)
    requires d == Packets.QHeader + Ascii("n^3Bob^7: hi\n") && table == map[]
    requires posted == Ascii("<Bob>: hi")
    ensures OutboundTexts(DatagramLines(d), table) == [posted]
  {
    var line := ExampleLine;
    ExampleBytes(d);
    OneLineDatagram(line);
    ExampleMatch(line);
    ExampleText(ChatMatch(line).value, table);
    OutboundTextsOne(line, table);
  }

  lemma ExampleBytes(d: seq<byte>)
    requires d == Packets.QHeader + Ascii("n^3Bob^7: hi\n")
    ensures d == Packets.QHeader + [TypeMarker] + ExampleLine + [NL]
  {
  }

  /** A one-line datagram posts what its line posts. */
  lemma OutboundTextsOne(line: seq<byte>, table: DecodeTable)
    ensures OutboundTexts([line], table) == LineTexts(line, table)
  {
    var none: seq<seq<byte>> := [];
    assert [line][1..] == none;
  }

  lemma ExampleText(c: ChatLine, table: DecodeTable)
    requires c == ChatLine([0x42, 0x6F, 0x62], [0x68, 0x69]) && table == map[]
    ensures ChatText(c, table) == Ascii("<Bob>: hi")
  {
    CleanAscii(c.speaker, table);
    CleanAscii(c.message, table);
    FormatExample(c.speaker, c.message);
  }

  lemma FormatExample(speaker: seq<byte>, message: seq<byte>)
    requires speaker == [0x42, 0x6F, 0x62] && message == [0x68, 0x69]
    ensures Format(speaker, message) == Ascii("<Bob>: hi")
  {
  }

  /** The bytes of `^3Bob^7: hi`. */
  const ExampleLine: seq<byte> := [0x5E, 0x33, 0x42, 0x6F, 0x62, 0x5E, 0x37, 0x3A, 0x20, 0x68, 0x69]

  /**
   * A log datagram carrying one line of text, as the server sends it: the
   * header, the `n` marker, the line and a newline. Its only line is that
   * line, provided the line starts and ends with a visible ASCII character.
   */
  lemma OneLineDatagram(line: seq<byte>)
    requires line != [] && NL !in line
    requires 0x20 < line[0] < 0x7F && 0x20 < line[|line| - 1] < 0x7F
    ensures DatagramLines(Packets.QHeader + [TypeMarker] + line + [NL]) == [line]
  {
    TrimOneLine(line);
    SplitOneLine(line);
  }

  lemma TrimOneLine(line: seq<byte>)
    requires line != []
    requires 0x20 < line[0] < 0x7F && 0x20 < line[|line| - 1] < 0x7F
    ensures TrimSpace(TrimTypeMarker(TrimPadding(Packets.QHeader + [TypeMarker] + line + [NL]))) == line
  {
    var text := [TypeMarker] + line + [NL];
    HeaderText(line);
    PaddingOfText(text);
    MarkerOfText(line);
    SpaceOfLine(line);
  }

  lemma HeaderText(line: seq<byte>)
    ensures Packets.QHeader + [TypeMarker] + line + [NL] == Packets.QHeader + ([TypeMarker] + line + [NL])
  {
  }

  lemma MarkerOfText(line: seq<byte>)
    ensures TrimTypeMarker([TypeMarker] + line + [NL]) == line + [NL]
  {
    assert ([TypeMarker] + line + [NL])[1..] == line + [NL];
  }

  lemma SplitOneLine(line: seq<byte>)
    requires NL !in line
    ensures Split(line) == [line]
  {
    assert IndexOf(line, NL) == None;
  }

  lemma PaddingOfText(text: seq<byte>)
    requires text != [] && text[0] < 0x80 && text[|text| - 1] == NL
    ensures TrimPadding(Packets.QHeader + text) == text
  {
    TrimHeader(Packets.QHeader, text);
    assert TrimRightPadding(Packets.QHeader + text) == Packets.QHeader + text;
  }

  lemma SpaceOfLine(line: seq<byte>)
    requires line != []
    requires 0x20 < line[0] < 0x7F && 0x20 < line[|line| - 1] < 0x7F
    ensures TrimSpace(line + [NL]) == line
  {
    var s := line + [NL];
    assert s[0] == line[0];
    assert TrimLeftFunc(s, IsSpace) == s;
    assert DecodeLastRune(s) == ('\n', 1);
    assert s[..|s| - 1] == line;
    assert TrimRightFunc(s, IsSpace) == TrimRightFunc(line, IsSpace);
    assert TrimRightFunc(line, IsSpace) == line;
  }

  lemma ExampleMatch(line: seq<byte>)
    requires line == ExampleLine
    ensures ChatMatch(line) == Some(ChatLine([0x42, 0x6F, 0x62], [0x68, 0x69]))
  {
    ExampleSplit(line);
    ExampleHead(line);
    ExampleParts(line);
    ChatMatchAt(line, 5);
  }

  lemma ExampleHead(line: seq<byte>)
    requires line == ExampleLine
    ensures NL !in line && line[0] == Caret && IsDigit(line[1])
  {
    assert forall i | 0 <= i < |line| :: line[i] != NL;
  }

  lemma ExampleParts(line: seq<byte>)
    requires line == ExampleLine
    ensures line[2..5] == [0x42, 0x6F, 0x62] && line[9..] == [0x68, 0x69]
  {
  }

  /** A one-line text that starts with a caret and a digit matches at its last split. */
  lemma ChatMatchAt(line: seq<byte>, k: nat)
    requires NL !in line && |line| >= 2 && line[0] == Caret && IsDigit(line[1])
    requires LastSplit(line, 3, |line| - 1) == Some(k)
    ensures ChatMatch(line) == Some(ChatLine(line[2..k], line[k + |Separator|..]))
  {
    assert FirstSegment(line) == line;
    MatchSegmentAt(line, k);
  }

  lemma MatchSegmentAt(seg: seq<byte>, k: nat)
    requires |seg| >= 2 && seg[0] == Caret && IsDigit(seg[1])
    requires LastSplit(seg, 3, |seg| - 1) == Some(k)
    ensures MatchSegment(seg) == Some(ChatLine(seg[2..k], seg[k + |Separator|..]))
  {
  }

  lemma ExampleSplit(line: seq<byte>)
    requires line == ExampleLine
    ensures LastSplit(line, 3, 10) == Some(5)
  {
    NoSplitAfter(line);
    assert line[5..9] == Separator;
    assert LastSplit(line, 3, 10) == LastSplit(line, 3, 8);
    assert LastSplit(line, 3, 8) == LastSplit(line, 3, 6);
  }

  lemma NoSplitAfter(line: seq<byte>)
    requires line == ExampleLine
    ensures forall k | 6 <= k <= 10 :: !SplitsAt(line, k)
  {
    assert Separator[0] == Caret;
    assert forall k | 6 <= k < |line| :: line[k] != Caret;
  }

  /** Plain ASCII text without carets comes out of cleaning with an empty table unchanged. */
  lemma CleanAscii(s: seq<byte>, table: DecodeTable)
    requires forall i | 0 <= i < |s| :: s[i] < 0x80 && s[i] != Caret
    requires table == map[]
    ensures CleanText(s, table) == s
  {
    DecodeAscii(s);
    EncodeDecodeAscii(s);
    CleanTextIdentity(s, table);
  }
}
