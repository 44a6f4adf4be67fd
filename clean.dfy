/**
 * `cleanXonoticText`: the game's private glyphs are mapped to readable
 * runes through a decode table, then colour codes are deleted in one
 * left-to-right pass. The table's contents are not part of this model: it
 * is a parameter.
 */
module Clean {
  import opened Common
  import opened Utf8

  /** A rune-to-rune decode table (the game's qfont glyphs to Unicode). */
  type DecodeTable = map<char, char>

  /** The image of one rune: the table entry when there is one, the rune itself otherwise. */
  function SubstituteRune(c: char, table: DecodeTable): char {
    if c in table then table[c] else c
  }

  /** Every rune replaced by its image. */
  function Substituted(rs: seq<char>, table: DecodeTable): (r: seq<char>)
    ensures |r| == |rs|
  {
    seq(|rs|, i requires 0 <= i < |rs| => SubstituteRune(rs[i], table))
  }

  /** The substitution loop of `cleanXonoticText`, over the rune array in place. */
  method SubstituteInPlace(runes: array<char>, table: DecodeTable)
    modifies runes
    ensures runes[..] == Substituted(old(runes[..]), table)
  {
    for i := 0 to runes.Length
      invariant runes[i..] == old(runes[i..])
      invariant forall j | 0 <= j < i :: runes[j] == SubstituteRune(old(runes[j]), table)
    {
      if runes[i] in table {
        runes[i] := table[runes[i]];
      }
    }
  }

  /** A rune `[0-9]` accepts. */
  predicate IsDigitRune(c: char) {
    '0' <= c <= '9'
  }

  /** A rune `[0-f]` accepts: the ASCII range from '0' to 'f', punctuation and capitals included. */
  predicate IsCodeRune(c: char) {
    '0' <= c <= 'f'
  }

  /** `rs` starts with the alternative `\^[0-9]`. */
  predicate DigitCodeAt(rs: seq<char>) {
    |rs| >= 2 && rs[0] == '^' && IsDigitRune(rs[1])
  }

  /** `rs` starts with the alternative `\^x[0-f]{3}`. */
  predicate HexCodeAt(rs: seq<char>) {
    |rs| >= 5 && rs[0] == '^' && rs[1] == 'x' && forall i | 2 <= i < 5 :: IsCodeRune(rs[i])
  }

  /**
   * The length of the colour code `(\^[0-9]|\^x[0-f]{3})` at the start of
   * `rs`, trying `^digit` first; 0 when none starts there.
   */
  function CodeLength(rs: seq<char>): (n: nat)
    ensures n == 0 || n == 2 || n == 5
    ensures n > 0 ==> n <= |rs| && rs[0] == '^'
    ensures n == 2 <==> DigitCodeAt(rs)
    ensures n == 5 <==> HexCodeAt(rs)
  {
    if |rs| >= 2 && rs[0] == '^' && IsDigitRune(rs[1]) then 2
    else if |rs| >= 5 && rs[0] == '^' && rs[1] == 'x'
            && IsCodeRune(rs[2]) && IsCodeRune(rs[3]) && IsCodeRune(rs[4]) then 5
    else 0
  }

  /**
   * `ReplaceAllString(s, "")` for the colour pattern: scanning left to
   * right, each code found is deleted and the scan resumes after it; where
   * none starts, one rune is kept. What survives is stated by
   * `StripColoursKeepsPlain` and `StripColoursNoCaret` below.
   */
  function StripColours(rs: seq<char>): (r: seq<char>)
    ensures |r| <= |rs|
    decreases |rs|
  {
    if rs == [] then []
    else
      var n := CodeLength(rs);
      if n > 0 then StripColours(rs[n..]) else [rs[0]] + StripColours(rs[1..])
  }

  /** What `cleanXonoticText` returns for the bytes `text`. */
  function CleanText(text: seq<byte>, table: DecodeTable): seq<byte> {
    Encode(StripColours(Substituted(Decode(text), table)))
  }

  /** `cleanXonoticText`: decode, substitute in place, re-encode and delete colour codes. */
  method CleanXonoticText(text: seq<byte>, table: DecodeTable) returns (r: seq<byte>)
    ensures r == CleanText(text, table)
  {
    var decoded := Decode(text);
    var runes := new char[|decoded|](i requires 0 <= i < |decoded| => decoded[i]);
    assert runes[..] == decoded;
    SubstituteInPlace(runes, table);
    r := Encode(StripColours(runes[..]));
  }

  // ---------------------------------------------------------------------
  // Properties
  // ---------------------------------------------------------------------

  /** Text without a caret has no colour code to delete. */
  lemma {:induction false} StripColoursNoCaret(rs: seq<char>)
    requires '^' !in rs
    ensures StripColours(rs) == rs
  {
    if rs != [] {
      assert CodeLength(rs) == 0;
      assert '^' !in rs[1..];
      StripColoursNoCaret(rs[1..]);
    }
  }

  /** A rune no colour code can contain. */
  predicate Plain(c: char) {
    c != '^' && c != 'x' && !IsCodeRune(c)
  }

  /** The plain runes of `rs`, in order. */
  function PlainRunes(rs: seq<char>): seq<char> {
    if rs == [] then []
    else (if Plain(rs[0]) then [rs[0]] else []) + PlainRunes(rs[1..])
  }

  lemma {:induction false} PlainRunesSkip(rs: seq<char>, n: nat)
    requires n <= |rs|
    requires forall i | 0 <= i < n :: !Plain(rs[i])
    ensures PlainRunes(rs) == PlainRunes(rs[n..])
  {
    if n > 0 {
      assert rs[1..][n - 1..] == rs[n..];
      PlainRunesSkip(rs[1..], n - 1);
    }
  }

  /**
   * Colour stripping deletes only code runes: every rune that cannot be
   * part of a code survives, in order.
   */
  lemma {:induction false} StripColoursKeepsPlain(rs: seq<char>)
    ensures PlainRunes(StripColours(rs)) == PlainRunes(rs)
    decreases |rs|
  {
    if rs != [] {
      var n := CodeLength(rs);
      if n > 0 {
        PlainRunesSkip(rs, n);
        StripColoursKeepsPlain(rs[n..]);
      } else {
        StripColoursKeepsPlain(rs[1..]);
        var t := StripColours(rs[1..]);
        assert ([rs[0]] + t)[1..] == t;
      }
    }
  }

  /** One pass only: deleting `^1` from `^^11` joins a new code `^1`, which stays. */
  lemma StripColoursSinglePass()
    ensures StripColours("^^11") == "^1"
    ensures StripColours("^x0Fa!") == "!"
    ensures StripColours("^xg00") == "^xg00"
  {
    assert CodeLength("^^11") == 0;
    assert "^^11"[1..] == "^11";
    assert "^11"[2..] == "1";
    assert CodeLength("1") == 0 && "1"[1..] == [];
    assert "^x0Fa!"[5..] == "!";
    assert CodeLength("!") == 0 && "!"[1..] == [];
    assert "^xg00"[1..] == "xg00";
    StripColoursNoCaret("xg00");
  }

  /**
   * Well-formed text with no caret and no rune the table maps comes back
   * unchanged.
   */
  lemma CleanTextIdentity(text: seq<byte>, table: DecodeTable)
    requires Encode(Decode(text)) == text
    requires '^' !in Decode(text)
    requires forall c | c in Decode(text) :: c !in table
    ensures CleanText(text, table) == text
  {
    var rs := Decode(text);
    assert Substituted(rs, table) == rs;
    StripColoursNoCaret(rs);
  }
}
