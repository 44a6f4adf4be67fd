/**
 * UTF-8 as Go reads and writes it: the rune decoding used by `[]rune(s)`,
 * `utf8.DecodeRune` and `utf8.DecodeLastRune`, and the encoding used by
 * `string(runes)`. An invalid or incomplete sequence reads as U+FFFD of
 * width one byte.
 */
module Utf8 {
  import opened Common

  const RuneError: char := '\U{FFFD}'

  predicate IsContinuation(b: byte) {
    0x80 <= b <= 0xBF
  }

  /** `utf8.RuneStart`: the byte is not a continuation byte. */
  predicate IsRuneStart(b: byte) {
    !IsContinuation(b)
  }

  /** The first rune of `s` and the number of bytes it occupies (`utf8.DecodeRune`). */
  function DecodeRune(s: seq<byte>): (r: (char, nat))
    requires |s| > 0
    ensures 1 <= r.1 <= 4 && r.1 <= |s|
    ensures s[0] < 0x80 <==> r.1 == 1 && r.0 as int == s[0]
    ensures r.0 != RuneError ==> r.1 == 1 || IsRuneStart(s[0])
  {
    var b0: int := s[0];
    if b0 < 0x80 then (b0 as char, 1)
    else if 0xC2 <= b0 <= 0xDF then
      if |s| >= 2 && IsContinuation(s[1])
      then (((b0 - 0xC0) * 0x40 + (s[1] as int - 0x80)) as char, 2)
      else (RuneError, 1)
    else if 0xE0 <= b0 <= 0xEF then
      var lo := if b0 == 0xE0 then 0xA0 else 0x80;
      var hi := if b0 == 0xED then 0x9F else 0xBF;
      if |s| >= 3 && lo <= s[1] <= hi && IsContinuation(s[2])
      then (((b0 - 0xE0) * 0x1000 + (s[1] as int - 0x80) * 0x40 + (s[2] as int - 0x80)) as char, 3)
      else (RuneError, 1)
    else if 0xF0 <= b0 <= 0xF4 then
      var lo := if b0 == 0xF0 then 0x90 else 0x80;
      var hi := if b0 == 0xF4 then 0x8F else 0xBF;
      if |s| >= 4 && lo <= s[1] <= hi && IsContinuation(s[2]) && IsContinuation(s[3])
      then (((b0 - 0xF0) * 0x40000 + (s[1] as int - 0x80) * 0x1000 + (s[2] as int - 0x80) * 0x40 + (s[3] as int - 0x80)) as char, 4)
      else (RuneError, 1)
    else (RuneError, 1)
  }

  /**
   * The greatest index in [lim, j] holding a rune-start byte; if there is
   * none, one below `lim` (clamped at zero), as the backward scan in
   * `utf8.DecodeLastRune` leaves it.
   */
  function RuneStartBefore(s: seq<byte>, j: int, lim: nat): (start: nat)
    requires 0 < |s| && j < |s| && lim <= j + 1
    ensures start < |s| && (start == 0 || start <= j)
    decreases j + 1 - lim
  {
    if j < lim then (if j < 0 then 0 else j)
    else if IsRuneStart(s[j]) then j
    else RuneStartBefore(s, j - 1, lim)
  }

  /** The last rune of `s` and its width (`utf8.DecodeLastRune`). */
  function DecodeLastRune(s: seq<byte>): (r: (char, nat))
    requires |s| > 0
    ensures 1 <= r.1 <= |s|
  {
    var end := |s|;
    if s[end - 1] < 0x80 then (s[end - 1] as char, 1)
    else
      var lim := if end < 4 then 0 else end - 4;
      var start := RuneStartBefore(s, end - 2, lim);
      var (c, n) := DecodeRune(s[start..]);
      if start + n != end then (RuneError, 1) else (c, n)
  }

  /**
   * Decoding the first rune of a prefix gives the same rune as decoding it
   * in the whole text, unless the prefix cuts that rune short, in which
   * case the prefix reads as an invalid byte.
   */
  lemma DecodeRunePrefix(s: seq<byte>, p: seq<byte>)
    requires p != [] && HasPrefix(s, p)
    ensures DecodeRune(p).1 < DecodeRune(s).1 ==> DecodeRune(p).0 == RuneError
    ensures DecodeRune(s).1 <= |p| ==> DecodeRune(p) == DecodeRune(s)
  {
    assert forall k | 0 <= k < |p| :: p[k] == s[k];
  }

  /** Every byte after the first one of a rune of two or more bytes is a continuation byte. */
  lemma DecodeRuneContinuations(s: seq<byte>)
    requires |s| > 0
    ensures forall i | 1 <= i < DecodeRune(s).1 :: IsContinuation(s[i])
  {
  }

  /**
   * A rune that `utf8.DecodeLastRune` reads as valid is the whole of the
   * bytes it spans, and they read forwards as the same rune.
   */
  lemma DecodeLastValid(s: seq<byte>)
    requires |s| > 0 && DecodeLastRune(s).0 != RuneError
    ensures var (c, n) := DecodeLastRune(s);
            DecodeRune(s[|s| - n..]) == (c, n) && IsRuneStart(s[|s| - n])
  {
  }

  /** `[]rune(string(s))`. */
  function Decode(s: seq<byte>): (rs: seq<char>)
    ensures |rs| <= |s|
    decreases |s|
  {
    if s == [] then []
    else
      var (c, n) := DecodeRune(s);
      [c] + Decode(s[n..])
  }

  /** Reading a prefix of `s` that holds the first rune of `s` whole: that rune, then the rest of the prefix. */
  lemma DecodeFront(s: seq<byte>, m: nat)
    requires |s| > 0 && DecodeRune(s).1 <= m <= |s|
    ensures Decode(s[..m]) == [DecodeRune(s).0] + Decode(s[DecodeRune(s).1..][..m - DecodeRune(s).1])
  {
    var p := s[..m];
    DecodeRunePrefix(s, p);
    assert p[DecodeRune(s).1..] == s[DecodeRune(s).1..][..m - DecodeRune(s).1];
  }

  /** If the first rune of `s` and every rune after it up to `m` satisfy `P`, every rune of `s[..m]` does. */
  lemma FrontAll(s: seq<byte>, m: nat, P: char -> bool)
    requires |s| > 0 && DecodeRune(s).1 <= m <= |s| && P(DecodeRune(s).0)
    requires forall c <- Decode(s[DecodeRune(s).1..][..m - DecodeRune(s).1]) :: P(c)
    ensures forall c <- Decode(s[..m]) :: P(c)
  {
    DecodeFront(s, m);
  }

  /** Text that ends where a rune starts decodes the same whatever follows it. */
  lemma {:induction false} DecodeAppend(x: seq<byte>, y: seq<byte>)
    requires y == [] || IsRuneStart(y[0])
    ensures Decode(x + y) == Decode(x) + Decode(y)
    decreases |x|
  {
    if x == [] {
      assert x + y == y;
    } else {
      var n := DecodeRune(x + y).1;
      DecodeRuneContinuations(x + y);
      if y != [] {
        assert (x + y)[|x|] == y[0];
      }
      assert n <= |x|;
      DecodeRunePrefix(x + y, x);
      assert (x + y)[n..] == x[n..] + y;
      DecodeAppend(x[n..], y);
    }
  }

  // ---------------------------------------------------------------------
  // `bytes.TrimLeftFunc` and `bytes.TrimRightFunc`
  // ---------------------------------------------------------------------

  predicate IsRuneError(c: char) {
    c == RuneError
  }

  /** `bytes.TrimLeftFunc`: the runes satisfying `f` removed from the front. */
  function TrimLeftFunc(s: seq<byte>, f: char -> bool): (r: seq<byte>)
    ensures HasSuffix(s, r)
    ensures r == [] || !f(DecodeRune(r).0)
    decreases |s|
  {
    if s == [] then []
    else
      var (c, n) := DecodeRune(s);
      if f(c) then TrimLeftFunc(s[n..], f) else s
  }

  /** What the left trim cuts off, read from the front, is runes satisfying `f` only. */
  predicate LeftCutAll(s: seq<byte>, f: char -> bool) {
    forall c <- Decode(s[..|s| - |TrimLeftFunc(s, f)|]) :: f(c)
  }

  lemma {:induction false} TrimLeftFuncCut(s: seq<byte>, f: char -> bool)
    ensures LeftCutAll(s, f)
    decreases |s|
  {
    if s != [] && f(DecodeRune(s).0) {
      TrimLeftFuncCut(s[DecodeRune(s).1..], f);
      LeftCutStep(s, f);
    } else {
      assert s[..|s| - |TrimLeftFunc(s, f)|] == [];
    }
  }

  lemma LeftCutStep(s: seq<byte>, f: char -> bool)
    requires s != [] && f(DecodeRune(s).0)
    requires LeftCutAll(s[DecodeRune(s).1..], f)
    ensures LeftCutAll(s, f)
  {
    var n := DecodeRune(s).1;
    var r := TrimLeftFunc(s[n..], f);
    assert TrimLeftFunc(s, f) == r;
    FrontAll(s, |s| - |r|, f);
  }

  /** `bytes.TrimRightFunc`: the runes satisfying `f` removed from the back, each read by `utf8.DecodeLastRune`. */
  function TrimRightFunc(s: seq<byte>, f: char -> bool): (r: seq<byte>)
    ensures HasPrefix(s, r)
    ensures r == [] || !f(DecodeLastRune(r).0)
    decreases |s|
  {
    if s == [] then []
    else
      var (c, n) := DecodeLastRune(s);
      if f(c) then TrimRightFunc(s[..|s| - n], f) else s
  }

  /** The runes of `s` as `utf8.DecodeLastRune` reads them from the back, listed front to back. */
  function DecodeBack(s: seq<byte>): seq<char>
    decreases |s|
  {
    if s == [] then []
    else
      var (c, n) := DecodeLastRune(s);
      DecodeBack(s[..|s| - n]) + [c]
  }

  /**
   * The right trim cuts off runes satisfying `f` only: read from the back,
   * `s` is the runes of what is kept followed by such runes.
   */
  lemma {:induction false} TrimRightFuncCut(s: seq<byte>, f: char -> bool)
    ensures var k := |DecodeBack(TrimRightFunc(s, f))|;
            && k <= |DecodeBack(s)|
            && DecodeBack(s)[..k] == DecodeBack(TrimRightFunc(s, f))
            && forall c <- DecodeBack(s)[k..] :: f(c)
    decreases |s|
  {
    if s != [] {
      var (c, n) := DecodeLastRune(s);
      if f(c) {
        var shorter := s[..|s| - n];
        TrimRightFuncCut(shorter, f);
        var k := |DecodeBack(TrimRightFunc(shorter, f))|;
        assert DecodeBack(s) == DecodeBack(shorter) + [c];
        assert DecodeBack(s)[..k] == DecodeBack(shorter)[..k];
        assert DecodeBack(s)[k..] == DecodeBack(shorter)[k..] + [c];
      }
    }
  }

  /** What the right trim cuts off, read from the front, is runes satisfying `f` only. */
  predicate RightCutAll(s: seq<byte>, f: char -> bool) {
    forall c <- Decode(s[|TrimRightFunc(s, f)|..]) :: f(c)
  }

  /**
   * When `f` never holds of U+FFFD, every rune cut off the back is valid,
   * and the cut-off part read from the front is runes satisfying `f` only.
   */
  lemma {:induction false} TrimRightFuncCutForward(s: seq<byte>, f: char -> bool)
    requires !f(RuneError)
    ensures RightCutAll(s, f)
    decreases |s|
  {
    if s != [] && f(DecodeLastRune(s).0) {
      TrimRightFuncCutForward(s[..|s| - DecodeLastRune(s).1], f);
      RightCutStep(s, f);
    } else {
      assert s[|TrimRightFunc(s, f)|..] == [];
    }
  }

  lemma RightCutStep(s: seq<byte>, f: char -> bool)
    requires !f(RuneError) && s != [] && f(DecodeLastRune(s).0)
    requires RightCutAll(s[..|s| - DecodeLastRune(s).1], f)
    ensures RightCutAll(s, f)
  {
    var n := DecodeLastRune(s).1;
    var r := TrimRightFunc(s[..|s| - n], f);
    assert TrimRightFunc(s, f) == r;
    LastRuneAfter(s, |r|);
    assert s[..|s| - n][|r|..] == s[|r|..|s| - n];
  }

  /** `r` occurs in `s` at `i`, and every rune of `s` before it and every rune after it satisfies `f`. */
  predicate RunesAround(s: seq<byte>, r: seq<byte>, i: int, f: char -> bool) {
    && OccursAt(s, r, i)
    && (forall c <- Decode(s[..i]) :: f(c))
    && (forall c <- Decode(s[i + |r|..]) :: f(c))
  }

  /**
   * Trimming `f`-runes from the front and then from the back keeps a part
   * of `s` with nothing but `f`-runes around it, when `f` never holds of
   * U+FFFD.
   */
  lemma TrimFuncAround(s: seq<byte>, f: char -> bool)
    requires !f(RuneError)
    ensures RunesAround(s, TrimRightFunc(TrimLeftFunc(s, f), f), |s| - |TrimLeftFunc(s, f)|, f)
  {
    var left := TrimLeftFunc(s, f);
    var r := TrimRightFunc(left, f);
    var i := |s| - |left|;
    TrimLeftFuncCut(s, f);
    TrimRightFuncCutForward(left, f);
    assert left == s[i..];
    AroundOf(s, r, i, f);
  }

  lemma AroundOf(s: seq<byte>, r: seq<byte>, i: int, f: char -> bool)
    requires 0 <= i <= |s| && HasPrefix(s[i..], r)
    requires forall c <- Decode(s[..i]) :: f(c)
    requires forall c <- Decode(s[i..][|r|..]) :: f(c)
    ensures RunesAround(s, r, i, f)
  {
    assert s[i..][|r|..] == s[i + |r|..];
  }

  /** A valid last rune read forwards after the text before it. */
  lemma LastRuneAfter(s: seq<byte>, k: nat)
    requires |s| > 0 && DecodeLastRune(s).0 != RuneError && k <= |s| - DecodeLastRune(s).1
    ensures Decode(s[k..]) == Decode(s[k..|s| - DecodeLastRune(s).1]) + [DecodeLastRune(s).0]
  {
    var (c, n) := DecodeLastRune(s);
    var y := s[|s| - n..];
    DecodeLastValid(s);
    assert s[k..] == s[k..|s| - n] + y;
    DecodeAppend(s[k..|s| - n], y);
    assert y[n..] == [];
  }

  /** The UTF-8 encoding of one rune (`utf8.EncodeRune`). */
  function EncodeRune(c: char): (r: seq<byte>)
    ensures 1 <= |r| <= 4
  {
    var x := c as int;
    if x < 0x80 then [x]
    else if x < 0x800 then [0xC0 + x / 0x40, 0x80 + x % 0x40]
    else if x < 0x10000 then [0xE0 + x / 0x1000, 0x80 + (x / 0x40) % 0x40, 0x80 + x % 0x40]
    else [0xF0 + x / 0x40000, 0x80 + (x / 0x1000) % 0x40, 0x80 + (x / 0x40) % 0x40, 0x80 + x % 0x40]
  }

  /** `string(runes)`. */
  function Encode(rs: seq<char>): seq<byte> {
    if rs == [] then [] else EncodeRune(rs[0]) + Encode(rs[1..])
  }

  /** Decoding reads back exactly the rune that was encoded, whatever follows it. */
  lemma DecodeEncodeRune(c: char, rest: seq<byte>)
    ensures DecodeRune(EncodeRune(c) + rest) == (c, |EncodeRune(c)|)
  {
    var x := c as int;
    if x < 0x80 {
    } else if x < 0x800 {
      DecodeEncodeTwo(c, rest);
    } else if x < 0x10000 {
      DecodeEncodeThree(c, rest);
    } else {
      DecodeEncodeFour(c, rest);
    }
  }

  lemma DecodeEncodeTwo(c: char, rest: seq<byte>)
    requires 0x80 <= c as int < 0x800
    ensures DecodeRune(EncodeRune(c) + rest) == (c, 2)
  {
    var x := c as int;
    var s := EncodeRune(c) + rest;
    assert s[0] == 0xC0 + x / 0x40 && s[1] == 0x80 + x % 0x40;
  }

  lemma DecodeEncodeThree(c: char, rest: seq<byte>)
    requires 0x800 <= c as int < 0x10000
    ensures DecodeRune(EncodeRune(c) + rest) == (c, 3)
  {
    var x := c as int;
    var s := EncodeRune(c) + rest;
    var q := x / 0x40;
    assert x == q * 0x40 + x % 0x40;
    assert q == (x / 0x1000) * 0x40 + q % 0x40;
    assert s[0] == 0xE0 + x / 0x1000 && s[1] == 0x80 + q % 0x40 && s[2] == 0x80 + x % 0x40;
    assert x / 0x1000 == 0 ==> q % 0x40 >= 0x20;
    assert x / 0x1000 == 0xD ==> q % 0x40 <= 0x1F;
  }

  lemma DecodeEncodeFour(c: char, rest: seq<byte>)
    requires 0x10000 <= c as int
    ensures DecodeRune(EncodeRune(c) + rest) == (c, 4)
  {
    var x := c as int;
    var s := EncodeRune(c) + rest;
    var q := x / 0x40;
    var p := x / 0x1000;
    assert x == q * 0x40 + x % 0x40;
    assert q == p * 0x40 + q % 0x40;
    assert p == (x / 0x40000) * 0x40 + p % 0x40;
    assert s[0] == 0xF0 + x / 0x40000 && s[1] == 0x80 + p % 0x40;
    assert s[2] == 0x80 + q % 0x40 && s[3] == 0x80 + x % 0x40;
    assert x / 0x40000 == 0 ==> p % 0x40 >= 0x10;
    assert x / 0x40000 == 4 ==> p % 0x40 <= 0xF;
  }

  /** Round trip: the runes of an encoded rune sequence are that sequence. */
  lemma {:induction false} DecodeEncode(rs: seq<char>)
    ensures Decode(Encode(rs)) == rs
  {
    if rs != [] {
      var e := EncodeRune(rs[0]);
      DecodeEncodeRune(rs[0], Encode(rs[1..]));
      assert (e + Encode(rs[1..]))[|e|..] == Encode(rs[1..]);
      DecodeEncode(rs[1..]);
    }
  }

  /** Encoding is a homomorphism from rune sequences to byte sequences. */
  lemma {:induction false} EncodeAppend(a: seq<char>, b: seq<char>)
    ensures Encode(a + b) == Encode(a) + Encode(b)
  {
    if a != [] {
      assert (a + b)[1..] == a[1..] + b;
      EncodeAppend(a[1..], b);
    } else {
      assert a + b == b;
    }
  }

  /** ASCII bytes are their own runes. */
  lemma {:induction false} DecodeAscii(s: seq<byte>)
    requires forall i | 0 <= i < |s| :: s[i] < 0x80
    ensures |Decode(s)| == |s|
    ensures forall i | 0 <= i < |s| :: Decode(s)[i] as int == s[i]
  {
    if s != [] {
      DecodeAscii(s[1..]);
    }
  }

  /** ASCII text is well-formed: decoding and re-encoding it gives it back. */
  lemma {:induction false} EncodeDecodeAscii(s: seq<byte>)
    requires forall i | 0 <= i < |s| :: s[i] < 0x80
    ensures Encode(Decode(s)) == s
  {
    if s != [] {
      EncodeDecodeAscii(s[1..]);
      assert Decode(s) == [s[0] as char] + Decode(s[1..]);
      assert Decode(s)[1..] == Decode(s[1..]);
    }
  }
}
