/** C-style escaping and its inverse, and width-limited hex escaping. */
module Escape {
  import opened Basics

  /** One `char` of a C string: a value below 256. */
  type Byte = c: char | c as int < 256 witness ' '

  const WHITESPACE: seq<Byte> := " \t\n\r"

  const NUL: Byte := '\0'
  const BACKSLASH: Byte := '\\'

  predicate NulFree(s: seq<char>) {
    NUL !in s
  }

  /** Reading a NUL-terminated string: the terminator itself may be read, nothing beyond it. */
  function At(s: seq<Byte>, i: nat): Byte
    requires i <= |s|
  {
    if i < |s| then s[i] else NUL
  }

  // ---------------------------------------------------------------- digits

  function OctChar(x: nat): Byte {
    ('0' as int + x % 8) as char
  }

  function UnoctChar(c: Byte): int {
    if '0' <= c <= '7' then c as int - '0' as int else -1
  }

  function HexChar(x: nat): Byte {
    if x % 16 < 10 then ('0' as int + x % 16) as char else ('a' as int + (x % 16 - 10)) as char
  }

  function UnhexChar(c: Byte): int {
    if '0' <= c <= '9' then c as int - '0' as int
    else if 'a' <= c <= 'f' then c as int - 'a' as int + 10
    else if 'A' <= c <= 'F' then c as int - 'A' as int + 10
    else -1
  }

  // ---------------------------------------------------------------- UTF-8

  predicate UnicharIsValid(ch: nat) {
    && ch < 0x110000
    && !(0xD800 <= ch < 0xE000)
    && !(0xFDD0 <= ch <= 0xFDEF)
    && ch % 0x10000 < 0xFFFE
  }

  /** utf8_encode_unichar: nothing at all is written for a value of more than 21 bits. */
  function Utf8Encode(g: nat): (r: seq<Byte>)
    ensures |r| <= 4
    ensures g < 0x10000 ==> |r| <= 3
    ensures g < 0x80 ==> |r| == 1 && r[0] as int == g
  {
    if g < 0x80 then [g as char]
    else if g < 0x800 then [(0xC0 + g / 64) as char, (0x80 + g % 64) as char]
    else if g < 0x10000 then
      [(0xE0 + g / 4096) as char, (0x80 + g / 64 % 64) as char, (0x80 + g % 64) as char]
    else if g < 0x200000 then
      [(0xF0 + g / 262144) as char, (0x80 + g / 4096 % 64) as char,
       (0x80 + g / 64 % 64) as char, (0x80 + g % 64) as char]
    else []
  }

  // ---------------------------------------------------------------- cescape

  /** Stores a run of characters at the write position. */
  method Store(buf: array<Byte>, t: nat, e: seq<Byte>)
    requires t + |e| <= buf.Length
    modifies buf
    ensures buf[..t + |e|] == old(buf[..t]) + e
  {
    forall k | 0 <= k < |e| {
      buf[t + k] := e[k];
    }
  }

  function CEscapeChar(c: Byte): (r: seq<Byte>)
    ensures 1 <= |r| <= 4
  {
    match c as int
    case 7 => "\\a"
    case 8 => "\\b"
    case 12 => "\\f"
    case 10 => "\\n"
    case 13 => "\\r"
    case 9 => "\\t"
    case 11 => "\\v"
    case _ =>
      if c == BACKSLASH || c == '"' || c == '\'' then [BACKSLASH, c]
      else if c < ' ' || c as int >= 127 then
        [BACKSLASH, OctChar(c as int / 64), OctChar(c as int / 8), OctChar(c as int)]
      else [c]
  }

  function CEscape(s: seq<Byte>): seq<Byte> {
    if s == [] then [] else CEscapeChar(s[0]) + CEscape(s[1..])
  }

  /** Writes the escaped form into a buffer of 4n+1 bytes; every write is inside it. */
  method CEscapeLength(s: seq<Byte>) returns (r: seq<Byte>)
    ensures r == CEscape(s)
    ensures |s| <= |r| <= 4 * |s|
  {
    hide CEscapeChar;
    var buf := new Byte[|s| * 4 + 1];
    var f, t := 0, 0;
    while f < |s|
      invariant 0 <= f <= |s| && f <= t <= 4 * f
      invariant buf[..t] + CEscape(s[f..]) == CEscape(s)
    {
      label now:
      var e := CEscapeChar(s[f]);
      Store(buf, t, e);
      assert s[f..][1..] == s[f + 1..];
      Regroup(old@now(buf[..t]), e, CEscape(s[f + 1..]));
      t := t + |e|;
      f := f + 1;
    }
    buf[t] := NUL;
    assert s[f..] == [];
    r := buf[..t];
  }

  // ---------------------------------------------------------------- cunescape

  datatype Unescaped = Bad | One(code: nat, eightBit: bool, consumed: nat)

  function Pow16(k: nat): nat {
    if k == 0 then 1 else 16 * Pow16(k - 1)
  }

  /** The value of k hexadecimal digits from index i on; None at the first character that is no digit. */
  function HexRun(p: seq<Byte>, i: nat, k: nat, acc: nat): (r: Option<nat>)
    requires i <= |p|
    ensures r.Some? ==> i + k <= |p| && r.value < (acc + 1) * Pow16(k)
    decreases k
  {
    if k == 0 then Some(acc)
    else
      var d := UnhexChar(At(p, i));
      if d < 0 then None
      else
        assert (acc * 16 + d + 1) * Pow16(k - 1) <= (acc + 1) * Pow16(k) by {
          assert acc * 16 + d + 1 <= 16 * (acc + 1);
          MulMono(acc * 16 + d + 1, 16 * (acc + 1), Pow16(k - 1));
        }
        HexRun(p, i + 1, k - 1, acc * 16 + d)
  }

  lemma MulMono(a: nat, b: nat, c: nat)
    requires a <= b
    ensures a * c <= b * c
  {}

  /**
   * cunescape_one on the characters after a backslash. With `bounded` the length is |p|; without it
   * p is NUL-terminated and reading stops at the first character that does not fit, so that no
   * index beyond the terminator is read (the precondition of At).
   */
  function CUnescapeOne(p: seq<Byte>, bounded: bool): (r: Unescaped)
    ensures r.One? ==> 1 <= r.consumed <= |p|
    ensures r.One? && r.eightBit ==> 0 < r.code < 256
    ensures r.One? && !r.eightBit ==> 0 < r.code && |Utf8Encode(r.code)| <= r.consumed && |Utf8Encode(r.code)| <= 4
  {
    if bounded && |p| < 1 then Bad
    else match At(p, 0)
      case 'a' => One(7, false, 1)
      case 'b' => One(8, false, 1)
      case 'f' => One(12, false, 1)
      case 'n' => One(10, false, 1)
      case 'r' => One(13, false, 1)
      case 't' => One(9, false, 1)
      case 'v' => One(11, false, 1)
      case '\\' => One('\\' as int, false, 1)
      case '"' => One('"' as int, false, 1)
      case '\'' => One('\'' as int, false, 1)
      case 's' => One(' ' as int, false, 1)
      case 'x' =>
        if bounded && |p| < 3 then Bad
        else
          var a := UnhexChar(At(p, 1));
          if a < 0 then Bad
          else
            var b := UnhexChar(At(p, 2));
            if b < 0 || (a == 0 && b == 0) then Bad else One(a * 16 + b, true, 3)
      case 'u' =>
        if bounded && |p| < 5 then Bad
        else
          assert Pow16(4) == 0x10000;
          var c := HexRun(p, 1, 4, 0);
          if c.None? || c.value == 0 then Bad else One(c.value, false, 5)
      case 'U' =>
        if bounded && |p| < 9 then Bad
        else
          var c := HexRun(p, 1, 8, 0);
          if c.None? || c.value == 0 || !UnicharIsValid(c.value) then Bad else One(c.value, false, 9)
      case _ =>
        if !('0' <= At(p, 0) <= '7') then Bad
        else if bounded && |p| < 3 then Bad
        else
          var a := UnoctChar(At(p, 0));
          var b := UnoctChar(At(p, 1));
          if b < 0 then Bad
          else
            var c := UnoctChar(At(p, 2));
            if c < 0 || (a == 0 && b == 0 && c == 0) then Bad
            else
              var m := a * 64 + b * 8 + c;
              if m > 255 then Bad else One(m, true, 3)
  }

  function Emitted(u: Unescaped): (r: seq<Byte>)
    requires u.One? && (u.eightBit ==> u.code < 256)
  {
    if u.eightBit then [u.code as char] else Utf8Encode(u.code)
  }

  function Prepend(head: seq<Byte>, tail: Option<seq<Byte>>): Option<seq<Byte>> {
    if tail.Some? then Some(head + tail.value) else None
  }

  /** What the first character, or the escape it begins, stands for, and how much of s that is. */
  function UnescapeHead(s: seq<Byte>, relax: bool): (r: Option<(seq<Byte>, nat)>)
    requires s != []
    ensures relax ==> r.Some?
    ensures r.Some? ==> 1 <= r.value.1 <= |s| && |r.value.0| <= r.value.1
  {
    if s[0] != BACKSLASH then Some(([s[0]], 1))
    else if |s| == 1 then if relax then Some(([BACKSLASH], 1)) else None
    else
      var u := CUnescapeOne(s[1..], true);
      if u.One? then Some((Emitted(u), 1 + u.consumed))
      else if relax then Some(([BACKSLASH], 1))
      else None
  }

  /** What unescaping means: None where a strict caller gets an error. */
  function CUnescape(s: seq<Byte>, relax: bool): (r: Option<seq<Byte>>)
    ensures relax ==> r.Some?
    ensures r.Some? ==> |r.value| <= |s|
    decreases |s|
  {
    if s == [] then Some([])
    else
      var h := UnescapeHead(s, relax);
      if h.None? then None else Prepend(h.value.0, CUnescape(s[h.value.1..], relax))
  }

  /** One pass of the unescaping loop; None is an error return. */
  method UnescapeAt(s: seq<Byte>, f: nat, relax: bool) returns (h: Option<(seq<Byte>, nat)>)
    requires f < |s|
    ensures h == UnescapeHead(s[f..], relax)
  {
    hide CUnescapeOne, Utf8Encode, Emitted;
    if s[f] != BACKSLASH {
      return Some(([s[f]], 1));
    }
    var remaining := |s| - f;
    if remaining == 1 {
      return if relax then Some(([s[f]], 1)) else None;
    }
    assert s[f..][1..] == s[f + 1..];
    var u := CUnescapeOne(s[f + 1..], true);
    if u.Bad? {
      return if relax then Some(([BACKSLASH], 1)) else None;
    }
    return Some((Emitted(u), 1 + u.consumed));
  }

  /** The prefix and the unescaped text fit a buffer of |prefix| + |s| + 1 bytes. */
  method CUnescapeLengthWithPrefix(s: seq<Byte>, prefix: Option<seq<Byte>>, relax: bool)
    returns (ret: Option<seq<Byte>>)
    ensures ret == Prepend(if prefix.Some? then prefix.value else [], CUnescape(s, relax))
  {
    hide CUnescapeOne, Utf8Encode, UnescapeHead, Emitted;
    var lead := if prefix.Some? then prefix.value else [];
    var r := new Byte[|lead| + |s| + 1];
    Store(r, 0, lead);
    var f: nat, t: nat := 0, |lead|;
    assert s[0..] == s && [] + lead == lead;
    while f < |s|
      invariant f <= |s| && |lead| <= t <= |lead| + f
      invariant Prepend(r[..t], CUnescape(s[f..], relax)) == Prepend(lead, CUnescape(s, relax))
    {
      ghost var before := r[..t];
      var h := UnescapeAt(s, f, relax);
      if h.None? {
        return None;
      }
      var (e, n) := h.value;
      Store(r, t, e);
      t := t + |e|;
      assert s[f..][n..] == s[f + n..];
      f := f + n;
      PrependTwice(before, e, CUnescape(s[f..], relax));
    }
    NothingLeft(s, relax);
    r[t] := NUL;
    ret := Some(r[..t]);
    assert ret.value + [] == ret.value;
  }

  lemma NothingLeft(s: seq<Byte>, relax: bool)
    ensures CUnescape(s[|s|..], relax) == Some([])
  {}

  lemma PrependTwice(a: seq<Byte>, b: seq<Byte>, o: Option<seq<Byte>>)
    ensures Prepend(a + b, o) == Prepend(a, Prepend(b, o))
  {
    if o.Some? {
      Regroup(a, b, o.value);
    }
  }

  lemma OneOfShortEscape(c: Byte, rest: seq<Byte>)
    requires |CEscapeChar(c)| == 2
    ensures CEscapeChar(c)[0] == BACKSLASH
    ensures CUnescapeOne(CEscapeChar(c)[1..] + rest, true) == One(c as int, false, 1)
  {
    var p := CEscapeChar(c)[1..] + rest;
    assert At(p, 0) == CEscapeChar(c)[1];
  }

  lemma OctDigits(c: Byte)
    ensures UnoctChar(OctChar(c as int / 64)) == c as int / 64
    ensures UnoctChar(OctChar(c as int / 8)) == c as int / 8 % 8
    ensures UnoctChar(OctChar(c as int)) == c as int % 8
  {}

  lemma OneOfOctalEscape(c: Byte, rest: seq<Byte>)
    requires |CEscapeChar(c)| > 2 && c != NUL
    ensures |CEscapeChar(c)| == 4 && CEscapeChar(c)[0] == BACKSLASH
    ensures CUnescapeOne(CEscapeChar(c)[1..] + rest, true) == One(c as int, true, 3)
  {
    var p := CEscapeChar(c)[1..] + rest;
    var n := c as int;
    OctDigits(c);
    assert At(p, 0) == OctChar(n / 64) && At(p, 1) == OctChar(n / 8) && At(p, 2) == OctChar(n);
    assert n / 64 * 64 + n / 8 % 8 * 8 + n % 8 == n;
  }

  /** Unescaping the escape of one character consumes exactly that escape. */
  lemma UnescapeEscapedChar(c: Byte, rest: seq<Byte>, relax: bool)
    requires c != NUL
    ensures CUnescape(CEscapeChar(c) + rest, relax) == Prepend([c], CUnescape(rest, relax))
  {
    var e := CEscapeChar(c);
    var s := e + rest;
    if |e| == 1 {
      assert s[1..] == rest;
    } else {
      if |e| == 2 {
        OneOfShortEscape(c, rest);
      } else {
        OneOfOctalEscape(c, rest);
      }
      assert s[1..] == e[1..] + rest;
      assert s[|e|..] == rest;
    }
  }

  lemma {:induction false} CUnescapeUndoesCEscape(s: seq<Byte>, relax: bool)
    requires NulFree(s)
    ensures CUnescape(CEscape(s), relax) == Some(s)
  {
    if s != [] {
      UnescapeEscapedChar(s[0], CEscape(s[1..]), relax);
      CUnescapeUndoesCEscape(s[1..], relax);
      assert [s[0]] + s[1..] == s;
    }
  }

  /** A NUL is printed as \000, which a strict reader refuses. */
  lemma {:induction false} StrictRoundTripIffNulFree(s: seq<Byte>)
    ensures CUnescape(CEscape(s), false).Some? <==> NulFree(s)
  {
    if s != [] {
      if s[0] == NUL {
        var t := CEscape(s);
        assert t[0] == BACKSLASH && t[1..][0] == '0' && t[1..][1] == '0' && t[1..][2] == '0';
      } else {
        UnescapeEscapedChar(s[0], CEscape(s[1..]), false);
        StrictRoundTripIffNulFree(s[1..]);
      }
    }
  }

  // ---------------------------------------------------------------- xescape

  predicate XSpecial(c: Byte, bad: seq<Byte>, eightBits: bool) {
    c < ' ' || (!eightBits && c as int >= 127) || c == BACKSLASH || c in bad
  }

  function XEscapeChar(c: Byte, bad: seq<Byte>, eightBits: bool): seq<Byte> {
    if XSpecial(c, bad, eightBits)
    then [BACKSLASH, 'x', HexChar(c as int / 16), HexChar(c as int)]
    else [c]
  }

  function XEscape(s: seq<Byte>, bad: seq<Byte>, eightBits: bool): seq<Byte> {
    if s == [] then [] else XEscapeChar(s[0], bad, eightBits) + XEscape(s[1..], bad, eightBits)
  }

  lemma OneOfHexEscape(c: Byte, rest: seq<Byte>)
    requires c != NUL
    ensures CUnescapeOne(['x', HexChar(c as int / 16), HexChar(c as int)] + rest, true) == One(c as int, true, 3)
  {
    var p := ['x', HexChar(c as int / 16), HexChar(c as int)] + rest;
    assert At(p, 0) == 'x' && At(p, 1) == HexChar(c as int / 16) && At(p, 2) == HexChar(c as int);
    HexDigits(c);
  }

  lemma HexDigits(c: Byte)
    ensures UnhexChar(HexChar(c as int / 16)) == c as int / 16
    ensures UnhexChar(HexChar(c as int)) == c as int % 16
  {}

  lemma UnescapeXEscapedChar(c: Byte, rest: seq<Byte>, bad: seq<Byte>, eightBits: bool, relax: bool)
    requires c != NUL
    ensures CUnescape(XEscapeChar(c, bad, eightBits) + rest, relax) == Prepend([c], CUnescape(rest, relax))
  {
    var e := XEscapeChar(c, bad, eightBits);
    var s := e + rest;
    if XSpecial(c, bad, eightBits) {
      OneOfHexEscape(c, rest);
      assert s[1..] == e[1..] + rest;
      assert s[4..] == rest;
    } else {
      assert s[1..] == rest;
    }
  }

  lemma {:induction false} CUnescapeUndoesXEscape(s: seq<Byte>, bad: seq<Byte>, eightBits: bool, relax: bool)
    requires NulFree(s)
    ensures CUnescape(XEscape(s, bad, eightBits), relax) == Some(s)
  {
    if s != [] {
      UnescapeXEscapedChar(s[0], XEscape(s[1..], bad, eightBits), bad, eightBits, relax);
      CUnescapeUndoesXEscape(s[1..], bad, eightBits, relax);
      assert [s[0]] + s[1..] == s;
    }
  }

  /** Where the escape of the k-th character ends. */
  function EndOf(s: seq<Byte>, bad: seq<Byte>, eightBits: bool, k: nat): nat
    requires k <= |s|
  {
    |XEscape(s[..k], bad, eightBits)|
  }

  /** `off` falls between two escapes, never inside one. */
  ghost predicate IsBoundary(s: seq<Byte>, bad: seq<Byte>, eightBits: bool, off: nat) {
    exists k :: 0 <= k <= |s| && off == EndOf(s, bad, eightBits, k)
  }

  lemma {:induction false} XEscapeSplit(s: seq<Byte>, bad: seq<Byte>, eightBits: bool, k: nat)
    requires k <= |s|
    ensures XEscape(s, bad, eightBits) == XEscape(s[..k], bad, eightBits) + XEscape(s[k..], bad, eightBits)
    ensures EndOf(s, bad, eightBits, k) <= 4 * k
  {
    if k > 0 {
      XEscapeSplit(s[1..], bad, eightBits, k - 1);
      assert s[..k][1..] == s[1..][..k - 1] && s[1..][k - 1..] == s[k..];
    } else {
      assert s[k..] == s;
    }
  }

  lemma EndOfNext(s: seq<Byte>, bad: seq<Byte>, eightBits: bool, k: nat)
    requires k < |s|
    ensures XEscape(s[..k + 1], bad, eightBits) == XEscape(s[..k], bad, eightBits) + XEscapeChar(s[k], bad, eightBits)
  {
    XEscapeSplit(s[..k + 1], bad, eightBits, k);
    assert s[..k + 1][..k] == s[..k] && s[..k + 1][k..] == [s[k]];
  }

  lemma {:induction false} EndOfIncreases(s: seq<Byte>, bad: seq<Byte>, eightBits: bool, j: nat, k: nat)
    requires j < k <= |s|
    ensures EndOf(s, bad, eightBits, j) < EndOf(s, bad, eightBits, k)
  {
    EndOfNext(s, bad, eightBits, k - 1);
    if j < k - 1 {
      EndOfIncreases(s, bad, eightBits, j, k - 1);
    }
  }

  const DOTS: seq<Byte> := "..."

  /** The cut is the last place between two escapes that leaves room for the dots. */
  ghost predicate CutBetween(s: seq<Byte>, bad: seq<Byte>, eightBits: bool, off: nat, room: nat) {
    && IsBoundary(s, bad, eightBits, off)
    && forall b :: off < b <= room ==> !IsBoundary(s, bad, eightBits, b)
  }

  /** Two one-character escapes end exactly at the width: going back two escapes is not enough. */
  ghost predicate NarrowEnd(s: seq<Byte>, bad: seq<Byte>, eightBits: bool, width: nat) {
    && 2 <= width
    && IsBoundary(s, bad, eightBits, width) && IsBoundary(s, bad, eightBits, width - 1)
    && IsBoundary(s, bad, eightBits, width - 2)
  }

  lemma CutIsLast(s: seq<Byte>, bad: seq<Byte>, eightBits: bool, k: nat, room: nat)
    requires k < |s| && EndOf(s, bad, eightBits, k) <= room < EndOf(s, bad, eightBits, k + 1)
    ensures CutBetween(s, bad, eightBits, EndOf(s, bad, eightBits, k), room)
  {
    forall b | EndOf(s, bad, eightBits, k) < b <= room
      ensures !IsBoundary(s, bad, eightBits, b)
    {
      forall j | 0 <= j <= |s| ensures b != EndOf(s, bad, eightBits, j) {
        if j < k {
          EndOfIncreases(s, bad, eightBits, j, k);
        } else if j > k + 1 {
          EndOfIncreases(s, bad, eightBits, k + 1, j);
        }
      }
    }
  }

  /** Two earlier write positions are remembered, so that the dots can move back by two escapes. */
  function DotsAt(t: nat, prev: nat, prev2: nat, room: nat): nat {
    if room >= t then t
    else if room >= prev then prev
    else if room >= prev2 then prev2
    else room
  }

  lemma CutChosen(s: seq<Byte>, bad: seq<Byte>, eightBits: bool, f: nat, width: nat)
    requires f < |s| && 0 < width
    requires EndOf(s, bad, eightBits, f) <= width < EndOf(s, bad, eightBits, f + 1)
    ensures var t := EndOf(s, bad, eightBits, f);
            var prev := EndOf(s, bad, eightBits, if f < 1 then 0 else f - 1);
            var prev2 := EndOf(s, bad, eightBits, if f < 2 then 0 else f - 2);
            var room := width - Min(width, 3);
            var off := DotsAt(t, prev, prev2, room);
            && off <= t && off <= room
            && (CutBetween(s, bad, eightBits, off, room) || (off == room && NarrowEnd(s, bad, eightBits, width)))
  {
    var room := width - Min(width, 3);
    if f >= 1 {
      EndOfIncreases(s, bad, eightBits, f - 1, f);
    }
    if f >= 2 {
      EndOfIncreases(s, bad, eightBits, f - 2, f - 1);
    }
    if room >= EndOf(s, bad, eightBits, f) {
      CutIsLast(s, bad, eightBits, f, room);
    } else if f >= 1 && room >= EndOf(s, bad, eightBits, f - 1) {
      CutIsLast(s, bad, eightBits, f - 1, room);
    } else if f >= 2 && room >= EndOf(s, bad, eightBits, f - 2) {
      CutIsLast(s, bad, eightBits, f - 2, room);
    } else {
      assert NarrowEnd(s, bad, eightBits, width);
    }
  }

  /** The scan of xescape_full: stops at the end, or at the first escape that exceeds the width. */
  method XEscapeScan(s: seq<Byte>, bad: seq<Byte>, width: nat, eightBits: bool)
    returns (ans: array<Byte>, f: nat, t: nat, prev: nat, prev2: nat)
    ensures fresh(ans) && ans.Length == Min(|s|, width) * 4 + 1
    ensures f <= |s| && t <= width && t < ans.Length
    ensures ans[..t] == XEscape(s[..f], bad, eightBits)
    ensures f < |s| ==> width < EndOf(s, bad, eightBits, f + 1)
    ensures prev == EndOf(s, bad, eightBits, if f < 1 then 0 else f - 1)
    ensures prev2 == EndOf(s, bad, eightBits, if f < 2 then 0 else f - 2)
  {
    hide HexChar, XSpecial;
    ans := new Byte[Min(|s|, width) * 4 + 1];
    f, t, prev, prev2 := 0, 0, 0, 0;
    while f < |s|
      invariant f <= |s| && t <= width && t <= 4 * f
      invariant t < ans.Length && ans[..t] == XEscape(s[..f], bad, eightBits)
      invariant prev == EndOf(s, bad, eightBits, if f < 1 then 0 else f - 1)
      invariant prev2 == EndOf(s, bad, eightBits, if f < 2 then 0 else f - 2)
    {
      EndOfNext(s, bad, eightBits, f);
      var e := XEscapeChar(s[f], bad, eightBits);
      if t + |e| > width {
        break;
      }
      Store(ans, t, e);
      prev2 := prev;
      prev := t;
      t := t + |e|;
      f := f + 1;
    }
  }

  /** xescape_full: the whole escape if it fits, otherwise a prefix of it and up to three dots. */
  method XEscapeFull(s: seq<Byte>, bad: seq<Byte>, width: nat, eightBits: bool) returns (r: seq<Byte>)
    requires NulFree(s) && NulFree(bad)
    ensures |XEscape(s, bad, eightBits)| <= width ==> r == XEscape(s, bad, eightBits)
    ensures |XEscape(s, bad, eightBits)| > width ==>
              var c := Min(width, 3);
              && c <= |r| <= width
              && r == XEscape(s, bad, eightBits)[..|r| - c] + DOTS[..c]
              && (CutBetween(s, bad, eightBits, |r| - c, width - c)
                  || (|r| == width && NarrowEnd(s, bad, eightBits, width)))
  {
    hide XEscape, CutBetween, NarrowEnd, DotsAt;
    if width == 0 {
      ZeroWidth(s, bad, eightBits);
      return [];
    }
    var ans, f, t, prev, prev2 := XEscapeScan(s, bad, width, eightBits);
    if f == |s| {
      assert s[..f] == s;
      ans[t] := NUL;
      return ans[..t];
    }
    var c := Min(width, 3);
    var off := DotsAt(t, prev, prev2, width - c);
    CutChosen(s, bad, eightBits, f, width);
    PrefixOfFull(s, bad, eightBits, f, off);
    assert off <= t;
    r := PutDots(ans, off, c);
  }

  lemma ZeroWidth(s: seq<Byte>, bad: seq<Byte>, eightBits: bool)
    ensures |XEscape(s, bad, eightBits)| == 0 <==> s == []
    ensures s != [] ==> CutBetween(s, bad, eightBits, 0, 0)
  {
    if s != [] {
      EndOfIncreases(s, bad, eightBits, 0, 1);
      CutIsLast(s, bad, eightBits, 0, 0);
    }
  }

  lemma PrefixOfFull(s: seq<Byte>, bad: seq<Byte>, eightBits: bool, f: nat, off: nat)
    requires f < |s| && off <= EndOf(s, bad, eightBits, f)
    ensures off <= |XEscape(s, bad, eightBits)|
    ensures XEscape(s[..f], bad, eightBits)[..off] == XEscape(s, bad, eightBits)[..off]
    ensures EndOf(s, bad, eightBits, f + 1) <= |XEscape(s, bad, eightBits)| <= 4 * |s|
  {
    XEscapeSplit(s, bad, eightBits, f);
    XEscapeSplit(s, bad, eightBits, f + 1);
    XEscapeSplit(s, bad, eightBits, |s|);
    assert s[..|s|] == s;
  }

  method PutDots(ans: array<Byte>, off: nat, c: nat) returns (r: seq<Byte>)
    requires c <= 3 && off + c < ans.Length
    modifies ans
    ensures r == old(ans[..off]) + DOTS[..c]
  {
    Store(ans, off, DOTS[..c]);
    ans[off + c] := NUL;
    r := ans[..off + c];
  }
}
