/** What the escapes stand for, character by character, against the C escape letters and plain number notation. */
module EscapeLaws {
  import opened Basics
  import opened Escape
  import opened ShellQuote
  import Utf8

  // ---------------------------------------------------------------- single characters

  /** The C letters for the seven control characters from 7 on. */
  const LETTERS: seq<Byte> := "abtnvfr"
  const OCTAL: seq<Byte> := "01234567"
  const HEX: seq<Byte> := "0123456789abcdef"
  const UPPER_HEX: seq<Byte> := "0123456789ABCDEF"

  lemma LetterEscapes(i: nat, rest: seq<Byte>, bounded: bool)
    requires i < 7
    ensures CEscapeChar((7 + i) as char) == [BACKSLASH, LETTERS[i]]
    ensures CUnescapeOne([LETTERS[i]] + rest, bounded) == One(7 + i, false, 1)
  {
    assert At([LETTERS[i]] + rest, 0) == LETTERS[i];
  }

  /** Backslash and both quotes stand for themselves; s is a space. */
  lemma QuotedCharacters(c: Byte, rest: seq<Byte>, bounded: bool)
    requires c == BACKSLASH || c == '"' || c == '\''
    ensures CEscapeChar(c) == [BACKSLASH, c]
    ensures CUnescapeOne([c] + rest, bounded) == One(c as int, false, 1)
    ensures CUnescapeOne(['s'] + rest, bounded) == One(32, false, 1)
  {
    assert At([c] + rest, 0) == c && At(['s'] + rest, 0) == 's';
  }

  /** Three octal digits are a byte other than zero, or nothing. */
  lemma OctalEscapes(a: nat, b: nat, c: nat, rest: seq<Byte>, bounded: bool)
    requires a < 8 && b < 8 && c < 8
    ensures var m := 64 * a + 8 * b + c;
            CUnescapeOne([OCTAL[a], OCTAL[b], OCTAL[c]] + rest, bounded) == if 0 < m < 256 then One(m, true, 3) else Bad
  {
    var p := [OCTAL[a], OCTAL[b], OCTAL[c]] + rest;
    OctalDigit(a);
    OctalDigit(b);
    OctalDigit(c);
    assert At(p, 0) == OCTAL[a] && At(p, 1) == OCTAL[b] && At(p, 2) == OCTAL[c];
  }

  lemma OctalDigit(d: nat)
    requires d < 8
    ensures UnoctChar(OCTAL[d]) == d && OctChar(d) == OCTAL[d] && '0' <= OCTAL[d] <= '7'
  {}

  lemma HexDigit(d: nat)
    requires d < 16
    ensures UnhexChar(HEX[d]) == UnhexChar(UPPER_HEX[d]) == d && HexChar(d) == HEX[d]
  {}

  /** Two hexadecimal digits, in either case, are a byte other than zero. */
  lemma HexEscapes(a: nat, b: nat, upper: bool, rest: seq<Byte>, bounded: bool)
    requires a < 16 && b < 16
    ensures var digits := if upper then UPPER_HEX else HEX;
            CUnescapeOne(['x', digits[a], digits[b]] + rest, bounded) == if a + b > 0 then One(16 * a + b, true, 3) else Bad
  {
    var digits := if upper then UPPER_HEX else HEX;
    var p := ['x', digits[a], digits[b]] + rest;
    HexDigit(a);
    HexDigit(b);
    assert At(p, 0) == 'x' && At(p, 1) == digits[a] && At(p, 2) == digits[b];
  }

  /** The digits of a number, most significant first, and its value. */
  function Digits(ds: seq<nat>): (r: seq<Byte>)
    requires forall i | 0 <= i < |ds| :: ds[i] < 16
    ensures |r| == |ds| && forall i | 0 <= i < |ds| :: r[i] == HEX[ds[i]]
  {
    seq(|ds|, i requires 0 <= i < |ds| => HEX[ds[i]])
  }

  function ValueOf(ds: seq<nat>): nat {
    if ds == [] then 0 else 16 * ValueOf(ds[..|ds| - 1]) + ds[|ds| - 1]
  }

  /** Reading further digits is reading the longer number. */
  lemma {:induction false} HexRunIsValue(p: seq<Byte>, i: nat, done: seq<nat>, ds: seq<nat>)
    requires i + |ds| <= |p| && forall k | 0 <= k < |ds| :: ds[k] < 16 && p[i + k] == HEX[ds[k]]
    ensures HexRun(p, i, |ds|, ValueOf(done)) == Some(ValueOf(done + ds))
    decreases |ds|
  {
    if ds == [] {
      assert done + ds == done;
    } else {
      HexDigit(ds[0]);
      var next := done + [ds[0]];
      assert next[..|next| - 1] == done && At(p, i) == p[i + 0] == HEX[ds[0]];
      assert ValueOf(next) == ValueOf(done) * 16 + ds[0];
      assert forall k | 0 <= k < |ds[1..]| :: ds[1..][k] == ds[k + 1] && p[i + 1 + k] == p[i + (k + 1)];
      HexRunIsValue(p, i + 1, next, ds[1..]);
      assert next + ds[1..] == done + ds;
    }
  }

  /** Four digits after u, eight after U: the code point, if it is not zero and, for eight digits, valid. */
  lemma UnicodeEscapes(ds: seq<nat>, rest: seq<Byte>, bounded: bool)
    requires (|ds| == 4 || |ds| == 8) && forall i | 0 <= i < |ds| :: ds[i] < 16
    ensures var v := ValueOf(ds);
            var p := [if |ds| == 4 then 'u' else 'U'] + Digits(ds) + rest;
            CUnescapeOne(p, bounded) ==
              if v != 0 && (|ds| == 4 || UnicharIsValid(v)) then One(v, false, |ds| + 1) else Bad
  {
    hide HexRun, UnicharIsValid, CUnescapeOne, ValueOf, Digits;
    var u: Byte := if |ds| == 4 then 'u' else 'U';
    var p := [u] + Digits(ds) + rest;
    DigitsIn(u, ds, rest);
    HexRunIsValue(p, 1, [], ds);
    assert [] + ds == ds;
    NoDigits();
    if |ds| == 4 {
      ShortCodePoint(p, ValueOf(ds), bounded);
    } else {
      LongCodePoint(p, ValueOf(ds), bounded);
    }
  }

  lemma DigitsIn(u: Byte, ds: seq<nat>, rest: seq<Byte>)
    requires forall i | 0 <= i < |ds| :: ds[i] < 16
    ensures var p := [u] + Digits(ds) + rest;
            |p| >= 1 + |ds| && p[0] == u && forall k | 0 <= k < |ds| :: p[1 + k] == HEX[ds[k]]
  {
    var p := [u] + Digits(ds) + rest;
    assert forall k | 0 <= k < |ds| :: p[1 + k] == Digits(ds)[k];
  }

  lemma NoDigits()
    ensures ValueOf([]) == 0
  {}

  lemma ShortCodePoint(p: seq<Byte>, v: nat, bounded: bool)
    requires |p| >= 5 && p[0] == 'u' && HexRun(p, 1, 4, 0) == Some(v)
    ensures CUnescapeOne(p, bounded) == if v != 0 then One(v, false, 5) else Bad
  {
    hide HexRun, UnicharIsValid;
  }

  lemma LongCodePoint(p: seq<Byte>, v: nat, bounded: bool)
    requires |p| >= 9 && p[0] == 'U' && HexRun(p, 1, 8, 0) == Some(v)
    ensures CUnescapeOne(p, bounded) == if v != 0 && UnicharIsValid(v) then One(v, false, 9) else Bad
  {
    hide HexRun, UnicharIsValid;
  }

  const ESCAPABLE: seq<Byte> := "abtnvfr\\\"'sxuU01234567"

  /** Nothing else may follow a backslash. */
  lemma OtherEscapesAreBad(c: Byte, rest: seq<Byte>, bounded: bool)
    requires c !in ESCAPABLE
    ensures CUnescapeOne([c] + rest, bounded) == Bad && CUnescapeOne([], bounded) == Bad
  {
    assert At([c] + rest, 0) == c;
    assert ESCAPABLE[0] == 'a' && ESCAPABLE[1] == 'b' && ESCAPABLE[2] == 't' && ESCAPABLE[3] == 'n' && ESCAPABLE[4] == 'v';
    assert ESCAPABLE[5] == 'f' && ESCAPABLE[6] == 'r' && ESCAPABLE[7] == '\\' && ESCAPABLE[8] == '"' && ESCAPABLE[9] == '\'';
    assert ESCAPABLE[10] == 's' && ESCAPABLE[11] == 'x' && ESCAPABLE[12] == 'u' && ESCAPABLE[13] == 'U';
    OctalListed(c);
  }

  lemma OctalListed(c: Byte)
    ensures '0' <= c <= '7' ==> c in ESCAPABLE
  {
    if '0' <= c <= '7' {
      assert ESCAPABLE[14 + (c as int - '0' as int)] == c;
    }
  }

  // ---------------------------------------------------------------- whole texts

  /** Plain text: printable ASCII other than backslash and quotes. */
  predicate Plain(c: Byte) {
    32 <= c as int < 127 && c != BACKSLASH && c != '"' && c != '\''
  }

  predicate Printable(s: seq<Byte>) {
    forall i | 0 <= i < |s| :: 32 <= s[i] as int < 127
  }

  lemma CEscapeCharMeans(c: Byte)
    ensures Printable(CEscapeChar(c)) && (CEscapeChar(c) == [c] <==> Plain(c))
    ensures CEscapeChar(c) != [c] ==> CEscapeChar(c)[0] == BACKSLASH && |CEscapeChar(c)| > 1
  {}

  /** The C escape of anything is printable, and changes a text exactly if it must. */
  lemma {:induction false} CEscapeIsPrintable(s: seq<Byte>)
    ensures Printable(CEscape(s)) && |CEscape(s)| >= |s|
    ensures CEscape(s) == s <==> forall i | 0 <= i < |s| :: Plain(s[i])
  {
    hide CEscapeChar, Plain;
    if s != [] {
      CEscapeCharMeans(s[0]);
      CEscapeIsPrintable(s[1..]);
      HeadAndTail(s, CEscapeChar(s[0]), CEscape(s[1..]));
      assert forall i | 1 <= i < |s| :: s[i] == s[1..][i - 1];
    }
  }

  /** A text is its first character's image and the rest's exactly if both are unchanged. */
  lemma HeadAndTail(s: seq<Byte>, head: seq<Byte>, tail: seq<Byte>)
    requires s != [] && head != [] && |tail| >= |s| - 1
    ensures head + tail == s <==> head == [s[0]] && tail == s[1..]
  {
    if head + tail == s {
      assert |head| == 1 && (head + tail)[0] == head[0];
      assert (head + tail)[1..] == tail;
    }
    assert [s[0]] + s[1..] == s;
  }

  /** What xescape_full leaves alone. */
  predicate Harmless(c: Byte, bad: seq<Byte>, eightBits: bool) {
    32 <= c as int && c != BACKSLASH && c !in bad && (eightBits || c as int < 127)
  }

  lemma XEscapeCharMeans(c: Byte, bad: seq<Byte>, eightBits: bool)
    ensures XEscapeChar(c, bad, eightBits) ==
      if Harmless(c, bad, eightBits) then [c] else [BACKSLASH, 'x', HEX[c as int / 16], HEX[c as int % 16]]
  {
    HexDigit(c as int / 16);
    HexDigit(c as int % 16);
  }

  /** The hex escape keeps a text exactly if all of it is harmless, and puts no other byte above ASCII or control byte out. */
  lemma {:induction false} XEscapeKeepsIff(s: seq<Byte>, bad: seq<Byte>, eightBits: bool)
    ensures |XEscape(s, bad, eightBits)| >= |s|
    ensures XEscape(s, bad, eightBits) == s <==> forall i | 0 <= i < |s| :: Harmless(s[i], bad, eightBits)
    ensures forall i | 0 <= i < |XEscape(s, bad, eightBits)| ::
              var c := XEscape(s, bad, eightBits)[i]; 32 <= c as int && (c as int < 127 || eightBits)
  {
    hide XEscapeChar, Harmless;
    if s != [] {
      XHeadMeans(s[0], bad, eightBits);
      XEscapeKeepsIff(s[1..], bad, eightBits);
      HeadAndTail(s, XEscapeChar(s[0], bad, eightBits), XEscape(s[1..], bad, eightBits));
      assert forall i | 1 <= i < |s| :: s[i] == s[1..][i - 1];
    }
  }

  lemma XHeadMeans(c: Byte, bad: seq<Byte>, eightBits: bool)
    ensures XEscapeChar(c, bad, eightBits) != [] && (XEscapeChar(c, bad, eightBits) == [c] <==> Harmless(c, bad, eightBits))
    ensures forall i | 0 <= i < |XEscapeChar(c, bad, eightBits)| ::
              var x := XEscapeChar(c, bad, eightBits)[i]; 32 <= x as int && (x as int < 127 || eightBits)
  {}

  /** Where a strict reader succeeds, a relaxed one reads the same. */
  lemma {:induction false} RelaxedAgrees(s: seq<Byte>)
    ensures CUnescape(s, false).Some? ==> CUnescape(s, true) == CUnescape(s, false)
    decreases |s|
  {
    hide CUnescapeOne, Emitted;
    if s != [] && UnescapeHead(s, false).Some? {
      assert UnescapeHead(s, true) == UnescapeHead(s, false);
      RelaxedAgrees(s[UnescapeHead(s, false).value.1..]);
    }
  }

  /** A relaxed reader keeps a backslash that begins no escape; a strict one fails. */
  lemma BadEscapeKept(c: Byte, rest: seq<Byte>)
    requires c !in ESCAPABLE
    ensures CUnescape([BACKSLASH, c] + rest, true) == Prepend([BACKSLASH, c], CUnescape(rest, true))
    ensures CUnescape([BACKSLASH, c] + rest, false).None?
  {
    OtherEscapesAreBad(c, rest, true);
    var s := [BACKSLASH, c] + rest;
    assert s[1..] == [c] + rest && s[1..][1..] == rest;
    assert c != BACKSLASH by { assert ESCAPABLE[7] == BACKSLASH; }
    hide CUnescapeOne;
    PrependTwice([BACKSLASH], [c], CUnescape(rest, true));
    assert [BACKSLASH] + [c] == [BACKSLASH, c];
    assert CUnescape([c] + rest, true) == Prepend([c], CUnescape(rest, true));
  }

  // ---------------------------------------------------------------- shell quoting

  /** A character that means nothing to a shell. */
  predicate MeansNothing(c: Byte) {
    32 < c as int < 127 && c !in "\"\\`$*?['()<>|&;!"
  }

  lemma NeedsQuotesMeans(c: Byte)
    ensures NeedsQuotes(c) <==> !MeansNothing(c)
  {}

  /** A word stays unquoted exactly if none of its characters means anything to a shell. */
  lemma UnquotedIff(s: seq<Byte>, style: EscapeStyle)
    ensures ShellQuoted(s, style) == s <==> forall i | 0 <= i < |s| :: MeansNothing(s[i])
  {
    hide NeedsQuotes, MeansNothing;
    forall i | 0 <= i < |s| ensures NeedsQuotes(s[i]) <==> !MeansNothing(s[i]) {
      NeedsQuotesMeans(s[i]);
    }
    if forall c | c in s :: !NeedsQuotes(c) {
      assert forall i | 0 <= i < |s| :: s[i] in s;
    } else {
      assert |ShellQuoted(s, style)| > |s|;
    }
  }

  lemma PosixCharRead(c: Byte, rest: seq<Byte>)
    requires c != NUL
    ensures var e := BackslashEscapedChar(c, SHELL_NEED_ESCAPE_POSIX, true);
            CUnescape(e + rest, false) == Prepend([c], CUnescape(rest, false))
            && forall i | 0 <= i < |e| :: e[i] != '\n' && e[i] != '\t' && (e[i] == '\'' ==> i == 1 && e[0] == BACKSLASH)
  {
    var e := BackslashEscapedChar(c, SHELL_NEED_ESCAPE_POSIX, true);
    var s := e + rest;
    assert SHELL_NEED_ESCAPE_POSIX[0] == BACKSLASH && SHELL_NEED_ESCAPE_POSIX[1] == '\'';
    if |e| == 2 {
      assert s[1..] == [e[1]] + rest && s[2..] == rest;
      if c == '\n' {
        LetterEscapes(3, rest, true);
      } else if c == '\t' {
        LetterEscapes(2, rest, true);
      } else {
        QuotedCharacters(c, rest, true);
      }
    } else {
      assert s[1..] == rest;
    }
  }

  /** Inside $'..' a POSIX shell reads C escapes: reading them gives the word, which holds no bare tab, newline or quote. */
  lemma {:induction false} PosixQuotesRoundTrip(s: seq<Byte>)
    requires NulFree(s)
    ensures var e := BackslashEscaped(s, SHELL_NEED_ESCAPE_POSIX, true);
            CUnescape(e, false) == Some(s) && '\n' !in e && '\t' !in e
            && forall i | 0 <= i < |e| && e[i] == '\'' :: i > 0 && e[i - 1] == BACKSLASH
  {
    hide BackslashEscapedChar, CUnescape;
    if s != [] {
      PosixCharRead(s[0], BackslashEscaped(s[1..], SHELL_NEED_ESCAPE_POSIX, true));
      PosixQuotesRoundTrip(s[1..]);
      assert [s[0]] + s[1..] == s;
    } else {
      NothingLeft(s, false);
      assert s[|s|..] == BackslashEscaped(s, SHELL_NEED_ESCAPE_POSIX, true);
    }
  }

  // ---------------------------------------------------------------- UTF-8

  /** Encoding and decoding agree on every code point, and only valid ones pass. */
  lemma EncodedIsDecoded(g: nat, rest: seq<Byte>)
    requires 0x80 <= g < 0x200000
    ensures var e := Utf8Encode(g);
            && |e| == Utf8.EncodedLength(g) == Utf8.ExpectedLength(e[0])
            && Utf8.Continuation(e + rest, 1, |e| - 1, Utf8.LeadBits(e[0], |e|)) == Some(g)
            && Utf8.ValidUnichar(e + rest) == if UnicharIsValid(g) then |e| else 0
  {
    hide UnicharIsValid;
    var s := Utf8Encode(g) + rest;
    if g < 0x800 {
      TwoBytes(s, g);
    } else if g < 0x10000 {
      ThreeBytes(s, g);
    } else {
      FourBytes(s, g);
    }
  }

  lemma TwoBytes(s: seq<Byte>, g: nat)
    requires 0x80 <= g < 0x800 && |s| >= 2 && s[0] as int == 0xC0 + g / 64 && s[1] as int == 0x80 + g % 64
    ensures Utf8.ExpectedLength(s[0]) == 2 && Utf8.Continuation(s, 1, 1, Utf8.LeadBits(s[0], 2)) == Some(g)
  {
    assert Utf8.LeadBits(s[0], 2) == g / 64;
    assert Utf8.Continuation(s, 2, 0, g) == Some(g);
  }

  lemma ThreeBytes(s: seq<Byte>, g: nat)
    requires 0x800 <= g < 0x10000 && |s| >= 3
    requires s[0] as int == 0xE0 + g / 4096 && s[1] as int == 0x80 + g / 64 % 64 && s[2] as int == 0x80 + g % 64
    ensures Utf8.ExpectedLength(s[0]) == 3 && Utf8.Continuation(s, 1, 2, Utf8.LeadBits(s[0], 3)) == Some(g)
  {
    assert Utf8.LeadBits(s[0], 3) == g / 4096;
    assert g / 4096 * 64 + g / 64 % 64 == g / 64;
    assert Utf8.Continuation(s, 3, 0, g) == Some(g);
    assert Utf8.Continuation(s, 2, 1, g / 64) == Some(g);
  }

  lemma FourBytes(s: seq<Byte>, g: nat)
    requires 0x10000 <= g < 0x200000 && |s| >= 4
    requires s[0] as int == 0xF0 + g / 262144 && s[1] as int == 0x80 + g / 4096 % 64
    requires s[2] as int == 0x80 + g / 64 % 64 && s[3] as int == 0x80 + g % 64
    ensures Utf8.ExpectedLength(s[0]) == 4 && Utf8.Continuation(s, 1, 3, Utf8.LeadBits(s[0], 4)) == Some(g)
  {
    assert Utf8.LeadBits(s[0], 4) == g / 262144;
    SixBitGroups(g);
    assert Utf8.Continuation(s, 4, 0, g) == Some(g);
    assert Utf8.Continuation(s, 3, 1, g / 64) == Some(g);
    assert Utf8.Continuation(s, 2, 2, g / 4096) == Some(g);
  }

  lemma SixBitGroups(g: nat)
    requires g < 0x200000
    ensures g / 262144 * 64 + g / 4096 % 64 == g / 4096 && g / 4096 * 64 + g / 64 % 64 == g / 64 && g / 64 * 64 + g % 64 == g
    ensures g / 262144 < 8
  {
    assert g / 4096 / 64 == g / 262144 && g / 64 / 64 == g / 4096;
  }

  /** The code point at the front of a text that begins with a valid character of more than one byte. */
  function CodePoint(s: seq<Byte>): nat
    requires s != [] && Utf8.ValidUnichar(s) > 1
  {
    Utf8.Continuation(s, 1, Utf8.ValidUnichar(s) - 1, Utf8.LeadBits(s[0], Utf8.ValidUnichar(s))).value
  }

  /** A valid character is the encoding of its code point. */
  lemma ValidIsEncoded(s: seq<Byte>)
    requires s != [] && Utf8.ValidUnichar(s) > 1
    ensures UnicharIsValid(CodePoint(s)) && s[..Utf8.ValidUnichar(s)] == Utf8Encode(CodePoint(s)) && CodePoint(s) >= 0x80
  {
    var n := Utf8.ValidUnichar(s);
    var g := CodePoint(s);
    assert Utf8.EncodedLength(g) == n && UnicharIsValid(g) && n == Utf8.ExpectedLength(s[0]);
    hide UnicharIsValid;
    if n == 2 {
      ReadTwo(s);
    } else if n == 3 {
      ReadThree(s);
    } else {
      assert n == 4 by { BelowTheLimit(g); }
      ReadFour(s);
    }
    assert forall i | 0 <= i < n :: s[..n][i] == Utf8Encode(g)[i];
  }

  lemma BelowTheLimit(g: nat)
    requires UnicharIsValid(g)
    ensures g < 0x110000 && Utf8.EncodedLength(g) <= 4
  {}

  lemma ReadTwo(s: seq<Byte>)
    requires |s| >= 2 && Utf8.ExpectedLength(s[0]) == 2 && Utf8.Continuation(s, 1, 1, Utf8.LeadBits(s[0], 2)).Some?
    ensures var g := Utf8.Continuation(s, 1, 1, Utf8.LeadBits(s[0], 2)).value;
            g < 0x800 && s[0] as int == 0xC0 + g / 64 && s[1] as int == 0x80 + g % 64
  {
    var a := s[0] as int - 0xC0;
    var b := s[1] as int - 0x80;
    assert Utf8.Continuation(s, 1, 1, a) == Utf8.Continuation(s, 2, 0, a * 64 + b);
  }

  lemma ReadThree(s: seq<Byte>)
    requires |s| >= 3 && Utf8.ExpectedLength(s[0]) == 3 && Utf8.Continuation(s, 1, 2, Utf8.LeadBits(s[0], 3)).Some?
    ensures var g := Utf8.Continuation(s, 1, 2, Utf8.LeadBits(s[0], 3)).value;
            g < 0x10000 && s[0] as int == 0xE0 + g / 4096 && s[1] as int == 0x80 + g / 64 % 64 && s[2] as int == 0x80 + g % 64
  {
    var a := s[0] as int - 0xE0;
    var b := s[1] as int - 0x80;
    var c := s[2] as int - 0x80;
    assert Utf8.Continuation(s, 1, 2, a) == Utf8.Continuation(s, 2, 1, a * 64 + b);
    assert Utf8.Continuation(s, 2, 1, a * 64 + b) == Utf8.Continuation(s, 3, 0, (a * 64 + b) * 64 + c);
    var g := (a * 64 + b) * 64 + c;
    assert g / 64 == a * 64 + b;
  }

  lemma ReadFour(s: seq<Byte>)
    requires |s| >= 4 && Utf8.ExpectedLength(s[0]) == 4 && Utf8.Continuation(s, 1, 3, Utf8.LeadBits(s[0], 4)).Some?
    ensures var g := Utf8.Continuation(s, 1, 3, Utf8.LeadBits(s[0], 4)).value;
            && g < 0x200000 && s[0] as int == 0xF0 + g / 262144 && s[1] as int == 0x80 + g / 4096 % 64
            && s[2] as int == 0x80 + g / 64 % 64 && s[3] as int == 0x80 + g % 64
  {
    var a := s[0] as int - 0xF0;
    var b := s[1] as int - 0x80;
    var c := s[2] as int - 0x80;
    var d := s[3] as int - 0x80;
    assert Utf8.Continuation(s, 1, 3, a) == Utf8.Continuation(s, 2, 2, a * 64 + b);
    assert Utf8.Continuation(s, 2, 2, a * 64 + b) == Utf8.Continuation(s, 3, 1, (a * 64 + b) * 64 + c);
    assert Utf8.Continuation(s, 3, 1, (a * 64 + b) * 64 + c) == Utf8.Continuation(s, 4, 0, ((a * 64 + b) * 64 + c) * 64 + d);
    FourGroups(a, b, c, d);
  }

  lemma FourGroups(a: nat, b: nat, c: nat, d: nat)
    requires a < 8 && b < 64 && c < 64 && d < 64
    ensures var g := ((a * 64 + b) * 64 + c) * 64 + d;
            g < 0x200000 && g / 262144 == a && g / 4096 % 64 == b && g / 64 % 64 == c && g % 64 == d
  {
    var g := ((a * 64 + b) * 64 + c) * 64 + d;
    assert g / 64 == (a * 64 + b) * 64 + c && g / 4096 == a * 64 + b;
  }

  /** The text that code points make. */
  function EncodeAll(codes: seq<nat>): seq<Byte> {
    if codes == [] then [] else Utf8Encode(codes[0]) + EncodeAll(codes[1..])
  }

  predicate AllValid(codes: seq<nat>) {
    forall i | 0 <= i < |codes| :: UnicharIsValid(codes[i])
  }

  lemma {:induction false} EncodedIsValid(codes: seq<nat>)
    requires AllValid(codes)
    ensures Utf8.IsValid(EncodeAll(codes))
  {
    hide UnicharIsValid, Utf8Encode, Utf8.ValidUnichar;
    if codes != [] {
      var rest := EncodeAll(codes[1..]);
      BelowTheLimit(codes[0]);
      FirstIsValid(codes[0], rest);
      assert (Utf8Encode(codes[0]) + rest)[|Utf8Encode(codes[0])|..] == rest;
      EncodedIsValid(codes[1..]);
    }
  }

  lemma FirstIsValid(g: nat, rest: seq<Byte>)
    requires UnicharIsValid(g)
    ensures Utf8Encode(g) != [] && Utf8.ValidUnichar(Utf8Encode(g) + rest) == |Utf8Encode(g)|
  {
    BelowTheLimit(g);
    if g >= 0x80 {
      EncodedIsDecoded(g, rest);
    }
  }

  lemma {:induction false} ValidIsEncodedText(s: seq<Byte>) returns (codes: seq<nat>)
    requires Utf8.IsValid(s)
    ensures AllValid(codes) && EncodeAll(codes) == s
    decreases |s|
  {
    hide UnicharIsValid, Utf8.ValidUnichar;
    codes := [];
    if s != [] {
      var n := Utf8.ValidUnichar(s);
      var rest := ValidIsEncodedText(s[n..]);
      var g := if n == 1 then s[0] as int else CodePoint(s);
      if n == 1 {
        AsciiCode(s[0]);
        assert s[..1] == [s[0]];
      } else {
        ValidIsEncoded(s);
      }
      codes := [g] + rest;
      hide CodePoint;
      assert codes[1..] == rest && s == s[..n] + s[n..];
    }
  }

  lemma AsciiCode(c: Byte)
    ensures c as int < 0x80 ==> UnicharIsValid(c as int) && Utf8Encode(c as int) == [c]
  {}

  /** Text is valid exactly if it is the encoding of valid code points. */
  lemma Utf8ValidIff(s: seq<Byte>)
    ensures Utf8.IsValid(s) <==> exists codes :: AllValid(codes) && EncodeAll(codes) == s
  {
    if Utf8.IsValid(s) {
      var codes := ValidIsEncodedText(s);
    }
    forall codes | AllValid(codes) && EncodeAll(codes) == s ensures Utf8.IsValid(s) {
      EncodedIsValid(codes);
    }
  }
}
