/** What extract_first_word makes of escapes, quotes and separators, for every combination of the other flags. */
module EscapedWords {
  import opened Basics
  import opened Escape
  import opened EscapeLaws
  import opened ExtractWord
  import opened QuotedWords

  // ---------------------------------------------------------------- decoding escapes

  /** Where the end of the text does not get in the way, reading up to it or up to the NUL is the same. */
  lemma BoundedAgrees(p: seq<Byte>)
    requires CUnescapeOne(p, true).One?
    ensures CUnescapeOne(p, false) == CUnescapeOne(p, true)
  {
    hide HexRun, UnicharIsValid, UnhexChar, UnoctChar, Utf8Encode;
  }

  /** The escape e of character c, inside or outside quotes, adds c to the word. */
  lemma ScanOneEscape(s: seq<Byte>, i: nat, e: seq<Byte>, c: Byte, eightBit: bool, quote: Byte, out: seq<Byte>,
                      seps: seq<Byte>, fl: Flags)
    requires Occurs(s, i, e) && |e| > 1 && e[0] == BACKSLASH && fl.cunescape && !fl.retainEscape && quote != BACKSLASH
    requires c as int < 0x80 || eightBit
    requires CUnescapeOne(e[1..] + s[i + |e|..], true) == One(c as int, eightBit, |e| - 1)
    ensures Scan(s, i, quote, false, out, seps, fl) == Scan(s, i + |e|, quote, false, out + [c], seps, fl)
  {
    OccursAt(s, i, e);
    assert s[i] == s[i + 0] == e[0];
    assert s[i + 1..] == e[1..] + s[i + |e|..] by {
      assert s[i + 1..][..|e| - 1] == s[i..i + |e|][1..] == e[1..];
      assert s[i + 1..] == s[i + 1..][..|e| - 1] + s[i + 1..][|e| - 1..];
      assert s[i + 1..][|e| - 1..] == s[i + |e|..];
    }
    BoundedAgrees(s[i + 1..]);
    assert Emitted(One(c as int, eightBit, |e| - 1)) == [c];
    hide CUnescapeOne, Emitted, Occurs;
    assert Scan(s, i, quote, false, out, seps, fl) == Scan(s, i + 1, quote, true, out, seps, fl);
  }

  /** A character that is neither the quote nor a backslash stands for itself inside quotes. */
  lemma ScanInQuotes(s: seq<Byte>, i: nat, quote: Byte, out: seq<Byte>, seps: seq<Byte>, fl: Flags)
    requires i < |s| && quote != NUL && s[i] != quote && (s[i] != BACKSLASH || fl.retainEscape)
    ensures Scan(s, i, quote, false, out, seps, fl) == Scan(s, i + 1, quote, false, out + [s[i]], seps, fl)
  {}

  lemma ScanCEscapedChar(s: seq<Byte>, i: nat, c: Byte, out: seq<Byte>, seps: seq<Byte>, fl: Flags)
    requires Occurs(s, i, CEscapeChar(c)) && c != NUL && fl.cunescape && !fl.retainEscape
    ensures Scan(s, i, '"', false, out, seps, fl) == Scan(s, i + |CEscapeChar(c)|, '"', false, out + [c], seps, fl)
  {
    var e := CEscapeChar(c);
    hide Scan, Occurs;
    CEscapeCharMeans(c);
    if |e| == 1 {
      OccursAt(s, i, e);
      assert s[i + 0] == e[0] == c && i + 1 <= |s| by { OccursLength(s, i, e); }
      ScanInQuotes(s, i, '"', out, seps, fl);
    } else {
      OccursLength(s, i, e);
      var rest := s[i + |e|..];
      if |e| == 2 {
        OneOfShortEscape(c, rest);
        ShortIsAscii(c);
        ScanOneEscape(s, i, e, c, false, '"', out, seps, fl);
      } else {
        OneOfOctalEscape(c, rest);
        ScanOneEscape(s, i, e, c, true, '"', out, seps, fl);
      }
    }
  }

  lemma OneMore(out: seq<Byte>, w: seq<Byte>)
    requires w != []
    ensures out + [w[0]] + w[1..] == out + w
  {}

  lemma NulFreeParts(w: seq<Byte>)
    requires NulFree(w) && w != []
    ensures w[0] != NUL && NulFree(w[1..])
  {
    assert w[0] in w;
  }

  lemma ShortIsAscii(c: Byte)
    ensures |CEscapeChar(c)| == 2 ==> c as int < 0x80
  {}

  lemma OccursLength(s: seq<Byte>, i: nat, w: seq<Byte>)
    requires Occurs(s, i, w)
    ensures i + |w| <= |s|
  {}

  lemma {:induction false} ScanCEscaped(s: seq<Byte>, i: nat, w: seq<Byte>, out: seq<Byte>, seps: seq<Byte>, fl: Flags)
    requires Occurs(s, i, CEscape(w)) && NulFree(w) && fl.cunescape && !fl.retainEscape
    ensures i + |CEscape(w)| <= |s|
    ensures Scan(s, i, '"', false, out, seps, fl) == Scan(s, i + |CEscape(w)|, '"', false, out + w, seps, fl)
    decreases |w|
  {
    hide Scan, Occurs, CEscapeChar, NulFree;
    OccursLength(s, i, CEscape(w));
    if w == [] {
      assert out + w == out;
    } else {
      var head, tail := CEscapeChar(w[0]), CEscape(w[1..]);
      assert CEscape(w) == head + tail;
      hide CEscape;
      OccursSplit(s, i, head, tail);
      NulFreeParts(w);
      ScanCEscapedChar(s, i, w[0], out, seps, fl);
      ScanCEscaped(s, i + |head|, w[1..], out + [w[0]], seps, fl);
      OneMore(out, w);
    }
  }

  lemma ScanXEscapedChar(s: seq<Byte>, i: nat, c: Byte, bad: seq<Byte>, eightBits: bool, out: seq<Byte>, seps: seq<Byte>, fl: Flags)
    requires Occurs(s, i, XEscapeChar(c, bad, eightBits)) && c != NUL && fl.cunescape && !fl.retainEscape
    requires c == '"' ==> c in bad
    ensures Scan(s, i, '"', false, out, seps, fl)
         == Scan(s, i + |XEscapeChar(c, bad, eightBits)|, '"', false, out + [c], seps, fl)
  {
    var e := XEscapeChar(c, bad, eightBits);
    hide Scan;
    OccursAt(s, i, e);
    OccursLength(s, i, e);
    assert s[i + 0] == e[0];
    if |e| == 1 {
      ScanInQuotes(s, i, '"', out, seps, fl);
    } else {
      var rest := s[i + |e|..];
      OneOfHexEscape(c, rest);
      assert e[1..] == ['x', HexChar(c as int / 16), HexChar(c as int)];
      ScanOneEscape(s, i, e, c, true, '"', out, seps, fl);
    }
  }

  lemma {:induction false} ScanXEscaped(s: seq<Byte>, i: nat, w: seq<Byte>, bad: seq<Byte>, eightBits: bool,
                                        out: seq<Byte>, seps: seq<Byte>, fl: Flags)
    requires Occurs(s, i, XEscape(w, bad, eightBits)) && NulFree(w) && fl.cunescape && !fl.retainEscape
    requires '"' in w ==> '"' in bad
    ensures i + |XEscape(w, bad, eightBits)| <= |s|
    ensures Scan(s, i, '"', false, out, seps, fl)
         == Scan(s, i + |XEscape(w, bad, eightBits)|, '"', false, out + w, seps, fl)
    decreases |w|
  {
    hide Scan, Occurs, XEscapeChar, NulFree;
    OccursLength(s, i, XEscape(w, bad, eightBits));
    if w == [] {
      assert out + w == out;
    } else {
      var head, tail := XEscapeChar(w[0], bad, eightBits), XEscape(w[1..], bad, eightBits);
      assert XEscape(w, bad, eightBits) == head + tail;
      hide XEscape;
      NulFreeParts(w);
      OccursSplit(s, i, head, tail);
      assert w[0] in w;
      ScanXEscapedChar(s, i, w[0], bad, eightBits, out, seps, fl);
      ScanXEscaped(s, i + |head|, w[1..], bad, eightBits, out + [w[0]], seps, fl);
      OneMore(out, w);
    }
  }

  // ---------------------------------------------------------------- one quoted word

  /** An opening and a closing quote leave the text between them to be scanned. */
  lemma QuoteToggles(s: seq<Byte>, i: nat, quote: Byte, out: seq<Byte>, seps: seq<Byte>, fl: Flags)
    requires i < |s| && s[i] == quote && (quote == '"' || quote == '\'') && fl.unquote
    ensures Scan(s, i, NUL, false, out, seps, fl) == Scan(s, i + 1, quote, false, out, seps, fl)
    ensures Scan(s, i, quote, false, out, seps, fl) == Scan(s, i + 1, NUL, false, out, seps, fl)
  {}

  lemma BeginsAt(s: seq<Byte>, i: nat, seps: seq<Byte>, fl: Flags)
    requires i < |s| && s[i] !in seps
    ensures Extract(s, Some(i), seps, fl) == Scan(s, i, NUL, false, [], seps, fl)
  {
    assert SkipSeparators(s, i, seps) == i;
  }

  lemma EndOfText(s: seq<Byte>, out: seq<Byte>, seps: seq<Byte>, fl: Flags)
    ensures Scan(s, |s|, NUL, false, out, seps, fl) == Word(out, None)
  {}

  /** The C escape of any word, in double quotes, is read back with EXTRACT_CUNESCAPE and EXTRACT_UNQUOTE. */
  lemma CEscapedWordIsRead(w: seq<Byte>, seps: seq<Byte>, fl: Flags)
    requires NulFree(w) && fl.cunescape && fl.unquote && !fl.retainEscape && '"' !in seps
    ensures Extract("\"" + CEscape(w) + "\"", Some(0), seps, fl) == Word(w, None)
  {
    var e := CEscape(w);
    var s := "\"" + e + "\"";
    hide Scan, Extract, CEscape, Occurs;
    InQuotes(s, e);
    BeginsAt(s, 0, seps, fl);
    QuoteToggles(s, 0, '"', [], seps, fl);
    ScanCEscaped(s, 1, w, [], seps, fl);
    assert [] + w == w;
    QuoteToggles(s, 1 + |e|, '"', w, seps, fl);
    EndOfText(s, w, seps, fl);
  }

  lemma InQuotes(s: seq<Byte>, e: seq<Byte>)
    requires s == "\"" + e + "\""
    ensures |s| == |e| + 2 && s[0] == '"' && Occurs(s, 1, e) && s[1 + |e|] == '"'
  {}

  /** So is its hex escape, if that escapes the quote. */
  lemma XEscapedWordIsRead(w: seq<Byte>, bad: seq<Byte>, eightBits: bool, seps: seq<Byte>, fl: Flags)
    requires NulFree(w) && fl.cunescape && fl.unquote && !fl.retainEscape && '"' !in seps
    requires '"' in w ==> '"' in bad
    ensures Extract("\"" + XEscape(w, bad, eightBits) + "\"", Some(0), seps, fl) == Word(w, None)
  {
    var e := XEscape(w, bad, eightBits);
    var s := "\"" + e + "\"";
    hide Scan, Extract, XEscape, Occurs;
    InQuotes(s, e);
    BeginsAt(s, 0, seps, fl);
    QuoteToggles(s, 0, '"', [], seps, fl);
    ScanXEscaped(s, 1, w, bad, eightBits, [], seps, fl);
    assert [] + w == w;
    QuoteToggles(s, 1 + |e|, '"', w, seps, fl);
    EndOfText(s, w, seps, fl);
  }

  // ---------------------------------------------------------------- whole lines

  /** Calling extract_first_word until it returns 0; None if some call fails. */
  function WordsBy(s: seq<Byte>, p: Option<nat>, seps: seq<Byte>, fl: Flags): Option<seq<seq<Byte>>>
    requires p.Some? ==> p.value <= |s|
    decreases if p.Some? then |s| - p.value + 1 else 0
  {
    match Extract(s, p, seps, fl)
    case Finished => Some([])
    case Word(text, next) =>
      var rest := WordsBy(s, next, seps, fl);
      if rest.Some? then Some([text] + rest.value) else None
    case _ => None
  }

  function CQuoted(w: seq<Byte>): seq<Byte> {
    "\"" + CEscape(w) + "\""
  }

  function CLine(words: seq<seq<Byte>>): seq<Byte> {
    if words == [] then []
    else if |words| == 1 then CQuoted(words[0])
    else CQuoted(words[0]) + " " + CLine(words[1..])
  }

  /** The flags for C escapes in quotes; how lenient the caller is does not matter. */
  predicate ReadsEscapes(fl: Flags) {
    fl.cunescape && fl.unquote && !fl.retainEscape && !fl.dontCoalesce
  }

  /** One quoted word at index i, followed by the end or by a blank and another quote. */
  lemma OneCQuoted(s: seq<Byte>, i: nat, w: seq<Byte>, fl: Flags)
    requires Occurs(s, i, CQuoted(w)) && i + |CQuoted(w)| <= |s| && NulFree(w) && ReadsEscapes(fl)
    requires var k := i + |CQuoted(w)|; k < |s| ==> s[k] == ' ' && k + 1 < |s| && s[k + 1] == '"'
    ensures var k := i + |CQuoted(w)|; Extract(s, Some(i), WHITESPACE, fl) == Word(w, if k == |s| then None else Some(k + 1))
  {
    var e := CEscape(w);
    var k := i + |CQuoted(w)|;
    hide Scan, Extract, CEscape, Occurs;
    QuotesAround(s, i, e);
    BeginsAt(s, i, WHITESPACE, fl);
    QuoteToggles(s, i, '"', [], WHITESPACE, fl);
    ScanCEscaped(s, i + 1, w, [], WHITESPACE, fl);
    assert [] + w == w;
    QuoteToggles(s, i + 1 + |e|, '"', w, WHITESPACE, fl);
    if k == |s| {
      EndOfText(s, w, WHITESPACE, fl);
    } else {
      BlankEndsWord(s, k, w, fl);
    }
  }

  lemma BlankEndsWord(s: seq<Byte>, k: nat, w: seq<Byte>, fl: Flags)
    requires k + 1 < |s| && s[k] == ' ' && s[k + 1] == '"' && !fl.dontCoalesce
    ensures Scan(s, k, NUL, false, w, WHITESPACE, fl) == Word(w, Some(k + 1))
  {
    assert WHITESPACE[0] == ' ';
    assert SkipSeparators(s, k + 1, WHITESPACE) == k + 1;
  }

  lemma {:induction false} WordsOfCLine(s: seq<Byte>, i: nat, words: seq<seq<Byte>>, fl: Flags)
    requires i <= |s| && s[i..] == CLine(words) && words != [] && ReadsEscapes(fl)
    requires forall j | 0 <= j < |words| :: NulFree(words[j])
    ensures WordsBy(s, Some(i), WHITESPACE, fl) == Some(words)
    decreases |words|
  {
    hide Extract, CQuoted, NulFree, ReadsEscapes;
    var w := words[0];
    var q, t := CQuoted(w), s[i..];
    var k := i + |q|;
    assert t[..|q|] == q && s[i..k] == t[..|q|];
    if |words| == 1 {
      assert k == |s|;
      OneCQuoted(s, i, w, fl);
      var none: seq<seq<Byte>> := [];
      assert words == [w] + none;
      NoneIsEnd(s, WHITESPACE, fl);
    } else {
      assert s[k] == t[|q|] == ' ' && s[k + 1..] == t[|q| + 1..] == CLine(words[1..]);
      CLineBegins(words[1..]);
      assert s[k + 1] == s[k + 1..][0];
      OneCQuoted(s, i, w, fl);
      assert forall j | 0 <= j < |words[1..]| :: words[1..][j] == words[j + 1];
      WordsOfCLine(s, k + 1, words[1..], fl);
      assert words == [w] + words[1..];
    }
  }

  lemma NoneIsEnd(s: seq<Byte>, seps: seq<Byte>, fl: Flags)
    ensures WordsBy(s, None, seps, fl) == Some([])
  {}

  lemma CLineBegins(words: seq<seq<Byte>>)
    requires words != []
    ensures CLine(words) != [] && CLine(words)[0] == '"'
  {}

  /** Every list of words comes back from its C-escaped, quoted line, empty words included. */
  lemma SplitOfCLine(words: seq<seq<Byte>>, fl: Flags)
    requires ReadsEscapes(fl) && forall j | 0 <= j < |words| :: NulFree(words[j])
    ensures WordsBy(CLine(words), Some(0), WHITESPACE, fl) == Some(words)
  {
    var s := CLine(words);
    assert s[0..] == s;
    if words != [] {
      WordsOfCLine(s, 0, words, fl);
    }
  }

  // ---------------------------------------------------------------- what else may stand in a word

  /** Not special outside quotes, whatever the flags. */
  predicate Ordinary(w: seq<Byte>, seps: seq<Byte>) {
    forall i | 0 <= i < |w| :: w[i] !in seps && w[i] != BACKSLASH && w[i] != '"' && w[i] != '\''
  }

  lemma {:induction false} ScanOrdinary(s: seq<Byte>, i: nat, w: seq<Byte>, out: seq<Byte>, seps: seq<Byte>, fl: Flags)
    requires Occurs(s, i, w) && Ordinary(w, seps) && i + |w| <= |s|
    ensures Scan(s, i, NUL, false, out, seps, fl) == Scan(s, i + |w|, NUL, false, out + w, seps, fl)
    decreases |w|
  {
    if w == [] {
      assert out + w == out;
    } else {
      assert s[i] == s[i..i + |w|][0] == w[0];
      assert s[i + 1..i + |w|] == s[i..i + |w|][1..] == w[1..];
      ScanOrdinary(s, i + 1, w[1..], out + [w[0]], seps, fl);
      assert out + [w[0]] + w[1..] == out + w;
    }
  }

  /** A backslash in front of something that is no escape: an error, or kept with what follows in relaxed mode. */
  lemma BadEscapeInWord(w: seq<Byte>, c: Byte, seps: seq<Byte>, fl: Flags)
    requires Ordinary(w, seps) && BACKSLASH !in seps && fl.cunescape && !fl.retainEscape && c !in ESCAPABLE
    ensures Extract(w + [BACKSLASH, c], Some(0), seps, fl)
         == if fl.cunescapeRelax then Word(w + [BACKSLASH, c], None) else Invalid(|w| + 1)
  {
    var s := w + [BACKSLASH, c];
    assert Occurs(s, 0, w) && s[|w|..] == [BACKSLASH, c] && s[|w| + 1..] == [c] + [];
    assert s[0] !in seps;
    BeginsAt(s, 0, seps, fl);
    ScanOrdinary(s, 0, w, [], seps, fl);
    assert [] + w == w;
    OtherEscapesAreBad(c, [], false);
    hide CUnescapeOne, Extract, Occurs;
    assert Scan(s, |w|, NUL, false, w, seps, fl) == Scan(s, |w| + 1, NUL, true, w, seps, fl);
    EndOfText(s, w + [BACKSLASH, c], seps, fl);
  }

  /** A backslash at the very end: kept by the relaxed decoder, dropped by the relaxed splitter, else an error. */
  lemma TrailingBackslash(w: seq<Byte>, seps: seq<Byte>, fl: Flags)
    requires Ordinary(w, seps) && BACKSLASH !in seps && !fl.retainEscape
    ensures Extract(w + [BACKSLASH], Some(0), seps, fl)
         == if fl.cunescapeRelax then Word(w + [BACKSLASH], None)
            else if fl.relax then Word(w, None) else Invalid(|w| + 1)
  {
    var s := w + [BACKSLASH];
    assert Occurs(s, 0, w) && s[|w|] == BACKSLASH && s[0] !in seps;
    BeginsAt(s, 0, seps, fl);
    ScanOrdinary(s, 0, w, [], seps, fl);
    assert [] + w == w;
    hide Extract, Occurs;
    assert Scan(s, |w|, NUL, false, w, seps, fl) == Scan(s, |w| + 1, NUL, true, w, seps, fl);
  }

  lemma {:induction false} ScanVerbatim(s: seq<Byte>, i: nat, w: seq<Byte>, quote: Byte, out: seq<Byte>, seps: seq<Byte>, fl: Flags)
    requires Occurs(s, i, w) && i + |w| <= |s| && quote != NUL && quote !in w && (BACKSLASH !in w || fl.retainEscape)
    ensures Scan(s, i, quote, false, out, seps, fl) == Scan(s, i + |w|, quote, false, out + w, seps, fl)
    decreases |w|
  {
    if w == [] {
      assert out + w == out;
    } else {
      assert s[i] == s[i..i + |w|][0] == w[0] && w[0] in w;
      assert s[i + 1..i + |w|] == s[i..i + |w|][1..] == w[1..];
      hide Scan;
      ScanInQuotes(s, i, quote, out, seps, fl);
      ScanVerbatim(s, i + 1, w[1..], quote, out + [w[0]], seps, fl);
      assert out + [w[0]] + w[1..] == out + w;
    }
  }

  /** A quote that is never closed: an error at the end of the text, or the word so far with EXTRACT_RELAX. */
  lemma UnterminatedQuote(w: seq<Byte>, quote: Byte, seps: seq<Byte>, fl: Flags)
    requires (quote == '"' || quote == '\'') && quote !in seps && fl.unquote && quote !in w
    requires BACKSLASH !in w || fl.retainEscape
    ensures Extract([quote] + w, Some(0), seps, fl) == if fl.relax then Word(w, None) else Invalid(|w| + 1)
  {
    var s := [quote] + w;
    assert Occurs(s, 1, w);
    BeginsAt(s, 0, seps, fl);
    QuoteToggles(s, 0, quote, [], seps, fl);
    ScanVerbatim(s, 1, w, quote, [], seps, fl);
    assert [] + w == w;
    hide Extract, Occurs;
  }

  /** What stands between matching quotes is the word. */
  lemma QuotedVerbatim(w: seq<Byte>, quote: Byte, seps: seq<Byte>, fl: Flags)
    requires (quote == '"' || quote == '\'') && quote !in seps && fl.unquote && quote !in w
    requires BACKSLASH !in w || fl.retainEscape
    ensures Extract([quote] + w + [quote], Some(0), seps, fl) == Word(w, None)
  {
    var s := [quote] + w + [quote];
    assert Occurs(s, 1, w) && s[|w| + 1] == quote;
    BeginsAt(s, 0, seps, fl);
    QuoteToggles(s, 0, quote, [], seps, fl);
    ScanVerbatim(s, 1, w, quote, [], seps, fl);
    assert [] + w == w;
    QuoteToggles(s, |w| + 1, quote, w, seps, fl);
    EndOfText(s, w, seps, fl);
    hide Extract, Occurs, Scan;
  }

  /** Every character behind a backslash. */
  function Slashed(w: seq<Byte>): seq<Byte> {
    if w == [] then [] else [BACKSLASH, w[0]] + Slashed(w[1..])
  }

  lemma {:induction false} ScanSlashed(s: seq<Byte>, i: nat, w: seq<Byte>, out: seq<Byte>, seps: seq<Byte>, fl: Flags)
    requires Occurs(s, i, Slashed(w)) && i + |Slashed(w)| <= |s| && !fl.cunescape && !fl.retainEscape
    ensures Scan(s, i, NUL, false, out, seps, fl) == Scan(s, i + |Slashed(w)|, NUL, false, out + w, seps, fl)
    decreases |w|
  {
    if w == [] {
      assert out + w == out;
    } else {
      OccursSplit(s, i, [BACKSLASH, w[0]], Slashed(w[1..]));
      SlashTakesNext(s, i, w[0], out, seps, fl);
      hide Scan;
      ScanSlashed(s, i + 2, w[1..], out + [w[0]], seps, fl);
      assert out + [w[0]] + w[1..] == out + w;
    }
  }

  lemma SlashTakesNext(s: seq<Byte>, i: nat, c: Byte, out: seq<Byte>, seps: seq<Byte>, fl: Flags)
    requires Occurs(s, i, [BACKSLASH, c]) && i + 2 <= |s| && !fl.cunescape && !fl.retainEscape
    ensures Scan(s, i, NUL, false, out, seps, fl) == Scan(s, i + 2, NUL, false, out + [c], seps, fl)
  {
    assert s[i] == s[i..i + 2][0] && s[i + 1] == s[i..i + 2][1];
    assert Scan(s, i, NUL, false, out, seps, fl) == Scan(s, i + 1, NUL, true, out, seps, fl);
  }

  /** Without decoding a backslash makes any character stand for itself, separators and quotes included. */
  lemma BackslashMakesLiteral(w: seq<Byte>, seps: seq<Byte>, fl: Flags)
    requires w != [] && BACKSLASH !in seps && !fl.cunescape && !fl.retainEscape
    ensures Extract(Slashed(w), Some(0), seps, fl) == Word(w, None)
  {
    var s := Slashed(w);
    assert Occurs(s, 0, s) && s[0] == BACKSLASH;
    BeginsAt(s, 0, seps, fl);
    ScanSlashed(s, 0, w, [], seps, fl);
    assert [] + w == w;
    EndOfText(s, w, seps, fl);
    hide Extract, Scan;
  }

  // ---------------------------------------------------------------- separators

  predicate AllIn(b: seq<Byte>, seps: seq<Byte>) {
    forall i | 0 <= i < |b| :: b[i] in seps
  }

  lemma {:induction false} SkipsAll(s: seq<Byte>, i: nat, n: nat, seps: seq<Byte>)
    requires i + n <= |s| && AllIn(s[i..i + n], seps) && (i + n < |s| ==> s[i + n] !in seps)
    ensures SkipSeparators(s, i, seps) == i + n
    decreases n
  {
    if n > 0 {
      assert s[i] == s[i..i + n][0];
      assert s[i + 1..i + n] == s[i..i + n][1..];
      SkipsAll(s, i + 1, n - 1, seps);
    }
  }

  /** Any number of separators around a word, or alone, when they are coalesced. */
  lemma SeparatorsCoalesce(b: seq<Byte>, w: seq<Byte>, b': seq<Byte>, seps: seq<Byte>, fl: Flags)
    requires AllIn(b, seps) && AllIn(b', seps) && Ordinary(w, seps) && !fl.dontCoalesce
    requires BACKSLASH !in seps && '"' !in seps && '\'' !in seps
    ensures w != [] ==> Extract(b + w + b', Some(0), seps, fl) == Word(w, None)
    ensures Extract(b, Some(0), seps, fl) == Finished
  {
    assert b[0..|b|] == b;
    SkipsAll(b, 0, |b|, seps);
    if w != [] {
      var s := b + w + b';
      var k := |b| + |w|;
      assert s[0..|b|] == b && Occurs(s, |b|, w) && s[|b|] == w[0] && s[k..] == b';
      SkipsAll(s, 0, |b|, seps);
      assert Extract(s, Some(0), seps, fl) == Scan(s, |b|, NUL, false, [], seps, fl);
      ScanOrdinary(s, |b|, w, [], seps, fl);
      assert [] + w == w;
      EndsAt(s, k, w, seps, fl);
    }
  }

  lemma EndsAt(s: seq<Byte>, k: nat, w: seq<Byte>, seps: seq<Byte>, fl: Flags)
    requires k <= |s| && AllIn(s[k..], seps) && !fl.dontCoalesce && BACKSLASH !in seps && '"' !in seps && '\'' !in seps
    ensures Scan(s, k, NUL, false, w, seps, fl) == Word(w, None)
  {
    assert s[k..|s|] == s[k..];
    SkipsAll(s, k, |s| - k, seps);
    if k < |s| {
      assert s[k] == s[k..][0];
    }
  }
}
