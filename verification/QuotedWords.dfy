/** Quoting words and splitting the joined line again are inverse to each other. */
module QuotedWords {
  import opened Basics
  import opened Escape
  import opened ShellQuote
  import opened ExtractWord

  /** The flag EXTRACT_UNQUOTE alone. */
  const UNQUOTE := Flags(false, false, false, true, false, false)

  function Quote(w: seq<Byte>): seq<Byte> {
    ShellQuoted(w, EscapeBackslash)
  }

  /** The quoted words with one space between neighbours. */
  function Line(words: seq<seq<Byte>>): seq<Byte> {
    if words == [] then []
    else if |words| == 1 then Quote(words[0])
    else Quote(words[0]) + " " + Line(words[1..])
  }

  /** Calling extract_first_word until it returns 0; None if some call fails. */
  function Words(s: seq<Byte>, p: Option<nat>): Option<seq<seq<Byte>>>
    requires p.Some? ==> p.value <= |s|
    decreases if p.Some? then |s| - p.value + 1 else 0
  {
    match Extract(s, p, WHITESPACE, UNQUOTE)
    case Finished => Some([])
    case Word(text, next) =>
      var rest := Words(s, next);
      if rest.Some? then Some([text] + rest.value) else None
    case _ => None
  }

  function NonEmpty(words: seq<seq<Byte>>): seq<seq<Byte>> {
    if words == [] then []
    else if words[0] == [] then NonEmpty(words[1..])
    else [words[0]] + NonEmpty(words[1..])
  }

  lemma Specials()
    ensures forall c | c in WHITESPACE :: NeedsQuotes(c)
    ensures NeedsQuotes('"') && NeedsQuotes('\'') && NeedsQuotes(BACKSLASH)
    ensures '"' in SHELL_NEED_ESCAPE
  {
    assert SHELL_NEED_QUOTES[0] == '"' && SHELL_NEED_QUOTES[1] == BACKSLASH && SHELL_NEED_QUOTES[7] == '\'';
    assert SHELL_NEED_ESCAPE[0] == '"';
  }

  /** The text w stands at index i. */
  predicate Occurs(s: seq<Byte>, i: nat, w: seq<Byte>) {
    i + |w| <= |s| && s[i..i + |w|] == w
  }

  lemma OccursSplit(s: seq<Byte>, i: nat, a: seq<Byte>, b: seq<Byte>)
    requires Occurs(s, i, a + b)
    ensures Occurs(s, i, a) && Occurs(s, i + |a|, b)
  {
    var m := s[i..i + |a| + |b|];
    assert s[i..i + |a|] == m[..|a|];
    assert s[i + |a|..i + |a| + |b|] == m[|a|..];
  }

  lemma OccursAt(s: seq<Byte>, i: nat, w: seq<Byte>)
    requires Occurs(s, i, w)
    ensures forall k | 0 <= k < |w| :: s[i + k] == w[k]
  {
    assert forall k | 0 <= k < |w| :: s[i..i + |w|][k] == w[k];
  }

  lemma ScanPlainChar(s: seq<Byte>, i: nat, out: seq<Byte>)
    requires i < |s| && !NeedsQuotes(s[i])
    ensures Scan(s, i, NUL, false, out, WHITESPACE, UNQUOTE)
         == Scan(s, i + 1, NUL, false, out + [s[i]], WHITESPACE, UNQUOTE)
  {
    assert s[i] !in WHITESPACE && s[i] != '"' && s[i] != '\'' && s[i] != BACKSLASH by { Specials(); }
    hide NeedsQuotes;
  }

  /** A run of ordinary characters is taken over as it is. */
  lemma {:induction false} ScanPlain(s: seq<Byte>, i: nat, w: seq<Byte>, out: seq<Byte>)
    requires Occurs(s, i, w)
    requires forall c | c in w :: !NeedsQuotes(c)
    ensures Scan(s, i, NUL, false, out, WHITESPACE, UNQUOTE)
         == Scan(s, i + |w|, NUL, false, out + w, WHITESPACE, UNQUOTE)
    decreases |w|
  {
    hide Scan, NeedsQuotes;
    if w == [] {
      assert out + w == out;
    } else {
      OccursAt(s, i, w);
      assert w == [w[0]] + w[1..];
      OccursSplit(s, i, [w[0]], w[1..]);
      ScanPlainChar(s, i, out);
      ScanPlain(s, i + 1, w[1..], out + [w[0]]);
      assert out + [w[0]] + w[1..] == out + w;
    }
  }

  lemma ScanEscapedChar(s: seq<Byte>, i: nat, c: Byte, out: seq<Byte>)
    requires Occurs(s, i, BackslashEscapedChar(c, SHELL_NEED_ESCAPE, false))
    ensures Scan(s, i, '"', false, out, WHITESPACE, UNQUOTE)
         == Scan(s, i + |BackslashEscapedChar(c, SHELL_NEED_ESCAPE, false)|, '"', false, out + [c], WHITESPACE, UNQUOTE)
  {
    assert '"' in SHELL_NEED_ESCAPE by { Specials(); }
    var e := BackslashEscapedChar(c, SHELL_NEED_ESCAPE, false);
    OccursAt(s, i, e);
    assert s[i] == s[i + 0] == e[0];
    if |e| == 2 {
      assert s[i + 1] == e[1];
    }
    hide Occurs;
  }

  /** Inside double quotes the escaped text yields the original one. */
  lemma {:induction false} ScanEscaped(s: seq<Byte>, i: nat, w: seq<Byte>, out: seq<Byte>)
    requires Occurs(s, i, BackslashEscaped(w, SHELL_NEED_ESCAPE, false))
    ensures Scan(s, i, '"', false, out, WHITESPACE, UNQUOTE)
         == Scan(s, i + |BackslashEscaped(w, SHELL_NEED_ESCAPE, false)|, '"', false, out + w, WHITESPACE, UNQUOTE)
    decreases |w|
  {
    hide Scan, Occurs, BackslashEscapedChar;
    if w == [] {
      assert out + w == out;
    } else {
      var head := BackslashEscapedChar(w[0], SHELL_NEED_ESCAPE, false);
      var tail := BackslashEscaped(w[1..], SHELL_NEED_ESCAPE, false);
      OccursSplit(s, i, head, tail);
      ScanEscapedChar(s, i, w[0], out);
      ScanEscaped(s, i + |head|, w[1..], out + [w[0]]);
      assert out + [w[0]] + w[1..] == out + w;
    }
  }

  lemma QuoteOpensAndCloses(s: seq<Byte>, i: nat, out: seq<Byte>)
    requires i < |s| && s[i] == '"'
    ensures Scan(s, i, NUL, false, out, WHITESPACE, UNQUOTE) == Scan(s, i + 1, '"', false, out, WHITESPACE, UNQUOTE)
    ensures Scan(s, i, '"', false, out, WHITESPACE, UNQUOTE) == Scan(s, i + 1, NUL, false, out, WHITESPACE, UNQUOTE)
  {}

  lemma QuotesAround(s: seq<Byte>, i: nat, e: seq<Byte>)
    requires Occurs(s, i, "\"" + e + "\"")
    ensures i + |e| + 2 <= |s| && s[i] == '"' && Occurs(s, i + 1, e) && s[i + 1 + |e|] == '"'
  {
    OccursSplit(s, i, "\"" + e, "\"");
    OccursSplit(s, i, "\"", e);
    OccursAt(s, i, "\"");
    OccursAt(s, i + 1 + |e|, "\"");
    assert s[i + 0] == '"' && s[i + 1 + |e| + 0] == '"';
  }

  /** A whole quoted word is read back, whatever follows it. */
  lemma ScanQuotedWord(s: seq<Byte>, i: nat, w: seq<Byte>)
    requires Occurs(s, i, Quote(w)) && i + |Quote(w)| <= |s|
    ensures Scan(s, i, NUL, false, [], WHITESPACE, UNQUOTE)
         == Scan(s, i + |Quote(w)|, NUL, false, w, WHITESPACE, UNQUOTE)
  {
    hide Scan, NeedsQuotes, BackslashEscaped, Occurs;
    assert [] + w == w;
    if forall c | c in w :: !NeedsQuotes(c) {
      ScanPlain(s, i, w, []);
    } else {
      var e := BackslashEscaped(w, SHELL_NEED_ESCAPE, false);
      assert Quote(w) == "\"" + e + "\"";
      hide ShellQuoted;
      QuotesAround(s, i, e);
      QuoteOpensAndCloses(s, i, []);
      ScanEscaped(s, i + 1, w, []);
      QuoteOpensAndCloses(s, i + 1 + |e|, w);
    }
  }

  lemma QuoteIsNotBlank(w: seq<Byte>)
    requires w != []
    ensures Quote(w) != [] && Quote(w)[0] !in WHITESPACE
  {
    Specials();
    if forall c | c in w :: !NeedsQuotes(c) {
      assert w[0] in w;
    }
  }

  /** Leading separators make no difference. */
  lemma SkipBlank(s: seq<Byte>, i: nat)
    requires i < |s| && s[i] in WHITESPACE
    ensures Words(s, Some(i)) == Words(s, Some(i + 1))
  {}

  lemma SkipBlanks(s: seq<Byte>, i: nat)
    requires i <= |s|
    ensures var j := SkipSeparators(s, i, WHITESPACE);
            Words(s, Some(i)) == Words(s, if j == |s| then None else Some(j))
    decreases |s| - i
  {
    if i < |s| && s[i] in WHITESPACE {
      SkipBlank(s, i);
      SkipBlanks(s, i + 1);
    }
  }

  /** After the last character of a word: the word is complete, and the blanks behind it are skipped. */
  lemma WordEnds(s: seq<Byte>, k: nat, w: seq<Byte>)
    requires k <= |s| && (k == |s| || s[k] == ' ')
    ensures Scan(s, k, NUL, false, w, WHITESPACE, UNQUOTE)
         == (var j := SkipSeparators(s, k, WHITESPACE); Word(w, if j == |s| then None else Some(j)))
  {
    assert k < |s| ==> s[k] in WHITESPACE;
  }

  lemma WordBegins(s: seq<Byte>, i: nat)
    requires i < |s| && s[i] !in WHITESPACE
    ensures Extract(s, Some(i), WHITESPACE, UNQUOTE) == Scan(s, i, NUL, false, [], WHITESPACE, UNQUOTE)
  {
    assert SkipSeparators(s, i, WHITESPACE) == i;
    hide Scan;
  }

  lemma OneWord(s: seq<Byte>, i: nat, w: seq<Byte>)
    requires w != [] && Occurs(s, i, Quote(w)) && i + |Quote(w)| <= |s|
    requires i + |Quote(w)| == |s| || s[i + |Quote(w)|] == ' '
    ensures var k := i + |Quote(w)|;
            Words(s, Some(i)) == (var rest := Words(s, Some(k));
                                  if rest.Some? then Some([w] + rest.value) else None)
  {
    hide Scan, Quote, Extract, SkipSeparators;
    QuoteIsNotBlank(w);
    OccursAt(s, i, Quote(w));
    assert s[i] == s[i + 0];
    WordBegins(s, i);
    ScanQuotedWord(s, i, w);
    WordEnds(s, i + |Quote(w)|, w);
    SkipBlanks(s, i + |Quote(w)|);
  }

  lemma AtEnd(s: seq<Byte>)
    ensures Words(s, Some(|s|)) == Some([])
  {}

  lemma LineParts(s: seq<Byte>, i: nat, words: seq<seq<Byte>>)
    requires i <= |s| && s[i..] == Line(words) && words != []
    ensures var k := i + |Quote(words[0])|;
            && k <= |s| && Occurs(s, i, Quote(words[0]))
            && (|words| == 1 ==> k == |s|)
            && (|words| > 1 ==> k < |s| && s[k] == ' ' && s[k + 1..] == Line(words[1..]))
  {
    hide Quote;
    var t := s[i..];
    var q := Quote(words[0]);
    assert s[i..i + |q|] == t[..|q|];
    if |words| > 1 {
      assert s[i + |q|] == t[|q|];
      assert s[i + |q| + 1..] == t[|q| + 1..];
    }
  }

  lemma {:induction false} WordsOfLine(s: seq<Byte>, i: nat, words: seq<seq<Byte>>)
    requires i <= |s| && s[i..] == Line(words)
    ensures Words(s, Some(i)) == Some(NonEmpty(words))
    decreases |words|
  {
    hide Words, Line;
    AtEnd(s);
    if words == [] {
      assert s[i..] == [] by { LineOfNothing(); }
    } else {
      LineParts(s, i, words);
      var k := i + |Quote(words[0])|;
      if |words| > 1 {
        WordsOfLine(s, k + 1, words[1..]);
        SkipBlank(s, k);
      } else {
        assert words[1..] == [];
      }
      assert Words(s, Some(k)) == Some(NonEmpty(words[1..]));
      if words[0] == [] {
        EmptyQuote();
      } else {
        OneWord(s, i, words[0]);
      }
    }
  }

  lemma LineOfNothing()
    ensures Line([]) == []
  {}

  lemma EmptyQuote()
    ensures Quote([]) == []
  {}

  /**
   * Splitting the joined line gives back the non-empty words in order, for every list of words.
   * An empty word is quoted as nothing at all, so it is the one thing that gets lost.
   */
  lemma SplitOfJoinedLine(words: seq<seq<Byte>>)
    ensures Words(Line(words), Some(0)) == Some(NonEmpty(words))
  {
    assert Line(words)[0..] == Line(words);
    WordsOfLine(Line(words), 0, words);
  }

  lemma {:induction false} NonEmptyLength(words: seq<seq<Byte>>)
    ensures |NonEmpty(words)| <= |words|
    ensures NonEmpty(words) == words <==> [] !in words
  {
    if words != [] {
      NonEmptyLength(words[1..]);
      assert words == [words[0]] + words[1..];
    }
  }

  /** Quoting is reversible exactly for the lists without an empty word. */
  lemma RoundTripIffNoEmptyWord(words: seq<seq<Byte>>)
    ensures Words(Line(words), Some(0)) == Some(words) <==> [] !in words
  {
    SplitOfJoinedLine(words);
    NonEmptyLength(words);
  }
}
