/** The parts of the file syntax that the writer does not use: comments, single quotes, blanks, continued lines. */
module EnvFileSyntax {
  import opened Basics
  import opened Escape
  import opened EnvList
  import opened EnvFile
  import opened EnvFileRoundTrip

  // ---------------------------------------------------------------- comments

  /** The rest of a comment line: a backslash takes the next character with it, a newline as well. */
  predicate CommentText(s: CString) {
    || s == []
    || (|s| >= 2 && s[0] == BACKSLASH && CommentText(s[2..]))
    || (s[0] != BACKSLASH && s[0] !in NEWLINE && CommentText(s[1..]))
  }

  lemma {:induction false} ReadsComment(p: Parser, s: CString)
    requires p.state.COMMENT? && CommentText(s)
    ensures Silent(p, s) == Some(p)
    decreases |s|
  {
    if s != [] {
      if s[0] == BACKSLASH {
        var q := p.(state := COMMENT_ESCAPE);
        assert Step(p, s[0]) == (q, None) && Step(q, s[1]) == (p, None);
        assert s[1..][1..] == s[2..] && s[1..][0] == s[1];
        ReadsComment(p, s[2..]);
        assert Silent(q, s[1..]) == Silent(p, s[2..]);
      } else {
        assert Step(p, s[0]) == (p, None);
        ReadsComment(p, s[1..]);
      }
    }
  }

  /** A comment, continued lines included, leaves no trace. */
  lemma CommentsAreIgnored(p: Parser, c: Byte, text: CString, rest: CString)
    requires Fresh(p) && c in COMMENTS && CommentText(text)
    ensures Entries(p, [c] + text + ['\n'] + rest) == Entries(p, rest)
  {
    hide CommentText;
    var q := p.(state := COMMENT);
    assert Step(p, c) == (q, None) && Step(q, '\n') == (p, None);
    ReadsComment(q, text);
    Regroup([c] + text, ['\n'], rest);
    Regroup([c], text, ['\n'] + rest);
    OneStep(p, c, q, text + (['\n'] + rest));
    SilentThen(q, text, ['\n'] + rest);
    OneStep(q, '\n', p, rest);
  }

  lemma OneStep(p: Parser, c: Byte, q: Parser, s: CString)
    requires Step(p, c) == (q, None)
    ensures Entries(p, [c] + s) == Entries(q, s)
  {
    hide Step;
    assert ([c] + s)[1..] == s && ([c] + s)[0] == c;
    assert [] + Entries(q, s) == Entries(q, s);
  }

  // ---------------------------------------------------------------- values

  /** Where the parser stands after a name and its '='. */
  function AtValue(name: CString): Parser {
    Parser(PRE_VALUE, name, None, None, None)
  }

  /** A line is its name and what the parser makes of the rest. */
  lemma ReadsAssignment(p: Parser, name: CString, s: CString)
    requires Fresh(p) && EnvNameIsValid(name)
    ensures Entries(p, name + ['='] + s) == Entries(AtValue(name), s)
  {
    ReadsNameAndEquals(p, name);
    SilentThen(p, name + ['='], s);
  }

  lemma {:induction false} ReadsSingleQuoted(p: Parser, v: CString)
    requires p.state.SINGLE_QUOTE_VALUE? && '\'' !in v
    ensures Silent(p, v) == Some(p.(value := AddAll(p.value, v)))
    decreases |v|
  {
    if v != [] {
      var q := p.(value := Add(p.value, v[0]));
      assert Step(p, v[0]) == (q, None);
      ReadsSingleQuoted(q, v[1..]);
      AddAllTwice(p.value, [v[0]], v[1..]);
      assert [v[0]] + v[1..] == v;
    }
  }

  /** Between single quotes everything stands for itself, newlines and backslashes included. */
  lemma SingleQuotesAreLiteral(p: Parser, name: CString, v: CString, rest: CString)
    requires Fresh(p) && EnvNameIsValid(name) && '\'' !in v
    ensures Entries(p, name + ['='] + (['\''] + (v + (['\''] + (['\n'] + rest)))))
         == [Entry(name, AddAll(None, v))] + Entries(START, rest)
  {
    hide EnvNameIsValid;
    var at := AtValue(name);
    var q := at.(state := SINGLE_QUOTE_VALUE);
    var q1 := q.(value := AddAll(None, v));
    var end := at.(value := AddAll(None, v));
    ReadsAssignment(p, name, ['\''] + (v + (['\''] + (['\n'] + rest))));
    assert Step(at, '\'') == (q, None) && Step(q1, '\'') == (end, None);
    OneStep(at, '\'', q, v + (['\''] + (['\n'] + rest)));
    ReadsSingleQuoted(q, v);
    SilentThen(q, v, ['\''] + (['\n'] + rest));
    OneStep(q1, '\'', end, ['\n'] + rest);
    LineEnds(end, rest);
  }

  /** A bare value of characters that need no quotes. */
  lemma ReadsBare(name: CString, v: CString, s: CString)
    requires v != [] && NulFree(v) && NeedsNoQuotes(v)
    ensures Entries(AtValue(name), v + s) == Entries(AtValue(name).(state := VALUE, value := Some(v)), s)
  {
    hide ForcesQuotes;
    var at := AtValue(name);
    PlainValueChar(v[0]);
    var p := at.(state := VALUE, value := Some([v[0]]));
    assert Step(at, v[0]) == (p, None);
    hide Step, Entries, Silent, NulFree;
    assert [v[0]] + v[1..] == v && NeedsNoQuotes(v[1..]);
    ReadsPlainValue(p, v[1..]);
    OneStep(at, v[0], p, v[1..] + s);
    SilentThen(p, v[1..], s);
    assert v + s == [v[0]] + (v[1..] + s);
  }

  predicate Blank(b: CString) {
    forall i | 0 <= i < |b| :: b[i] == ' ' || b[i] == '\t'
  }

  lemma {:induction false} ReadsBlanks(p: Parser, b: CString)
    requires p.state.VALUE? && p.value.Some? && p.valueBlank.Some?
    requires Blank(b)
    ensures Silent(p, b) == Some(p.(value := Some(p.value.value + b)))
    decreases |b|
  {
    if b == [] {
      assert p.value.value + b == p.value.value;
    } else {
      var q := p.(value := Some(p.value.value + [b[0]]));
      assert Step(p, b[0]) == (q, None);
      ReadsBlanks(q, b[1..]);
      assert p.value.value + [b[0]] + b[1..] == p.value.value + b;
    }
  }

  /** From the end of a bare value v on: the mark is set at |v| and cuts the blanks off. */
  lemma BlanksEnd(name: CString, v: CString, b: CString, rest: CString) returns (q: Parser)
    requires b != [] && Blank(b)
    ensures Fresh(q)
    ensures Entries(AtValue(name).(state := VALUE, value := Some(v)), b + (['\n'] + rest))
         == [Entry(name, Some(v))] + Entries(q, rest)
  {
    var p0 := AtValue(name).(state := VALUE, value := Some(v));
    var p1 := p0.(value := Some(v + [b[0]]), valueBlank := Some(|v|));
    assert Step(p0, b[0]) == (p1, None);
    assert b + (['\n'] + rest) == [b[0]] + (b[1..] + (['\n'] + rest));
    OneStep(p0, b[0], p1, b[1..] + (['\n'] + rest));
    ReadsBlanks(p1, b[1..]);
    SilentThen(p1, b[1..], ['\n'] + rest);
    q := MarkCuts(p1.(value := Some(v + [b[0]] + b[1..])), v, rest);
  }

  lemma MarkCuts(p: Parser, v: CString, rest: CString) returns (q: Parser)
    requires p.state.VALUE? && p.keyBlank.None? && p.valueBlank == Some(|v|)
    requires p.value.Some? && |v| <= |p.value.value| && p.value.value[..|v|] == v
    ensures Fresh(q) && Entries(p, ['\n'] + rest) == [Entry(p.key, Some(v))] + Entries(q, rest)
  {
    q := p.(state := PRE_KEY, key := [], value := None);
    assert Step(p, '\n') == (q, Some(Entry(p.key, Some(v))));
    assert (['\n'] + rest)[1..] == rest;
  }

  /** Blanks after a bare value are dropped. */
  lemma TrailingBlanksAreDropped(p: Parser, name: CString, v: CString, b: CString, rest: CString)
    requires Fresh(p) && EnvNameIsValid(name) && v != [] && NulFree(v) && NeedsNoQuotes(v) && b != [] && Blank(b)
    ensures exists q :: Fresh(q) && Entries(p, name + ['='] + (v + (b + (['\n'] + rest))))
                                 == [Entry(name, Some(v))] + Entries(q, rest)
  {
    hide EnvNameIsValid, ForcesQuotes, Step, Entries;
    ReadsAssignment(p, name, v + (b + (['\n'] + rest)));
    ReadsBare(name, v, b + (['\n'] + rest));
    var q := BlanksEnd(name, v, b, rest);
  }

  /** A backslash before the newline continues a bare value on the next line. */
  lemma LinesContinue(p: Parser, name: CString, v: CString, w: CString, rest: CString)
    requires Fresh(p) && EnvNameIsValid(name) && v != [] && NulFree(v) && NeedsNoQuotes(v)
    requires NulFree(w) && NeedsNoQuotes(w)
    ensures Entries(p, name + ['='] + (v + ([BACKSLASH] + (['\n'] + (w + (['\n'] + rest))))))
         == [Entry(name, Some(v + w))] + Entries(START, rest)
  {
    hide EnvNameIsValid, ForcesQuotes;
    ReadsAssignment(p, name, v + ([BACKSLASH] + (['\n'] + (w + (['\n'] + rest)))));
    ReadsBare(name, v, [BACKSLASH] + (['\n'] + (w + (['\n'] + rest))));
    var p0 := AtValue(name).(state := VALUE, value := Some(v));
    var p1 := p0.(state := VALUE_ESCAPE);
    assert Step(p0, BACKSLASH) == (p1, None) && Step(p1, '\n') == (p0, None);
    OneStep(p0, BACKSLASH, p1, ['\n'] + (w + (['\n'] + rest)));
    OneStep(p1, '\n', p0, w + (['\n'] + rest));
    ReadsPlainValue(p0, w);
    SilentThen(p0, w, ['\n'] + rest);
    LineEnds(p0.(value := Some(v + w)), rest);
  }
}
