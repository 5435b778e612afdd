/** Writing an environment block to a file and loading it again. */
module EnvFileRoundTrip {
  import opened Basics
  import opened Escape
  import opened ShellQuote
  import opened EnvList
  import opened EnvFile
  import Utf8

  // ---------------------------------------------------------------- the printer

  /** A control character, a blank or a shell special makes write_env_var use quotes. */
  predicate ForcesQuotes(c: Byte) {
    (0 < c as int < 32) || c as int == 127 || c in WHITESPACE || c in SHELL_NEED_QUOTES
  }

  predicate NeedsNoQuotes(v: CString) {
    forall i | 0 <= i < |v| :: !ForcesQuotes(v[i])
  }

  function ValueText(v: CString): CString {
    if NeedsNoQuotes(v) then v else ['"'] + BackslashEscaped(v, SHELL_NEED_ESCAPE, false) + ['"']
  }

  /** The line for one entry; an entry without '=' is written as it is. */
  function Line(e: CString): CString {
    if IsAssignment(e) then Name(e) + ['='] + ValueText(Value(e)) + ['\n'] else e + ['\n']
  }

  function FileText(l: seq<CString>): CString {
    if l == [] then [] else Line(l[0]) + FileText(l[1..])
  }

  method WriteEnvVar(f: CString, v: CString) returns (f': CString)
    requires NulFree(v)
    ensures f' == f + Line(v)
  {
    hide ForcesQuotes, BackslashEscapedChar;
    if !IsAssignment(v) {
      Regroup(f, v, ['\n']);
      return f + v + ['\n'];
    }
    var p := NameLength(v) + 1;
    assert v[..p] == Name(v) + ['='];
    var value := v[p..];
    f' := f + v[..p];
    if exists i | 0 <= i < |value| :: ForcesQuotes(value[i]) {
      f' := AppendEscaped(f' + ['"'], value);
      f' := f' + ['"'];
      assert f' == f + v[..p] + ValueText(value);
    } else {
      f' := f' + value;
    }
    Regroup(f, v[..p], ValueText(value));
    Regroup(f, v[..p] + ValueText(value), ['\n']);
    f' := f' + ['\n'];
  }

  method AppendEscaped(f: CString, value: CString) returns (f': CString)
    ensures f' == f + BackslashEscaped(value, SHELL_NEED_ESCAPE, false)
  {
    hide BackslashEscapedChar;
    f' := f;
    var i := 0;
    assert value[0..] == value;
    while i < |value|
      invariant 0 <= i <= |value|
      invariant f' + BackslashEscaped(value[i..], SHELL_NEED_ESCAPE, false) == f + BackslashEscaped(value, SHELL_NEED_ESCAPE, false)
    {
      var e := BackslashEscapedChar(value[i], SHELL_NEED_ESCAPE, false);
      assert value[i..][1..] == value[i + 1..];
      Regroup(f', e, BackslashEscaped(value[i + 1..], SHELL_NEED_ESCAPE, false));
      f' := f' + e;
      i := i + 1;
    }
    assert value[i..] == [] && f' + [] == f';
  }

  /** The text that write_env_file puts into the file. */
  method WriteEnvFile(l: seq<CString>) returns (f: CString)
    requires forall i | 0 <= i < |l| :: NulFree(l[i])
    ensures f == FileText(l)
  {
    hide Line;
    f := [];
    var i := 0;
    assert l[0..] == l;
    while i < |l|
      invariant 0 <= i <= |l|
      invariant f + FileText(l[i..]) == FileText(l)
    {
      assert l[i..][1..] == l[i + 1..];
      Regroup(f, Line(l[i]), FileText(l[i + 1..]));
      f := WriteEnvVar(f, l[i]);
      i := i + 1;
    }
    assert l[i..] == [] && f + [] == f;
  }

  // ---------------------------------------------------------------- what comes back

  const GAINS: CString := "\\`$"

  /** The reader takes the backslash away only in front of a double quote. */
  function GainedChar(c: Byte): CString {
    if c in GAINS then [BACKSLASH, c] else [c]
  }

  function Gained(v: CString): CString {
    if v == [] then [] else GainedChar(v[0]) + Gained(v[1..])
  }

  function GainedEntry(e: CString): CString
    requires IsAssignment(e)
  {
    Name(e) + ['='] + Gained(Value(e))
  }

  function GainedAll(l: seq<CString>): (r: seq<CString>)
    requires AllAssignments(l)
    ensures |r| == |l| && forall i | 0 <= i < |l| :: r[i] == GainedEntry(l[i])
  {
    seq(|l|, i requires 0 <= i < |l| => GainedEntry(l[i]))
  }

  /** A list of settings as it may be put into an environment block. */
  predicate ValidSettings(l: seq<CString>) {
    forall i | 0 <= i < |l| ::
      IsAssignment(l[i]) && EnvNameIsValid(Name(l[i])) && Utf8.IsValid(Value(l[i]))
  }

  /** The state of the parser after a text that completes no entry, or None if it completes one. */
  function Silent(p: Parser, s: CString): Option<Parser>
    decreases |s|
  {
    if s == [] then Some(p)
    else
      var (q, e) := Step(p, s[0]);
      if e.Some? then None else Silent(q, s[1..])
  }

  lemma {:induction false} SilentThen(p: Parser, a: CString, b: CString)
    requires Silent(p, a).Some?
    ensures Entries(p, a + b) == Entries(Silent(p, a).value, b)
    ensures Silent(p, a + b) == Silent(Silent(p, a).value, b)
    decreases |a|
  {
    hide Step;
    if a == [] {
      assert a + b == b;
    } else {
      var (q, _) := Step(p, a[0]);
      assert (a + b)[1..] == a[1..] + b;
      SilentThen(q, a[1..], b);
      assert [] + Entries(q, a[1..] + b) == Entries(q, a[1..] + b);
    }
  }

  lemma NameCharIsPlain(c: Byte)
    requires ValidNameChar(c)
    ensures c !in COMMENTS && c !in WHITESPACE && c !in NEWLINE && c != '=' && c as int < 0x80
  {}

  lemma {:induction false} ReadsName(p: Parser, name: CString)
    requires p.state.KEY? && p.keyBlank.None? && forall i | 0 <= i < |name| :: ValidNameChar(name[i])
    ensures Silent(p, name) == Some(p.(key := p.key + name))
    decreases |name|
  {
    hide ValidNameChar;
    if name == [] {
      assert p.key + name == p.key;
    } else {
      NameCharIsPlain(name[0]);
      ReadsName(p.(key := p.key + [name[0]]), name[1..]);
      assert p.key + [name[0]] + name[1..] == p.key + name;
    }
  }

  predicate Fresh(p: Parser) {
    p.state.PRE_KEY? && p.key == [] && p.value.None?
  }

  /** Name and '=' bring the parser from the start of a line to the value. */
  lemma ReadsNameAndEquals(p: Parser, name: CString)
    requires Fresh(p) && EnvNameIsValid(name)
    ensures Silent(p, name + ['=']) == Some(Parser(PRE_VALUE, name, None, None, None))
  {
    hide ValidNameChar;
    NameCharIsPlain(name[0]);
    var q := p.(state := KEY, keyBlank := None, key := [name[0]]);
    assert p.key + [name[0]] == [name[0]];
    assert Step(p, name[0]) == (q, None);
    ReadsName(q, name[1..]);
    assert name == [name[0]] + name[1..];
    assert (name + ['='])[1..] == name[1..] + ['='];
    SilentThen(q, name[1..], ['=']);
    assert Silent(p, name + ['=']) == Silent(q, name[1..] + ['=']);
    var k := q.(key := [name[0]] + name[1..]);
    assert ['='][1..] == [] && Step(k, '=') == (Parser(PRE_VALUE, name, None, None, None), None);
  }

  lemma PlainValueChar(c: Byte)
    requires c != NUL && !ForcesQuotes(c)
    ensures c !in NEWLINE && c != '\'' && c != '"' && c != BACKSLASH && c !in WHITESPACE
  {
    assert SHELL_NEED_QUOTES[0] == '"' && SHELL_NEED_QUOTES[1] == BACKSLASH && SHELL_NEED_QUOTES[7] == '\'';
  }

  lemma {:induction false} ReadsPlainValue(p: Parser, v: CString)
    requires p.state.VALUE? && p.valueBlank.None? && p.value.Some?
    requires NulFree(v) && NeedsNoQuotes(v)
    ensures Silent(p, v) == Some(p.(value := Some(p.value.value + v)))
    decreases |v|
  {
    hide ForcesQuotes;
    if v == [] {
      assert p.value.value + v == p.value.value;
    } else {
      PlainValueChar(v[0]);
      ReadsPlainValue(p.(value := Some(p.value.value + [v[0]])), v[1..]);
      assert p.value.value + [v[0]] + v[1..] == p.value.value + v;
    }
  }

  function AddAll(value: Option<CString>, v: CString): Option<CString> {
    if v == [] then value else if value.Some? then Some(value.value + v) else Some(v)
  }

  lemma ReadsQuotedChar(p: Parser, c: Byte)
    requires p.state.DOUBLE_QUOTE_VALUE?
    ensures Silent(p, BackslashEscapedChar(c, SHELL_NEED_ESCAPE, false)) == Some(p.(value := AddAll(p.value, GainedChar(c))))
  {
    var e := BackslashEscapedChar(c, SHELL_NEED_ESCAPE, false);
    assert GAINS[0] == BACKSLASH && SHELL_NEED_ESCAPE[0] == '"' && SHELL_NEED_ESCAPE[1] == BACKSLASH;
    if |e| == 2 {
      var q := p.(state := DOUBLE_QUOTE_VALUE_ESCAPE);
      assert e[1..] == [c] && [c][1..] == [] && Step(p, BACKSLASH) == (q, None);
      assert GAINS[1] == '`' && GAINS[2] == '$' && [BACKSLASH] + [c] == [BACKSLASH, c];
      assert c == '"' || c == BACKSLASH || c == '`' || c == '$';
      if c != '"' && p.value.Some? {
        assert p.value.value + [BACKSLASH] + [c] == p.value.value + [BACKSLASH, c];
      }
      var r := p.(value := AddAll(p.value, GainedChar(c)));
      assert Step(q, c) == (r, None);
      SilentNothing(r);
      assert Silent(q, [c]) == Some(r);
    } else {
      assert [c][1..] == [];
    }
  }

  lemma {:induction false} ReadsQuotedValue(p: Parser, v: CString)
    requires p.state.DOUBLE_QUOTE_VALUE?
    ensures Silent(p, BackslashEscaped(v, SHELL_NEED_ESCAPE, false)) == Some(p.(value := AddAll(p.value, Gained(v))))
    decreases |v|
  {
    hide BackslashEscapedChar, GainedChar, Step, Silent;
    if v == [] {
      assert Silent(p, []) == Some(p) by { SilentNothing(p); }
    } else {
      ReadsQuotedChar(p, v[0]);
      var q := p.(value := AddAll(p.value, GainedChar(v[0])));
      ReadsQuotedValue(q, v[1..]);
      SilentThen(p, BackslashEscapedChar(v[0], SHELL_NEED_ESCAPE, false), BackslashEscaped(v[1..], SHELL_NEED_ESCAPE, false));
      AddAllTwice(p.value, GainedChar(v[0]), Gained(v[1..]));
    }
  }

  lemma SilentNothing(p: Parser)
    ensures Silent(p, []) == Some(p)
  {}

  lemma AddAllTwice(value: Option<CString>, a: CString, b: CString)
    ensures AddAll(AddAll(value, a), b) == AddAll(value, a + b)
  {
    if value.Some? {
      Regroup(value.value, a, b);
    }
    assert a + [] == a && [] + b == b;
  }

  /** The value text and the newline complete exactly one entry and leave the parser at the start of a line. */
  lemma ReadsValue(name: CString, v: CString, rest: CString)
    requires NulFree(v)
    ensures var p := Parser(PRE_VALUE, name, None, None, None);
            exists q :: Fresh(q) && Entries(p, ValueText(v) + ['\n'] + rest)
                                 == [Entry(name, AddAll(None, Gained(v)))] + Entries(q, rest)
  {
    var p := Parser(PRE_VALUE, name, None, None, None);
    var q := Parser(PRE_KEY, [], None, None, None);
    if NeedsNoQuotes(v) {
      PlainIsUnchanged(v);
      if v == [] {
        assert ValueText(v) + ['\n'] + rest == ['\n'] + rest;
        LineEnds(p, rest);
      } else {
        PlainValueChar(v[0]);
        var p1 := p.(state := VALUE, value := Some([v[0]]));
        assert Step(p, v[0]) == (p1, None);
        ReadsPlainValue(p1, v[1..]);
        assert [v[0]] + v[1..] == v;
        assert Silent(p, v) == Some(p.(state := VALUE, value := Some(v)));
        Regroup(v, ['\n'], rest);
        SilentThen(p, v, ['\n'] + rest);
        LineEnds(p.(state := VALUE, value := Some(v)), rest);
      }
    } else {
      ReadsQuotes(p, v);
      Regroup(ValueText(v), ['\n'], rest);
      SilentThen(p, ValueText(v), ['\n'] + rest);
      LineEnds(p.(value := AddAll(None, Gained(v))), rest);
    }
    assert Fresh(q);
  }

  lemma LineEnds(p: Parser, rest: CString)
    requires (p.state.VALUE? || p.state.PRE_VALUE?) && p.keyBlank.None? && p.valueBlank.None?
    ensures Entries(p, ['\n'] + rest) == [Entry(p.key, p.value)] + Entries(Parser(PRE_KEY, [], None, None, None), rest)
  {
    assert (['\n'] + rest)[1..] == rest;
  }

  lemma ReadsQuotes(p: Parser, v: CString)
    requires p.state.PRE_VALUE? && !NeedsNoQuotes(v)
    ensures Silent(p, ValueText(v)) == Some(p.(value := AddAll(p.value, Gained(v))))
  {
    hide BackslashEscaped, Gained, ForcesQuotes;
    var q := p.(state := DOUBLE_QUOTE_VALUE);
    ReadsQuotedValue(q, v);
    var t := ValueText(v);
    assert t[1..] == BackslashEscaped(v, SHELL_NEED_ESCAPE, false) + ['"'] && Step(p, '"') == (q, None);
    SilentThen(q, BackslashEscaped(v, SHELL_NEED_ESCAPE, false), ['"']);
    var q1 := q.(value := AddAll(p.value, Gained(v)));
    assert ['"'][1..] == [] && Step(q1, '"') == (q1.(state := PRE_VALUE), None);
  }

  /** A value that is written without quotes has nothing to gain. */
  lemma {:induction false} PlainIsUnchanged(v: CString)
    requires NulFree(v) && NeedsNoQuotes(v)
    ensures Gained(v) == v
  {
    if v != [] {
      assert SHELL_NEED_QUOTES[1] == '\\' && SHELL_NEED_QUOTES[2] == '`' && SHELL_NEED_QUOTES[3] == '$';
      PlainIsUnchanged(v[1..]);
      assert [v[0]] + v[1..] == v;
    }
  }

  function EntryFor(e: CString): Entry
    requires IsAssignment(e)
  {
    Entry(Name(e), AddAll(None, Gained(Value(e))))
  }

  function EntriesFor(l: seq<CString>): seq<Entry>
    requires AllAssignments(l)
  {
    if l == [] then [] else [EntryFor(l[0])] + EntriesFor(l[1..])
  }

  lemma ReadsLine(p: Parser, e: CString, rest: CString) returns (q: Parser)
    requires Fresh(p) && IsAssignment(e) && EnvNameIsValid(Name(e)) && NulFree(e)
    ensures Fresh(q) && Entries(p, Line(e) + rest) == [EntryFor(e)] + Entries(q, rest)
  {
    hide ValueText, Gained, Entries, Silent, ValidNameChar;
    var head := Name(e) + ['='];
    var tail := ValueText(Value(e)) + ['\n'];
    ReadsNameAndEquals(p, Name(e));
    assert Line(e) == head + tail;
    Regroup(head, tail, rest);
    SilentThen(p, head, tail + rest);
    ReadsValue(Name(e), Value(e), rest);
    var start := Parser(PRE_VALUE, Name(e), None, None, None);
    q :| Fresh(q) && Entries(start, tail + rest) == [EntryFor(e)] + Entries(q, rest);
  }

  lemma {:induction false} ReadsFile(p: Parser, l: seq<CString>)
    requires Fresh(p) && ValidSettings(l) && forall i | 0 <= i < |l| :: NulFree(l[i])
    ensures Entries(p, FileText(l)) == EntriesFor(l)
    decreases |l|
  {
    hide Line, EnvNameIsValid, NameLength;
    if l != [] {
      var q := ReadsLine(p, l[0], FileText(l[1..]));
      ReadsFile(q, l[1..]);
    }
  }

  // ---------------------------------------------------------------- the theorem

  /** A backslash in front of an ASCII character does not disturb the encoding. */
  lemma {:induction false} GainedKeepsUtf8(v: CString)
    requires Utf8.IsValid(v)
    ensures Utf8.IsValid(Gained(v))
    decreases |v|
  {
    if v != [] {
      var n := Utf8.ValidUnichar(v);
      GainedKeepsUtf8(v[n..]);
      var g := Gained(v);
      if n == 1 {
        var d := GainedChar(v[0]);
        if |d| == 2 {
          assert g[1..] == [v[0]] + Gained(v[1..]);
          assert g[1..][1..] == Gained(v[1..]);
        } else {
          assert g[1..] == Gained(v[1..]);
        }
      } else {
        HighBytesStay(v, n);
        assert g[..n] == v[..n] && g[n..] == Gained(v[n..]);
        Utf8.ValidUnicharLocal(v, g);
      }
    }
  }

  lemma {:induction false} HighBytesStay(v: CString, n: nat)
    requires n <= |v| && forall i | 0 <= i < n :: v[i] as int >= 0x80
    ensures Gained(v) == v[..n] + Gained(v[n..])
  {
    if n > 0 {
      HighBytesStay(v[1..], n - 1);
      assert v[1..][n - 1..] == v[n..] && [v[0]] + v[1..][..n - 1] == v[..n];
    } else {
      assert v[0..] == v;
    }
  }

  lemma {:induction false} NamesAreUtf8(name: CString)
    requires EnvNameIsValid(name)
    ensures Utf8.IsValid(name) && '=' !in name
  {
    forall i | 0 <= i < |name| ensures name[i] as int < 0x80 && name[i] != '=' {
      NameCharIsPlain(name[i]);
    }
    Utf8.AsciiIsValid(name);
  }

  lemma EntryForIsGained(e: CString)
    requires IsAssignment(e) && EnvNameIsValid(Name(e)) && Utf8.IsValid(Value(e))
    ensures Utf8Entry(EntryFor(e)) && Joined(EntryFor(e)) == GainedEntry(e)
    ensures IsAssignment(GainedEntry(e)) && Name(GainedEntry(e)) == Name(e)
  {
    hide Utf8.IsValid, Gained, EnvNameIsValid, NameLength;
    NamesAreUtf8(Name(e));
    GainedKeepsUtf8(Value(e));
    JoinedIsAssignment(EntryFor(e));
  }

  /** One replacement at the front instead of at the end of the list of replacements. */
  lemma {:induction false} ReplaceAllFront(l: seq<CString>, a: seq<CString>)
    requires a != []
    ensures ReplaceAll(l, a) == ReplaceAll(Replaced(l, a[0]), a[1..])
  {
    hide Replaced;
    var k := |a| - 1;
    if k == 0 {
      assert a[..0] == [] && a[1..] == [];
    } else {
      ReplaceAllFront(l, a[..k]);
      assert a[..k][1..] == a[1..][..k - 1] && a[..k][0] == a[0] && a[1..][k - 1] == a[k];
    }
  }

  lemma {:induction false} LoadsEntries(m: seq<CString>, l: seq<CString>)
    requires ValidSettings(l)
    ensures LoadAll(m, EntriesFor(l)) == Some(ReplaceAll(m, GainedAll(l)))
    decreases |l|
  {
    hide Replaced, Utf8Entry, Joined, EntryFor, GainedEntry, EnvNameIsValid, NameLength, ReplaceAll;
    if l == [] {
      assert GainedAll(l) == [] && ReplaceAll(m, []) == m by { ReplaceNothing(m); }
    } else {
      EntryForIsGained(l[0]);
      LoadsEntries(Replaced(m, GainedEntry(l[0])), l[1..]);
      ReplaceAllFront(m, GainedAll(l));
      assert GainedAll(l)[1..] == GainedAll(l[1..]);
      assert ([EntryFor(l[0])] + EntriesFor(l[1..]))[1..] == EntriesFor(l[1..]);
    }
  }

  lemma ReplaceNothing(m: seq<CString>)
    ensures ReplaceAll(m, []) == m
  {}

  /**
   * Loading what was written gives the settings back in their order, with one backslash more in
   * front of each backslash, backtick and dollar sign of a value. Repeated names are merged by
   * the reader as by repeated strv_env_replace.
   */
  lemma WriteThenLoad(l: seq<CString>)
    requires ValidSettings(l) && forall i | 0 <= i < |l| :: NulFree(l[i])
    ensures LoadAll([], Entries(START, FileText(l))) == Some(ReplaceAll([], GainedAll(l)))
    ensures Unique(Names(l)) ==> LoadAll([], Entries(START, FileText(l))) == Some(GainedAll(l))
  {
    hide LoadAll, Entries, EntriesFor, FileText, EnvNameIsValid, NameLength, Utf8.IsValid, ReplaceAll, GainedEntry;
    ReadsFile(START, l);
    LoadsEntries([], l);
    var g := GainedAll(l);
    forall i | 0 <= i < |l| ensures IsAssignment(g[i]) && Name(g[i]) == Name(l[i]) {
      EntryForIsGained(l[i]);
    }
    assert Names(g) == Names(l);
    ReplaceAllIsUpdate(g);
  }

  lemma {:induction false} GainsNothingIff(v: CString)
    ensures |Gained(v)| >= |v|
    ensures Gained(v) == v <==> forall i | 0 <= i < |v| :: v[i] !in GAINS
  {
    if v != [] {
      GainsNothingIff(v[1..]);
      assert forall i | 1 <= i < |v| :: v[i] == v[1..][i - 1];
      if v[0] in GAINS {
        assert |Gained(v)| > |v|;
      } else {
        assert Gained(v)[1..] == Gained(v[1..]);
        assert v == [v[0]] + v[1..];
      }
    }
  }

  /** Settings with distinct names come back unchanged exactly when no value holds one of the three characters. */
  lemma RoundTripIff(l: seq<CString>)
    requires ValidSettings(l) && Unique(Names(l)) && forall i | 0 <= i < |l| :: NulFree(l[i])
    ensures LoadAll([], Entries(START, FileText(l))) == Some(l)
            <==> forall i | 0 <= i < |l| :: GainsNothing(l[i])
  {
    hide LoadAll, Entries, FileText, EnvNameIsValid, NameLength, Utf8.IsValid, GainedAll, Names, Unique, GainsNothing;
    WriteThenLoad(l);
    AllUnchangedIff(l);
  }

  lemma AllUnchangedIff(l: seq<CString>)
    requires forall i | 0 <= i < |l| :: IsAssignment(l[i])
    ensures GainedAll(l) == l <==> forall i | 0 <= i < |l| :: GainsNothing(l[i])
  {
    hide GainsNothing, GainedEntry, IsAssignment;
    var g := GainedAll(l);
    forall i | 0 <= i < |l| ensures g[i] == l[i] <==> GainsNothing(l[i]) {
      EntryUnchangedIff(l[i]);
    }
    assert g == l <==> forall i | 0 <= i < |l| :: g[i] == l[i];
  }

  /** No backslash, backtick or dollar sign in the value. */
  predicate GainsNothing(e: CString)
    requires IsAssignment(e)
  {
    forall j | 0 <= j < |Value(e)| :: Value(e)[j] !in GAINS
  }

  lemma EntryUnchangedIff(e: CString)
    requires IsAssignment(e)
    ensures GainedEntry(e) == e <==> GainsNothing(e)
  {
    hide Gained, NameLength;
    var v := Value(e);
    var n := |Name(e)| + 1;
    GainsNothingIff(v);
    assert e == Name(e) + ['='] + v;
    assert GainedEntry(e)[n..] == Gained(v) && e[n..] == v;
  }
}
