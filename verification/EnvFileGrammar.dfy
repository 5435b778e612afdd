/** The syntax of environment files as a grammar: what each line is made of, how it is written and what it means. */
module EnvFileGrammar {
  import opened Basics
  import opened Escape
  import opened EnvList
  import opened EnvFile
  import opened EnvFileRoundTrip
  import opened EnvFileSyntax
  import Utf8

  /** A character as it is, or behind a backslash. */
  datatype Item = Literal(c: Byte) | Slashed(c: Byte)

  /** A quoted part of a value. */
  datatype Part = Single(text: CString) | Double(items: seq<Item>)

  /** Quoted parts with blanks before each, blanks, and possibly a bare rest of the line. */
  datatype Value = Value(parts: seq<(CString, Part)>, gap: CString, bare: seq<Item>)

  datatype Line =
    | Assign(lead: CString, key: CString, pad: CString, value: Value, end: Byte)
    | Comment(lead: CString, mark: Byte, text: CString, end: Byte)
    | Junk(lead: CString, key: CString, end: Byte)

  // ---------------------------------------------------------------- how it is written

  function ItemText(i: Item): CString {
    if i.Literal? then [i.c] else [BACKSLASH, i.c]
  }

  function ItemsText(items: seq<Item>): CString {
    if items == [] then [] else ItemsText(items[..|items| - 1]) + ItemText(items[|items| - 1])
  }

  /** A part without its closing quote. */
  function OpenText(part: Part): CString {
    if part.Single? then ['\''] + part.text else ['"'] + ItemsText(part.items)
  }

  function Closing(part: Part): Byte {
    if part.Single? then '\'' else '"'
  }

  function PartsText(parts: seq<(CString, Part)>): CString {
    if parts == [] then []
    else parts[0].0 + OpenText(parts[0].1) + [Closing(parts[0].1)] + PartsText(parts[1..])
  }

  function ValueWritten(v: Value): CString {
    PartsText(v.parts) + v.gap + ItemsText(v.bare)
  }

  function LineText(l: Line): CString {
    match l
    case Assign(lead, key, pad, value, end) => lead + key + pad + ['='] + ValueWritten(value) + [end]
    case Comment(lead, mark, text, end) => lead + [mark] + text + [end]
    case Junk(lead, key, end) => lead + key + [end]
  }

  // ---------------------------------------------------------------- what may be written

  predicate Spaces(s: CString) {
    forall i | 0 <= i < |s| :: s[i] in WHITESPACE
  }

  predicate IsBlank(c: Byte) {
    c == ' ' || c == '\t'
  }

  /** What a key may look like: anything up to '=' that begins no comment and has no blanks around it. */
  predicate IsKey(k: CString) {
    && k != [] && k[0] !in COMMENTS && k[0] !in WHITESPACE && k[|k| - 1] !in WHITESPACE
    && forall i | 0 <= i < |k| :: k[i] != '=' && k[i] !in NEWLINE
  }

  predicate PartOK(part: Part) {
    match part
    case Single(text) => '\'' !in text
    case Double(items) => forall i | 0 <= i < |items| && items[i].Literal? :: items[i].c != '"' && items[i].c != BACKSLASH
  }

  predicate BareOK(items: seq<Item>) {
    && (forall i | 0 <= i < |items| && items[i].Literal? :: items[i].c !in NEWLINE && items[i].c != BACKSLASH)
    && (items != [] && items[0].Literal? ==> items[0].c !in WHITESPACE && items[0].c != '\'' && items[0].c != '"')
  }

  predicate PartsOK(parts: seq<(CString, Part)>) {
    forall i | 0 <= i < |parts| :: Blank(parts[i].0) && PartOK(parts[i].1)
  }

  predicate ValueOK(v: Value) {
    PartsOK(v.parts) && Blank(v.gap) && BareOK(v.bare)
  }

  predicate LineOK(l: Line) {
    match l
    case Assign(lead, key, pad, value, end) => Spaces(lead) && IsKey(key) && Blank(pad) && ValueOK(value) && end in NEWLINE
    case Comment(lead, mark, text, end) => Spaces(lead) && mark in COMMENTS && CommentText(text) && end in NEWLINE
    case Junk(lead, key, end) => Spaces(lead) && IsKey(key) && end in NEWLINE
  }

  // ---------------------------------------------------------------- what it means

  /** In double quotes a backslash escapes only a quote and a newline. */
  function DoubleMeans(i: Item): CString {
    if i.Literal? then [i.c]
    else if i.c == '"' then ['"']
    else if i.c in NEWLINE then []
    else [BACKSLASH, i.c]
  }

  function DoubleText(items: seq<Item>): CString {
    if items == [] then [] else DoubleText(items[..|items| - 1]) + DoubleMeans(items[|items| - 1])
  }

  /** In a bare value it escapes everything and hides a newline. */
  function BareMeans(i: Item): CString {
    if i.Slashed? && i.c in NEWLINE then [] else [i.c]
  }

  function BareText(items: seq<Item>): CString {
    if items == [] then [] else BareText(items[..|items| - 1]) + BareMeans(items[|items| - 1])
  }

  /** Without the unescaped blanks at the end. */
  function Trimmed(items: seq<Item>): seq<Item> {
    if items != [] && items[|items| - 1].Literal? && IsBlank(items[|items| - 1].c)
    then Trimmed(items[..|items| - 1]) else items
  }

  function PartMeans(part: Part): CString {
    if part.Single? then part.text else DoubleText(part.items)
  }

  function PartsMean(parts: seq<(CString, Part)>): CString {
    if parts == [] then [] else PartMeans(parts[0].1) + PartsMean(parts[1..])
  }

  function ValueMeans(v: Value): CString {
    PartsMean(v.parts) + BareText(Trimmed(v.bare))
  }

  /** Value text of an entry; a missing value is an empty one. */
  function EntryText(e: Entry): CString {
    if e.value.Some? then e.value.value else []
  }

  // ---------------------------------------------------------------- reading keys

  lemma {:induction false} SkipsSpaces(p: Parser, s: CString)
    requires p.state.PRE_KEY? && Spaces(s)
    ensures Silent(p, s) == Some(p)
    decreases |s|
  {
    if s != [] {
      CommentsAreNoSpaces(s[0]);
      assert Step(p, s[0]) == (p, None);
      SkipsSpaces(p, s[1..]);
    }
  }

  lemma CommentsAreNoSpaces(c: Byte)
    ensures c in WHITESPACE ==> c !in COMMENTS && c != '='
    ensures c in NEWLINE ==> c in WHITESPACE
  {}

  lemma {:induction false} ReadsKeyText(p: Parser, k: CString)
    requires p.state.KEY? && k != [] && forall i | 0 <= i < |k| :: k[i] != '=' && k[i] !in NEWLINE
    ensures Silent(p, k).Some?
    ensures var q := Silent(p, k).value;
            q == p.(key := p.key + k, keyBlank := q.keyBlank) && (k[|k| - 1] !in WHITESPACE ==> q.keyBlank.None?)
    decreases |k|
  {
    var init, c := k[..|k| - 1], k[|k| - 1];
    assert k == init + [c];
    var q0 := p;
    if init != [] {
      ReadsKeyText(p, init);
      q0 := Silent(p, init).value;
    } else {
      SilentNothing(p);
      assert p.key + init == p.key;
    }
    SilentThen(p, init, [c]);
    SilentOne(q0, c);
    assert q0.key + [c] == p.key + k;
  }

  lemma SilentOne(p: Parser, c: Byte)
    requires Step(p, c).1.None?
    ensures Silent(p, [c]) == Some(Step(p, c).0)
  {
    hide Step;
    assert [c][1..] == [];
    SilentNothing(Step(p, c).0);
  }

  lemma {:induction false} ReadsKeyBlanks(p: Parser, b: CString)
    requires p.state.KEY? && p.keyBlank.Some? && Blank(b)
    ensures Silent(p, b) == Some(p.(key := p.key + b))
    decreases |b|
  {
    if b == [] {
      assert p.key + b == p.key;
    } else {
      BlankIsSpace(b[0]);
      var q := p.(key := p.key + [b[0]]);
      assert Step(p, b[0]) == (q, None);
      ReadsKeyBlanks(q, b[1..]);
      assert p.key + [b[0]] + b[1..] == p.key + b;
    }
  }

  lemma BlankIsSpace(c: Byte)
    ensures IsBlank(c) <==> c in WHITESPACE && c !in NEWLINE
    ensures IsBlank(c) ==> c != '\'' && c != '"' && c != BACKSLASH && c != '='
  {}

  /** From the start of a line to behind the key and the blanks after it. */
  lemma ReadsKey(p: Parser, k: CString, pad: CString) returns (q: Parser)
    requires Fresh(p) && IsKey(k) && Blank(pad)
    ensures Silent(p, k + pad) == Some(q) && q.state.KEY? && q.key == k + pad && q.value.None?
    ensures if pad == [] then q.keyBlank.None? else q.keyBlank == Some(|k|)
  {
    var p1 := p.(state := KEY, keyBlank := None, key := [k[0]]);
    assert p.key + [k[0]] == [k[0]];
    assert Step(p, k[0]) == (p1, None);
    var p2 := p1;
    if |k| > 1 {
      ReadsKeyText(p1, k[1..]);
      p2 := Silent(p1, k[1..]).value;
    } else {
      assert k[1..] == [];
      SilentNothing(p1);
    }
    assert [k[0]] + k[1..] == k;
    assert Silent(p, k) == Some(p2) && p2.key == k && p2.keyBlank.None?;
    q := p2;
    if pad == [] {
      assert k + pad == k;
    } else {
      BlankIsSpace(pad[0]);
      var p3 := p2.(key := k + [pad[0]], keyBlank := Some(|k|));
      assert Step(p2, pad[0]) == (p3, None);
      ReadsKeyBlanks(p3, pad[1..]);
      assert k + [pad[0]] + pad[1..] == k + pad;
      q := p3.(key := k + pad);
      assert pad == [pad[0]] + pad[1..];
      assert Silent(p2, pad) == Some(q);
      SilentThen(p, k, pad);
    }
  }

  // ---------------------------------------------------------------- reading quoted parts

  lemma {:induction false} ReadsDouble(p: Parser, items: seq<Item>)
    requires p.state.DOUBLE_QUOTE_VALUE? && PartOK(Double(items))
    ensures Silent(p, ItemsText(items)) == Some(p.(value := AddAll(p.value, DoubleText(items))))
    decreases |items|
  {
    hide Step;
    if items == [] {
      SilentNothing(p);
    } else {
      var init, last := items[..|items| - 1], items[|items| - 1];
      ReadsDouble(p, init);
      var q := p.(value := AddAll(p.value, DoubleText(init)));
      SilentThen(p, ItemsText(init), ItemText(last));
      ReadsDoubleItem(q, last);
      AddAllTwice(p.value, DoubleText(init), DoubleMeans(last));
    }
  }

  lemma ReadsDoubleItem(p: Parser, i: Item)
    requires p.state.DOUBLE_QUOTE_VALUE? && (i.Literal? ==> i.c != '"' && i.c != BACKSLASH)
    ensures Silent(p, ItemText(i)) == Some(p.(value := AddAll(p.value, DoubleMeans(i))))
  {
    if i.Literal? {
      SilentOne(p, i.c);
    } else {
      var q := p.(state := DOUBLE_QUOTE_VALUE_ESCAPE);
      assert Step(p, BACKSLASH) == (q, None);
      SilentOne(q, i.c);
      assert [BACKSLASH, i.c][1..] == [i.c] && [BACKSLASH] + [i.c] == [BACKSLASH, i.c];
      if p.value.Some? {
        assert p.value.value + [BACKSLASH] + [i.c] == p.value.value + [BACKSLASH, i.c];
      }
      assert Silent(p, [BACKSLASH, i.c]) == Silent(q, [i.c]);
    }
  }

  /** A part up to its closing quote. */
  lemma ReadsOpenPart(p: Parser, part: Part) returns (q: Parser)
    requires p.state.PRE_VALUE? && PartOK(part)
    ensures Silent(p, OpenText(part)) == Some(q) && q == p.(state := q.state, value := AddAll(p.value, PartMeans(part)))
    ensures q.state == if part.Single? then SINGLE_QUOTE_VALUE else DOUBLE_QUOTE_VALUE
  {
    if part.Single? {
      var p1 := p.(state := SINGLE_QUOTE_VALUE);
      assert Step(p, '\'') == (p1, None);
      ReadsSingleQuoted(p1, part.text);
      q := p1.(value := AddAll(p.value, part.text));
      assert OpenText(part)[1..] == part.text;
    } else {
      var p1 := p.(state := DOUBLE_QUOTE_VALUE);
      assert Step(p, '"') == (p1, None);
      ReadsDouble(p1, part.items);
      q := p1.(value := AddAll(p.value, DoubleText(part.items)));
      assert OpenText(part)[1..] == ItemsText(part.items);
    }
  }

  lemma {:induction false} SkipsBlanks(p: Parser, b: CString)
    requires p.state.PRE_VALUE? && Blank(b)
    ensures Silent(p, b) == Some(p)
    decreases |b|
  {
    if b != [] {
      BlankIsSpace(b[0]);
      assert Step(p, b[0]) == (p, None);
      SkipsBlanks(p, b[1..]);
    }
  }

  /** Blanks and a whole part. */
  lemma ReadsPart(p: Parser, b: CString, part: Part)
    requires p.state.PRE_VALUE? && Blank(b) && PartOK(part)
    ensures Silent(p, b + OpenText(part) + [Closing(part)]) == Some(p.(value := AddAll(p.value, PartMeans(part))))
  {
    SkipsBlanks(p, b);
    var q := ReadsOpenPart(p, part);
    var end := q.(state := PRE_VALUE);
    assert Step(q, Closing(part)) == (end, None);
    hide Step, Silent, PartOK, OpenText;
    SilentOne(q, Closing(part));
    SilentThen(p, OpenText(part), [Closing(part)]);
    SilentThen(p, b, OpenText(part) + [Closing(part)]);
    Regroup(b, OpenText(part), [Closing(part)]);
  }

  lemma {:induction false} ReadsParts(p: Parser, parts: seq<(CString, Part)>)
    requires p.state.PRE_VALUE? && PartsOK(parts)
    ensures Silent(p, PartsText(parts)) == Some(p.(value := AddAll(p.value, PartsMean(parts))))
    decreases |parts|
  {
    hide Silent, PartOK, OpenText, PartMeans, Blank;
    if parts == [] {
      SilentNothing(p);
    } else {
      var (b, part) := parts[0];
      ReadsPart(p, b, part);
      var head := b + OpenText(part) + [Closing(part)];
      var q := p.(value := AddAll(p.value, PartMeans(part)));
      assert forall i | 0 <= i < |parts[1..]| :: parts[1..][i] == parts[i + 1];
      ReadsParts(q, parts[1..]);
      SilentThen(p, head, PartsText(parts[1..]));
      AddAllTwice(p.value, PartMeans(part), PartsMean(parts[1..]));
    }
  }

  // ---------------------------------------------------------------- reading a bare value

  /** Where the mark stands behind the items, in a value that had n characters before them. */
  function BareMark(items: seq<Item>, n: nat): Option<nat> {
    if items == [] then None
    else
      var init, last := items[..|items| - 1], items[|items| - 1];
      if !(last.Literal? && IsBlank(last.c)) then None
      else if BareMark(init, n).None? then Some(n + |BareText(init)|)
      else BareMark(init, n)
  }

  function Length(v: Option<CString>): nat {
    if v.Some? then |v.value| else 0
  }

  lemma {:induction false} ReadsBareItems(p: Parser, items: seq<Item>)
    requires p.state.PRE_VALUE? && p.valueBlank.None? && items != [] && BareOK(items)
    ensures Silent(p, ItemsText(items))
         == Some(p.(state := VALUE, value := AddAll(p.value, BareText(items)), valueBlank := BareMark(items, Length(p.value))))
    decreases |items|
  {
    hide Step, Silent;
    var init, last := items[..|items| - 1], items[|items| - 1];
    if init == [] {
      FirstBareItem(p, last);
      OnlyItem(items);
    } else {
      assert init[0] == items[0];
      ReadsBareItems(p, init);
      var q := p.(state := VALUE, value := AddAll(p.value, BareText(init)), valueBlank := BareMark(init, Length(p.value)));
      SilentThen(p, ItemsText(init), ItemText(last));
      NextBareItem(q, last);
      AddAllTwice(p.value, BareText(init), BareMeans(last));
      AddedLength(p.value, BareText(init));
    }
  }

  lemma OnlyItem(items: seq<Item>)
    requires |items| == 1
    ensures BareText(items) == BareMeans(items[0]) && ItemsText(items) == ItemText(items[0])
  {
    assert items[..0] == [];
    assert BareText([]) + BareMeans(items[0]) == BareMeans(items[0]);
    assert ItemsText([]) + ItemText(items[0]) == ItemText(items[0]);
  }

  lemma AddedLength(v: Option<CString>, t: CString)
    ensures Length(AddAll(v, t)) == Length(v) + |t|
  {}

  lemma FirstBareItem(p: Parser, i: Item)
    requires p.state.PRE_VALUE? && p.valueBlank.None? && BareOK([i])
    ensures Silent(p, ItemText(i)) == Some(p.(state := VALUE, value := AddAll(p.value, BareMeans(i))))
    ensures i.Literal? ==> !IsBlank(i.c)
  {
    assert [i][0] == i;
    BlankIsSpace(i.c);
    CommentsAreNoSpaces(i.c);
    if i.Literal? {
      assert i.c !in NEWLINE && i.c != BACKSLASH;
      SilentOne(p, i.c);
    } else {
      var q := p.(state := VALUE_ESCAPE);
      assert Step(p, BACKSLASH) == (q, None);
      SilentOne(q, i.c);
      assert [BACKSLASH, i.c][1..] == [i.c];
      assert Silent(p, [BACKSLASH, i.c]) == Silent(q, [i.c]);
    }
  }

  lemma NextBareItem(p: Parser, i: Item)
    requires p.state.VALUE? && (i.Literal? ==> i.c !in NEWLINE && i.c != BACKSLASH)
    ensures var mark := if !(i.Literal? && IsBlank(i.c)) then None
                        else if p.valueBlank.None? then Some(Length(p.value)) else p.valueBlank;
            Silent(p, ItemText(i)) == Some(p.(value := AddAll(p.value, BareMeans(i)), valueBlank := mark))
  {
    BlankIsSpace(i.c);
    if i.Literal? {
      SilentOne(p, i.c);
    } else {
      var q := p.(state := VALUE_ESCAPE, valueBlank := None);
      assert Step(p, BACKSLASH) == (q, None);
      SilentOne(q, i.c);
      assert [BACKSLASH, i.c][1..] == [i.c];
      assert Silent(p, [BACKSLASH, i.c]) == Silent(q, [i.c]);
    }
  }

  /** Cutting the value at the mark is leaving out the blanks at the end. */
  lemma {:induction false} MarkIsTrim(items: seq<Item>, before: CString)
    ensures Chomp(before + BareText(items), BareMark(items, |before|)) == before + BareText(Trimmed(items))
    ensures BareMark(items, |before|).Some? ==> BareMark(items, |before|).value <= |before| + |BareText(items)|
    ensures BareMark(items, |before|).None? ==> Trimmed(items) == items
    decreases |items|
  {
    if items != [] {
      var init, last := items[..|items| - 1], items[|items| - 1];
      MarkIsTrim(init, before);
      if last.Literal? && IsBlank(last.c) {
        Regroup(before, BareText(init), BareMeans(last));
        CutAgrees(before + BareText(init), BareMeans(last), BareMark(init, |before|));
      }
    }
  }

  lemma CutAgrees(a: CString, b: CString, mark: Option<nat>)
    requires mark.Some? ==> mark.value <= |a|
    ensures Chomp(a + b, if mark.None? then Some(|a|) else mark) == Chomp(a, mark)
  {}

  // ---------------------------------------------------------------- whole lines

  /** Behind the '=' of an assignment. */
  predicate AtTheValue(p: Parser, key: CString) {
    p.state.PRE_VALUE? && p.value.None? && p.valueBlank.None? && p.key != [] && Chomp(p.key, p.keyBlank) == key
  }

  lemma ReadsToTheValue(p: Parser, lead: CString, key: CString, pad: CString) returns (q: Parser)
    requires Fresh(p) && Spaces(lead) && IsKey(key) && Blank(pad)
    ensures Silent(p, lead + key + pad + ['=']) == Some(q) && AtTheValue(q, key)
  {
    SkipsSpaces(p, lead);
    var k := ReadsKey(p, key, pad);
    q := k.(state := PRE_VALUE, valueBlank := None);
    assert Step(k, '=') == (q, None) by { EqualsIsNoNewline(); }
    hide Step, Silent, IsKey;
    SilentOne(k, '=');
    SilentThen(p, key + pad, ['=']);
    SilentThen(p, lead, key + pad + ['=']);
    assert lead + key + pad + ['='] == lead + (key + pad + ['=']);
    assert (key + pad)[..|key|] == key;
  }

  lemma EqualsIsNoNewline()
    ensures '=' !in NEWLINE
  {}

  /** The parser at the end of the value: either nothing bare was there, or the mark tells what to cut. */
  lemma ReadsWholeValue(p: Parser, key: CString, v: Value) returns (q: Parser)
    requires AtTheValue(p, key) && ValueOK(v)
    ensures Silent(p, ValueWritten(v)) == Some(q) && (q.state.PRE_VALUE? || q.state.VALUE?)
    ensures Chomp(q.key, q.keyBlank) == key
    ensures EntryText(Complete(q).1.value) == ValueMeans(v)
  {
    hide Step, Silent, PartsOK, BareOK, Blank;
    ReadsParts(p, v.parts);
    var p1 := p.(value := AddAll(None, PartsMean(v.parts)));
    SkipsBlanks(p1, v.gap);
    SilentThen(p, PartsText(v.parts), v.gap);
    q := p1;
    MarkIsTrim(v.bare, PartsMean(v.parts));
    if v.bare == [] {
      assert ValueWritten(v) == PartsText(v.parts) + v.gap;
      assert ValueMeans(v) == PartsMean(v.parts);
    } else {
      ReadsBareItems(p1, v.bare);
      q := Silent(p1, ItemsText(v.bare)).value;
      SilentThen(p, PartsText(v.parts) + v.gap, ItemsText(v.bare));
      AddAllTwice(None, PartsMean(v.parts), BareText(v.bare));
      AddedLength(None, PartsMean(v.parts));
      CompletesTo(q, PartsMean(v.parts) + BareText(v.bare), BareMark(v.bare, |PartsMean(v.parts)|));
    }
  }

  lemma CompletesTo(q: Parser, text: CString, mark: Option<nat>)
    requires q.state.VALUE? && q.value == AddAll(None, text) && q.valueBlank == mark
    requires mark.Some? ==> mark.value <= |text|
    ensures EntryText(Complete(q).1.value) == Chomp(text, mark)
  {}

  /** A line of the file that is an assignment gives exactly its entry. */
  lemma AssignmentMeans(p: Parser, l: Line, rest: CString) returns (e: Entry, q: Parser)
    requires Fresh(p) && l.Assign? && LineOK(l)
    ensures Fresh(q) && Entries(p, LineText(l) + rest) == [e] + Entries(q, rest)
    ensures e.key == l.key && EntryText(e) == ValueMeans(l.value)
  {
    hide Silent, ValueOK, IsKey, Blank, Spaces;
    var head, v := l.lead + l.key + l.pad + ['='], ValueWritten(l.value);
    var p1 := ReadsToTheValue(p, l.lead, l.key, l.pad);
    var p2 := ReadsWholeValue(p1, l.key, l.value);
    SilentThen(p, head, v);
    q, e := Complete(p2).0, Complete(p2).1.value;
    assert Step(p2, l.end) == (q, Some(e));
    assert LineText(l) + rest == (head + v) + ([l.end] + rest);
    SilentThen(p, head + v, [l.end] + rest);
    assert ([l.end] + rest)[1..] == rest;
    hide Step;
  }

  /** So does the last line of a file that ends without a newline. */
  lemma LastAssignmentMeans(p: Parser, l: Line) returns (e: Entry)
    requires Fresh(p) && l.Assign? && LineOK(l)
    ensures Entries(p, l.lead + l.key + l.pad + ['='] + ValueWritten(l.value)) == [e]
    ensures e.key == l.key && EntryText(e) == ValueMeans(l.value)
  {
    hide Silent, ValueOK, IsKey, Blank, Spaces;
    var head, v := l.lead + l.key + l.pad + ['='], ValueWritten(l.value);
    var p1 := ReadsToTheValue(p, l.lead, l.key, l.pad);
    var p2 := ReadsWholeValue(p1, l.key, l.value);
    SilentThen(p, head, v);
    e := Complete(p2).1.value;
    SilentThen(p, head + v, []);
    assert head + v + [] == head + v;
  }

  /** A line without '=' is dropped, at the end of the file too. */
  lemma JunkIsDropped(p: Parser, lead: CString, key: CString, end: Byte, rest: CString) returns (q: Parser)
    requires Fresh(p) && Spaces(lead) && IsKey(key) && end in NEWLINE
    ensures Fresh(q) && Entries(p, lead + key + [end] + rest) == Entries(q, rest) && Entries(p, lead + key) == []
  {
    SkipsSpaces(p, lead);
    var k := ReadsKey(p, key, []);
    assert key + [] == key;
    SilentThen(p, lead, key);
    q := k.(state := PRE_KEY, key := []);
    assert Step(k, end) == (q, None);
    SilentThen(p, lead + key, []);
    assert lead + key + [] == lead + key;
    hide Step, Silent;
    OneStep(k, end, q, rest);
    SilentThen(p, lead + key, [end] + rest);
    Regroup(lead + key, [end], rest);
  }

  lemma CommentIsDropped(p: Parser, lead: CString, mark: Byte, text: CString, end: Byte, rest: CString)
    requires Fresh(p) && Spaces(lead) && mark in COMMENTS && CommentText(text) && end in NEWLINE
    ensures Entries(p, lead + [mark] + text + [end] + rest) == Entries(p, rest) && Entries(p, lead + [mark] + text) == []
  {
    SkipsSpaces(p, lead);
    var c := p.(state := COMMENT);
    assert Step(p, mark) == (c, None) && Step(c, end) == (p, None) by { assert NEWLINE[0] == '\n' && NEWLINE[1] == '\r'; }
    ReadsComment(c, text);
    hide Step, CommentText;
    SilentOne(p, mark);
    SilentThen(p, [mark], text);
    SilentThen(p, lead, [mark] + text);
    Regroup(lead, [mark], text);
    var s := lead + [mark] + text;
    SilentThen(p, s, []);
    assert s + [] == s;
    OneStep(c, end, p, rest);
    SilentThen(p, s, [end] + rest);
    Regroup(s, [end], rest);
  }

  // ---------------------------------------------------------------- whole files

  function FileWritten(lines: seq<Line>): CString {
    if lines == [] then [] else LineText(lines[0]) + FileWritten(lines[1..])
  }

  /** The assignments of the file: key and value text. */
  function FileMeans(lines: seq<Line>): seq<(CString, CString)> {
    if lines == [] then []
    else (if lines[0].Assign? then [(lines[0].key, ValueMeans(lines[0].value))] else []) + FileMeans(lines[1..])
  }

  function Pairs(es: seq<Entry>): seq<(CString, CString)> {
    if es == [] then [] else [(es[0].key, EntryText(es[0]))] + Pairs(es[1..])
  }

  /** Every file of this syntax is read as what it means. */
  lemma {:induction false} FileIsRead(p: Parser, lines: seq<Line>)
    requires Fresh(p) && forall i | 0 <= i < |lines| :: LineOK(lines[i])
    ensures Pairs(Entries(p, FileWritten(lines))) == FileMeans(lines)
    decreases |lines|
  {
    hide LineOK, LineText, ValueMeans, Entries;
    if lines == [] {
      assert Entries(p, []) == [] by { NothingThere(p); }
    } else {
      var l, rest := lines[0], FileWritten(lines[1..]);
      assert forall i | 0 <= i < |lines[1..]| :: lines[1..][i] == lines[i + 1];
      if l.Assign? {
        var e, q := AssignmentMeans(p, l, rest);
        FileIsRead(q, lines[1..]);
        assert ([e] + Entries(q, rest))[1..] == Entries(q, rest);
      } else {
        var q := OtherLine(p, l, rest);
        FileIsRead(q, lines[1..]);
        assert [] + FileMeans(lines[1..]) == FileMeans(lines[1..]);
      }
    }
  }

  lemma NothingThere(p: Parser)
    requires Fresh(p)
    ensures Entries(p, []) == []
  {}

  lemma OtherLine(p: Parser, l: Line, rest: CString) returns (q: Parser)
    requires Fresh(p) && LineOK(l) && !l.Assign?
    ensures Fresh(q) && Entries(p, LineText(l) + rest) == Entries(q, rest)
  {
    hide Entries, IsKey, Spaces, CommentText;
    if l.Junk? {
      q := JunkIsDropped(p, l.lead, l.key, l.end, rest);
    } else {
      q := p;
      CommentIsDropped(p, l.lead, l.mark, l.text, l.end, rest);
    }
  }

  /** Loading pairs of key and value one after the other; None for text that is not UTF-8. */
  function LoadPairs(l: seq<CString>, ps: seq<(CString, CString)>): Option<seq<CString>>
    decreases |ps|
  {
    if ps == [] then Some(l)
    else if !Utf8.IsValid(ps[0].0) || !Utf8.IsValid(ps[0].1) then None
    else LoadPairs(Replaced(l, ps[0].0 + ['='] + ps[0].1), ps[1..])
  }

  lemma {:induction false} LoadsPairs(l: seq<CString>, es: seq<Entry>)
    ensures LoadAll(l, es) == LoadPairs(l, Pairs(es))
    decreases |es|
  {
    hide Replaced, Utf8.ValidUnichar;
    if es != [] {
      assert Pairs(es)[1..] == Pairs(es[1..]);
      assert Joined(es[0]) == es[0].key + ['='] + EntryText(es[0]);
      LoadsPairs(Replaced(l, Joined(es[0])), es[1..]);
    }
  }

  /** Loading such a file sets its assignments in order. */
  lemma FileIsLoaded(lines: seq<Line>)
    requires forall i | 0 <= i < |lines| :: LineOK(lines[i])
    ensures LoadAll([], Entries(START, FileWritten(lines))) == LoadPairs([], FileMeans(lines))
  {
    FileIsRead(START, lines);
    LoadsPairs([], Entries(START, FileWritten(lines)));
  }

  // ---------------------------------------------------------------- the end of the file

  /** The parser behind a text, whatever entries it completed. */
  function Behind(p: Parser, s: CString): Parser
    decreases |s|
  {
    if s == [] then p else Behind(Step(p, s[0]).0, s[1..])
  }

  /** At the end of a value a missing newline makes no difference. */
  lemma {:induction false} EndIsNewline(p: Parser, s: CString)
    requires Behind(p, s).state.PRE_VALUE? || Behind(p, s).state.VALUE?
    ensures Entries(p, s) == Entries(p, s + ['\n'])
    decreases |s|
  {
    if s == [] {
      assert s + ['\n'] == ['\n'] && ['\n'][1..] == [];
    } else {
      hide Step;
      EndIsNewline(Step(p, s[0]).0, s[1..]);
      assert (s + ['\n'])[1..] == s[1..] + ['\n'];
    }
  }

  /** A quote that is never closed: what was read of it is the end of the value. */
  lemma CutOffInQuotes(p: Parser, lead: CString, key: CString, pad: CString, parts: seq<(CString, Part)>, gap: CString, part: Part)
    returns (e: Entry)
    requires Fresh(p) && Spaces(lead) && IsKey(key) && Blank(pad) && PartsOK(parts) && Blank(gap) && PartOK(part)
    ensures Entries(p, lead + key + pad + ['='] + (PartsText(parts) + gap + OpenText(part))) == [e]
    ensures e.key == key && EntryText(e) == PartsMean(parts) + PartMeans(part)
  {
    hide Silent, IsKey, Blank, Spaces, PartsOK, PartOK;
    var head := lead + key + pad + ['='];
    var p1 := ReadsToTheValue(p, lead, key, pad);
    ReadsParts(p1, parts);
    var p2 := p1.(value := AddAll(None, PartsMean(parts)));
    SkipsBlanks(p2, gap);
    SilentThen(p1, PartsText(parts), gap);
    var p3 := ReadsOpenPart(p2, part);
    SilentThen(p1, PartsText(parts) + gap, OpenText(part));
    AddAllTwice(None, PartsMean(parts), PartMeans(part));
    var v := PartsText(parts) + gap + OpenText(part);
    SilentThen(p, head, v);
    SilentThen(p, head + v, []);
    assert head + v + [] == head + v;
    e := Complete(p3).1.value;
  }

  /** A backslash as the last character of a bare value is dropped, and the blanks before it stay. */
  lemma CutOffAfterBackslash(p: Parser, lead: CString, key: CString, pad: CString, items: seq<Item>) returns (e: Entry)
    requires Fresh(p) && Spaces(lead) && IsKey(key) && Blank(pad) && items != [] && BareOK(items)
    ensures Entries(p, lead + key + pad + ['='] + (ItemsText(items) + [BACKSLASH])) == [e]
    ensures e.key == key && EntryText(e) == BareText(items)
  {
    hide Silent, IsKey, Blank, Spaces, BareOK;
    var head := lead + key + pad + ['='];
    var p1 := ReadsToTheValue(p, lead, key, pad);
    ReadsBareItems(p1, items);
    var p2 := Silent(p1, ItemsText(items)).value;
    var p3 := p2.(state := VALUE_ESCAPE, valueBlank := None);
    assert Step(p2, BACKSLASH) == (p3, None);
    SilentOne(p2, BACKSLASH);
    var v := ItemsText(items) + [BACKSLASH];
    SilentThen(p1, ItemsText(items), [BACKSLASH]);
    SilentThen(p, head, v);
    SilentThen(p, head + v, []);
    assert head + v + [] == head + v;
    e := Complete(p3).1.value;
  }

  /** The shortest file: a name, '=' and a plain value, with nothing behind. */
  lemma BareFile(name: CString, v: CString)
    requires EnvNameIsValid(name) && v != [] && NulFree(v) && NeedsNoQuotes(v)
    ensures Entries(START, name + ['='] + v) == [Entry(name, Some(v))]
  {
    hide EnvNameIsValid, ForcesQuotes, Step;
    ReadsAssignment(START, name, v);
    ReadsBare(name, v, []);
    assert v + [] == v;
  }
}
