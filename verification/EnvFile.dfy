/** Reading environment files. */
module EnvFile {
  import opened Basics
  import opened Escape
  import opened EnvList
  import Utf8

  const NEWLINE: CString := "\n\r"
  const COMMENTS: CString := "#;"

  // ---------------------------------------------------------------- the parser

  datatype State =
    | PRE_KEY | KEY | PRE_VALUE | VALUE | VALUE_ESCAPE
    | SINGLE_QUOTE_VALUE | DOUBLE_QUOTE_VALUE | DOUBLE_QUOTE_VALUE_ESCAPE
    | COMMENT | COMMENT_ESCAPE

  /** The variables of the loop; a mark of None is (size_t) -1, a value of None is a NULL buffer. */
  datatype Parser = Parser(state: State, key: CString, value: Option<CString>,
                           keyBlank: Option<nat>, valueBlank: Option<nat>)

  /** One call of the push callback. */
  datatype Entry = Entry(key: CString, value: Option<CString>)

  const START := Parser(PRE_KEY, [], None, None, None)

  function Add(value: Option<CString>, c: Byte): Option<CString> {
    if value.Some? then Some(value.value + [c]) else Some([c])
  }

  /** Writing a NUL at the mark cuts the string there. */
  function Chomp(s: CString, mark: Option<nat>): CString {
    if mark.Some? && mark.value <= |s| then s[..mark.value] else s
  }

  function ChompValue(v: Option<CString>, mark: Option<nat>): Option<CString> {
    if v.Some? then Some(Chomp(v.value, mark)) else None
  }

  /** Between lines: no assignment has begun. */
  predicate Idle(state: State) {
    state.PRE_KEY? || state.COMMENT? || state.COMMENT_ESCAPE?
  }

  /** What makes the writes at the end of a line safe: the key has a buffer and every mark lies inside its buffer. */
  predicate WellMarked(p: Parser) {
    && (if Idle(p.state) then p.key == [] && p.value.None? else p.key != [])
    && (!Idle(p.state) && p.keyBlank.Some? ==> p.keyBlank.value < |p.key|)
    && (p.state.VALUE? && p.valueBlank.Some? ==> p.value.Some? && p.valueBlank.value < |p.value.value|)
    && (!Idle(p.state) && !p.state.KEY? && !p.state.VALUE? ==> p.valueBlank.None?)
    && (p.state.KEY? ==> p.value.None?)
  }

  /** What the parser does with one character, and the assignment that this completes, if any. */
  function Step(p: Parser, c: Byte): (Parser, Option<Entry>) {
    match p.state
    case PRE_KEY =>
      if c in COMMENTS then (p.(state := COMMENT), None)
      else if c !in WHITESPACE then (p.(state := KEY, keyBlank := None, key := p.key + [c]), None)
      else (p, None)
    case KEY =>
      if c in NEWLINE then (p.(state := PRE_KEY, key := []), None)
      else if c == '=' then (p.(state := PRE_VALUE, valueBlank := None), None)
      else
        var blank := if c !in WHITESPACE then None
                     else if p.keyBlank.None? then Some(|p.key|)
                     else p.keyBlank;
        (p.(key := p.key + [c], keyBlank := blank), None)
    case PRE_VALUE =>
      if c in NEWLINE then Complete(p)
      else if c == '\'' then (p.(state := SINGLE_QUOTE_VALUE), None)
      else if c == '"' then (p.(state := DOUBLE_QUOTE_VALUE), None)
      else if c == BACKSLASH then (p.(state := VALUE_ESCAPE), None)
      else if c !in WHITESPACE then (p.(state := VALUE, value := Add(p.value, c)), None)
      else (p, None)
    case VALUE =>
      if c in NEWLINE then Complete(p)
      else if c == BACKSLASH then (p.(state := VALUE_ESCAPE, valueBlank := None), None)
      else
        var blank := if c !in WHITESPACE then None
                     else if p.valueBlank.None? then Some(if p.value.Some? then |p.value.value| else 0)
                     else p.valueBlank;
        (p.(value := Add(p.value, c), valueBlank := blank), None)
    case VALUE_ESCAPE =>
      (p.(state := VALUE, value := if c !in NEWLINE then Add(p.value, c) else p.value), None)
    case SINGLE_QUOTE_VALUE =>
      if c == '\'' then (p.(state := PRE_VALUE), None) else (p.(value := Add(p.value, c)), None)
    case DOUBLE_QUOTE_VALUE =>
      if c == '"' then (p.(state := PRE_VALUE), None)
      else if c == BACKSLASH then (p.(state := DOUBLE_QUOTE_VALUE_ESCAPE), None)
      else (p.(value := Add(p.value, c)), None)
    case DOUBLE_QUOTE_VALUE_ESCAPE =>
      var v := if c == '"' then Add(p.value, c)
               else if c !in NEWLINE then Add(Add(p.value, BACKSLASH), c)
               else p.value;
      (p.(state := DOUBLE_QUOTE_VALUE, value := v), None)
    case COMMENT =>
      if c == BACKSLASH then (p.(state := COMMENT_ESCAPE), None)
      else if c in NEWLINE then (p.(state := PRE_KEY), None)
      else (p, None)
    case COMMENT_ESCAPE => (p.(state := COMMENT), None)
  }

  /** The end of a line that holds an assignment. */
  function Complete(p: Parser): (Parser, Option<Entry>) {
    var e := Entry(Chomp(p.key, p.keyBlank),
                   if p.state.VALUE? then ChompValue(p.value, p.valueBlank) else p.value);
    (p.(state := PRE_KEY, key := [], value := None), Some(e))
  }

  lemma StepKeepsMarks(p: Parser, c: Byte)
    requires WellMarked(p)
    ensures WellMarked(Step(p, c).0)
    ensures Step(p, c).1.Some? ==> |Step(p, c).1.value.key| <= |p.key|
  {}

  /** The assignments completed by the text s, the one cut off by the end of file included. */
  function Entries(p: Parser, s: CString): seq<Entry>
    decreases |s|
  {
    if s == [] then
      if Idle(p.state) || p.state.KEY? then []
      else [Complete(p).1.value]
    else
      var (q, e) := Step(p, s[0]);
      (if e.Some? then [e.value] else []) + Entries(q, s[1..])
  }

  /** strjoin(key, "=", value). */
  function Joined(e: Entry): CString {
    e.key + ['='] + (if e.value.Some? then e.value.value else [])
  }

  predicate Utf8Entry(e: Entry) {
    Utf8.IsValid(e.key) && (e.value.Some? ==> Utf8.IsValid(e.value.value))
  }

  /** Feeding the entries to load_env_file_push one after the other; None is -EINVAL. */
  function LoadAll(l: seq<CString>, es: seq<Entry>): Option<seq<CString>>
    decreases |es|
  {
    if es == [] then Some(l)
    else if !Utf8Entry(es[0]) then None
    else LoadAll(Replaced(l, Joined(es[0])), es[1..])
  }

  /** The '=' put in between makes every entry an assignment, even one whose key begins with '='. */
  lemma JoinedIsAssignment(e: Entry)
    ensures IsAssignment(Joined(e))
    ensures '=' !in e.key ==> Name(Joined(e)) == e.key
  {
    var j := Joined(e);
    assert j[|e.key|] == '=';
    NameLengthIs(j, |e.key|);
    if '=' !in e.key {
      HasNameIsName(j, e.key);
    }
  }

  method LoadEnvFilePush(block: EnvBlock, e: Entry) returns (ok: bool)
    modifies block
    ensures ok == Utf8Entry(e)
    ensures block.l == if ok then Replaced(old(block.l), Joined(e)) else old(block.l)
  {
    if !Utf8Entry(e) {
      return false;
    }
    JoinedIsAssignment(e);
    var r := block.Replace(Joined(e));
    return true;
  }

  /** load_env_file on the contents of a file. */
  method LoadEnvFile(contents: CString) returns (m: Option<seq<CString>>)
    requires NulFree(contents)
    ensures m == LoadAll([], Entries(START, contents))
  {
    hide Step, Replaced, Utf8Entry;
    var block := new EnvBlock();
    var p := START;
    var i := 0;
    assert contents[0..] == contents;
    while i < |contents|
      invariant 0 <= i <= |contents| && fresh(block)
      invariant WellMarked(p)
      invariant LoadAll(block.l, Entries(p, contents[i..])) == LoadAll([], Entries(START, contents))
    {
      assert contents[i..][1..] == contents[i + 1..];
      StepKeepsMarks(p, contents[i]);
      var (q, e) := Step(p, contents[i]);
      if e.Some? {
        assert ([e.value] + Entries(q, contents[i + 1..]))[1..] == Entries(q, contents[i + 1..]);
        var ok := LoadEnvFilePush(block, e.value);
        if !ok {
          return None;
        }
      } else {
        assert [] + Entries(q, contents[i + 1..]) == Entries(q, contents[i + 1..]);
      }
      p := q;
      i := i + 1;
    }
    assert contents[i..] == [];
    if !(Idle(p.state) || p.state.KEY?) {
      var e := Complete(p).1.value;
      assert [e][1..] == [];
      var ok := LoadEnvFilePush(block, e);
      if !ok {
        return None;
      }
    }
    m := Some(block.l);
  }
}
