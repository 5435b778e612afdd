/** What substitution makes of a text written as a sequence of references. */
module EnvTemplate {
  import opened Basics
  import opened Escape
  import opened EnvList
  import opened ReplaceEnv

  // ---------------------------------------------------------------- templates

  datatype Template =
    | End
    | Literal(text: CString, rest: Template)
    | Dollar(rest: Template)
    | Plain(name: CString, rest: Template)
    | Bare(name: CString, rest: Template)
    | Choice(name: CString, alternate: bool, body: Template, rest: Template)

  /** How a template is written. */
  function Written(t: Template): CString {
    match t
    case End => []
    case Literal(text, rest) => text + Written(rest)
    case Dollar(rest) => "$$" + Written(rest)
    case Plain(name, rest) => "${" + name + "}" + Written(rest)
    case Bare(name, rest) => "$" + name + Written(rest)
    case Choice(name, alternate, body, rest) =>
      Opening(name, alternate) + Written(body) + "}" + Written(rest)
  }

  /** What a template stands for: an unset variable for nothing, a default for a variable that is not set. */
  function Value(t: Template, env: Env, flags: Flags): CString {
    match t
    case End => []
    case Literal(text, rest) => text + Value(rest, env, flags)
    case Dollar(rest) => "$" + Value(rest, env, flags)
    case Plain(name, rest) => ValueOf(name, env, flags) + Value(rest, env, flags)
    case Bare(name, rest) => ValueOf(name, env, flags) + Value(rest, env, flags)
    case Choice(name, alternate, body, rest) =>
      (match (Get(env, name, flags), alternate)
       case (None, false) => Value(body, env, flags)
       case (None, true) => []
       case (Some(v), false) => v
       case (Some(_), true) => Value(body, env, flags))
      + Value(rest, env, flags)
  }

  function ValueOf(name: CString, env: Env, flags: Flags): CString {
    match Get(env, name, flags)
    case Some(v) => v
    case None => []
  }

  /** The parts of a template are what they look like under these flags. */
  predicate Proper(t: Template, flags: Flags) {
    match t
    case End => true
    case Literal(text, rest) => '$' !in text && Proper(rest, flags)
    case Dollar(rest) => Proper(rest, flags)
    case Plain(name, rest) => '}' !in name && ':' !in name && Proper(rest, flags)
    case Bare(name, rest) =>
      && flags.allowBraceless && name != [] && (forall c | c in name :: ValidNameChar(c))
      && (Written(rest) == [] || !ValidNameChar(Written(rest)[0])) && Proper(rest, flags)
    case Choice(name, _, body, rest) =>
      && flags.allowExtended && '}' !in name && ':' !in name && Balanced(Written(body))
      && Proper(body, flags) && Proper(rest, flags)
  }

  /** No choice comes after a plain reference, except behind another choice. */
  predicate ChoicesFirst(t: Template, clean: bool) {
    match t
    case End => true
    case Plain(_, rest) => ChoicesFirst(rest, false)
    case Choice(_, _, body, rest) => clean && ChoicesFirst(body, true) && ChoicesFirst(rest, true)
    case _ => ChoicesFirst(t.rest, clean)
  }

  // ---------------------------------------------------------------- braces

  /** The count of open braces behind s, None if a closing one brings it to zero on the way. */
  function Level(s: CString, nest: nat): (r: Option<nat>)
    requires nest >= 1
    ensures r.Some? ==> r.value >= 1
  {
    if s == [] then Some(nest)
    else if s[0] == '{' then Level(s[1..], nest + 1)
    else if s[0] != '}' then Level(s[1..], nest)
    else if nest == 1 then None
    else Level(s[1..], nest - 1)
  }

  predicate Balanced(s: CString) { Level(s, 1) == Some(1) }

  lemma {:induction false} LevelShift(s: CString, nest: nat, more: nat)
    requires nest >= 1 && Level(s, nest).Some?
    ensures Level(s, nest + more) == Some(Level(s, nest).value + more)
    decreases |s|
  {
    if s != [] {
      LevelShift(s[1..], if s[0] == '{' then nest + 1 else if s[0] != '}' then nest else nest - 1, more);
    }
  }

  lemma {:induction false} CloseOver(a: CString, s: CString, rest: CString, nest: nat)
    requires nest >= 1 && Level(s, nest).Some?
    ensures Close(a + s + rest, |a|, nest) == Close(a + s + rest, |a + s|, Level(s, nest).value)
    decreases |s|
  {
    if s != [] {
      var whole := a + s + rest;
      assert whole[|a|] == s[0];
      assert a + [s[0]] + s[1..] + rest == whole;
      assert a + [s[0]] + s[1..] == a + s;
      CloseOver(a + [s[0]], s[1..], rest, if s[0] == '{' then nest + 1 else if s[0] != '}' then nest else nest - 1);
    }
  }

  /** A balanced text is closed by the brace behind it exactly if no other brace is open. */
  lemma OwnBraceIff(a: CString, body: CString, rest: CString, nest: nat)
    requires Balanced(body)
    ensures Close(a + body + ("}" + rest), |a|, nest + 1) == |a + body| <==> nest == 0
  {
    var whole := a + body + ("}" + rest);
    LevelShift(body, 1, nest);
    CloseOver(a, body, "}" + rest, nest + 1);
    assert whole[|a + body|] == '}';
  }

  // ---------------------------------------------------------------- one reference at a time

  lemma {:induction false} LiteralKept(text: CString, s: CString, nest: nat, env: Env, flags: Flags)
    requires '$' !in text
    ensures Subst(text + s, nest, env, flags) == text + Subst(s, nest, env, flags)
  {
    if text == [] {
      assert text + s == s;
    } else {
      assert (text + s)[1..] == text[1..] + s;
      LiteralKept(text[1..], s, nest, env, flags);
      assert text == [text[0]] + text[1..];
    }
  }

  lemma DoubledIsOne(s: CString, nest: nat, env: Env, flags: Flags)
    ensures Subst("$$" + s, nest, env, flags) == "$" + Subst(s, nest, env, flags)
  {
    assert ("$$" + s)[2..] == s;
  }

  /** The name in braces stops at the first closing brace or colon. */
  lemma NameInBraces(name: CString, c: Byte, s: CString)
    requires '}' !in name && ':' !in name && (c == '}' || c == ':')
    ensures var t := "${" + name + [c] + s;
            t[0] == '$' && t[1] == '{' && StopAt(t, 2) == |name| + 2 && t[|name| + 2] == c && t[2..|name| + 2] == name
            && t[|name| + 3..] == s && t[..|name| + 3] == "${" + name + [c]
  {
    var t := "${" + name + [c] + s;
    assert forall j | 2 <= j < |name| + 2 :: t[j] == name[j - 2] && t[j] in name;
    assert t[|name| + 2] == c;
  }

  lemma PlainIsValue(name: CString, s: CString, nest: nat, env: Env, flags: Flags)
    requires '}' !in name && ':' !in name
    ensures Subst("${" + name + "}" + s, nest, env, flags) == ValueOf(name, env, flags) + Subst(s, nest + 1, env, flags)
  {
    NameInBraces(name, '}', s);
    hide StopAt, Get;
  }

  lemma BareIsValue(name: CString, s: CString, nest: nat, env: Env, flags: Flags)
    requires flags.allowBraceless && name != [] && (forall c | c in name :: ValidNameChar(c))
    requires s == [] || !ValidNameChar(s[0])
    ensures Subst("$" + name + s, nest, env, flags) == ValueOf(name, env, flags) + Subst(s, nest, env, flags)
  {
    var t := "$" + name + s;
    assert forall j | 1 <= j < |name| + 1 :: t[j] == name[j - 1];
    assert s != [] ==> t[|name| + 1] == s[0];
    assert NameEnd(t, 1) == |name| + 1;
    assert t[1..|name| + 1] == name && t[|name| + 1..] == s;
    assert ValidNameChar(t[1]) && t[1] != '{' && t[1] != '$';
    hide NameEnd, Get;
  }

  /** A text that only begins a reference stands for itself. */
  lemma MalformedKept(name: CString, c: Byte, s: CString, nest: nat, env: Env, flags: Flags)
    requires '}' !in name && ':' !in name
    ensures Subst("${" + name, nest, env, flags) == "${" + name
    ensures !flags.allowExtended ==>
              Subst("${" + name + ":" + s, nest, env, flags) == "${" + name + ":" + Subst(s, nest + 1, env, flags)
    ensures c !in "{$" && !(flags.allowBraceless && ValidNameChar(c)) ==>
              Subst(['$', c] + s, nest, env, flags) == ['$', c] + Subst(s, nest, env, flags)
    ensures Subst("$", nest, env, flags) == "$"
  {
    var t := "${" + name;
    assert forall j | 2 <= j < |t| :: t[j] == name[j - 2];
    assert StopAt(t, 2) == |t|;
    NameInBraces(name, ':', s);
    assert (['$', c] + s)[2..] == s && (['$', c] + s)[..2] == ['$', c];
    hide StopAt, Get;
  }

  function Opening(name: CString, alternate: bool): CString {
    "${" + name + [':', if alternate then '+' else '-']
  }

  lemma ChoiceHead(name: CString, alternate: bool, more: CString)
    requires '}' !in name && ':' !in name
    ensures var t, k := Opening(name, alternate) + more, |name| + 2;
            && |Opening(name, alternate)| == k + 2 && t[0] == '$' && t[1] == '{' && StopAt(t, 2) == k && t[k] == ':'
            && t[k + 1] == (if alternate then '+' else '-') && t[2..k] == name
  {
    var c := if alternate then '+' else '-';
    NameInBraces(name, ':', [c] + more);
    assert Opening(name, alternate) + more == "${" + name + [':'] + ([c] + more);
  }

  lemma Pieces(a: CString, body: CString, s: CString)
    ensures var t := a + body + ("}" + s); var c := |a + body|;
            t[|a|..c] == body && t[c + 1..] == s && a + (body + ("}" + s)) == t && a + body + "}" + s == t
            && t[c] == '}'
  {}

  /** A choice with no brace counted before it ends at its own brace and chooses. */
  lemma ChoiceChooses(name: CString, alternate: bool, body: CString, s: CString, env: Env, flags: Flags)
    requires flags.allowExtended && '}' !in name && ':' !in name && Balanced(body)
    ensures Subst(Opening(name, alternate) + body + "}" + s, 0, env, flags)
         == Chosen(env, name, alternate, body, flags) + Subst(s, 0, env, flags)
  {
    hide Subst, Chosen, Close, Balanced, StopAt;
    var a := Opening(name, alternate);
    ChoiceHead(name, alternate, body + ("}" + s));
    hide Opening;
    Pieces(a, body, s);
    OwnBraceIff(a, body, s, 0);
    AtChoice(a + body + ("}" + s), |name| + 2, 0, env, flags);
  }

  lemma OneLess(t: CString, c: nat, nest: nat)
    requires c < |t| && t[c] == '}' && nest >= 1
    ensures Close(t, c, nest + 1) == Close(t, c + 1, nest)
  {}

  lemma CloseAtEnd(t: CString, nest: nat)
    requires nest >= 1
    ensures Close(t, |t|, nest) == |t|
  {}

  lemma OpenToTheEnd(b: CString, s: CString, nest: nat)
    requires nest > 0 && Level(s, nest).Some?
    ensures Close(b + s, |b|, nest) == |b + s|
  {
    hide Level, Close;
    CloseOver(b, s, [], nest);
    assert b + s + [] == b + s;
    CloseAtEnd(b + s, Level(s, nest).value);
  }

  lemma NeverCloses(a: CString, body: CString, s: CString, nest: nat)
    requires Balanced(body) && nest > 0 && Level(s, nest).Some?
    ensures Close(a + body + ("}" + s), |a|, nest + 1) == |a + body + ("}" + s)|
  {
    hide Level, Close;
    Pieces(a, body, s);
    LevelShift(body, 1, nest);
    CloseOver(a, body, "}" + s, nest + 1);
    OneLess(a + body + ("}" + s), |a + body|, nest);
    OpenToTheEnd(a + body + "}", s, nest);
  }

  /**
    * After a plain reference the braces counted are one too many: unless a later brace happens to make up
    * for it, the choice and everything behind it come out as they were written.
    */
  lemma LateChoiceIsText(name: CString, alternate: bool, body: CString, s: CString, nest: nat, env: Env, flags: Flags)
    requires flags.allowExtended && '}' !in name && ':' !in name && Balanced(body)
    requires nest > 0 && Level(s, nest).Some?
    ensures Subst(Opening(name, alternate) + body + "}" + s, nest, env, flags) == Opening(name, alternate) + body + "}" + s
  {
    hide Subst, Chosen, Close, Balanced, StopAt, Level;
    var a := Opening(name, alternate);
    ChoiceHead(name, alternate, body + ("}" + s));
    hide Opening;
    Pieces(a, body, s);
    NeverCloses(a, body, s, nest);
    AtChoice(a + body + ("}" + s), |name| + 2, nest, env, flags);
  }

  // ---------------------------------------------------------------- whole templates

  /** Every proper template whose choices come first expands to its value. */
  lemma {:induction false} TemplateExpands(t: Template, nest: nat, env: Env, flags: Flags)
    requires Proper(t, flags) && ChoicesFirst(t, nest == 0)
    ensures Subst(Written(t), nest, env, flags) == Value(t, env, flags)
  {
    hide Subst, Get, Balanced;
    match t
    case End =>
      EmptyIsEmpty(nest, env, flags);
    case Literal(text, rest) =>
      LiteralKept(text, Written(rest), nest, env, flags);
      TemplateExpands(rest, nest, env, flags);
    case Dollar(rest) =>
      DoubledIsOne(Written(rest), nest, env, flags);
      TemplateExpands(rest, nest, env, flags);
    case Plain(name, rest) =>
      PlainIsValue(name, Written(rest), nest, env, flags);
      TemplateExpands(rest, nest + 1, env, flags);
    case Bare(name, rest) =>
      BareIsValue(name, Written(rest), nest, env, flags);
      TemplateExpands(rest, nest, env, flags);
    case Choice(name, alternate, body, rest) =>
      ChoiceChooses(name, alternate, Written(body), Written(rest), env, flags);
      TemplateExpands(body, 0, env, flags);
      TemplateExpands(rest, 0, env, flags);
  }

  lemma EmptyIsEmpty(nest: nat, env: Env, flags: Flags)
    ensures Subst([], nest, env, flags) == []
  {}

  /** A plain reference in front of a choice takes the choice away, whatever the two variables are. */
  lemma PlainBeforeChoice(first: CString, name: CString, alternate: bool, body: CString, env: Env, flags: Flags)
    requires flags.allowExtended && Balanced(body)
    requires '}' !in first && ':' !in first && '}' !in name && ':' !in name
    ensures Subst("${" + first + "}" + (Opening(name, alternate) + body + "}"), 0, env, flags)
         == ValueOf(first, env, flags) + (Opening(name, alternate) + body + "}")
  {
    hide Subst, Get, Balanced, Opening;
    var choice := Opening(name, alternate) + body + "}";
    PlainIsValue(first, choice, 0, env, flags);
    LateChoiceIsText(name, alternate, body, [], 1, env, flags);
    assert choice + [] == choice;
  }

  /** With neither variable set `${A}${B:-x}` should give `x` and gives `${B:-x}`. */
  lemma DefaultIsLost(flags: Flags)
    requires flags.allowExtended
    ensures var env := Env([], map[]); var t := Plain("A", Choice("B", false, Literal("x", End), End));
            && Proper(t, flags) && !ChoicesFirst(t, true) && Value(t, env, flags) == "x"
            && Subst(Written(t), 0, env, flags) == "${B:-x}"
  {
    var env := Env([], map[]);
    var x := Written(Literal("x", End));
    assert x == "x" && x[1..] == [] && Balanced(x);
    assert Opening("B", false) + "x" + "}" == "${B:-x}";
    PlainBeforeChoice("A", "B", false, x, env, flags);
    var choice := Opening("B", false) + x + "}";
    assert choice + Written(End) == choice;
    assert Value(Literal("x", End), env, flags) == "x";
    assert Value(Choice("B", false, Literal("x", End), End), env, flags) == "x" + [];
    assert ValueOf("A", env, flags) == [] && [] + choice == choice;
  }

  // ---------------------------------------------------------------- doubled dollar signs

  function DoubleDollars(t: CString): CString {
    if t == [] then []
    else (if t[0] == '$' then "$$" else [t[0]]) + DoubleDollars(t[1..])
  }

  /** Whatever the flags, a text with every dollar sign doubled comes back as it was. */
  lemma {:induction false} DoublingIsUndone(t: CString, nest: nat, env: Env, flags: Flags)
    ensures Subst(DoubleDollars(t), nest, env, flags) == t
  {
    hide Subst;
    if t == [] {
      EmptyIsEmpty(nest, env, flags);
    } else {
      DoublingIsUndone(t[1..], nest, env, flags);
      if t[0] == '$' {
        DoubledIsOne(DoubleDollars(t[1..]), nest, env, flags);
      } else {
        LiteralKept([t[0]], DoubleDollars(t[1..]), nest, env, flags);
      }
      assert t == [t[0]] + t[1..];
    }
  }
}
