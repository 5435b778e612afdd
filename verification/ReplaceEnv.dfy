/** Substitution of environment variables in a text. */
module ReplaceEnv {
  import opened Basics
  import opened Escape
  import opened EnvList

  datatype Flags = Flags(useEnvironment: bool, allowBraceless: bool, allowExtended: bool)

  /** Where values come from: the given block, and the process environment. */
  datatype Env = Env(block: seq<CString>, environ: map<CString, CString>)

  function Get(env: Env, name: CString, flags: Flags): Option<CString> {
    GetN(env.block, name, flags.useEnvironment, env.environ)
  }

  /** A variable that is not set expands to nothing. */
  function Expand(env: Env, name: CString, flags: Flags): CString {
    Text(Get(env, name, flags))
  }

  function Text(r: Option<CString>): CString {
    if r.Some? then r.value else []
  }

  // ---------------------------------------------------------------- what substitution means

  /** The first index from i on that holds '}' or ':'. */
  function StopAt(s: CString, i: nat): (k: nat)
    requires i <= |s|
    ensures i <= k <= |s|
    ensures forall j | i <= j < k :: s[j] != '}' && s[j] != ':'
    ensures k < |s| ==> s[k] == '}' || s[k] == ':'
    decreases |s| - i
  {
    if i == |s| || s[i] == '}' || s[i] == ':' then i else StopAt(s, i + 1)
  }

  /** The first index from i on that cannot belong to a name. */
  function NameEnd(s: CString, i: nat): (k: nat)
    requires i <= |s|
    ensures i <= k <= |s|
    ensures forall j | i <= j < k :: ValidNameChar(s[j])
    ensures k < |s| ==> !ValidNameChar(s[k])
    decreases |s| - i
  {
    if i == |s| || !ValidNameChar(s[i]) then i else NameEnd(s, i + 1)
  }

  /** The closing brace that brings a count of open ones to zero, the length if there is none. */
  function Close(s: CString, i: nat, nest: nat): (c: nat)
    requires i <= |s| && nest >= 1
    ensures i <= c <= |s| && (c < |s| ==> s[c] == '}')
    decreases |s| - i
  {
    if i == |s| then i
    else if s[i] == '{' then Close(s, i + 1, nest + 1)
    else if s[i] != '}' then Close(s, i + 1, nest)
    else if nest == 1 then i
    else Close(s, i + 1, nest - 1)
  }

  /**
   * Left-to-right substitution: `$$` is a dollar sign, `${NAME}` and, if allowed, `$NAME` are values,
   * `${NAME:-TEXT}` and `${NAME:+TEXT}`, if allowed, choose between value and text, and every malformed
   * reference stands for itself. `nest` counts the braces opened since the last such choice; a plain
   * reference counts and is never discounted.
   */
  function Subst(s: CString, nest: nat, env: Env, flags: Flags): CString
    decreases |s|
  {
    if s == [] then []
    else if s[0] != '$' then [s[0]] + Subst(s[1..], nest, env, flags)
    else if |s| == 1 then s
    else if s[1] == '$' then ['$'] + Subst(s[2..], nest, env, flags)
    else if s[1] == '{' then
      var k := StopAt(s, 2);
      if k == |s| then s
      else if s[k] == '}' then Expand(env, s[2..k], flags) + Subst(s[k + 1..], nest + 1, env, flags)
      else if !flags.allowExtended then s[..k + 1] + Subst(s[k + 1..], nest + 1, env, flags)
      else if k + 1 == |s| then s
      else if s[k + 1] != '-' && s[k + 1] != '+' then s[..k + 2] + Subst(s[k + 2..], nest + 1, env, flags)
      else
        var c := Close(s, k + 2, nest + 1);
        if c == |s| then s
        else
          var x := Get(env, s[2..k], flags);
          (if x.Some? == (s[k + 1] == '+') then Subst(s[k + 2..c], 0, env, flags) else Text(x))
          + Subst(s[c + 1..], 0, env, flags)
    else if flags.allowBraceless && ValidNameChar(s[1]) then
      var k := NameEnd(s, 1);
      Expand(env, s[1..k], flags) + Subst(s[k..], nest, env, flags)
    else s[..2] + Subst(s[2..], nest, env, flags)
  }

  // ---------------------------------------------------------------- the state machine

  datatype State = WORD | CURLY | VARIABLE | VARIABLE_RAW | TEST | DEFAULT_VALUE | ALTERNATE_VALUE

  /** The whole state of the loop. */
  datatype Machine = Machine(state: State, r: Option<CString>, word: nat, e: nat,
                             len: nat, testValue: nat, nest: nat)

  /** What the machine has seen since `word` in each state. */
  ghost predicate Shape(s: CString, m: Machine, flags: Flags) {
    && m.word <= m.e <= |s|
    && (m.r.Some? || m.state.WORD? || m.state.CURLY?)
    && match m.state
       case WORD => true
       case CURLY => m.word < m.e && s[m.e - 1] == '$'
       case VARIABLE =>
         && m.nest >= 1 && m.word + 2 <= m.e && s[m.word] == '$' && s[m.word + 1] == '{'
         && forall j | m.word + 2 <= j < m.e :: s[j] != '}' && s[j] != ':'
       case VARIABLE_RAW =>
         && flags.allowBraceless && m.word + 2 <= m.e && s[m.word] == '$'
         && forall j | m.word + 1 <= j < m.e :: ValidNameChar(s[j])
       case TEST => flags.allowExtended && m.nest >= 1 && m.word + 2 + m.len < m.e
       case _ => flags.allowExtended && m.nest >= 1 && m.word + 2 + m.len < m.testValue <= m.e
  }

  /** What is still to be produced when the machine is before index e and has copied up to `word`. */
  ghost function Rest(s: CString, m: Machine, env: Env, flags: Flags): CString
    requires Shape(s, m, flags)
  {
    match m.state
    case WORD => s[m.word..m.e] + Subst(s[m.e..], m.nest, env, flags)
    case CURLY => s[m.word..m.e - 1] + Subst(s[m.e - 1..], m.nest, env, flags)
    case VARIABLE => Subst(s[m.word..], m.nest - 1, env, flags)
    case VARIABLE_RAW => Subst(s[m.word..], m.nest, env, flags)
    case TEST =>
      if m.e == |s| then s[m.word..]
      else if s[m.e] != '-' && s[m.e] != '+' then s[m.word..m.e + 1] + Subst(s[m.e + 1..], m.nest, env, flags)
      else ValueRest(s, m.word, m.len, m.e + 1, m.e + 1, m.nest, s[m.e] == '+', env, flags)
    case DEFAULT_VALUE => ValueRest(s, m.word, m.len, m.testValue, m.e, m.nest, false, env, flags)
    case ALTERNATE_VALUE => ValueRest(s, m.word, m.len, m.testValue, m.e, m.nest, true, env, flags)
  }

  /** The choice between value and text, and what follows it. */
  ghost function ValueRest(s: CString, word: nat, len: nat, testValue: nat, e: nat, nest: nat, alternate: bool,
                           env: Env, flags: Flags): CString
    requires nest >= 1 && word + 2 + len < testValue <= e <= |s|
  {
    var c := Close(s, e, nest);
    if c == |s| then s[word..]
    else
      Chosen(env, s[word + 2..word + 2 + len], alternate, s[testValue..c], flags) + Subst(s[c + 1..], 0, env, flags)
  }

  ghost function Chosen(env: Env, name: CString, alternate: bool, text: CString, flags: Flags): CString {
    var x := Get(env, name, flags);
    if x.Some? == alternate then Subst(text, 0, env, flags) else Text(x)
  }

  /** What holds before every pass: the output so far and what is still to come are the substitution. */
  ghost predicate Inv(s: CString, m: Machine, env: Env, flags: Flags) {
    Shape(s, m, flags) && Text(m.r) + Rest(s, m, env, flags) == Subst(s, 0, env, flags)
  }

  lemma Glue(a: CString, b: CString, c: CString, d: CString)
    requires a + b == d
    ensures a + (b + c) == d + c
  {}

  lemma FromHere(s: CString, e: nat, t: CString)
    requires e <= |s|
    ensures s[e..e] + t == t
  {}

  lemma WordGoesOn(s: CString, m: Machine, env: Env, flags: Flags)
    requires Shape(s, m, flags) && m.state.WORD? && m.e < |s| && s[m.e] != '$'
    ensures Rest(s, m, env, flags) == Rest(s, m.(e := m.e + 1), env, flags)
  {
    var e := m.e;
    assert s[e..][1..] == s[e + 1..];
    assert Subst(s[e..], m.nest, env, flags) == [s[e]] + Subst(s[e + 1..], m.nest, env, flags);
    hide Subst;
    Glue(s[m.word..e], [s[e]], Subst(s[e + 1..], m.nest, env, flags), s[m.word..e + 1]);
  }

  lemma DollarMeansNothing(s: CString, m: Machine, env: Env, flags: Flags)
    requires Shape(s, m, flags) && m.state.CURLY? && m.e < |s|
    requires s[m.e] != '{' && s[m.e] != '$' && !(flags.allowBraceless && ValidNameChar(s[m.e]))
    ensures Rest(s, m, env, flags) == Rest(s, m.(state := WORD, e := m.e + 1), env, flags)
  {
    var e := m.e;
    var t := s[e - 1..];
    assert t[0] == '$' && t[1] == s[e] && t[2..] == s[e + 1..] && t[..2] == s[e - 1..e + 1];
    assert Subst(t, m.nest, env, flags) == t[..2] + Subst(s[e + 1..], m.nest, env, flags);
    hide Subst;
    Glue(s[m.word..e - 1], t[..2], Subst(s[e + 1..], m.nest, env, flags), s[m.word..e + 1]);
  }

  lemma DoubleDollar(s: CString, m: Machine, env: Env, flags: Flags)
    requires Shape(s, m, flags) && m.state.CURLY? && m.e < |s| && s[m.e] == '$'
    ensures Rest(s, m, env, flags)
         == s[m.word..m.e] + Rest(s, m.(state := WORD, word := m.e + 1, e := m.e + 1), env, flags)
  {
    var e := m.e;
    var t := s[e - 1..];
    assert t[0] == '$' && t[1] == s[e] && t[2..] == s[e + 1..];
    assert Subst(t, m.nest, env, flags) == ['$'] + Subst(s[e + 1..], m.nest, env, flags);
    hide Subst;
    Glue(s[m.word..e - 1], ['$'], Subst(s[e + 1..], m.nest, env, flags), s[m.word..e]);
    FromHere(s, e + 1, Subst(s[e + 1..], m.nest, env, flags));
  }

  lemma StopIs(s: CString, m: Machine, flags: Flags)
    requires Shape(s, m, flags) && m.state.VARIABLE?
    requires m.e == |s| || s[m.e] == '}' || s[m.e] == ':'
    ensures var t := s[m.word..]; t[0] == '$' && t[1] == '{' && StopAt(t, 2) == m.e - m.word
  {
    var t := s[m.word..];
    assert forall j | 2 <= j < m.e - m.word :: t[j] == s[m.word + j];
    assert m.e < |s| ==> t[m.e - m.word] == s[m.e];
  }

  lemma Within(s: CString, word: nat, i: nat, j: nat)
    requires word <= i <= j <= |s|
    ensures s[word..][i - word..j - word] == s[i..j] && s[word..][..j - word] == s[word..j] && s[word..][i - word..] == s[i..]
    ensures i < |s| ==> s[word..][i - word] == s[i]
  {}

  /** A plain reference, or a colon that is not supported, seen from the dollar sign. */
  lemma AtStop(t: CString, k: nat, nest: nat, env: Env, flags: Flags)
    requires |t| > k >= 2 && t[0] == '$' && t[1] == '{' && StopAt(t, 2) == k
    ensures t[k] == '}' ==> Subst(t, nest, env, flags) == Expand(env, t[2..k], flags) + Subst(t[k + 1..], nest + 1, env, flags)
    ensures t[k] == ':' && !flags.allowExtended ==>
              Subst(t, nest, env, flags) == t[..k + 1] + Subst(t[k + 1..], nest + 1, env, flags)
  {
    hide Expand, Get, Close, StopAt, NameEnd, ValidNameChar;
  }

  lemma BraceCloses(s: CString, m: Machine, env: Env, flags: Flags)
    requires Shape(s, m, flags) && m.state.VARIABLE? && m.e < |s| && s[m.e] == '}'
    ensures Rest(s, m, env, flags)
         == Expand(env, s[m.word + 2..m.e], flags) + Rest(s, m.(state := WORD, word := m.e + 1, e := m.e + 1), env, flags)
  {
    hide Expand, Subst, StopAt;
    StopIs(s, m, flags);
    Within(s, m.word, m.word + 2, m.e);
    Within(s, m.word, m.e, m.e);
    Within(s, m.word, m.e + 1, m.e + 1);
    AtStop(s[m.word..], m.e - m.word, m.nest - 1, env, flags);
    FromHere(s, m.e + 1, Subst(s[m.e + 1..], m.nest, env, flags));
  }

  lemma ColonUnsupported(s: CString, m: Machine, env: Env, flags: Flags)
    requires Shape(s, m, flags) && m.state.VARIABLE? && m.e < |s| && s[m.e] == ':' && !flags.allowExtended
    ensures Rest(s, m, env, flags) == Rest(s, m.(state := WORD, e := m.e + 1), env, flags)
  {
    hide Expand, Subst, StopAt;
    StopIs(s, m, flags);
    Within(s, m.word, m.e, m.e);
    Within(s, m.word, m.e + 1, m.e + 1);
    AtStop(s[m.word..], m.e - m.word, m.nest - 1, env, flags);
  }

  lemma {:induction false} CloseWithin(s: CString, word: nat, i: nat, nest: nat)
    requires word <= i <= |s| && nest >= 1
    ensures Close(s[word..], i - word, nest) == Close(s, i, nest) - word
    decreases |s| - i
  {
    if i < |s| {
      assert s[word..][i - word] == s[i];
      if s[i] == '{' {
        CloseWithin(s, word, i + 1, nest + 1);
      } else if s[i] != '}' {
        CloseWithin(s, word, i + 1, nest);
      } else if nest > 1 {
        CloseWithin(s, word, i + 1, nest - 1);
      }
    }
  }

  /** A reference with a colon, by what follows the colon. */
  lemma AtColon(t: CString, k: nat, nest: nat, env: Env, flags: Flags)
    requires |t| > k >= 2 && t[0] == '$' && t[1] == '{' && StopAt(t, 2) == k && t[k] == ':' && flags.allowExtended
    requires k + 1 == |t| || (t[k + 1] != '-' && t[k + 1] != '+')
    ensures k + 1 == |t| ==> Subst(t, nest, env, flags) == t
    ensures k + 1 < |t| ==> Subst(t, nest, env, flags) == t[..k + 2] + Subst(t[k + 2..], nest + 1, env, flags)
  {
    hide Expand, Get, Close, StopAt, NameEnd, ValidNameChar, Text;
  }

  lemma AtChoice(t: CString, k: nat, nest: nat, env: Env, flags: Flags)
    requires |t| > k + 1 && k >= 2 && t[0] == '$' && t[1] == '{' && StopAt(t, 2) == k && t[k] == ':' && flags.allowExtended
    requires t[k + 1] == '-' || t[k + 1] == '+'
    ensures var c := Close(t, k + 2, nest + 1);
            Subst(t, nest, env, flags) ==
              if c == |t| then t
              else Chosen(env, t[2..k], t[k + 1] == '+', t[k + 2..c], flags) + Subst(t[c + 1..], 0, env, flags)
  {
    hide Expand, Get, Close, StopAt, NameEnd, ValidNameChar, Text;
  }

  /** A reference that chooses, seen from its dollar sign. */
  lemma ChoiceAhead(s: CString, word: nat, e: nat, nest: nat, env: Env, flags: Flags)
    requires word + 2 <= e && e + 1 < |s| && s[e] == ':' && (s[e + 1] == '-' || s[e + 1] == '+') && flags.allowExtended
    requires var t := s[word..]; t[0] == '$' && t[1] == '{' && StopAt(t, 2) == e - word
    ensures Subst(s[word..], nest, env, flags)
         == ValueRest(s, word, e - word - 2, e + 2, e + 2, nest + 1, s[e + 1] == '+', env, flags)
  {
    hide Close, Subst, Chosen, StopAt, ValueRest;
    var t, k, alternate := s[word..], e - word, s[e + 1] == '+';
    var c := Close(s, e + 2, nest + 1);
    CloseWithin(s, word, e + 2, nest + 1);
    ChoiceSlices(s, word, e, c);
    AtChoice(t, k, nest, env, flags);
    ValueRestIs(s, word, k - 2, e + 2, nest + 1, alternate, env, flags);
    if c < |s| {
      var name, text, rest := s[word + 2..word + 2 + (k - 2)], s[e + 2..c], s[c + 1..];
      assert Subst(t, nest, env, flags) == Chosen(env, name, alternate, text, flags) + Subst(rest, 0, env, flags);
    }
  }

  lemma ValueRestIs(s: CString, word: nat, len: nat, e: nat, nest: nat, alternate: bool, env: Env, flags: Flags)
    requires nest >= 1 && word + 2 + len < e <= |s|
    ensures ValueRest(s, word, len, e, e, nest, alternate, env, flags) ==
              var c := Close(s, e, nest);
              if c == |s| then s[word..]
              else Chosen(env, s[word + 2..word + 2 + len], alternate, s[e..c], flags) + Subst(s[c + 1..], 0, env, flags)
  {
    hide Close, Subst, Chosen;
  }

  lemma ChoiceSlices(s: CString, word: nat, e: nat, c: nat)
    requires word + 2 <= e && e + 2 <= c <= |s|
    ensures var t, k := s[word..], e - word;
            && t[k] == s[e] && t[k + 1] == s[e + 1] && t[2..k] == s[word + 2..word + 2 + (k - 2)]
            && t[k + 2..c - word] == s[e + 2..c]
            && (c < |s| ==> t[c - word + 1..] == s[c + 1..])
  {}

  lemma NoChoice(s: CString, word: nat, e: nat, nest: nat, env: Env, flags: Flags)
    requires word + 2 <= e < |s| && s[e] == ':' && flags.allowExtended
    requires e + 1 == |s| || (s[e + 1] != '-' && s[e + 1] != '+')
    requires var t := s[word..]; t[0] == '$' && t[1] == '{' && StopAt(t, 2) == e - word
    ensures Subst(s[word..], nest, env, flags) ==
              if e + 1 == |s| then s[word..] else s[word..e + 2] + Subst(s[e + 2..], nest + 1, env, flags)
  {
    hide Subst, StopAt;
    Within(s, word, e, e);
    Within(s, word, e + 1, e + 1);
    AtColon(s[word..], e - word, nest, env, flags);
    if e + 1 < |s| {
      Within(s, word, e + 2, e + 2);
    }
  }

  lemma ColonExtended(s: CString, m: Machine, env: Env, flags: Flags)
    requires Shape(s, m, flags) && m.state.VARIABLE? && m.e < |s| && s[m.e] == ':' && flags.allowExtended
    ensures Rest(s, m, env, flags) == Rest(s, m.(len := m.e - m.word - 2, state := TEST, e := m.e + 1), env, flags)
  {
    hide Subst, ValueRest, StopAt;
    StopIs(s, m, flags);
    if m.e + 1 < |s| && (s[m.e + 1] == '-' || s[m.e + 1] == '+') {
      ChoiceAhead(s, m.word, m.e, m.nest - 1, env, flags);
    } else {
      NoChoice(s, m.word, m.e, m.nest - 1, env, flags);
    }
  }

  /** Inside the text of a choice only its closing brace matters. */
  lemma ValueGoesOn(s: CString, m: Machine, nest: nat, alternate: bool, env: Env, flags: Flags)
    requires m.nest >= 1 && m.word + 2 + m.len < m.testValue <= m.e < |s| && nest > 0
    requires nest == if s[m.e] == '{' then m.nest + 1 else if s[m.e] == '}' then m.nest - 1 else m.nest
    ensures ValueRest(s, m.word, m.len, m.testValue, m.e, m.nest, alternate, env, flags)
         == ValueRest(s, m.word, m.len, m.testValue, m.e + 1, nest, alternate, env, flags)
  {
    hide Subst, Chosen;
  }

  lemma ValueCloses(s: CString, m: Machine, alternate: bool, env: Env, flags: Flags)
    requires m.nest == 1 && m.word + 2 + m.len < m.testValue <= m.e < |s| && s[m.e] == '}'
    ensures ValueRest(s, m.word, m.len, m.testValue, m.e, m.nest, alternate, env, flags)
         == Chosen(env, s[m.word + 2..m.word + 2 + m.len], alternate, s[m.testValue..m.e], flags)
            + (s[m.e + 1..m.e + 1] + Subst(s[m.e + 1..], 0, env, flags))
  {
    hide Subst, Chosen;
    FromHere(s, m.e + 1, Subst(s[m.e + 1..], 0, env, flags));
  }

  lemma NameStops(s: CString, m: Machine, env: Env, flags: Flags)
    requires Shape(s, m, flags) && m.state.VARIABLE_RAW? && (m.e == |s| || !ValidNameChar(s[m.e]))
    ensures Rest(s, m, env, flags)
         == Expand(env, s[m.word + 1..m.e], flags) + Rest(s, m.(state := WORD, word := m.e), env, flags)
  {
    hide Expand;
    var t := s[m.word..];
    assert forall j | 1 <= j < m.e - m.word :: t[j] == s[m.word + j];
    assert m.e < |s| ==> t[m.e - m.word] == s[m.e];
    assert NameEnd(t, 1) == m.e - m.word;
    assert t[0] == s[m.word] && ValidNameChar(t[1]);
    hide NameEnd, ValidNameChar;
    Within(s, m.word, m.word + 1, m.e);
    Within(s, m.word, m.e, m.e);
    FromHere(s, m.e, Subst(s[m.e..], m.nest, env, flags));
  }

  /** At the end of the text everything since `word` is copied, whatever it began to be. */
  lemma EndCopies(s: CString, m: Machine, env: Env, flags: Flags)
    requires Shape(s, m, flags) && m.e == |s| && !m.state.VARIABLE_RAW?
    ensures Rest(s, m, env, flags) == s[m.word..]
  {
    hide Expand, Chosen;
    match m.state
    case WORD => assert s[|s|..] == [];
    case CURLY => assert s[|s| - 1..] == ['$'];
    case VARIABLE => StopIs(s, m, flags);
    case _ =>
  }

  // ---------------------------------------------------------------- replace_env_n

  /** strjoin(r, t): a NULL first argument ends the list at once, a NULL second one adds nothing. */
  function Strjoin(r: Option<CString>, t: Option<CString>): CString {
    if r.None? then [] else if t.None? then r.value else r.value + t.value
  }

  /** strnappend(r, suffix, n) with the suffix already cut to n characters. */
  function Strnappend(r: Option<CString>, suffix: CString): CString {
    if r.None? then suffix else r.value + suffix
  }

  lemma Joined(r: Option<CString>, t: Option<CString>, rest: CString)
    requires r.Some?
    ensures Strjoin(r, t) + rest == Text(r) + (Text(t) + rest)
  {
    if t.Some? {
      Regroup(r.value, t.value, rest);
    } else {
      assert [] + rest == rest;
    }
  }

  lemma Appended(r: Option<CString>, x: CString, rest: CString)
    ensures Strnappend(r, x) + rest == Text(r) + (x + rest)
  {
    if r.Some? {
      Regroup(r.value, x, rest);
    } else {
      assert [] + (x + rest) == x + rest;
    }
  }

  method StepWord(s: CString, m: Machine, env: Env, flags: Flags) returns (m': Machine)
    requires m.state.WORD? && m.e < |s| && Inv(s, m, env, flags)
    ensures Inv(s, m', env, flags) && m'.e == m.e + 1
  {
    hide Subst;
    if s[m.e] == '$' {
      m' := m.(state := CURLY, e := m.e + 1);
    } else {
      WordGoesOn(s, m, env, flags);
      m' := m.(e := m.e + 1);
    }
  }

  method StepCurly(s: CString, m: Machine, env: Env, flags: Flags) returns (m': Machine)
    requires m.state.CURLY? && m.e < |s| && Inv(s, m, env, flags)
    ensures Inv(s, m', env, flags) && m'.e == m.e + 1
  {
    hide Subst;
    var e := m.e;
    if s[e] == '{' {
      m' := m.(r := Some(Strnappend(m.r, s[m.word..e - 1])), word := e - 1, state := VARIABLE,
               nest := m.nest + 1, e := e + 1);
      Appended(m.r, s[m.word..e - 1], Subst(s[e - 1..], m.nest, env, flags));
    } else if s[e] == '$' {
      DoubleDollar(s, m, env, flags);
      m' := m.(r := Some(Strnappend(m.r, s[m.word..e])), word := e + 1, state := WORD, e := e + 1);
      Appended(m.r, s[m.word..e], Rest(s, m', env, flags));
    } else if flags.allowBraceless && ValidNameChar(s[e]) {
      m' := m.(r := Some(Strnappend(m.r, s[m.word..e - 1])), word := e - 1, state := VARIABLE_RAW, e := e + 1);
      Appended(m.r, s[m.word..e - 1], Subst(s[e - 1..], m.nest, env, flags));
    } else {
      DollarMeansNothing(s, m, env, flags);
      m' := m.(state := WORD, e := e + 1);
    }
  }

  method StepVariable(s: CString, m: Machine, env: Env, flags: Flags) returns (m': Machine)
    requires m.state.VARIABLE? && m.e < |s| && Inv(s, m, env, flags)
    ensures Inv(s, m', env, flags) && m'.e == m.e + 1
  {
    hide Subst, ValueRest;
    var e := m.e;
    if s[e] == '}' {
      BraceCloses(s, m, env, flags);
      var t := StrvEnvGetN(env.block, s[m.word + 2..e], flags.useEnvironment, env.environ);
      m' := m.(r := Some(Strjoin(m.r, t)), word := e + 1, state := WORD, e := e + 1);
      Joined(m.r, t, Rest(s, m', env, flags));
    } else if s[e] == ':' {
      if !flags.allowExtended {
        ColonUnsupported(s, m, env, flags);
        m' := m.(state := WORD, e := e + 1);
      } else {
        ColonExtended(s, m, env, flags);
        m' := m.(len := e - m.word - 2, state := TEST, e := e + 1);
      }
    } else {
      m' := m.(e := e + 1);
    }
  }

  method StepTest(s: CString, m: Machine, env: Env, flags: Flags) returns (m': Machine)
    requires m.state.TEST? && m.e < |s| && Inv(s, m, env, flags)
    ensures Inv(s, m', env, flags) && m'.e == m.e + 1
  {
    hide Subst, ValueRest;
    if s[m.e] == '-' {
      m' := m.(state := DEFAULT_VALUE, testValue := m.e + 1, e := m.e + 1);
    } else if s[m.e] == '+' {
      m' := m.(state := ALTERNATE_VALUE, testValue := m.e + 1, e := m.e + 1);
    } else {
      m' := m.(state := WORD, e := m.e + 1);
    }
  }

  method StepRaw(s: CString, m: Machine, env: Env, flags: Flags) returns (m': Machine)
    requires m.state.VARIABLE_RAW? && m.e < |s| && Inv(s, m, env, flags)
    ensures Inv(s, m', env, flags)
    ensures m'.e == m.e + 1 || (m'.e == m.e && m'.state.WORD?)
  {
    hide Subst;
    var e := m.e;
    if !ValidNameChar(s[e]) {
      NameStops(s, m, env, flags);
      var t := StrvEnvGetN(env.block, s[m.word + 1..e], flags.useEnvironment, env.environ);
      // The cursor goes back one character and the loop advances it again: the same character is read in WORD.
      m' := m.(r := Some(Strjoin(m.r, t)), word := e, state := WORD);
      Joined(m.r, t, Rest(s, m', env, flags));
    } else {
      m' := m.(e := e + 1);
    }
  }

  /** The default or alternate text is itself substituted; it is strictly shorter than the whole. */
  method StepValue(s: CString, m: Machine, env: Env, flags: Flags) returns (m': Machine)
    requires (m.state.DEFAULT_VALUE? || m.state.ALTERNATE_VALUE?) && m.e < |s| && Inv(s, m, env, flags)
    ensures Inv(s, m', env, flags) && m'.e == m.e + 1
    decreases |s|, 0
  {
    hide Subst, ValueRest, Chosen;
    var e := m.e;
    if s[e] == '{' {
      m' := m.(nest := m.nest + 1, e := e + 1);
      ValueGoesOn(s, m, m'.nest, m.state.ALTERNATE_VALUE?, env, flags);
    } else if s[e] != '}' {
      m' := m.(e := e + 1);
      ValueGoesOn(s, m, m'.nest, m.state.ALTERNATE_VALUE?, env, flags);
    } else if m.nest - 1 != 0 {
      m' := m.(nest := m.nest - 1, e := e + 1);
      ValueGoesOn(s, m, m'.nest, m.state.ALTERNATE_VALUE?, env, flags);
    } else {
      ValueCloses(s, m, m.state.ALTERNATE_VALUE?, env, flags);
      var t := Choose(s, m, env, flags);
      m' := m.(r := Some(Strjoin(m.r, t)), word := e + 1, state := WORD, nest := m.nest - 1, e := e + 1);
      Joined(m.r, t, Rest(s, m', env, flags));
    }
  }

  method Choose(s: CString, m: Machine, env: Env, flags: Flags) returns (t: Option<CString>)
    requires (m.state.DEFAULT_VALUE? || m.state.ALTERNATE_VALUE?) && m.e < |s| && Shape(s, m, flags)
    ensures Text(t)
         == Chosen(env, s[m.word + 2..m.word + 2 + m.len], m.state.ALTERNATE_VALUE?, s[m.testValue..m.e], flags)
    decreases m.e, 2
  {
    hide Subst;
    t := StrvEnvGetN(env.block, s[m.word + 2..m.word + 2 + m.len], flags.useEnvironment, env.environ);
    if t.Some? == m.state.ALTERNATE_VALUE? {
      assert s[m.testValue..][..m.e - m.testValue] == s[m.testValue..m.e];
      var v := ReplaceEnvN(s[m.testValue..], m.e - m.testValue, env, flags);
      t := Some(v);
    }
  }

  /** replace_env_n terminates and computes the substitution for every text and every combination of flags. */
  method ReplaceEnvN(format: CString, n: nat, env: Env, flags: Flags) returns (ret: CString)
    ensures ret == Subst(format[..Min(n, |format|)], 0, env, flags)
    decreases Min(n, |format|), 1
  {
    var s := format[..Min(n, |format|)];
    var m := Machine(WORD, None, 0, 0, 0, 0, 0);
    assert Inv(s, m, env, flags) by {
      assert s[0..] == s && s[0..0] == [];
      assert [] + ([] + Subst(s, 0, env, flags)) == Subst(s, 0, env, flags);
    }
    hide Subst, Inv;
    while m.e < |s|
      invariant m.e <= |s| && Inv(s, m, env, flags)
      decreases |s| - m.e, if m.state.VARIABLE_RAW? then 1 else 0
    {
      match m.state
      case WORD => m := StepWord(s, m, env, flags);
      case CURLY => m := StepCurly(s, m, env, flags);
      case VARIABLE => m := StepVariable(s, m, env, flags);
      case TEST => m := StepTest(s, m, env, flags);
      case DEFAULT_VALUE => m := StepValue(s, m, env, flags);
      case ALTERNATE_VALUE => m := StepValue(s, m, env, flags);
      case VARIABLE_RAW => m := StepRaw(s, m, env, flags);
    }
    ret := Finish(s, m, env, flags);
  }

  method Finish(s: CString, m: Machine, env: Env, flags: Flags) returns (ret: CString)
    requires m.e == |s| && Inv(s, m, env, flags)
    ensures ret == Subst(s, 0, env, flags)
  {
    hide Subst, Chosen, Close;
    if m.state.VARIABLE_RAW? {
      NameStops(s, m, env, flags);
      var t := StrvEnvGetN(env.block, s[m.word + 1..m.e], flags.useEnvironment, env.environ);
      EndCopies(s, m.(state := WORD, word := m.e), env, flags);
      Joined(m.r, t, []);
      ret := Strjoin(m.r, t);
      assert ret + [] == ret;
    } else {
      EndCopies(s, m, env, flags);
      assert s[m.word..m.e] == s[m.word..];
      Appended(m.r, s[m.word..m.e], []);
      ret := Strnappend(m.r, s[m.word..m.e]);
      assert ret + [] == ret && s[m.word..] + [] == s[m.word..];
    }
  }
}
