/** Splitting at every separator, as for lists such as search paths, undoes joining. */
module SeparatedWords {
  import opened Basics
  import opened Escape
  import opened ExtractWord

  /** EXTRACT_DONT_COALESCE_SEPARATORS and EXTRACT_RETAIN_ESCAPE. */
  const EVERY := Flags(false, false, false, false, true, true)

  /** The words with the separator between neighbours. */
  function Join(words: seq<seq<Byte>>, sep: Byte): seq<Byte> {
    if words == [] then []
    else if |words| == 1 then words[0]
    else words[0] + [sep] + Join(words[1..], sep)
  }

  /** Calling extract_first_word until it returns 0; None if some call fails. */
  function Fields(s: seq<Byte>, p: Option<nat>, sep: Byte): Option<seq<seq<Byte>>>
    requires p.Some? ==> p.value <= |s|
    decreases if p.Some? then |s| - p.value + 1 else 0
  {
    match Extract(s, p, [sep], EVERY)
    case Finished => Some([])
    case Word(text, next) =>
      var rest := Fields(s, next, sep);
      if rest.Some? then Some([text] + rest.value) else None
    case _ => None
  }

  /** A run without the separator is scanned into the word. */
  lemma {:induction false} ScanRun(s: seq<Byte>, i: nat, w: seq<Byte>, out: seq<Byte>, sep: Byte)
    requires i + |w| <= |s| && s[i..i + |w|] == w && sep !in w
    ensures Scan(s, i, NUL, false, out, [sep], EVERY) == Scan(s, i + |w|, NUL, false, out + w, [sep], EVERY)
    decreases |w|
  {
    if w == [] {
      assert out + w == out;
    } else {
      assert s[i] == w[0] && w[0] in w;
      assert s[i + 1..i + 1 + |w[1..]|] == w[1..];
      ScanRun(s, i + 1, w[1..], out + [w[0]], sep);
      assert out + [w[0]] + w[1..] == out + w;
    }
  }

  /** One word: up to the separator behind it, or up to the end. */
  lemma OneField(s: seq<Byte>, i: nat, w: seq<Byte>, sep: Byte)
    requires i + |w| <= |s| && s[i..i + |w|] == w && sep !in w
    requires i + |w| < |s| ==> s[i + |w|] == sep
    ensures Extract(s, Some(i), [sep], EVERY) == Word(w, if i + |w| == |s| then None else Some(i + |w| + 1))
  {
    var k := i + |w|;
    if w == [] {
      assert sep in [sep];
    } else {
      assert s[i] == w[0] && w[0] in w;
      ScanRun(s, i, w, [], sep);
      assert [] + w == w;
    }
  }

  lemma NoneIsEnd(s: seq<Byte>, sep: Byte)
    ensures Fields(s, None, sep) == Some([])
  {}

  lemma {:induction false} FieldsFrom(s: seq<Byte>, i: nat, words: seq<seq<Byte>>, sep: Byte)
    requires i <= |s| && s[i..] == Join(words, sep)
    requires words != [] && forall w | w in words :: sep !in w
    ensures Fields(s, Some(i), sep) == Some(words)
    decreases |words|
  {
    hide Extract;
    var w := words[0];
    var t := s[i..];
    assert w in words && t[..|w|] == w;
    assert s[i..i + |w|] == t[..|w|];
    if |words| == 1 {
      OneField(s, i, w, sep);
      NoneIsEnd(s, sep);
      var none: seq<seq<Byte>> := [];
      assert i + |w| == |s| && words == [w] + none;
    } else {
      assert s[i + |w|] == t[|w|] == sep;
      assert s[i + |w| + 1..] == t[|w| + 1..] == Join(words[1..], sep);
      OneField(s, i, w, sep);
      FieldsFrom(s, i + |w| + 1, words[1..], sep);
      assert words == [w] + words[1..];
    }
  }

  /** Every non-empty list of words free of the separator comes back, empty words included. */
  lemma SplitUndoesJoin(words: seq<seq<Byte>>, sep: Byte)
    requires words != [] && forall w | w in words :: sep !in w
    ensures Fields(Join(words, sep), Some(0), sep) == Some(words)
  {
    assert Join(words, sep)[0..] == Join(words, sep);
    FieldsFrom(Join(words, sep), 0, words, sep);
  }
}
