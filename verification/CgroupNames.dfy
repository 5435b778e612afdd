/** Which names are units, which are escaped, and how the path of a slice grows with its name. */
module CgroupNames {
  import opened Basics
  import opened CgroupPath

  // ---------------------------------------------------------------- unit names

  predicate AllValid(s: string) { forall i | 0 <= i < |s| :: ValidChar(s[i]) }

  /** What may stand after the at sign of an instance. */
  predicate AllValidOrAt(s: string) { forall i | 0 <= i < |s| :: s[i] == '@' || ValidChar(s[i]) }

  lemma TypeHasNoDot(t: string)
    requires t in UNIT_TYPES
    ensures '.' !in t && |t| >= 4
  {
    var i :| 0 <= i < |UNIT_TYPES| && UNIT_TYPES[i] == t;
    TypeNoDot(i);
  }

  lemma TypeNoDot(i: nat)
    requires i < |UNIT_TYPES|
    ensures '.' !in UNIT_TYPES[i] && |UNIT_TYPES[i]| >= 4
  {}

  lemma LastDot(p: string, t: string)
    requires '.' !in t
    ensures FindLast(p + "." + t, '.') == |p| && (p + "." + t)[..|p|] == p && (p + "." + t)[|p| + 1..] == t
  {
    hide FindLast;
    AfterPrefix(p, "." + t);
    assert p + ("." + t) == p + "." + t && ("." + t)[1..] == t;
    LastIsUnique(p + "." + t, '.', |p|);
  }

  lemma {:induction false} FirstIsUnique(s: string, c: char, k: nat)
    requires k <= |s| && c !in s[..k] && (k < |s| ==> s[k] == c)
    ensures Find(s, c) == k
  {
    if k > 0 {
      assert s[..k][0] == s[0] && s[1..][..k - 1] == s[..k][1..];
      FirstIsUnique(s[1..], c, k - 1);
    }
  }

  /** A plain unit is a non-empty word of the allowed characters, a dot and a type. */
  lemma PlainUnitIff(p: string, t: string)
    requires t in UNIT_TYPES
    ensures UnitNameIsValid(p + "." + t, false) <==> p != "" && |p| + 1 + |t| < UNIT_NAME_MAX && AllValid(p)
  {
    TypeHasNoDot(t);
    LastDot(p, t);
    var n := p + "." + t;
    assert forall i | 0 <= i < |p| :: n[i] == p[i];
    var at := Find(p, '@');
    if at == |p| {
      assert p[..at] == p;
      assert forall i | 0 <= i < |p| :: p[i] in p;
    } else {
      assert !ValidChar(p[at]);
    }
  }

  /** An instance has a non-empty prefix of the allowed characters, an at sign and a non-empty instance. */
  lemma InstanceUnitIff(x: string, y: string, t: string)
    requires t in UNIT_TYPES && '@' !in x
    ensures UnitNameIsValid(x + "@" + y + "." + t, true) <==>
              x != "" && y != "" && |x| + |y| + 2 + |t| < UNIT_NAME_MAX && AllValid(x) && AllValidOrAt(y)
  {
    TypeHasNoDot(t);
    var p := x + "@" + y;
    LastDot(p, t);
    var n := p + "." + t;
    assert p[..|x|] == x && p[|x|] == '@';
    FirstIsUnique(p, '@', |x|);
    assert forall i | 0 <= i < |p| :: n[i] == p[i];
    assert forall i | 0 <= i < |x| :: p[i] == x[i] && p[i] in x;
    assert forall i | 0 <= i < |y| :: p[|x| + 1 + i] == y[i];
    hide FindLast, Find;
    if AllValid(x) && AllValidOrAt(y) {
      assert forall i | 0 <= i < |p| :: p[i] == '@' || ValidChar(p[i]);
    }
  }

  // ---------------------------------------------------------------- escaping

  /** An attribute of the controller c: its name, a dot and a word without one. */
  predicate AttributeOf(c: string, p: string) {
    c + "." <= p && '.' !in p[|c| + 1..]
  }

  predicate IsAttribute(p: string) {
    exists c | c in CONTROLLERS :: AttributeOf(c, p)
  }

  lemma AttributeOfIff(c: string, p: string)
    ensures AttributeOf(c, p) <==> FindLast(p, '.') < |p| && p[..FindLast(p, '.')] == c
  {
    hide FindLast;
    var l := FindLast(p, '.');
    if l < |p| && p[..l] == c {
      assert p[..l + 1] == c + ".";
    }
    if AttributeOf(c, p) {
      assert p[..|c| + 1] == c + ".";
      assert p[|c|] == '.' && p[..|c|] == c;
      LastIsUnique(p, '.', |c|);
    }
  }

  lemma AttributeIff(p: string)
    ensures IsAttribute(p) <==> FindLast(p, '.') < |p| && p[..FindLast(p, '.')] in CONTROLLERS
  {
    hide FindLast, AttributeOf;
    var l := FindLast(p, '.');
    AttributeOfIff(p[..l], p);
    forall c | c in CONTROLLERS ensures AttributeOf(c, p) ==> l < |p| && p[..l] == c {
      AttributeOfIff(c, p);
    }
  }

  /** A name is kept exactly if it is neither empty, hidden, escaped already, nor a file of the kernel's. */
  lemma EscapedKeepsIff(p: string)
    ensures Escaped(p) == p <==>
              && p != "" && p[0] != '_' && p[0] != '.' && p !in {"notify_on_release", "release_agent", "tasks"}
              && !("cgroup." <= p) && !IsAttribute(p)
    ensures Escaped(p) == p || Escaped(p) == "_" + p
  {
    AttributeIff(p);
    hide FindLast, IsAttribute;
    assert |"_" + p| == |p| + 1;
  }

  lemma HeadOfPrefix(a: string, b: string)
    ensures a != "" && a <= b ==> b != "" && a[0] == b[0]
  {}

  lemma EscapedIsNotOf(c: string, p: string)
    requires c != "" && c[0] != '_'
    ensures !AttributeOf(c, "_" + p)
  {
    HeadOfPrefix(c + ".", "_" + p);
  }

  lemma FirstLetter(i: nat)
    requires i < |CONTROLLERS|
    ensures CONTROLLERS[i] != "" && CONTROLLERS[i][0] != '_'
  {}

  /** No escaped name is the attribute of a controller. */
  lemma EscapedIsNoAttribute(p: string)
    ensures !IsAttribute(Escaped(p))
  {
    AttributeIff(p);
    hide AttributeOf;
    forall c | c in CONTROLLERS ensures !AttributeOf(c, "_" + p) {
      var i :| 0 <= i < |CONTROLLERS| && CONTROLLERS[i] == c;
      FirstLetter(i);
      EscapedIsNotOf(c, p);
    }
  }

  // ---------------------------------------------------------------- the path of a slice

  lemma NoDash(p: string, i: nat)
    requires i <= |p| && '-' !in p[i..]
    ensures Chain(p, i) == Ok("")
  {
    hide UnitNameIsValid, Escaped;
  }

  /** A slice without dashes lies directly below the root. */
  lemma TopSlice(p: string)
    requires UnitNameIsValid(p + SLICE, false) && '-' !in p
    ensures SlicePath(p + SLICE) == Ok(Escaped(p + SLICE))
  {
    hide UnitNameIsValid, Escaped, Chain, FindLast;
    LastDotOfSlice(p);
    PlainSliceIff(p);
    assert p[0..] == p;
    NoDash(p, 0);
    assert "" + Escaped(p + SLICE) == Escaped(p + SLICE);
    assert (p + SLICE)[0] == p[0] && p[0] in p;
  }

  lemma SameDash(p: string, q: string, i: nat)
    requires i <= |p|
    ensures Find((p + "-" + q)[i..], '-') == Find(p[i..], '-')
  {
    var n := Find(p[i..], '-');
    var u := (p + "-" + q)[i..];
    assert u == p[i..] + ("-" + q);
    assert u[..n] == p[i..][..n];
    assert u[n] == '-';
    FirstIsUnique(u, '-', n);
  }

  /** The chain of a longer name is that of the shorter one, and the shorter one itself. */
  lemma {:induction false} ChainGrows(p: string, q: string, i: nat)
    requires i <= |p| && Chain(p, i).Ok? && UnitNameIsValid(p + SLICE, false)
    requires q != "" && '-' !in q
    ensures Chain(p + "-" + q, i) == Ok(Chain(p, i).value + (Escaped(p + SLICE) + "/"))
    decreases |p| - i
  {
    hide UnitNameIsValid, Escaped, Chain, Find;
    var u := p + "-" + q;
    var d := i + Find(p[i..], '-');
    SameDash(p, q, i);
    ChainStep(p, i, d);
    ChainStep(u, i, d);
    assert u[..d] == p[..d];
    if d == |p| {
      assert u[d + 1..] == q && u[d + 1] == q[0] && q[0] in q;
      NoDash(u, d + 1);
      PrependEnd(Escaped(p + SLICE) + "/");
      assert p[..d] == p && "" + (Escaped(p + SLICE) + "/") == Escaped(p + SLICE) + "/";
    } else {
      assert d + 1 < |p| ==> u[d + 1] == p[d + 1];
      ChainGrows(p, q, d + 1);
      Regroup(Escaped(p[..d] + SLICE) + "/", Chain(p, d + 1).value, Escaped(p + SLICE) + "/");
    }
  }

  lemma PathOf(p: string)
    requires UnitNameIsValid(p + SLICE, false) && p != "-"
    ensures SlicePath(p + SLICE).Ok? <==> p[0] != '-' && Chain(p, 0).Ok?
    ensures SlicePath(p + SLICE).Ok? ==> SlicePath(p + SLICE).value == Chain(p, 0).value + Escaped(p + SLICE)
  {
    hide UnitNameIsValid, Escaped, Chain, FindLast;
    LastDotOfSlice(p);
    PlainSliceIff(p);
    assert p + SLICE != ROOT_SLICE by {
      assert |p + SLICE| == |ROOT_SLICE| ==> |p| == 1 && (p + SLICE)[0] == p[0];
    }
  }

  /** The shorter name has well-placed dashes if the longer one has, and the other way round. */
  lemma DashesOfChild(p: string, q: string)
    requires p != "" && q != "" && '-' !in q
    ensures DashesApart(p + "-" + q) ==> DashesApart(p)
    ensures DashesApart(p) ==> DashesApart(p + "-" + q)
  {
    var u := p + "-" + q;
    assert forall i | 0 <= i < |p| :: u[i] == p[i];
    assert u[|p|] == '-';
    assert forall i | 0 <= i < |q| :: u[|p| + 1 + i] == q[i] && q[i] in q;
  }

  lemma ParentIsValid(p: string, q: string)
    requires UnitNameIsValid(p + "-" + q + SLICE, false) && p != ""
    ensures UnitNameIsValid(p + SLICE, false)
  {
    hide UnitNameIsValid, ValidChar;
    var u := p + "-" + q;
    PlainSliceIff(u);
    PlainSliceIff(p);
    assert forall i | 0 <= i < |p| :: u[i] == p[i];
  }

  /**
    * A slice named after another and one more word has a path exactly if the other has one, and lies
    * directly below it.
    */
  lemma ChildSlice(p: string, q: string)
    requires UnitNameIsValid(p + "-" + q + SLICE, false) && p != "" && p != "-" && q != "" && '-' !in q
    ensures SlicePath(p + "-" + q + SLICE).Ok? <==> SlicePath(p + SLICE).Ok?
    ensures SlicePath(p + SLICE).Ok? ==>
              SlicePath(p + "-" + q + SLICE).value == SlicePath(p + SLICE).value + "/" + Escaped(p + "-" + q + SLICE)
  {
    hide UnitNameIsValid, Escaped, Chain, SlicePath, DashesApart;
    var u := p + "-" + q;
    ParentIsValid(p, q);
    PathOf(p);
    PathOf(u);
    HasPath(p);
    HasPath(u);
    DashesOfChild(p, q);
    if Chain(p, 0).Ok? {
      ChainGrows(p, q, 0);
      Rejoin(Chain(p, 0).value, Escaped(p + SLICE), Escaped(u + SLICE));
    }
  }

  lemma HasPath(p: string)
    requires UnitNameIsValid(p + SLICE, false) && p != "-"
    ensures SlicePath(p + SLICE).Ok? <==> DashesApart(p)
  {
    hide UnitNameIsValid, SlicePath, DashesApart;
    assert p + SLICE != ROOT_SLICE by {
      assert |p + SLICE| == |ROOT_SLICE| ==> |p| == 1 && (p + SLICE)[0] == p[0];
    }
    ProperSliceHasPathIff(p, p + SLICE);
  }

  lemma Rejoin(a: string, b: string, c: string)
    ensures a + (b + "/") + c == a + b + "/" + c
  {}
}
