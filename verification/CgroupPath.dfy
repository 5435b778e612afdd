/**
  * Unit names as paths in the cgroup tree (cgroup-util.c): escaping against kernel names, the path of
  * a slice as the chain of its dash prefixes, and reading slice and unit back from a path.
  */
module CgroupPath {
  import opened Basics

  const ENXIO: nat := 6
  const EINVAL: nat := 22
  const UNIT_NAME_MAX: nat := 256
  const ROOT_SLICE: string := "-.slice"
  const SLICE: string := ".slice"

  const CONTROLLERS: seq<string> :=
    ["cpu", "cpuacct", "cpuset", "io", "blkio", "memory", "devices", "pids", "bpf-firewall", "bpf-devices"]

  const UNIT_TYPES: seq<string> :=
    ["service", "socket", "target", "device", "mount", "automount", "swap", "timer", "path", "slice", "scope"]

  // ---------------------------------------------------------------- strings

  /** Where c first stands, the length if nowhere: strcspn of one character. */
  function Find(s: string, c: char): (n: nat)
    ensures n <= |s| && c !in s[..n] && (n < |s| ==> s[n] == c)
  {
    if s == "" || s[0] == c then 0
    else
      var n := Find(s[1..], c);
      assert s[..n + 1] == [s[0]] + s[1..][..n];
      n + 1
  }

  /** Where c last stands, the length if nowhere. */
  function FindLast(s: string, c: char): (n: nat)
    ensures n <= |s| && (n == |s| ==> c !in s) && (n < |s| ==> s[n] == c && c !in s[n + 1..])
    decreases |s|
  {
    if s == "" then 0
    else if s[|s| - 1] == c then |s| - 1
    else
      var t := s[..|s| - 1];
      var n := FindLast(t, c);
      assert s == t + [s[|s| - 1]];
      if n == |t| then |s|
      else
        assert s[n + 1..] == t[n + 1..] + [s[|s| - 1]];
        n
  }

  /** strspn: the string after its leading slashes. */
  function SkipSlashes(s: string): (r: string)
    ensures |r| <= |s| && (r != "" ==> r[0] != '/')
  {
    if s != "" && s[0] == '/' then SkipSlashes(s[1..]) else s
  }

  predicate EndsWith(s: string, t: string) {
    |t| <= |s| && s[|s| - |t|..] == t
  }

  // ---------------------------------------------------------------- unit names

  predicate ValidChar(c: char) {
    '0' <= c <= '9' || 'a' <= c <= 'z' || 'A' <= c <= 'Z' || c in ":-_.\\"
  }

  /** unit_name_is_valid for UNIT_NAME_PLAIN and, if allowed, UNIT_NAME_INSTANCE. */
  predicate UnitNameIsValid(n: string, instance: bool) {
    && 0 < |n| < UNIT_NAME_MAX
    && var e := FindLast(n, '.');
    && 0 < e < |n|
    && n[e + 1..] in UNIT_TYPES
    && (forall i | 0 <= i < e :: n[i] == '@' || ValidChar(n[i]))
    && var at := Find(n[..e], '@');
    && at != 0
    && (at == e || (instance && e > at + 1))
  }

  predicate IsSlice(n: string) { EndsWith(n, SLICE) }

  lemma {:induction false} LastIsUnique(s: string, c: char, k: nat)
    requires k < |s| && s[k] == c && c !in s[k + 1..]
    ensures FindLast(s, c) == k
    decreases |s|
  {
    if k < |s| - 1 {
      var t := s[..|s| - 1];
      assert s[k + 1..][|s| - k - 2] == s[|s| - 1];
      assert s[k + 1..] == t[k + 1..] + [s[|s| - 1]];
      LastIsUnique(t, c, k);
    }
  }

  lemma AfterPrefix(p: string, t: string)
    requires t != ""
    ensures (p + t)[..|p|] == p && (p + t)[|p|] == t[0] && (p + t)[|p| + 1..] == t[1..]
  {}

  lemma SliceLiteral()
    ensures |SLICE| == 6 && SLICE[0] == '.' && SLICE[1..] == "slice" && '.' !in SLICE[1..]
  {}

  lemma LastDotOfSlice(p: string)
    ensures FindLast(p + SLICE, '.') == |p| && (p + SLICE)[..|p|] == p && (p + SLICE)[|p| + 1..] == "slice"
  {
    hide FindLast;
    SliceLiteral();
    AfterPrefix(p, SLICE);
    LastIsUnique(p + SLICE, '.', |p|);
  }

  lemma SliceSplit(n: string)
    requires IsSlice(n)
    ensures n == n[..|n| - 6] + SLICE
  {}

  /** A plain slice name is any non-empty string of the allowed characters before the suffix. */
  lemma PlainSliceIff(p: string)
    ensures UnitNameIsValid(p + SLICE, false) <==> 0 < |p| < UNIT_NAME_MAX - 6 && forall i | 0 <= i < |p| :: ValidChar(p[i])
  {
    LastDotOfSlice(p);
    var n := p + SLICE;
    assert "slice" == UNIT_TYPES[9];
    assert forall i | 0 <= i < |p| :: n[i] == p[i];
    if UnitNameIsValid(n, false) {
      assert Find(p, '@') == |p|;
      assert '@' !in p[..|p|] && p[..|p|] == p;
      assert forall i | 0 <= i < |p| :: p[i] in p;
    } else if 0 < |p| < UNIT_NAME_MAX - 6 && forall i | 0 <= i < |p| :: ValidChar(p[i]) {
      assert Find(p, '@') < |p|;
    }
  }

  /** No valid name contains a slash, and each is longer than two characters. */
  lemma ValidNameShape(n: string, instance: bool)
    requires UnitNameIsValid(n, instance)
    ensures '/' !in n && |n| >= 6
  {
    var e := FindLast(n, '.');
    var i :| 0 <= i < |UNIT_TYPES| && UNIT_TYPES[i] == n[e + 1..];
    TypeShape(i);
    assert n == n[..e] + ['.'] + n[e + 1..];
  }

  lemma TypeShape(i: nat)
    requires i < |UNIT_TYPES|
    ensures '/' !in UNIT_TYPES[i] && |UNIT_TYPES[i]| >= 4
  {}

  // ---------------------------------------------------------------- escaping

  /** A name the kernel might use, or one that an unescaping would shorten. */
  predicate NeedsPrefix(p: string) {
    || p == "" || p[0] == '_' || p[0] == '.'
    || p == "notify_on_release" || p == "release_agent" || p == "tasks"
    || "cgroup." <= p
    || (FindLast(p, '.') < |p| && p[..FindLast(p, '.')] in CONTROLLERS)
  }

  function Escaped(p: string): (r: string)
    ensures r != "" && r[0] != '.' && r !in {"notify_on_release", "release_agent", "tasks"} && !("cgroup." <= r)
    ensures |p| <= |r| <= |p| + 1 && r[|r| - |p|..] == p
  {
    if NeedsPrefix(p) then "_" + p else p
  }

  function Unescaped(p: string): string {
    if p != "" && p[0] == '_' then p[1..] else p
  }

  /** Removing one underscore undoes the escaping of any name. */
  lemma UnescapeUndoesEscape(p: string)
    ensures Unescaped(Escaped(p)) == p
  {
    assert ("_" + p)[1..] == p;
  }

  lemma EscapedNoSlash(p: string)
    requires '/' !in p
    ensures '/' !in Escaped(p)
  {}

  method CgEscape(p: string) returns (r: string)
    ensures r == Escaped(p)
  {
    var needPrefix := false;
    if p == "" || p[0] == '_' || p[0] == '.' || p == "notify_on_release" || p == "release_agent" || p == "tasks"
       || "cgroup." <= p
    {
      needPrefix := true;
    } else {
      var l := FindLast(p, '.');
      if l < |p| {
        var c := 0;
        while c < |CONTROLLERS| && !needPrefix
          invariant 0 <= c <= |CONTROLLERS|
          invariant needPrefix ==> p[..l] in CONTROLLERS
          invariant !needPrefix ==> p[..l] !in CONTROLLERS[..c]
        {
          assert CONTROLLERS[..c + 1] == CONTROLLERS[..c] + [CONTROLLERS[c]];
          if l == |CONTROLLERS[c]| && p[..l] == CONTROLLERS[c] {
            needPrefix := true;
          }
          c := c + 1;
        }
        assert c == |CONTROLLERS| ==> CONTROLLERS[..c] == CONTROLLERS;
      }
    }
    return if needPrefix then "_" + p else p;
  }

  // ---------------------------------------------------------------- reading a path

  predicate ValidSliceName(c: string) {
    |c| >= 7 && EndsWith(c, SLICE) && UnitNameIsValid(Unescaped(c), false)
  }

  /** The first component of a path that starts with none or with a name. */
  function Component(p: string): string { p[..Find(p, '/')] }

  /** cg_path_decode_unit */
  function DecodeUnit(p: string): Result<string> {
    if Find(p, '/') < 3 then Err(ENXIO)
    else if !UnitNameIsValid(Unescaped(Component(p)), true) then Err(ENXIO)
    else Ok(Unescaped(Component(p)))
  }

  /** skip_slices */
  function SkipSlices(p: string): (r: string)
    ensures |r| <= |p|
    decreases |p|
  {
    var q := SkipSlashes(p);
    if ValidSliceName(Component(q)) then SkipSlices(q[Find(q, '/')..]) else q
  }

  /** cg_path_get_unit */
  function GetUnit(p: string): (r: Result<string>)
    ensures r.Ok? ==> UnitNameIsValid(r.value, true) && !IsSlice(r.value)
  {
    var unit := DecodeUnit(SkipSlices(p));
    if unit.Ok? && EndsWith(unit.value, SLICE) then Err(ENXIO) else unit
  }

  /** cg_path_get_slice, e the path from the last slice seen. */
  function LastSlice(p: string, e: Option<string>): Result<string>
    decreases |p|
  {
    var q := SkipSlashes(p);
    if ValidSliceName(Component(q)) then LastSlice(q[Find(q, '/')..], Some(q))
    else if e.None? then Ok(ROOT_SLICE)
    else DecodeUnit(e.value)
  }

  method CgSkipSlices(path: string) returns (p: string)
    ensures p == SkipSlices(path)
  {
    p := path;
    while true
      invariant SkipSlices(p) == SkipSlices(path)
      decreases |p|
    {
      p := SkipSlashes(p);
      var n := Find(p, '/');
      SkipIdempotent(p);
      if !ValidSliceName(p[..n]) {
        return;
      }
      p := p[n..];
    }
  }

  lemma SkipIdempotent(p: string)
    requires p != "" ==> p[0] != '/'
    ensures SkipSlashes(p) == p
  {}

  method CgPathGetSlice(path: string) returns (slice: Result<string>)
    ensures slice == LastSlice(path, None)
  {
    var p := path;
    var e: Option<string> := None;
    while true
      invariant LastSlice(p, e) == LastSlice(path, None)
      decreases |p|
    {
      p := SkipSlashes(p);
      var n := Find(p, '/');
      SkipIdempotent(p);
      if !ValidSliceName(p[..n]) {
        return if e.None? then Ok(ROOT_SLICE) else DecodeUnit(e.value);
      }
      e := Some(p);
      p := p[n..];
    }
  }

  // ---------------------------------------------------------------- the path of a slice

  /** The components for the dashes of p from position i on, each with its slash. */
  function Chain(p: string, i: nat): (r: Result<string>)
    requires i <= |p|
    decreases |p| - i
  {
    var d := i + Find(p[i..], '-');
    if d == |p| then Ok("")
    else if d + 1 == |p| || p[d + 1] == '-' then Err(EINVAL)
    else if !UnitNameIsValid(p[..d] + SLICE, false) then Err(EINVAL)
    else
      match Chain(p, d + 1)
      case Err(e) => Err(e)
      case Ok(rest) => Ok(Escaped(p[..d] + SLICE) + "/" + rest)
  }

  /** cg_slice_to_path */
  function SlicePath(unit: string): Result<string> {
    if unit == ROOT_SLICE then Ok("")
    else if !UnitNameIsValid(unit, false) then Err(EINVAL)
    else if !EndsWith(unit, SLICE) then Err(EINVAL)
    else
      var p := unit[..FindLast(unit, '.')];
      if p[0] == '-' then Err(EINVAL)
      else
        match Chain(p, 0)
        case Err(e) => Err(e)
        case Ok(rest) => Ok(rest + Escaped(unit))
  }

  /** The path found so far in front of what is still to come. */
  function Prepend(s: string, r: Result<string>): Result<string> {
    if r.Err? then r else Ok(s + r.value)
  }

  lemma PrependNothing(r: Result<string>)
    ensures Prepend("", r) == r
  {
    if r.Ok? {
      assert "" + r.value == r.value;
    }
  }

  lemma PrependEnd(s: string)
    ensures Prepend(s, Ok("")) == Ok(s)
    ensures Prepend(s, Err(EINVAL)) == Err(EINVAL)
  {
    assert s + "" == s;
  }

  lemma ChainStep(p: string, i: nat, d: nat)
    requires i <= |p| && d == i + Find(p[i..], '-')
    ensures d == |p| ==> Chain(p, i) == Ok("")
    ensures d < |p| && (d + 1 == |p| || p[d + 1] == '-' || !UnitNameIsValid(p[..d] + SLICE, false))
            ==> Chain(p, i) == Err(EINVAL)
    ensures d + 1 < |p| && p[d + 1] != '-' && UnitNameIsValid(p[..d] + SLICE, false)
            ==> Chain(p, i) == Prepend(Escaped(p[..d] + SLICE) + "/", Chain(p, d + 1))
  {
    hide UnitNameIsValid, Escaped, Find;
  }

  lemma PrependTwice(s: string, t: string, r: Result<string>)
    ensures Prepend(s, Prepend(t, r)) == Prepend(s + t, r)
  {
    if r.Ok? {
      assert s + (t + r.value) == s + t + r.value;
    }
  }

  method CgSliceToPath(unit: string) returns (r: Result<string>)
    ensures r == SlicePath(unit)
  {
    if unit == ROOT_SLICE {
      return Ok("");
    }
    if !UnitNameIsValid(unit, false) || !EndsWith(unit, SLICE) {
      return Err(EINVAL);
    }
    var p := unit[..FindLast(unit, '.')];
    if p[0] == '-' {
      return Err(EINVAL);
    }
    var chain := DashLoop(p);
    if chain.Err? {
      return chain;
    }
    var e := CgEscape(unit);
    return Ok(chain.value + e);
  }

  method DashLoop(p: string) returns (r: Result<string>)
    ensures r == Chain(p, 0)
  {
    hide UnitNameIsValid, Escaped, Prepend, Chain, Find;
    var s, i := "", 0;
    var dash := Find(p, '-');
    assert p[0..] == p;
    PrependEnd(s);
    PrependNothing(Chain(p, 0));
    while dash < |p|
      invariant 0 <= i <= |p| && dash == i + Find(p[i..], '-')
      invariant Prepend(s, Chain(p, i)) == Chain(p, 0)
      decreases |p| - i
    {
      PrependEnd(s);
      ChainStep(p, i, dash);
      if dash + 1 == |p| || p[dash + 1] == '-' {
        return Err(EINVAL);
      }
      var n := p[..dash] + SLICE;
      if !UnitNameIsValid(n, false) {
        return Err(EINVAL);
      }
      var escaped := CgEscape(n);
      PrependTwice(s, escaped + "/", Chain(p, dash + 1));
      s := s + (escaped + "/");
      i := dash + 1;
      dash := i + Find(p[i..], '-');
    }
    ChainStep(p, i, dash);
    PrependEnd(s);
    return Ok(s);
  }

  // ---------------------------------------------------------------- round trips

  /** A rest of a path that no slice begins. */
  predicate Stops(tail: string) {
    (tail == "" || tail[0] == '/') && !ValidSliceName(Component(SkipSlashes(tail)))
  }

  lemma {:induction false} ComponentOf(name: string, tail: string)
    requires '/' !in name && (tail == "" || tail[0] == '/')
    ensures Find(name + tail, '/') == |name| && Component(name + tail) == name && (name + tail)[|name|..] == tail
  {
    if name == "" {
      assert name + tail == tail;
    } else {
      assert (name + tail)[1..] == name[1..] + tail;
      ComponentOf(name[1..], tail);
    }
  }

  lemma SkipName(name: string, tail: string)
    requires name != "" && '/' !in name
    ensures SkipSlashes(name + tail) == name + tail
  {
    SkipIdempotent(name + tail);
  }

  lemma SlashSkipped(x: string)
    ensures SkipSlashes("/" + x) == SkipSlashes(x)
  {
    assert ("/" + x)[1..] == x;
  }

  lemma SameEnd(r: string, n: string)
    requires 6 <= |n| <= |r| && r[|r| - |n|..] == n
    ensures IsSlice(r) <==> IsSlice(n)
  {
    assert r[|r| - 6..] == r[|r| - |n|..][|n| - 6..];
  }

  /** An escaped plain slice name is a valid component that decodes to itself. */
  lemma EscapedSlice(n: string)
    requires UnitNameIsValid(n, false) && IsSlice(n)
    ensures ValidSliceName(Escaped(n)) && '/' !in Escaped(n) && Escaped(n) != ""
  {
    hide UnitNameIsValid, Unescaped;
    ValidNameShape(n, false);
    EscapedNoSlash(n);
    UnescapeUndoesEscape(n);
    SliceSplit(n);
    PlainSliceIff(n[..|n| - 6]);
    hide Escaped;
    SameEnd(Escaped(n), n);
  }

  /** Any escaped valid name decodes to itself, and only slices look like slices. */
  lemma EscapedUnit(u: string, tail: string)
    requires UnitNameIsValid(u, true) && (tail == "" || tail[0] == '/')
    ensures DecodeUnit(Escaped(u) + tail) == Ok(u) && '/' !in Escaped(u) && Escaped(u) != ""
    ensures !IsSlice(u) ==> !ValidSliceName(Escaped(u))
  {
    hide UnitNameIsValid, Unescaped;
    ValidNameShape(u, true);
    EscapedNoSlash(u);
    UnescapeUndoesEscape(u);
    ComponentOf(Escaped(u), tail);
    hide Escaped;
    SameEnd(Escaped(u), u);
  }

  /** Both readers step over a slice component. */
  lemma StepOver(n: string, tail: string, e: Option<string>)
    requires UnitNameIsValid(n, false) && IsSlice(n) && (tail == "" || tail[0] == '/')
    ensures LastSlice(Escaped(n) + tail, e) == LastSlice(tail, Some(Escaped(n) + tail))
    ensures SkipSlices(Escaped(n) + tail) == SkipSlices(tail)
  {
    EscapedSlice(n);
    ComponentOf(Escaped(n), tail);
    SkipName(Escaped(n), tail);
    hide Escaped, UnitNameIsValid, SkipSlashes;
  }

  lemma OverSlash(x: string, e: Option<string>)
    ensures LastSlice("/" + x, e) == LastSlice(x, e) && SkipSlices("/" + x) == SkipSlices(x)
  {
    SlashSkipped(x);
    hide SkipSlashes, ValidSliceName;
  }

  /** Both readers step over the whole chain of prefixes. */
  lemma {:induction false} OverChain(p: string, i: nat, rest: string, e: Option<string>) returns (e': Option<string>)
    requires i <= |p| && Chain(p, i).Ok?
    ensures LastSlice(Chain(p, i).value + rest, e) == LastSlice(rest, e')
    ensures SkipSlices(Chain(p, i).value + rest) == SkipSlices(rest)
    decreases |p| - i
  {
    hide Escaped, UnitNameIsValid, LastSlice, SkipSlices, Chain;
    var d := ChainParts(p, i);
    if d == |p| {
      assert "" + rest == rest;
      e' := e;
    } else {
      var n, more := p[..d] + SLICE, Chain(p, d + 1).value;
      e' := OverChain(p, d + 1, rest, Some(Escaped(n) + ("/" + (more + rest))));
      OverOne(n, more, rest, e);
    }
  }

  lemma ChainParts(p: string, i: nat) returns (d: nat)
    requires i <= |p| && Chain(p, i).Ok?
    ensures i <= d <= |p|
    ensures d == |p| ==> Chain(p, i).value == ""
    ensures d < |p| ==> UnitNameIsValid(p[..d] + SLICE, false) && Chain(p, d + 1).Ok?
    ensures d < |p| ==> Chain(p, i).value == Escaped(p[..d] + SLICE) + "/" + Chain(p, d + 1).value
    ensures IsSlice(p[..d] + SLICE)
  {
    hide Escaped, UnitNameIsValid;
    d := i + Find(p[i..], '-');
  }

  /** One prefix component and its slash, in front of the others. */
  lemma OverOne(n: string, more: string, rest: string, e: Option<string>)
    requires UnitNameIsValid(n, false) && IsSlice(n)
    ensures LastSlice(Escaped(n) + "/" + more + rest, e) == LastSlice(more + rest, Some(Escaped(n) + ("/" + (more + rest))))
    ensures SkipSlices(Escaped(n) + "/" + more + rest) == SkipSlices(more + rest)
  {
    hide Escaped, UnitNameIsValid, LastSlice, SkipSlices;
    Regroup(Escaped(n) + "/", more, rest);
    Regroup(Escaped(n), "/", more + rest);
    StepOver(n, "/" + (more + rest), e);
    OverSlash(more + rest, Some(Escaped(n) + ("/" + (more + rest))));
  }

  lemma StopsThere(tail: string, e: string)
    requires Stops(tail)
    ensures LastSlice(tail, Some(e)) == DecodeUnit(e) && LastSlice(tail, None) == Ok(ROOT_SLICE)
    ensures SkipSlices(tail) == SkipSlashes(tail)
  {
    hide ValidSliceName, SkipSlashes, DecodeUnit;
  }

  lemma SlicePathParts(slice: string) returns (p: string)
    requires SlicePath(slice).Ok? && slice != ROOT_SLICE
    ensures UnitNameIsValid(slice, false) && IsSlice(slice)
    ensures Chain(p, 0).Ok? && SlicePath(slice).value == Chain(p, 0).value + Escaped(slice)
  {
    p := slice[..FindLast(slice, '.')];
    hide Escaped, Chain;
  }

  /** The slice comes back from its path, whatever follows that is not a slice. */
  lemma SliceRoundTrip(slice: string, path: string, tail: string)
    requires SlicePath(slice) == Ok(path) && Stops(tail)
    ensures LastSlice(path + tail, None) == Ok(slice)
    ensures SkipSlices(path + tail) == SkipSlashes(tail)
  {
    if slice == ROOT_SLICE {
      assert path + tail == tail;
      StopsThere(tail, "");
    } else {
      ProperSliceRoundTrip(slice, tail);
    }
  }

  lemma ProperSliceRoundTrip(slice: string, tail: string)
    requires SlicePath(slice).Ok? && slice != ROOT_SLICE && Stops(tail)
    ensures LastSlice(SlicePath(slice).value + tail, None) == Ok(slice)
    ensures SkipSlices(SlicePath(slice).value + tail) == SkipSlashes(tail)
  {
    hide Escaped, UnitNameIsValid, ValidSliceName, SkipSlashes, DecodeUnit, SlicePath, Chain, LastSlice, SkipSlices;
    var p := SlicePathParts(slice);
    Regroup(Chain(p, 0).value, Escaped(slice), tail);
    var e := OverChain(p, 0, Escaped(slice) + tail, None);
    StepOver(slice, tail, e);
    StopsThere(tail, Escaped(slice) + tail);
    PlainIsInstance(slice);
    EscapedUnit(slice, tail);
  }

  lemma PlainIsInstance(n: string)
    requires UnitNameIsValid(n, false)
    ensures UnitNameIsValid(n, true)
  {}

  /**
    * A unit below a slice: the path gives back the unit exactly if it is not itself a slice, and then
    * also the slice.
    */
  lemma UnitRoundTripIff(slice: string, path: string, u: string, tail: string)
    requires SlicePath(slice) == Ok(path) && UnitNameIsValid(u, true) && (tail == "" || tail[0] == '/')
    ensures GetUnit(path + "/" + Escaped(u) + tail) == Ok(u) <==> !IsSlice(u)
    ensures !IsSlice(u) ==> LastSlice(path + "/" + Escaped(u) + tail, None) == Ok(slice)
  {
    if !IsSlice(u) {
      UnitBelow(slice, path, u, tail);
    }
  }

  lemma UnitBelow(slice: string, path: string, u: string, tail: string)
    requires SlicePath(slice) == Ok(path) && UnitNameIsValid(u, true) && (tail == "" || tail[0] == '/') && !IsSlice(u)
    ensures GetUnit(path + "/" + Escaped(u) + tail) == Ok(u)
    ensures LastSlice(path + "/" + Escaped(u) + tail, None) == Ok(slice)
  {
    hide Escaped, UnitNameIsValid, ValidSliceName, SkipSlashes, DecodeUnit, SlicePath, LastSlice, SkipSlices, Find;
    EscapedUnit(u, tail);
    SlashSkipped(Escaped(u) + tail);
    SkipName(Escaped(u), tail);
    ComponentOf(Escaped(u), tail);
    var below := "/" + (Escaped(u) + tail);
    SliceRoundTrip(slice, path, below);
    Regroup(path + "/", Escaped(u), tail);
    Regroup(path, "/", Escaped(u) + tail);
  }

  // ---------------------------------------------------------------- which slices have a path

  /** No dash at either end and no two in a row. */
  predicate DashesApart(p: string) {
    forall i | 0 <= i < |p| && p[i] == '-' :: 0 < i && i + 1 < |p| && p[i + 1] != '-'
  }

  predicate DashesGood(p: string, i: nat) {
    forall k | i <= k < |p| && p[k] == '-' :: k + 1 < |p| && p[k + 1] != '-'
  }

  lemma NoDashBefore(p: string, i: nat)
    requires i <= |p|
    ensures forall k | i <= k < i + Find(p[i..], '-') :: p[k] != '-'
  {
    var d := i + Find(p[i..], '-');
    assert forall k | i <= k < d :: p[k] == p[i..][..d - i][k - i];
  }

  lemma {:induction false} ChainIff(p: string, i: nat)
    requires i <= |p| && 0 < |p| < UNIT_NAME_MAX - 6 && (forall k | 0 <= k < |p| :: ValidChar(p[k])) && (i == 0 ==> p[0] != '-')
    ensures Chain(p, i).Ok? <==> DashesGood(p, i)
    decreases |p| - i
  {
    hide UnitNameIsValid, Escaped, ValidChar;
    var d := i + Find(p[i..], '-');
    NoDashBefore(p, i);
    if d < |p| {
      PlainSliceIff(p[..d]);
      assert p[d] == '-';
      ChainIff(p, d + 1);
      hide Find;
    }
  }

  /** Exactly the root slice and the plain slice names with well-placed dashes have a path. */
  lemma SliceHasPathIff(unit: string)
    ensures SlicePath(unit).Ok? <==>
      unit == ROOT_SLICE || (UnitNameIsValid(unit, false) && IsSlice(unit) && DashesApart(unit[..|unit| - 6]))
  {
    if unit != ROOT_SLICE && UnitNameIsValid(unit, false) && IsSlice(unit) {
      ProperSliceHasPathIff(unit[..|unit| - 6], unit);
    }
  }

  lemma ProperSliceHasPathIff(p: string, unit: string)
    requires unit == p + SLICE && unit != ROOT_SLICE && UnitNameIsValid(unit, false)
    ensures SlicePath(unit).Ok? <==> DashesApart(p)
  {
    hide Escaped, UnitNameIsValid, Chain, FindLast;
    LastDotOfSlice(p);
    PlainSliceIff(p);
    if p[0] != '-' {
      ChainIff(p, 0);
    }
  }
}
