/** Environment blocks: lists of NAME=VALUE strings used as maps from names to values. */
module EnvList {
  import opened Basics
  import opened Escape

  type CString = seq<Byte>

  /** VALID_CHARS_ENV_NAME */
  predicate ValidNameChar(c: Byte) {
    '0' <= c <= '9' || 'a' <= c <= 'z' || 'A' <= c <= 'Z' || c == '_'
  }

  /** env_name_is_valid, apart from the length limit of the system. */
  predicate EnvNameIsValid(name: CString) {
    && name != [] && !('0' <= name[0] <= '9')
    && forall i | 0 <= i < |name| :: ValidNameChar(name[i])
  }

  /** strcspn(e, "="): the length of the part before the first '='. */
  function NameLength(e: CString): (n: nat)
    ensures n <= |e| && '=' !in e[..n]
    ensures n < |e| ==> e[n] == '='
  {
    if e == [] || e[0] == '=' then 0
    else
      var n := 1 + NameLength(e[1..]);
      assert e[..n] == [e[0]] + e[1..][..n - 1];
      n
  }

  predicate IsAssignment(e: CString) {
    NameLength(e) < |e|
  }

  function Name(e: CString): CString {
    e[..NameLength(e)]
  }

  function Value(e: CString): CString
    requires IsAssignment(e)
  {
    e[NameLength(e) + 1..]
  }

  predicate AllAssignments(l: seq<CString>) {
    forall i | 0 <= i < |l| :: IsAssignment(l[i])
  }

  /** strneq(j, a, n) for n within a. */
  predicate StartsAlike(j: CString, a: CString, n: nat)
    requires n <= |a|
  {
    n <= |j| && j[..n] == a[..n]
  }

  /** env_entry_has_name, and the test of strv_env_get_n. */
  predicate HasName(e: CString, name: CString) {
    |name| < |e| && e[..|name|] == name && e[|name|] == '='
  }

  predicate EnvMatch(t: CString, pattern: CString) {
    t == pattern || ('=' !in pattern && HasName(t, pattern))
  }

  lemma {:induction false} NameLengthIs(e: CString, k: nat)
    requires k < |e| && e[k] == '='
    ensures NameLength(e) <= k && ('=' !in e[..k] ==> NameLength(e) == k)
  {
    if k > 0 && e[0] != '=' {
      NameLengthIs(e[1..], k - 1);
      assert e[..k] == [e[0]] + e[1..][..k - 1];
    } else if k > 0 {
      assert e[..k][0] == '=';
    }
  }

  /** For a name without '=' the prefix test is equality of names. */
  lemma HasNameIsName(e: CString, name: CString)
    requires '=' !in name
    ensures HasName(e, name) <==> IsAssignment(e) && Name(e) == name
  {
    if HasName(e, name) {
      NameLengthIs(e, |name|);
    }
  }

  // ---------------------------------------------------------------- what a block means

  /** The block as a map; a later entry overrides an earlier one, as in a backward search. */
  function EnvMap(l: seq<CString>): map<CString, CString>
    requires AllAssignments(l)
  {
    if l == [] then map[]
    else EnvMap(l[..|l| - 1])[Name(l[|l| - 1]) := Value(l[|l| - 1])]
  }

  function Names(l: seq<CString>): (r: seq<CString>)
    ensures |r| == |l| && forall i | 0 <= i < |l| :: r[i] == Name(l[i])
  {
    seq(|l|, i requires 0 <= i < |l| => Name(l[i]))
  }

  predicate Unique(names: seq<CString>) {
    forall i, j | 0 <= i < j < |names| :: names[i] != names[j]
  }

  /** Each name once, in the order in which it first occurs. */
  function FirstOccurrences(names: seq<CString>): seq<CString> {
    if names == [] then []
    else
      var r := FirstOccurrences(names[..|names| - 1]);
      var x := names[|names| - 1];
      if x in r then r else r + [x]
  }

  /** strv_env_get_n on the list part: the last entry of that name. */
  function Lookup(l: seq<CString>, name: CString): Option<CString> {
    if l == [] then None
    else
      var e := l[|l| - 1];
      if HasName(e, name) then Some(e[|name| + 1..]) else Lookup(l[..|l| - 1], name)
  }

  /** strv_env_get_n: nothing for the empty name; the process environment is asked last, if at all. */
  method StrvEnvGetN(l: seq<CString>, name: CString, useEnvironment: bool, environ: map<CString, CString>)
    returns (r: Option<CString>)
    ensures r == GetN(l, name, useEnvironment, environ)
  {
    if name == [] {
      return None;
    }
    var i := |l|;
    assert l[..i] == l;
    while i > 0
      invariant 0 <= i <= |l| && Lookup(l[..i], name) == Lookup(l, name)
    {
      i := i - 1;
      assert l[..i + 1][..i] == l[..i];
      if HasName(l[i], name) {
        return Some(l[i][|name| + 1..]);
      }
    }
    if useEnvironment {
      return if name in environ then Some(environ[name]) else None;
    }
    return None;
  }

  function GetN(l: seq<CString>, name: CString, useEnvironment: bool, environ: map<CString, CString>): Option<CString> {
    if name == [] then None
    else if Lookup(l, name).Some? then Lookup(l, name)
    else if useEnvironment && name in environ then Some(environ[name])
    else None
  }

  /** The backward search reads the map. */
  lemma {:induction false} LookupIsMap(l: seq<CString>, name: CString)
    requires AllAssignments(l) && '=' !in name
    ensures Lookup(l, name) == if name in EnvMap(l) then Some(EnvMap(l)[name]) else None
  {
    if l != [] {
      var e := l[|l| - 1];
      HasNameIsName(e, name);
      LookupIsMap(l[..|l| - 1], name);
    }
  }

  /** A value is looked up in the process environment, if asked for, overlaid with the block. */
  lemma GetIsOverlay(l: seq<CString>, name: CString, useEnvironment: bool, environ: map<CString, CString>)
    requires AllAssignments(l) && '=' !in name
    ensures var m := (if useEnvironment then environ else map[]) + EnvMap(l);
            GetN(l, name, useEnvironment, environ) == if name != [] && name in m then Some(m[name]) else None
  {
    hide Lookup, EnvMap;
    LookupIsMap(l, name);
  }

  lemma {:induction false} MapKeys(l: seq<CString>, x: CString)
    requires AllAssignments(l)
    ensures x in EnvMap(l) <==> x in Names(l)
  {
    if l != [] {
      var k := |l| - 1;
      MapKeys(l[..k], x);
      assert Names(l) == Names(l[..k]) + [Name(l[k])];
    }
  }

  lemma {:induction false} MapOfConcat(a: seq<CString>, b: seq<CString>)
    requires AllAssignments(a) && AllAssignments(b)
    ensures AllAssignments(a + b) && EnvMap(a + b) == EnvMap(a) + EnvMap(b)
  {
    hide NameLength;
    if b == [] {
      assert a + b == a;
    } else {
      var k := |b| - 1;
      MapOfConcat(a, b[..k]);
      assert (a + b)[..|a + b| - 1] == a + b[..k];
      UnionThenUpdate(EnvMap(a), EnvMap(b[..k]), Name(b[k]), Value(b[k]));
    }
  }

  /** Replacing one entry of a block with unique names by another of the same name updates the map. */
  lemma {:induction false} MapOfUpdate(l: seq<CString>, k: nat, e: CString)
    requires AllAssignments(l) && Unique(Names(l)) && k < |l| && IsAssignment(e) && Name(e) == Name(l[k])
    ensures AllAssignments(l[k := e]) && EnvMap(l[k := e]) == EnvMap(l)[Name(e) := Value(e)]
  {
    hide NameLength;
    var n := |l| - 1;
    var u := l[k := e];
    if k == n {
      assert u[..n] == l[..n];
    } else {
      assert u[..n] == l[..n][k := e];
      assert Unique(Names(l[..n])) by {
        assert Names(l[..n]) == Names(l)[..n];
      }
      MapOfUpdate(l[..n], k, e);
      assert Names(l)[k] != Names(l)[n];
      hide Names, Unique;
    }
  }

  // ---------------------------------------------------------------- merging

  /** The part of an entry that env_append compares: the name and its '=', if there is one. */
  function KeyLength(a: CString): (n: nat)
    ensures n <= |a|
  {
    var n := NameLength(a);
    if n < |a| then n + 1 else n
  }

  /** The first entry that agrees with a on a's key; |r| if there is none. */
  function FirstMatch(r: seq<CString>, a: CString): (k: nat)
    ensures k <= |r| && (k < |r| ==> StartsAlike(r[k], a, KeyLength(a)))
    ensures forall i | 0 <= i < k :: !StartsAlike(r[i], a, KeyLength(a))
  {
    if r == [] || StartsAlike(r[0], a, KeyLength(a)) then 0
    else
      var k := 1 + FirstMatch(r[1..], a);
      assert forall i | 1 <= i < k :: r[i] == r[1..][i - 1];
      k
  }

  function AppendOne(r: seq<CString>, a: CString): seq<CString> {
    var k := FirstMatch(r, a);
    if k == |r| then r + [a] else r[k := a]
  }

  function AppendAll(r: seq<CString>, a: seq<CString>): seq<CString> {
    if a == [] then r else AppendOne(AppendAll(r, a[..|a| - 1]), a[|a| - 1])
  }

  function Flatten(lists: seq<seq<CString>>): seq<CString> {
    if lists == [] then [] else Flatten(lists[..|lists| - 1]) + lists[|lists| - 1]
  }

  /** For assignments the comparison is equality of names. */
  lemma SameKeyIsSameName(j: CString, a: CString)
    requires IsAssignment(j) && IsAssignment(a)
    ensures StartsAlike(j, a, KeyLength(a)) <==> Name(j) == Name(a)
  {
    var n := NameLength(a);
    assert HasName(j, Name(a)) <==> StartsAlike(j, a, n + 1) by {
      if |j| > n {
        assert j[..n + 1] == j[..n] + [j[n]] && a[..n + 1] == a[..n] + ['='];
      }
    }
    HasNameIsName(j, Name(a));
  }

  lemma NamesOfPrefix(l: seq<CString>, k: nat)
    requires k <= |l|
    ensures Names(l[..k]) == Names(l)[..k]
  {}

  /** A new name at the end. */
  lemma AddedEntry(l: seq<CString>, p: CString)
    requires AllAssignments(l) && Unique(Names(l)) && IsAssignment(p) && Name(p) !in Names(l)
    ensures var u := l + [p];
            && AllAssignments(u) && Unique(Names(u))
            && Names(u) == Names(l) + [Name(p)]
            && EnvMap(u) == EnvMap(l)[Name(p) := Value(p)]
  {
    hide NameLength;
    var u := l + [p];
    assert u[..|l|] == l;
    assert Names(u) == Names(l) + [Name(p)];
  }

  /** A new value for a name that is listed. */
  lemma UpdatedEntry(l: seq<CString>, k: nat, p: CString)
    requires AllAssignments(l) && Unique(Names(l)) && k < |l| && IsAssignment(p) && Name(p) == Names(l)[k]
    ensures var u := l[k := p];
            && AllAssignments(u) && Names(u) == Names(l)
            && EnvMap(u) == EnvMap(l)[Name(p) := Value(p)]
  {
    hide NameLength, EnvMap;
    MapOfUpdate(l, k, p);
    assert Names(l[k := p]) == Names(l);
  }

  lemma AppendOneLaw(r: seq<CString>, a: CString)
    requires AllAssignments(r) && Unique(Names(r)) && IsAssignment(a)
    ensures var u := AppendOne(r, a);
            && AllAssignments(u) && Unique(Names(u))
            && Names(u) == (if Name(a) in Names(r) then Names(r) else Names(r) + [Name(a)])
            && EnvMap(u) == EnvMap(r)[Name(a) := Value(a)]
  {
    hide NameLength, EnvMap, Unique, FirstMatch, StartsAlike;
    var k := FirstMatch(r, a);
    forall i | 0 <= i < |r| ensures StartsAlike(r[i], a, KeyLength(a)) <==> Names(r)[i] == Name(a) {
      SameKeyIsSameName(r[i], a);
    }
    if k == |r| {
      AddedEntry(r, a);
    } else {
      UpdatedEntry(r, k, a);
      assert Names(r)[k] == Name(a);
    }
  }

  /**
   * Merging is the right-biased union of maps: names stay unique and in the order of their first
   * occurrence, and the last value given for a name wins.
   */
  lemma {:induction false} MergeIsUnion(r: seq<CString>, a: seq<CString>)
    requires AllAssignments(r) && Unique(Names(r)) && AllAssignments(a)
    ensures var m := AppendAll(r, a);
            && AllAssignments(m) && Unique(Names(m))
            && EnvMap(m) == EnvMap(r) + EnvMap(a)
  {
    hide AppendOne, NameLength, Unique;
    if a == [] {
      assert EnvMap(r) + map[] == EnvMap(r);
    } else {
      var k := |a| - 1;
      MergeIsUnion(r, a[..k]);
      AppendOneLaw(AppendAll(r, a[..k]), a[k]);
      UnionThenUpdate(EnvMap(r), EnvMap(a[..k]), Name(a[k]), Value(a[k]));
    }
  }

  lemma UnionThenUpdate(m: map<CString, CString>, n: map<CString, CString>, k: CString, v: CString)
    ensures (m + n)[k := v] == m + n[k := v]
  {}

  lemma NoNames()
    ensures Unique(Names([])) && Names([]) == [] && EnvMap([]) == map[]
  {}

  lemma {:induction false} MergeKeepsOrder(a: seq<CString>)
    requires AllAssignments(a)
    ensures Names(AppendAll([], a)) == FirstOccurrences(Names(a))
  {
    hide AppendOne, Names, EnvMap, Unique;
    NoNames();
    if a != [] {
      var k := |a| - 1;
      MergeKeepsOrder(a[..k]);
      MergeIsUnion([], a[..k]);
      AppendOneLaw(AppendAll([], a[..k]), a[k]);
      NamesOfPrefix(a, k);
    }
  }

  /** Looking a name up in the merge of two blocks asks the second block first. */
  lemma MergeLookup(a: seq<CString>, b: seq<CString>, name: CString)
    requires AllAssignments(a) && AllAssignments(b) && '=' !in name
    ensures Lookup(AppendAll([], a + b), name)
         == if Lookup(b, name).Some? then Lookup(b, name) else Lookup(a, name)
  {
    hide NameLength, Names, Lookup, AppendAll, EnvMap;
    NoNames();
    MapOfConcat(a, b);
    MergeIsUnion([], a + b);
    LookupIsMap(AppendAll([], a + b), name);
    LookupIsMap(a, name);
    LookupIsMap(b, name);
  }

  // ---------------------------------------------------------------- merging in place

  /** The strv form of a list: one non-NULL pointer per entry. */
  function Strv(l: seq<CString>): (r: seq<Option<CString>>)
    ensures |r| == |l| && forall i | 0 <= i < |l| :: r[i] == Some(l[i])
  {
    seq(|l|, i requires 0 <= i < |l| => Some(l[i]))
  }

  /** env_append: overrides the first matching slot, or writes the slot of the final NULL and moves it on. */
  method EnvAppend(r: array<Option<CString>>, k0: nat, a: seq<CString>, ghost l: seq<CString>) returns (k: nat)
    requires k0 == |l| && k0 + |a| < r.Length
    requires r[..k0] == Strv(l) && r[k0] == None
    modifies r
    ensures k == |AppendAll(l, a)| && k <= k0 + |a|
    ensures r[..k] == Strv(AppendAll(l, a)) && r[k] == None
  {
    hide NameLength, StartsAlike, FirstMatch;
    k := k0;
    var i := 0;
    while i < |a|
      invariant 0 <= i <= |a| && k <= k0 + i
      invariant k == |AppendAll(l, a[..i])|
      invariant r[..k] == Strv(AppendAll(l, a[..i])) && r[k] == None
    {
      ghost var m := AppendAll(l, a[..i]);
      assert a[..i + 1][..i] == a[..i];
      var j := FindMatch(r, k, a[i], m);
      if j >= k {
        r[k] := Some(a[i]);
        r[k + 1] := None;
        k := k + 1;
        assert r[..k] == Strv(m + [a[i]]);
      } else {
        r[j] := Some(a[i]);
        assert r[..k] == Strv(m[j := a[i]]);
      }
      i := i + 1;
    }
    assert a[..i] == a;
  }

  method FindMatch(r: array<Option<CString>>, k: nat, a: CString, ghost m: seq<CString>) returns (j: nat)
    requires k <= r.Length && r[..k] == Strv(m)
    ensures j == FirstMatch(m, a)
  {
    hide NameLength;
    j := 0;
    var n := KeyLength(a);
    assert forall x | 0 <= x < k :: r[x] == r[..k][x] == Some(m[x]);
    while j < k && !StartsAlike(r[j].value, a, n)
      invariant j <= k
      invariant forall x | 0 <= x < j :: !StartsAlike(m[x], a, n)
    {
      j := j + 1;
    }
  }

  /** strv_env_merge: the space counted beforehand suffices for all entries and the final NULL. */
  method StrvEnvMerge(lists: seq<seq<CString>>) returns (ret: array<Option<CString>>, k: nat)
    ensures ret.Length == |Flatten(lists)| + 1 && k < ret.Length
    ensures ret[..k] == Strv(AppendAll([], Flatten(lists))) && ret[k] == None
  {
    hide AppendOne;
    var n := 0;
    var i := 0;
    while i < |lists|
      invariant 0 <= i <= |lists| && n == |Flatten(lists[..i])|
    {
      assert lists[..i + 1][..i] == lists[..i];
      n := n + |lists[i]|;
      i := i + 1;
    }
    assert lists[..i] == lists;
    ret := new Option<CString>[n + 1];
    ret[0] := None;
    k := 0;
    i := 0;
    while i < |lists|
      invariant 0 <= i <= |lists| && fresh(ret) && ret.Length == n + 1
      invariant k <= |Flatten(lists[..i])| <= n
      invariant k == |AppendAll([], Flatten(lists[..i]))|
      invariant ret[..k] == Strv(AppendAll([], Flatten(lists[..i]))) && ret[k] == None
    {
      ghost var before := Flatten(lists[..i]);
      assert lists[..i + 1][..i] == lists[..i];
      FlattenGrows(lists, i + 1);
      AppendAllSplit([], before, lists[i]);
      k := EnvAppend(ret, k, lists[i], AppendAll([], before));
      i := i + 1;
    }
    assert lists[..i] == lists;
  }

  lemma {:induction false} FlattenGrows(lists: seq<seq<CString>>, i: nat)
    requires i <= |lists|
    ensures |Flatten(lists[..i])| <= |Flatten(lists)|
    decreases |lists|
  {
    if i == |lists| {
      assert lists[..i] == lists;
    } else {
      var k := |lists| - 1;
      FlattenGrows(lists[..k], i);
      assert lists[..k][..i] == lists[..i];
    }
  }

  lemma {:induction false} AppendAllSplit(r: seq<CString>, a: seq<CString>, b: seq<CString>)
    ensures AppendAll(r, a + b) == AppendAll(AppendAll(r, a), b)
  {
    hide AppendOne;
    if b == [] {
      assert a + b == a;
    } else {
      var k := |b| - 1;
      AppendAllSplit(r, a, b[..k]);
      assert (a + b)[..|a + b| - 1] == a + b[..k];
    }
  }

  // ---------------------------------------------------------------- replacing one entry

  /** The entries that strv_env_unset(·, p) keeps. */
  function Without(l: seq<CString>, p: CString): seq<CString> {
    if l == [] then []
    else if EnvMatch(l[|l| - 1], p) then Without(l[..|l| - 1], p)
    else Without(l[..|l| - 1], p) + [l[|l| - 1]]
  }

  /** The first entry of the given name; |l| if there is none. */
  function FirstNamed(l: seq<CString>, name: CString): (k: nat)
    ensures k <= |l| && (k < |l| ==> HasName(l[k], name))
    ensures forall i | 0 <= i < k :: !HasName(l[i], name)
  {
    if l == [] || HasName(l[0], name) then 0
    else
      var k := 1 + FirstNamed(l[1..], name);
      assert forall i | 1 <= i < k :: l[i] == l[1..][i - 1];
      k
  }

  /** The list after strv_env_replace(&l, p) for an assignment p. */
  function Replaced(l: seq<CString>, p: CString): seq<CString> {
    var k := FirstNamed(l, Name(p));
    if k == |l| then l + [p] else l[..k] + [p] + Without(l[k + 1..], p)
  }

  /** A string vector that is edited in place. */
  class EnvBlock {
    var l: seq<CString>

    constructor ()
      ensures l == []
    {
      l := [];
    }

    /** strv_env_unset from position `from` on: kept entries move down over dropped ones. */
    method Unset(from: nat, p: CString)
      requires from <= |l|
      modifies this
      ensures l == old(l)[..from] + Without(old(l)[from..], p)
    {
      var f, t := from, from;
      while f < |l|
        invariant from <= t <= f <= |l| == |old(l)|
        invariant l[..t] == old(l)[..from] + Without(old(l)[from..][..f - from], p)
        invariant l[f..] == old(l)[f..]
      {
        ghost var tail := old(l)[from..];
        assert l[f] == l[f..][0] == old(l)[f] == tail[f - from];
        assert tail[..f + 1 - from][..f - from] == tail[..f - from];
        if !EnvMatch(l[f], p) {
          assert l[..t] + [l[f]] == l[t := l[f]][..t + 1];
          assert l[t := l[f]][f + 1..] == l[f + 1..] == l[f..][1..];
          l := l[t := l[f]];
          t := t + 1;
        } else {
          assert l[f + 1..] == l[f..][1..];
        }
        f := f + 1;
      }
      assert old(l)[from..][..f - from] == old(l)[from..];
      l := l[..t];
    }

    /** strv_env_replace: -EINVAL (None), 0 after replacing, 1 after appending. */
    method Replace(p: CString) returns (r: Option<nat>)
      modifies this
      ensures r == if !IsAssignment(p) then None
                   else if FirstNamed(old(l), Name(p)) < |old(l)| then Some(0) else Some(1)
      ensures l == if IsAssignment(p) then Replaced(old(l), p) else old(l)
    {
      hide NameLength, HasName, FirstNamed, EnvMatch;
      if !IsAssignment(p) {
        return None;
      }
      var name := Name(p);
      var f := 0;
      while f < |l|
        invariant 0 <= f <= |l| && l == old(l)
        invariant forall i | 0 <= i < f :: !HasName(l[i], name)
      {
        if HasName(l[f], name) {
          assert f == FirstNamed(l, name);
          l := l[f := p];
          assert l[f + 1..] == old(l)[f + 1..] && l[..f + 1] == old(l)[..f] + [p];
          Unset(f + 1, p);
          return Some(0);
        }
        f := f + 1;
      }
      assert FirstNamed(l, name) == |l|;
      l := l + [p];
      return Some(1);
    }
  }

  lemma {:induction false} WithoutAssignment(l: seq<CString>, p: CString)
    requires IsAssignment(p)
    ensures forall e :: e in Without(l, p) <==> e in l && e != p
    ensures p !in l ==> Without(l, p) == l
  {
    assert p[NameLength(p)] in p;
    if l != [] {
      var k := |l| - 1;
      WithoutAssignment(l[..k], p);
      assert l == l[..k] + [l[k]];
    }
  }

  lemma MapOfOneMore(l: seq<CString>, e: CString)
    requires AllAssignments(l) && IsAssignment(e)
    ensures AllAssignments(l + [e]) && EnvMap(l + [e]) == EnvMap(l)[Name(e) := Value(e)]
  {
    hide NameLength;
    assert (l + [e])[..|l|] == l;
  }

  lemma MinusAndUpdate(m: map<CString, CString>, x: CString, v: CString, name: CString)
    ensures m[x := v] - {name} == if x == name then m - {name} else (m - {name})[x := v]
  {}

  lemma NameMatches(e: CString, name: CString)
    requires IsAssignment(e) && '=' !in name
    ensures EnvMatch(e, name) <==> Name(e) == name
  {
    HasNameIsName(e, name);
    assert e[NameLength(e)] in e;
  }

  /** Unsetting a name takes it out of the map and leaves every other name its value. */
  lemma {:induction false} UnsetIsMinus(l: seq<CString>, name: CString)
    requires AllAssignments(l) && '=' !in name
    ensures AllAssignments(Without(l, name)) && EnvMap(Without(l, name)) == EnvMap(l) - {name}
  {
    if l == [] {
      assert EnvMap(l) - {name} == EnvMap(l);
    } else {
      hide NameLength, EnvMatch, EnvMap;
      var k := |l| - 1;
      UnsetIsMinus(l[..k], name);
      NameMatches(l[k], name);
      MapOfOneMore(l[..k], l[k]);
      assert l[..k] + [l[k]] == l;
      MapOfOneMore(Without(l[..k], name), l[k]);
      MinusAndUpdate(EnvMap(l[..k]), Name(l[k]), Value(l[k]), name);
    }
  }

  /** On a block with unique names, replacing is map update and keeps names unique. */
  lemma ReplaceIsUpdate(l: seq<CString>, p: CString)
    requires AllAssignments(l) && Unique(Names(l)) && IsAssignment(p)
    ensures var u := Replaced(l, p);
            && AllAssignments(u) && Unique(Names(u))
            && EnvMap(u) == EnvMap(l)[Name(p) := Value(p)]
            && (Name(p) !in Names(l) ==> u == l + [p])
  {
    hide NameLength, EnvMap, Unique, HasName, FirstNamed, Replaced;
    forall i | 0 <= i < |l| ensures HasName(l[i], Name(p)) <==> Names(l)[i] == Name(p) {
      HasNameIsName(l[i], Name(p));
    }
    var k := FirstNamed(l, Name(p));
    if k == |l| {
      ReplacedAtEnd(l, p);
      AddedEntry(l, p);
    } else {
      NotRepeated(l, k, p);
      ReplacedInPlace(l, p);
      UpdatedEntry(l, k, p);
      assert Names(l)[k] == Name(p);
    }
  }

  lemma ReplacedAtEnd(l: seq<CString>, p: CString)
    requires FirstNamed(l, Name(p)) == |l|
    ensures Replaced(l, p) == l + [p]
  {}

  lemma UpdateIsConcat(l: seq<CString>, k: nat, p: CString)
    requires k < |l|
    ensures l[k := p] == l[..k] + [p] + l[k + 1..]
  {}

  lemma ReplacedInPlace(l: seq<CString>, p: CString)
    requires IsAssignment(p) && FirstNamed(l, Name(p)) < |l| && p !in l[FirstNamed(l, Name(p)) + 1..]
    ensures Replaced(l, p) == l[FirstNamed(l, Name(p)) := p]
  {
    hide NameLength, HasName, FirstNamed, Without;
    WithoutAssignment(l[FirstNamed(l, Name(p)) + 1..], p);
    UpdateIsConcat(l, FirstNamed(l, Name(p)), p);
  }

  lemma NotRepeated(l: seq<CString>, k: nat, p: CString)
    requires Unique(Names(l)) && k < |l| && Names(l)[k] == Name(p)
    ensures p !in l[k + 1..]
  {
    hide NameLength;
    forall i | k < i < |l| ensures l[i] != p {
      assert Names(l)[i] != Names(l)[k];
    }
  }

  /** Replacing entry after entry, as the reader of an environment file does. */
  function ReplaceAll(l: seq<CString>, a: seq<CString>): seq<CString> {
    if a == [] then l else Replaced(ReplaceAll(l, a[..|a| - 1]), a[|a| - 1])
  }

  lemma {:induction false} ReplaceAllIsUpdate(a: seq<CString>)
    requires AllAssignments(a)
    ensures var u := ReplaceAll([], a);
            && AllAssignments(u) && Unique(Names(u)) && EnvMap(u) == EnvMap(a)
            && (Unique(Names(a)) ==> u == a)
  {
    hide Replaced, Names, Unique;
    NoNames();
    if a != [] {
      var k := |a| - 1;
      ReplaceAllIsUpdate(a[..k]);
      ReplaceIsUpdate(ReplaceAll([], a[..k]), a[k]);
      if Unique(Names(a)) {
        LastIsNew(a);
        assert a[..k] + [a[k]] == a;
      }
    }
  }

  lemma LastIsNew(a: seq<CString>)
    requires a != [] && Unique(Names(a))
    ensures Unique(Names(a[..|a| - 1])) && Name(a[|a| - 1]) !in Names(a[..|a| - 1])
  {
    hide NameLength;
    NamesOfPrefix(a, |a| - 1);
  }

  /** Some entry behind the first one of p's name has that name too and is not p itself. */
  predicate OtherRemains(l: seq<CString>, p: CString) {
    var k := FirstNamed(l, Name(p));
    exists i :: k < i < |l| && HasName(l[i], Name(p)) && l[i] != p
  }

  /**
   * The documentation promises that other occurrences are dropped. The code drops only entries equal
   * to p, so the promise, and with it the lookup of the new value, holds exactly when no other
   * entry of that name differs from p.
   */
  lemma ReplaceDropsOthersIff(l: seq<CString>, p: CString)
    requires IsAssignment(p)
    ensures AtMostOne(Replaced(l, p), Name(p)) <==> !OtherRemains(l, p)
    ensures Lookup(Replaced(l, p), Name(p)) == Some(Value(p)) <==> !OtherRemains(l, p)
  {
    hide NameLength, HasName, FirstNamed, Without, Lookup;
    var name := Name(p);
    var k := FirstNamed(l, name);
    HasNameIsName(p, name);
    if k == |l| {
      LookupSkips(l, [p], name);
      LookupLast(p);
    } else {
      var tail := l[k + 1..];
      var rest := Without(tail, p);
      WithoutAssignment(tail, p);
      RestIsOthers(l, p);
      OnlyInFront(l[..k], p, rest);
      LookupSkips(l[..k] + [p], rest, name);
      LookupSkips(l[..k], [p], name);
      LookupLast(p);
      LookupFinds(rest, name, p);
    }
  }

  predicate AtMostOne(l: seq<CString>, name: CString) {
    forall i, j | 0 <= i < j < |l| :: !(HasName(l[i], name) && HasName(l[j], name))
  }

  lemma LookupLast(p: CString)
    requires IsAssignment(p)
    ensures Lookup([p], Name(p)) == Some(Value(p))
  {}

  lemma OnlyInFront(front: seq<CString>, p: CString, rest: seq<CString>)
    requires IsAssignment(p) && HasName(p, Name(p)) && (forall i | 0 <= i < |front| :: !HasName(front[i], Name(p)))
    ensures AtMostOne(front + [p] + rest, Name(p)) <==> !exists x :: 0 <= x < |rest| && HasName(rest[x], Name(p))
  {
    hide NameLength, HasName;
    var u := front + [p] + rest;
    var k := |front|;
    assert u[k] == p;
    assert forall x | 0 <= x < |rest| :: u[k + 1 + x] == rest[x];
    if x :| 0 <= x < |rest| && HasName(rest[x], Name(p)) {
      assert HasName(u[k], Name(p)) && HasName(u[k + 1 + x], Name(p));
    } else {
      forall i | 0 <= i < |u| && i != k ensures !HasName(u[i], Name(p)) {
        if i < k {
          assert u[i] == front[i];
        } else {
          assert u[i] == rest[i - k - 1];
        }
      }
    }
  }

  lemma RestIsOthers(l: seq<CString>, p: CString)
    requires IsAssignment(p) && FirstNamed(l, Name(p)) < |l|
    ensures var rest := Without(l[FirstNamed(l, Name(p)) + 1..], p);
            OtherRemains(l, p) <==> exists x :: 0 <= x < |rest| && HasName(rest[x], Name(p))
  {
    var k := FirstNamed(l, Name(p));
    var tail := l[k + 1..];
    var rest := Without(tail, p);
    WithoutAssignment(tail, p);
    if OtherRemains(l, p) {
      var i :| k < i < |l| && HasName(l[i], Name(p)) && l[i] != p;
      assert tail[i - k - 1] == l[i];
      assert l[i] in rest;
      var x :| 0 <= x < |rest| && rest[x] == l[i];
      assert HasName(rest[x], Name(p));
      assert rest == Without(l[FirstNamed(l, Name(p)) + 1..], p);
      assert exists y :: 0 <= y < |rest| && HasName(rest[y], Name(p));
    } else {
      forall x | 0 <= x < |rest| ensures !HasName(rest[x], Name(p)) {
        assert rest[x] in rest;
        var i :| 0 <= i < |tail| && tail[i] == rest[x];
        assert l[k + 1 + i] == rest[x];
      }
    }
  }

  lemma {:induction false} LookupSkips(a: seq<CString>, b: seq<CString>, name: CString)
    ensures Lookup(a + b, name) == if Lookup(b, name).Some? then Lookup(b, name) else Lookup(a, name)
  {
    if b == [] {
      assert a + b == a;
    } else {
      var k := |b| - 1;
      assert (a + b)[..|a + b| - 1] == a + b[..k];
      LookupSkips(a, b[..k], name);
    }
  }

  lemma ValueTells(e: CString, name: CString, p: CString)
    requires HasName(e, name) && IsAssignment(p) && Name(p) == name && e != p
    ensures e[|name| + 1..] != Value(p)
  {
    hide NameLength;
    assert e == name + ['='] + e[|name| + 1..];
    assert p == name + ['='] + Value(p);
  }

  /** A found value belongs to an entry of the list, hence is not p's own when p is not listed. */
  lemma {:induction false} LookupFinds(l: seq<CString>, name: CString, p: CString)
    requires IsAssignment(p) && Name(p) == name && p !in l
    ensures Lookup(l, name).Some? <==> exists i :: 0 <= i < |l| && HasName(l[i], name)
    ensures Lookup(l, name) != Some(Value(p))
  {
    if l != [] {
      var k := |l| - 1;
      LookupFinds(l[..k], name, p);
      assert forall i | 0 <= i < k :: l[..k][i] == l[i];
      if HasName(l[k], name) {
        ValueTells(l[k], name, p);
      }
    }
  }

  /** Two settings of A; after replacing A by 3 the old 2 is still what a lookup finds. */
  lemma ReplaceKeepsStaleValue()
    ensures Replaced(["A=1", "A=2"], "A=3") == ["A=3", "A=2"]
    ensures Lookup(Replaced(["A=1", "A=2"], "A=3"), "A") == Some("2")
  {
    var l: seq<CString> := ["A=1", "A=2"];
    var p: CString := "A=3";
    assert Name(p) == "A" by { assert p[1..][0] == '='; }
    assert FirstNamed(l, "A") == 0;
    hide NameLength, FirstNamed;
    assert l[1..] == ["A=2"] && l[..0] == [];
    assert Without(["A=2"], p) == ["A=2"] by {
      assert "A=2"[2] != p[2] && p[1] == '=';
    }
    assert "A=2"[2..] == "2" && HasName("A=2", "A");
  }
}
