/** What btrfs-util.c builds on the search: a subvolume's parent, recursive destruction, automatic set-up. */
module BtrfsAutoQgroup {
  import opened Basics
  import opened BtrfsKey
  import opened BtrfsQgroup

  // ---------------------------------------------------------------- the parent subvolume

  /** The subvolume that the first back reference of q names. */
  function ParentSubvolume(roots: seq<Key>, q: U64): Option<U64> {
    var found := InRange(roots, First(q, ROOT_BACKREF), Last(q, ROOT_BACKREF));
    if found == [] then None else Some(found[0].offset)
  }

  method FirstBackref(batch: seq<Key>, q: U64) returns (m: Option<U64>)
    ensures m.None? ==> forall h | h in batch :: !(h.objectid == q && h.kind == ROOT_BACKREF)
    ensures batch != [] && batch[0].objectid == q && batch[0].kind == ROOT_BACKREF ==> m == Some(batch[0].offset)
  {
    for i := 0 to |batch|
      invariant forall h | h in batch[..i] :: !(h.objectid == q && h.kind == ROOT_BACKREF)
    {
      if batch[i].kind == ROOT_BACKREF && batch[i].objectid == q {
        return Some(batch[i].offset);
      }
      assert batch[..i + 1] == batch[..i] + [batch[i]];
    }
    assert batch[..|batch|] == batch;
    return None;
  }

  /**
    * One turn of the search is enough, though the source loops without moving its cursor: the first
    * item of any batch is a back reference of q. ENXIO is the answer exactly if there is none.
    */
  method GetParent(k: Kernel, subvolId: U64) returns (r: Result<U64>)
    requires k.Valid()
    modifies k`calls
    ensures old(k.calls) <= k.calls
    ensures Target(k, subvolId).Err? ==> r == Err(Target(k, subvolId).errno) && k.calls == old(k.calls)
    ensures Target(k, subvolId).Ok? && AllWell(Since(old(k.calls), k.calls)) ==>
      r == match ParentSubvolume(k.roots, Target(k, subvolId).value) case None => Err(ENXIO) case Some(p) => Ok(p)
    ensures Target(k, subvolId).Ok? && !AllWell(Since(old(k.calls), k.calls)) ==>
      r.Err? && r.errno != ENXIO && StoppedBy(Since(old(k.calls), k.calls), r.errno)
  {
    hide InRange, Number, Sorted, AllWell, StoppedBy;
    var target := Target(k, subvolId);
    if target.Err? {
      return Err(target.errno);
    }
    var q := target.value;
    NoCalls(k.calls);
    var batch := k.TreeSearch(false, First(q, ROOT_BACKREF), Last(q, ROOT_BACKREF));
    OneMoreCall(old(k.calls), old(k.calls), RootSearch(ErrnoOf(batch)));
    if batch.Err? {
      StopIsFailure(Since(old(k.calls), k.calls), batch.errno);
      return Err(batch.errno);
    }
    ghost var found := InRange(k.roots, First(q, ROOT_BACKREF), Last(q, ROOT_BACKREF));
    if batch.value == [] {
      return Err(ENXIO);
    }
    InRangeMember(k.roots, First(q, ROOT_BACKREF), Last(q, ROOT_BACKREF), found[0]);
    RangeIsExact(found[0], q, ROOT_BACKREF);
    var m := FirstBackref(batch.value, q);
    return if m.Some? then Ok(m.value) else Err(ENXIO);
  }

  // ---------------------------------------------------------------- destroy_recursive

  /** What is gone between two trees named a group with this id part. */
  predicate OnlyLost(t: seq<Key>, t': seq<Key>, id: nat) {
    && (forall x | x in t' :: x in t)
    && (forall x | x in t && x !in t' :: IdPart(x.objectid) == id || IdPart(x.offset) == id)
  }

  predicate OnlyDestroyed(gs: set<U64>, gs': set<U64>, id: nat) {
    gs' <= gs && forall g | g in gs && g !in gs' :: IdPart(g) == id
  }

  lemma WithoutOnlyLoses(t: seq<Key>, c: Cut, id: nat)
    requires c.Relation? ==> IdPart(c.child) == id
    requires c.Group? ==> IdPart(c.g) == id
    ensures OnlyLost(t, Without(t, c), id)
  {
    forall x ensures x in Without(t, c) <==> x in t && !Names(x, c) {
      WithoutMember(t, c, x);
    }
    hide Without;
  }

  lemma LostThen(a: seq<Key>, b: seq<Key>, c: seq<Key>, id: nat)
    requires OnlyLost(a, b, id) && OnlyLost(b, c, id)
    ensures OnlyLost(a, c, id) && forall x | x !in b :: x !in c
  {
    hide IdPart;
  }

  lemma DestroyedThen(a: set<U64>, b: set<U64>, c: set<U64>, id: nat)
    requires OnlyDestroyed(a, b, id) && OnlyDestroyed(b, c, id)
    ensures OnlyDestroyed(a, c, id) && forall g | g !in b :: g !in c
  {
    hide IdPart;
  }

  /** Taking q out of one parent, and the parent with it if it shares the id part. */
  method Detach(k: Kernel, q: U64, p: U64) returns (un: Result<bool>)
    requires k.Valid()
    modifies k
    ensures k.Valid() && |k.Items()| <= |old(k.Items())| && old(k.calls) <= k.calls
    ensures un.Err? ==> FailedWith(Since(old(k.calls), k.calls), un.errno)
    ensures OnlyLost(old(k.Items()), k.Items(), IdPart(q)) && OnlyDestroyed(old(k.groups), k.groups, IdPart(q))
    ensures un.Ok? ==> Key(q, RELATION, p) !in k.Items()
    ensures un.Ok? && IdPart(p) == IdPart(q) && Target(k, p).Ok? && AllWell(Since(old(k.calls), k.calls)) ==> p !in k.groups
    decreases |k.Items()|, 0
  {
    hide Without, Sorted, IdPart, FailedWith, AllWell, OnlyLost, OnlyDestroyed;
    ghost var t, gs := k.Items(), k.groups;
    NothingLost(t, gs, IdPart(q));
    un := k.Unassign(q, p);
    LastFailed(old(k.calls), k.calls);
    if un.Err? {
      return;
    }
    WithoutOnlyLoses(t, Relation(q, p), IdPart(q));
    WithoutMember(t, Relation(q, p), Key(q, RELATION, p));
    if IdPart(p) == IdPart(q) {
      ghost var middle, t1 := k.calls, k.Items();
      var r := DestroyRecursive(k, p);
      LostThen(t, t1, k.Items(), IdPart(q));
      CallsJoin(old(k.calls), middle, k.calls);
      if r.Err? && Target(k, p).Ok? {
        FailureIsNotWell(Since(middle, k.calls), r.errno);
      }
    }
  }

  lemma NothingLost(t: seq<Key>, gs: set<U64>, id: nat)
    ensures OnlyLost(t, t, id) && OnlyDestroyed(gs, gs, id)
  {}

  lemma FailureIsNotWell(cs: seq<Call>, errno: nat)
    requires FailedWith(cs, errno)
    ensures !AllWell(cs)
  {}

  /**
    * It ends, and takes with it only groups that share the id part of the one it was given. It fails only
    * with the error of a call that failed; if all calls go well, the parents that share the id part go too.
    */
  method DestroyRecursive(k: Kernel, q: U64) returns (r: Result<bool>)
    requires k.Valid()
    modifies k
    ensures k.Valid() && |k.Items()| <= |old(k.Items())| && old(k.calls) <= k.calls
    ensures Target(k, q).Err? ==> r == Err(Target(k, q).errno)
    ensures Target(k, q).Ok? && r.Err? ==> FailedWith(Since(old(k.calls), k.calls), r.errno)
    ensures OnlyLost(old(k.Items()), k.Items(), IdPart(q)) && OnlyDestroyed(old(k.groups), k.groups, IdPart(q))
    ensures r.Ok? ==> q !in k.groups && Target(k, q).Ok?
    ensures r.Ok? ==> forall p | p in Parents(old(k.Items()), Target(k, q).value) :: Key(q, RELATION, p) !in k.Items()
    ensures r.Ok? && AllWell(Since(old(k.calls), k.calls)) ==>
      forall p | p in Parents(old(k.Items()), Target(k, q).value) && IdPart(p) == IdPart(q) && Target(k, p).Ok? :: p !in k.groups
    decreases |k.Items()|, 1
  {
    hide Without, Sorted, IdPart, FailedWith, AllWell, StoppedBy, OnlyLost, OnlyDestroyed, Parents;
    ghost var id, t0, gs0, c0 := IdPart(q), k.Items(), k.groups, k.calls;
    NothingLost(t0, gs0, id);
    var parents := FindParents(k, q);
    if parents.Err? {
      if Target(k, q).Ok? {
        StopIsFailure(Since(c0, k.calls), parents.errno);
      }
      return Err(parents.errno);
    }
    var i := 0;
    while i < |parents.value|
      invariant i <= |parents.value|
      invariant k.Valid() && |k.Items()| <= |t0| && c0 <= k.calls
      invariant OnlyLost(t0, k.Items(), id) && OnlyDestroyed(gs0, k.groups, id)
      invariant forall j | 0 <= j < i :: Key(q, RELATION, parents.value[j]) !in k.Items()
      invariant AllWell(Since(c0, k.calls)) ==>
        forall j | 0 <= j < i && IdPart(parents.value[j]) == id && Target(k, parents.value[j]).Ok? :: parents.value[j] !in k.groups
    {
      ghost var t, gs, c := k.Items(), k.groups, k.calls;
      var un := Detach(k, q, parents.value[i]);
      CallsJoin(c0, c, k.calls);
      LostThen(t0, t, k.Items(), id);
      DestroyedThen(gs0, gs, k.groups, id);
      if un.Err? {
        return Err(un.errno);
      }
      i := i + 1;
    }
    ghost var t, gs, c := k.Items(), k.groups, k.calls;
    WithoutOnlyLoses(t, Group(q), id);
    NothingLost(t, gs, id);
    r := k.Destroy(q);
    LastFailed(c0, k.calls);
    CallsJoin(c0, c, k.calls);
    LostThen(t0, t, k.Items(), id);
    OneDestroyed(gs, k.groups, q);
    DestroyedThen(gs0, gs, k.groups, id);
  }

  lemma OneDestroyed(gs: set<U64>, gs': set<U64>, q: U64)
    requires gs' == gs || gs' == gs - {q}
    ensures OnlyDestroyed(gs, gs', IdPart(q))
  {
    hide IdPart;
  }

  lemma LastFailed(before: seq<Call>, now: seq<Call>)
    requires before <= now && |before| < |now|
    ensures Fails(now[|now| - 1]) ==> FailedWith(Since(before, now), now[|now| - 1].errno)
  {
    var cs := Since(before, now);
    assert cs[|cs| - 1] == now[|now| - 1];
  }

  // ---------------------------------------------------------------- auto_qgroup

  function MinLevel(groups: seq<U64>): nat {
    if groups == [] then 256 else Min(Level(groups[|groups| - 1]), MinLevel(groups[..|groups| - 1]))
  }

  /** The lowest level among groups, 256 if none is lower. */
  method LowestLevel(groups: seq<U64>) returns (lowest: nat)
    ensures lowest <= 256 && forall g | g in groups :: lowest <= Level(g)
    ensures lowest < 256 ==> exists g :: g in groups && Level(g) == lowest
    ensures lowest == MinLevel(groups)
  {
    hide Level;
    lowest := 256;
    for i := 0 to |groups|
      invariant lowest <= 256 && forall g | g in groups[..i] :: lowest <= Level(g)
      invariant lowest < 256 ==> exists g :: g in groups[..i] && Level(g) == lowest
      invariant lowest == MinLevel(groups[..i])
    {
      assert groups[..i + 1] == groups[..i] + [groups[i]] && groups[..i + 1][..i] == groups[..i];
      if Level(groups[i]) < lowest {
        lowest := Level(groups[i]);
      }
    }
    assert groups[..|groups|] == groups;
  }

  /** An item of the relation of child with one of these groups. */
  predicate EdgeOf(x: Key, child: U64, parents: seq<U64>) {
    x.kind == RELATION
    && ((x.objectid == child && x.offset in parents) || (x.offset == child && x.objectid in parents))
  }

  predicate Grown(t: seq<Key>, t': seq<Key>, child: U64, parents: seq<U64>) {
    && (forall x | x in t :: x in t')
    && (forall x | x in t' && x !in t :: EdgeOf(x, child, parents))
  }

  /** Related to every one of them. */
  predicate Joins(t: seq<Key>, child: U64, parents: seq<U64>) {
    forall p | p in parents :: Key(child, RELATION, p) in t
  }

  method AssignAll(k: Kernel, child: U64, parents: seq<U64>) returns (r: Result<bool>)
    requires k.Valid()
    modifies k`quota, k`calls
    ensures k.Valid() && Grown(old(k.Items()), k.Items(), child, parents)
    ensures old(k.calls) <= k.calls && (r.Ok? <==> AllWell(Since(old(k.calls), k.calls)))
    ensures r.Err? ==> StoppedBy(Since(old(k.calls), k.calls), r.errno)
    ensures r.Ok? ==> Joins(k.Items(), child, parents)
    ensures r.Ok? && !r.value ==> k.Items() == old(k.Items())
    ensures r.Ok? && r.value ==> exists x :: x in k.Items() && x !in old(k.Items())
  {
    hide Sorted, AllWell, StoppedBy;
    NoCalls(k.calls);
    var changed := false;
    for i := 0 to |parents|
      invariant k.Valid() && Grown(old(k.Items()), k.Items(), child, parents)
      invariant Joins(k.Items(), child, parents[..i])
      invariant old(k.calls) <= k.calls && AllWell(Since(old(k.calls), k.calls))
      invariant !changed ==> k.Items() == old(k.Items())
      invariant changed ==> exists x :: x in k.Items() && x !in old(k.Items())
    {
      assert parents[..i + 1] == parents[..i] + [parents[i]];
      ghost var before := k.calls;
      var one := k.Assign(child, parents[i]);
      OneMoreCall(old(k.calls), before, Join(ErrnoOf(one)));
      if one.Err? && one.errno != EEXIST {
        StopIsFailure(Since(old(k.calls), k.calls), one.errno);
        return Err(one.errno);
      }
      if one.Ok? {
        assert Names(Key(child, RELATION, parents[i]), Relation(child, parents[i]));
        changed := true;
      }
    }
    assert parents[..|parents|] == parents;
    return Ok(changed);
  }

  /** The groups that the parent subvolume of s belongs to. */
  function Inherited(k: Kernel, t: seq<Key>, s: U64): seq<U64> {
    match ParentSubvolume(k.roots, s)
    case None => []
    case Some(p) => if Target(k, p).Ok? then Parents(t, Target(k, p).value) else []
  }

  /** The error of examining the parent subvolume's descriptor, if it has one. */
  function InheritBlocked(k: Kernel, s: U64): Option<nat> {
    match ParentSubvolume(k.roots, s)
    case None => None
    case Some(p) => if Target(k, p).Err? then Some(Target(k, p).errno) else None
  }

  method FindInherited(k: Kernel, s: U64) returns (r: Result<seq<U64>>)
    requires k.Valid() && Target(k, s) == Ok(s)
    modifies k`calls
    ensures old(k.calls) <= k.calls
    ensures r.Ok? ==> r.value == Inherited(k, k.Items(), s)
    ensures r.Ok? <==> AllWell(Since(old(k.calls), k.calls)) && InheritBlocked(k, s).None?
    ensures r.Err? ==> FailedWith(Since(old(k.calls), k.calls), r.errno)
                       || (AllWell(Since(old(k.calls), k.calls)) && InheritBlocked(k, s) == Some(r.errno))
  {
    hide Parents, InRange, Sorted, ParentSubvolume, AllWell, FailedWith, StoppedBy;
    var parent := GetParent(k, s);
    ghost var middle := k.calls;
    if parent.Err? && parent.errno != ENXIO {
      StopIsFailure(Since(old(k.calls), k.calls), parent.errno);
      return Err(parent.errno);
    } else if parent.Err? {
      return Ok([]);
    }
    r := FindParents(k, parent.value);
    CallsJoin(old(k.calls), middle, k.calls);
    if r.Err? && Target(k, parent.value).Ok? {
      StopIsFailure(Since(middle, k.calls), r.errno);
    }
    NoCalls(k.calls);
  }

  /** The chain from s over a new group of its own to every inherited group. */
  predicate Intermediary(t': seq<Key>, s: U64, new_: U64, inherited: seq<U64>) {
    && Level(new_) >= 1 && Level(s) == 0 && IdPart(new_) == s
    && new_ in Parents(t', s)
    && (forall p | p in inherited :: Level(new_) < Level(p) && p in Parents(t', new_))
  }

  lemma IntermediaryHolds(t': seq<Key>, s: U64, new_: U64, lowest: nat, inherited: seq<U64>)
    requires lowest > 1 && Level(new_) == lowest - 1 && IdPart(new_) == s
    requires forall g | g in inherited :: lowest <= Level(g)
    requires Joins(t', new_, inherited) && Key(s, RELATION, new_) in t'
    ensures Intermediary(t', s, new_, inherited)
  {
    LevelsOrder(s, new_);
    ParentsMember(t', s, new_);
    forall p | p in inherited ensures Level(new_) < Level(p) && p in Parents(t', new_) {
      LevelsOrder(new_, p);
      ParentsMember(t', new_, p);
    }
  }

  /** Joins the new group to every inherited group, then s to the new group. */
  method JoinChain(k: Kernel, s: U64, new_: U64, inherited: seq<U64>) returns (r: Result<bool>)
    requires k.Valid()
    modifies k`quota, k`calls
    ensures k.Valid()
    ensures old(k.calls) <= k.calls && (r.Ok? <==> AllWell(Since(old(k.calls), k.calls)))
    ensures r.Err? ==> StoppedBy(Since(old(k.calls), k.calls), r.errno)
    ensures r.Ok? ==> Joins(k.Items(), new_, inherited) && Key(s, RELATION, new_) in k.Items()
    ensures forall x | x in old(k.Items()) :: x in k.Items()
    ensures forall x | x in k.Items() && x !in old(k.Items()) :: EdgeOf(x, new_, inherited) || EdgeOf(x, s, [new_])
    ensures r.Ok? ==> (r.value <==> k.Items() != old(k.Items()))
  {
    hide Sorted, EdgeOf, AllWell, StoppedBy;
    var up := AssignAll(k, new_, inherited);
    if up.Err? {
      return up;
    }
    ghost var t, middle := k.Items(), k.calls;
    var down := AssignAll(k, s, [new_]);
    CallsJoin(old(k.calls), middle, k.calls);
    if down.Err? {
      return down;
    }
    assert new_ in [new_];
    assert up.value ==> exists x :: x in k.Items() && x !in old(k.Items());
    assert down.value ==> exists x :: x in k.Items() && x !in old(k.Items());
    return Ok(up.value || down.value);
  }

  /** Why no group of its own fits below the inherited ones: no level left, or an id too wide. */
  function NoRoom(s: U64, inherited: seq<U64>): Option<nat> {
    if MinLevel(inherited) <= 1 then Some(EBUSY) else if s >= LEVEL_UNIT then Some(EINVAL) else None
  }

  /** The first failure is the one reported; if the cleaning up after it goes well, a group just created is gone. */
  ghost predicate CleanedUp(k: Kernel, before: seq<Call>, had: bool, new_: U64, errno: nat, c: seq<Call>)
    reads k
  {
    && before <= c <= k.calls && StoppedBy(Since(before, c), errno)
    && (AllWell(Since(c, k.calls)) && Target(k, new_).Ok? && !had ==> new_ !in k.groups)
  }

  /** Creates the group and the chain over it, and drops it again if that fails. */
  method CreateAndJoin(k: Kernel, s: U64, new_: U64, inherited: seq<U64>) returns (r: Result<bool>)
    requires k.Valid()
    modifies k
    ensures k.Valid() && old(k.calls) <= k.calls && (r.Ok? <==> AllWell(Since(old(k.calls), k.calls)))
    ensures r.Err? ==> FailedWith(Since(old(k.calls), k.calls), r.errno)
    ensures r.Err? ==> exists c :: CleanedUp(k, old(k.calls), new_ in old(k.groups), new_, r.errno, c)
    ensures r.Ok? ==> Joins(k.Items(), new_, inherited) && Key(s, RELATION, new_) in k.Items()
    ensures r.Ok? ==> forall x | x in old(k.Items()) :: x in k.Items()
    ensures r.Ok? ==> forall x | x in k.Items() && x !in old(k.Items()) :: EdgeOf(x, new_, inherited) || EdgeOf(x, s, [new_])
    ensures r.Ok? ==> k.groups == old(k.groups) + {new_}
    ensures r.Ok? ==> (r.value <==> k.Items() != old(k.Items()) || k.groups != old(k.groups))
    ensures r.Err? ==> forall g :: (g in k.groups) != (g in old(k.groups)) ==> IdPart(g) == IdPart(new_)
  {
    hide Sorted, Parents, IdPart, EdgeOf, Joins, AllWell, StoppedBy, FailedWith, OnlyLost;
    NoCalls(k.calls);
    var create := k.Create(new_);
    OneMoreCall(old(k.calls), old(k.calls), Join(ErrnoOf(create)));
    if create.Err? && create.errno != EEXIST {
      StopIsFailure(Since(old(k.calls), k.calls), create.errno);
      assert CleanedUp(k, old(k.calls), new_ in old(k.groups), new_, create.errno, k.calls);
      return Err(create.errno);
    }
    var created := create.Ok?;
    ghost var c1 := k.calls;
    var chain := JoinChain(k, s, new_, inherited);
    ghost var c2 := k.calls;
    CallsJoin(old(k.calls), c1, c2);
    if chain.Err? {
      StopIsFailure(Since(old(k.calls), c2), chain.errno);
      if created {
        var gone := DestroyRecursive(k, new_);
        if gone.Err? && Target(k, new_).Ok? {
          FailureIsNotWell(Since(c2, k.calls), gone.errno);
        }
      }
      CallsJoin(old(k.calls), c2, k.calls);
      assert CleanedUp(k, old(k.calls), new_ in old(k.groups), new_, chain.errno, c2);
      return chain;
    }
    return Ok(created || chain.value);
  }

  /** With an intermediary: a group of its own between s and every inherited group. */
  method InsertIntermediary(k: Kernel, s: U64, inherited: seq<U64>) returns (r: Result<bool>, ghost new_: U64)
    requires k.Valid()
    modifies k
    ensures k.Valid() && old(k.calls) <= k.calls
    ensures r.Ok? ==> Intermediary(k.Items(), s, new_, inherited)
    ensures r.Ok? ==> forall x | x in old(k.Items()) :: x in k.Items()
    ensures r.Ok? ==> forall x | x in k.Items() && x !in old(k.Items()) :: EdgeOf(x, new_, inherited) || EdgeOf(x, s, [new_])
    ensures r.Ok? ==> k.groups == old(k.groups) + {new_}
    ensures r.Ok? ==> (r.value <==> k.Items() != old(k.Items()) || k.groups != old(k.groups))
    ensures r.Err? ==> forall g :: (g in k.groups) != (g in old(k.groups)) ==> IdPart(g) == s
    ensures NoRoom(s, inherited).Some? ==> r == Err(NoRoom(s, inherited).value) && k.calls == old(k.calls)
    ensures NoRoom(s, inherited).None? ==> (r.Ok? <==> AllWell(Since(old(k.calls), k.calls)))
    ensures NoRoom(s, inherited).None? && r.Err? ==> FailedWith(Since(old(k.calls), k.calls), r.errno)
    ensures NoRoom(s, inherited).None? && r.Err? ==>
      exists c :: CleanedUp(k, old(k.calls), new_ in old(k.groups), new_, r.errno, c)
  {
    new_ := 0;
    var lowest := LowestLevel(inherited);
    if lowest <= 1 {
      return Err(EBUSY), new_;
    }
    var id := Make(lowest - 1, s);
    if id.Err? {
      return Err(id.errno), new_;
    }
    hide Sorted, Parents, IdPart, Level, EdgeOf, Joins, Intermediary, AllWell, StoppedBy, FailedWith;
    new_ := id.value;
    r := CreateAndJoin(k, s, id.value, inherited);
    if r.Ok? {
      IntermediaryHolds(k.Items(), s, new_, lowest, inherited);
    }
  }

  /** The subvolume meant: the descriptor's own for id 0. */
  function Subvolume(k: Kernel, id: U64): Result<U64> {
    if id != 0 then Ok(id)
    else if k.isSubvol.Err? then Err(k.isSubvol.errno)
    else if !k.isSubvol.value then Err(ENOTTY)
    else k.ownId
  }

  /** The error that keeps a set-up from being tried, if there is one. */
  function Blocked(k: Kernel, t: seq<Key>, subvolId: U64, intermediary: bool): Option<nat> {
    var sub := Subvolume(k, subvolId);
    if sub.Err? then Some(sub.errno)
    else if Target(k, sub.value).Err? then Some(Target(k, sub.value).errno)
    else if Parents(t, sub.value) != [] then None
    else if InheritBlocked(k, sub.value).Some? then InheritBlocked(k, sub.value)
    else if intermediary then NoRoom(sub.value, Inherited(k, t, sub.value))
    else None
  }

  /**
    * On success a subvolume without groups is a member of each group its parent belongs to, directly
    * or by one group of its own in between; one that has groups is left alone.
    */
  method AutoQgroup(k: Kernel, subvolId: U64, intermediary: bool) returns (r: Result<bool>, ghost new_: U64)
    requires k.Valid()
    modifies k
    ensures k.Valid()
    ensures old(k.calls) <= k.calls
    ensures r.Ok? <==> Blocked(k, old(k.Items()), subvolId, intermediary).None? && AllWell(Since(old(k.calls), k.calls))
    ensures r.Err? ==> FailedWith(Since(old(k.calls), k.calls), r.errno)
                       || (AllWell(Since(old(k.calls), k.calls)) && Blocked(k, old(k.Items()), subvolId, intermediary) == Some(r.errno))
    ensures r.Ok? ==> Subvolume(k, subvolId).Ok?
    ensures r.Ok? ==> forall x | x in old(k.Items()) :: x in k.Items()
    ensures r.Ok? ==> (r.value <==> k.Items() != old(k.Items()) || k.groups != old(k.groups))
    ensures r.Err? ==>
      forall g :: (g in k.groups) != (g in old(k.groups)) ==> Subvolume(k, subvolId).Ok? && IdPart(g) == Subvolume(k, subvolId).value
    ensures r.Ok? ==>
      var s := Subvolume(k, subvolId).value;
      var t := old(k.Items());
      if Parents(t, s) != [] then !r.value
      else if intermediary then
        Intermediary(k.Items(), s, new_, Inherited(k, t, s)) && k.groups == old(k.groups) + {new_}
      else
        k.groups == old(k.groups) && Grown(t, k.Items(), s, Inherited(k, t, s))
        && forall p | p in Inherited(k, t, s) :: Key(s, RELATION, p) in k.Items() && (Level(s) < Level(p) ==> p in Parents(k.Items(), s))
  {
    new_ := 0;
    NoCalls(k.calls);
    var sub := Subvolume(k, subvolId);
    if sub.Err? {
      return Err(sub.errno), new_;
    }
    var s := sub.value;
    hide Sorted, Parents, IdPart, Level, AllWell, StoppedBy, FailedWith, Inherited, InheritBlocked, NoRoom, Intermediary;
    var own := FindParents(k, s);
    if own.Err? {
      if Target(k, s).Ok? {
        StopIsFailure(Since(old(k.calls), k.calls), own.errno);
      }
      return Err(own.errno), new_;
    }
    if own.value != [] {
      return Ok(false), new_;
    }
    ghost var c1 := k.calls;
    var inherited := FindInherited(k, s);
    ghost var c2 := k.calls;
    CallsJoin(old(k.calls), c1, c2);
    if inherited.Err? {
      return Err(inherited.errno), new_;
    }
    if intermediary {
      r, new_ := InsertIntermediary(k, s, inherited.value);
    } else {
      r := AssignAll(k, s, inherited.value);
      DirectMembers(k.Items(), s, inherited.value);
      if r.Err? {
        StopIsFailure(Since(c2, k.calls), r.errno);
      }
    }
    CallsJoin(old(k.calls), c2, k.calls);
    NoCalls(k.calls);
  }

  lemma DirectMembers(t: seq<Key>, s: U64, inherited: seq<U64>)
    ensures forall p | p in inherited && Key(s, RELATION, p) in t && Level(s) < Level(p) :: p in Parents(t, s)
  {
    forall p | p in inherited && Key(s, RELATION, p) in t && Level(s) < Level(p) ensures p in Parents(t, s) {
      LevelsOrder(s, p);
      ParentsMember(t, s, p);
    }
  }
}
