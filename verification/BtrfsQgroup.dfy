/**
  * Quota groups of btrfs-util.c: group ids of level and id part, the kernel's trees and calls, and finding
  * the groups that a group belongs to by a batched tree search.
  */
module BtrfsQgroup {
  import opened Basics
  import opened BtrfsKey

  const RELATION: U8 := 246
  const ROOT_BACKREF: U8 := 144
  const LEVEL_UNIT: nat := 0x1_0000_0000_0000

  const ENOENT: nat := 2
  const ENXIO: nat := 6
  const EBUSY: nat := 16
  const EEXIST: nat := 17
  const EINVAL: nat := 22
  const ENOTTY: nat := 25

  // ---------------------------------------------------------------- ids

  function Level(q: U64): nat { q / LEVEL_UNIT }

  function IdPart(q: U64): nat { q % LEVEL_UNIT }

  /** A level in the upper 16 bits over an id in the lower 48. */
  function Make(level: U64, id: U64): (r: Result<U64>)
    ensures r.Ok? <==> level < 0x1_0000 && id < LEVEL_UNIT
    ensures r.Ok? ==> Level(r.value) == level && IdPart(r.value) == id
    ensures r.Err? ==> r == Err(EINVAL)
  {
    if level >= 0x1_0000 then Err(EINVAL)
    else if id >= LEVEL_UNIT then Err(EINVAL)
    else Ok(level * LEVEL_UNIT + id)
  }

  lemma SplitThenMake(q: U64)
    ensures Make(Level(q), IdPart(q)) == Ok(q)
  {}

  lemma LevelsOrder(a: U64, b: U64)
    requires Level(a) < Level(b)
    ensures a < b
  {}

  // ---------------------------------------------------------------- relation items

  /** An item saying that group q is a member of the group in its offset. */
  predicate IsParentItem(k: Key, q: U64) {
    k.kind == RELATION && k.offset >= k.objectid && k.objectid == q
  }

  /** The groups q belongs to, in the order of the tree. */
  function Parents(t: seq<Key>, q: U64): seq<U64> {
    if t == [] then []
    else (if IsParentItem(t[0], q) then [t[0].offset] else []) + Parents(t[1..], q)
  }

  /** The items of q's own groups are found, and nothing else. */
  lemma {:induction false} ParentsMember(t: seq<Key>, q: U64, x: U64)
    ensures x in Parents(t, q) <==> q <= x && Key(q, RELATION, x) in t
  {
    if t != [] {
      ParentsMember(t[1..], q, x);
    }
  }

  /** They come in increasing order, so each exactly once. */
  lemma {:induction false} ParentsIncrease(t: seq<Key>, q: U64)
    requires Sorted(t)
    ensures forall i, j | 0 <= i < j < |Parents(t, q)| :: Parents(t, q)[i] < Parents(t, q)[j]
  {
    if t != [] {
      var rest := Parents(t[1..], q);
      ParentsIncrease(t[1..], q);
      if IsParentItem(t[0], q) {
        forall i | 0 <= i < |rest| ensures t[0].offset < rest[i] {
          ParentsMember(t[1..], q, rest[i]);
        }
      }
    }
  }

  lemma {:induction false} ParentsConcat(a: seq<Key>, b: seq<Key>, q: U64)
    ensures Parents(a + b, q) == Parents(a, q) + Parents(b, q)
  {
    hide IsParentItem;
    if a == [] {
      assert a + b == b;
    } else {
      ParentsConcat(a[1..], b, q);
      var head := if IsParentItem(a[0], q) then [a[0].offset] else [];
      assert (a + b)[1..] == a[1..] + b && (a + b)[0] == a[0];
      assert Parents(a + b, q) == head + Parents(a[1..] + b, q) && Parents(a, q) == head + Parents(a[1..], q);
      hide Parents;
      Regroup(head, Parents(a[1..], q), Parents(b, q));
    }
  }

  function First(q: U64, kind: U8): Key { Key(q, kind, 0) }

  function Last(q: U64, kind: U8): Key { Key(q, kind, U64_MAX) }

  /** The search range is just the items of one object and one type. */
  lemma RangeIsExact(k: Key, q: U64, kind: U8)
    ensures Number(First(q, kind)) <= Number(k) <= Number(Last(q, kind)) <==> k.objectid == q && k.kind == kind
  {
    if k.objectid < q {
      assert Number(k) < Number(First(q, kind));
    } else if k.objectid > q {
      assert Number(k) > Number(Last(q, kind));
    } else if k.kind < kind {
      assert Number(k) < Number(First(q, kind));
    } else if k.kind > kind {
      assert Number(k) > Number(Last(q, kind));
    }
  }

  lemma {:induction false} ParentsInRange(t: seq<Key>, q: U64)
    ensures Parents(InRange(t, First(q, RELATION), Last(q, RELATION)), q) == Parents(t, q)
  {
    hide Number, First, Last;
    if t != [] {
      ParentsInRange(t[1..], q);
      RangeIsExact(t[0], q, RELATION);
      var rest := InRange(t[1..], First(q, RELATION), Last(q, RELATION));
      if Number(First(q, RELATION)) <= Number(t[0]) <= Number(Last(q, RELATION)) {
        assert ([t[0]] + rest)[1..] == rest;
      } else {
        assert InRange(t, First(q, RELATION), Last(q, RELATION)) == rest;
      }
    }
  }

  // ---------------------------------------------------------------- the trees as the kernel keeps them

  /** The tree with one more item. */
  function Insert(t: seq<Key>, k: Key): seq<Key> {
    if t == [] || Number(k) < Number(t[0]) then [k] + t
    else if k == t[0] then t
    else [t[0]] + Insert(t[1..], k)
  }

  lemma {:induction false} InsertMember(t: seq<Key>, k: Key, x: Key)
    ensures x in Insert(t, k) <==> x == k || x in t
  {
    hide Number;
    if t != [] {
      InsertMember(t[1..], k, x);
      assert t == [t[0]] + t[1..];
    }
  }

  lemma {:induction false} InsertSorted(t: seq<Key>, k: Key)
    requires Sorted(t)
    ensures Sorted(Insert(t, k))
  {
    if t == [] || Number(k) < Number(t[0]) || k == t[0] {
      hide Number;
    } else {
      if Number(k) == Number(t[0]) {
        NumberIsInjective(k, t[0]);
      }
      hide Number;
      InsertSorted(t[1..], k);
      var rest := Insert(t[1..], k);
      forall i | 0 <= i < |rest| ensures Number(t[0]) < Number(rest[i]) {
        InsertMember(t[1..], k, rest[i]);
      }
    }
  }

  /** The tree without the items that name a given pair of groups, or without those that name group g. */
  datatype Cut = Relation(child: U64, parent: U64) | Group(g: U64)

  predicate Names(k: Key, c: Cut) {
    match c
    case Relation(a, b) => k == Key(a, RELATION, b) || k == Key(b, RELATION, a)
    case Group(g) => k.objectid == g || k.offset == g
  }

  function Without(t: seq<Key>, c: Cut): seq<Key> {
    if t == [] then []
    else (if Names(t[0], c) then [] else [t[0]]) + Without(t[1..], c)
  }

  lemma {:induction false} WithoutMember(t: seq<Key>, c: Cut, x: Key)
    ensures x in Without(t, c) <==> x in t && !Names(x, c)
  {
    if t != [] {
      WithoutMember(t[1..], c, x);
    }
  }

  lemma {:induction false} WithoutSorted(t: seq<Key>, c: Cut)
    requires Sorted(t)
    ensures Sorted(Without(t, c)) && |Without(t, c)| <= |t|
    ensures (exists x :: x in t && Names(x, c)) ==> |Without(t, c)| < |t|
  {
    hide Number;
    if t != [] {
      WithoutSorted(t[1..], c);
      var rest := Without(t[1..], c);
      forall i | 0 <= i < |rest| ensures Number(t[0]) < Number(rest[i]) {
        WithoutMember(t[1..], c, rest[i]);
      }
    }
  }

  /** One system call and the error it ended with, 0 for none. */
  datatype Call = Search(errno: nat) | RootSearch(errno: nat) | Join(errno: nat) | Cut(errno: nat)

  /** An error that a caller may not pass over: a missing quota tree and a relation already there are none. */
  predicate Fails(c: Call) {
    c.errno != 0 && (c.Search? ==> c.errno != ENOENT) && (c.Join? ==> c.errno != EEXIST)
  }

  predicate AllWell(cs: seq<Call>) {
    forall i | 0 <= i < |cs| :: !Fails(cs[i])
  }

  /** Some call failed with this error. */
  predicate FailedWith(cs: seq<Call>, errno: nat) {
    exists i :: 0 <= i < |cs| && Fails(cs[i]) && cs[i].errno == errno
  }

  /** The calls after an earlier point. */
  function Since(before: seq<Call>, now: seq<Call>): seq<Call>
    requires before <= now
  {
    now[|before|..]
  }

  /** All went well up to the last call, which failed with this error. */
  predicate StoppedBy(cs: seq<Call>, errno: nat) {
    && cs != [] && AllWell(cs[..|cs| - 1]) && Fails(cs[|cs| - 1]) && cs[|cs| - 1].errno == errno
  }

  function ErrnoOf<T>(r: Result<T>): nat {
    if r.Ok? then 0 else r.errno
  }

  lemma OneMoreCall(before: seq<Call>, now: seq<Call>, c: Call)
    requires before <= now && AllWell(Since(before, now))
    ensures before <= now + [c] && Since(before, now + [c]) == Since(before, now) + [c]
    ensures !Fails(c) ==> AllWell(Since(before, now + [c]))
    ensures Fails(c) ==> StoppedBy(Since(before, now + [c]), c.errno)
  {
    var cs := Since(before, now + [c]);
    assert cs == Since(before, now) + [c] && cs[..|cs| - 1] == Since(before, now);
  }

  lemma StopIsFailure(cs: seq<Call>, errno: nat)
    requires StoppedBy(cs, errno)
    ensures FailedWith(cs, errno) && !AllWell(cs)
  {}

  /** Calls made in two stretches. */
  lemma CallsJoin(a: seq<Call>, b: seq<Call>, c: seq<Call>)
    requires a <= b <= c
    ensures Since(a, c) == Since(a, b) + Since(b, c)
    ensures AllWell(Since(a, c)) <==> AllWell(Since(a, b)) && AllWell(Since(b, c))
    ensures forall e :: FailedWith(Since(a, b), e) || FailedWith(Since(b, c), e) ==> FailedWith(Since(a, c), e)
    ensures forall e :: AllWell(Since(a, b)) && StoppedBy(Since(b, c), e) ==> StoppedBy(Since(a, c), e)
  {
    var x, y, z := Since(a, b), Since(b, c), Since(a, c);
    assert z == x + y;
    assert forall i | 0 <= i < |x| :: z[i] == x[i];
    assert forall i | 0 <= i < |y| :: z[|x| + i] == y[i];
    forall e | FailedWith(y, e) ensures FailedWith(z, e) {
      var i :| 0 <= i < |y| && Fails(y[i]) && y[i].errno == e;
      assert z[|x| + i] == y[i];
    }
    forall e | AllWell(x) && StoppedBy(y, e) ensures StoppedBy(z, e) {
      assert z[..|z| - 1] == x + y[..|y| - 1];
    }
  }

  /**
    * The file system behind one descriptor. Each method is one system call of btrfs-util.c with its
    * retries: it may fail with any error and then changes nothing, and a search may return any
    * non-empty batch of what is left.
    */
  class Kernel {
    /** The quota tree; None while quota is disabled. */
    var quota: Option<seq<Key>>
    const roots: seq<Key>
    var groups: set<U64>
    /** Every call made so far. */
    ghost var calls: seq<Call>
    /** Outcomes of btrfs_is_filesystem, btrfs_is_subvol_fd and btrfs_subvol_get_id_fd on the descriptor. */
    const isBtrfs: Result<bool>
    const isSubvol: Result<bool>
    const ownId: Result<U64>

    constructor (roots: seq<Key>, quota: Option<seq<Key>>, groups: set<U64>,
                 isBtrfs: Result<bool>, isSubvol: Result<bool>, ownId: Result<U64>)
      requires Sorted(roots) && (quota.Some? ==> Sorted(quota.value))
      ensures Valid() && Items() == (if quota.Some? then quota.value else [])
    {
      this.roots, this.quota, this.groups, this.calls := roots, quota, groups, [];
      this.isBtrfs, this.isSubvol, this.ownId := isBtrfs, isSubvol, ownId;
    }

    predicate Valid()
      reads this
    {
      Sorted(Items()) && Sorted(roots)
    }

    function Items(): seq<Key>
      reads this
    {
      if quota.Some? then quota.value else []
    }

    function Tree(quotaTree: bool): seq<Key>
      reads this
    {
      if quotaTree then Items() else roots
    }

    method TreeSearch(quotaTree: bool, lo: Key, hi: Key) returns (r: Result<seq<Key>>)
      requires Valid()
      modifies this`calls
      ensures calls == old(calls) + [if quotaTree then Search(ErrnoOf(r)) else RootSearch(ErrnoOf(r))]
      ensures quotaTree ==> (r == Err(ENOENT) <==> quota.None?)
      ensures r.Err? ==> r.errno != 0 && r.errno != ENXIO
      ensures r.Ok? ==> r.value <= InRange(Tree(quotaTree), lo, hi) && |r.value| <= 256
      ensures r.Ok? && r.value == [] ==> InRange(Tree(quotaTree), lo, hi) == []
    {
      var fault: nat := *;
      var n: int := *;
      var found := InRange(Tree(quotaTree), lo, hi);
      n := if n < 1 then 1 else n;
      n := if n > 256 then 256 else n;
      n := if n > |found| then |found| else n;
      if quotaTree && quota.None? {
        r := Err(ENOENT);
      } else if fault > 0 && fault != ENOENT && fault != ENXIO {
        r := Err(fault);
      } else {
        r := Ok(found[..n]);
      }
      calls := calls + [if quotaTree then Search(ErrnoOf(r)) else RootSearch(ErrnoOf(r))];
    }

    method Assign(child: U64, parent: U64) returns (r: Result<bool>)
      requires Valid()
      modifies this`quota, this`calls
      ensures calls == old(calls) + [Join(ErrnoOf(r))] && (r.Err? ==> r.errno != 0)
      ensures Valid()
      ensures r.Err? ==> quota == old(quota)
      ensures r == Err(EEXIST) ==> Key(child, RELATION, parent) in Items()
      ensures r.Ok? ==> forall x :: x in Items() <==> x in old(Items()) || Names(x, Relation(child, parent))
      ensures r.Ok? ==> Key(child, RELATION, parent) !in old(Items())
    {
      var fault: nat := *;
      var rescan: bool := *;
      ghost var t := Items();
      if quota.None? {
        r := Err(EINVAL);
      } else if Key(child, RELATION, parent) in quota.value {
        r := Err(EEXIST);
      } else if fault > 0 && fault != EEXIST {
        r := Err(fault);
      } else {
        var t' := Insert(quota.value, Key(child, RELATION, parent));
        InsertSorted(t, Key(child, RELATION, parent));
        InsertSorted(t', Key(parent, RELATION, child));
        quota := Some(Insert(t', Key(parent, RELATION, child)));
        forall x ensures x in Items() <==> x in t || Names(x, Relation(child, parent)) {
          InsertMember(t, Key(child, RELATION, parent), x);
          InsertMember(t', Key(parent, RELATION, child), x);
        }
        r := Ok(rescan);
      }
      calls := calls + [Join(ErrnoOf(r))];
    }

    method Unassign(child: U64, parent: U64) returns (r: Result<bool>)
      requires Valid()
      modifies this`quota, this`calls
      ensures calls == old(calls) + [Cut(ErrnoOf(r))] && (r.Err? ==> r.errno != 0)
      ensures Valid()
      ensures r.Err? ==> quota == old(quota)
      ensures r.Ok? ==> Items() == Without(old(Items()), Relation(child, parent)) && |Items()| < |old(Items())|
    {
      var fault: nat := *;
      var rescan: bool := *;
      if quota.None? {
        r := Err(EINVAL);
      } else if Key(child, RELATION, parent) !in quota.value {
        r := Err(ENOENT);
      } else if fault > 0 {
        r := Err(fault);
      } else {
        WithoutSorted(quota.value, Relation(child, parent));
        assert Names(Key(child, RELATION, parent), Relation(child, parent));
        quota := Some(Without(quota.value, Relation(child, parent)));
        r := Ok(rescan);
      }
      calls := calls + [Cut(ErrnoOf(r))];
    }

    method Create(q: U64) returns (r: Result<bool>)
      modifies this`groups, this`calls
      ensures calls == old(calls) + [Join(ErrnoOf(r))] && (r.Err? ==> r.errno != 0)
      ensures r.Ok? ==> q !in old(groups) && groups == old(groups) + {q}
      ensures r.Err? ==> groups == old(groups)
      ensures r == Err(EEXIST) ==> q in groups
    {
      var fault: nat := *;
      if q in groups {
        r := Err(EEXIST);
      } else if fault > 0 && fault != EEXIST {
        r := Err(fault);
      } else {
        groups := groups + {q};
        r := Ok(true);
      }
      calls := calls + [Join(ErrnoOf(r))];
    }

    /** A destroyed group may take its items with it. */
    method Destroy(q: U64) returns (r: Result<bool>)
      requires Valid()
      modifies this`quota, this`groups, this`calls
      ensures calls == old(calls) + [Cut(ErrnoOf(r))] && (r.Err? ==> r.errno != 0)
      ensures Valid()
      ensures r.Err? ==> groups == old(groups) && quota == old(quota)
      ensures r.Ok? ==> groups == old(groups) - {q}
      ensures Items() == old(Items()) || Items() == Without(old(Items()), Group(q))
      ensures |Items()| <= |old(Items())|
    {
      var fault: nat := *;
      var dropItems: bool := *;
      if fault > 0 {
        r := Err(fault);
      } else {
        groups := groups - {q};
        if dropItems && quota.Some? {
          WithoutSorted(quota.value, Group(q));
          quota := Some(Without(quota.value, Group(q)));
        }
        r := Ok(true);
      }
      calls := calls + [Cut(ErrnoOf(r))];
    }
  }

  // ---------------------------------------------------------------- find_parents

  /** The descriptor's own subvolume stands for id 0. */
  function Target(k: Kernel, id: U64): Result<U64> {
    if id == 0 then k.ownId
    else if k.isBtrfs.Err? then Err(k.isBtrfs.errno)
    else if !k.isBtrfs.value then Err(ENOTTY)
    else Ok(id)
  }

  /** One batch: the cursor ends at its last item and the parents in it are kept. */
  method ScanBatch(args: SearchArgs, batch: seq<Key>, q: U64, items: seq<U64>) returns (items': seq<U64>)
    requires batch != []
    modifies args
    ensures items' == items + Parents(batch, q)
    ensures args.Min() == batch[|batch| - 1]
  {
    items' := items;
    assert batch[..0] == [] && batch[..|batch|] == batch;
    for i := 0 to |batch|
      invariant items' == items + Parents(batch[..i], q)
      invariant i > 0 ==> args.Min() == batch[i - 1]
    {
      var sh := batch[i];
      args.Set(sh);
      assert batch[..i + 1] == batch[..i] + [sh];
      ParentsConcat(batch[..i], [sh], q);
      if sh.kind == RELATION && sh.offset >= sh.objectid && sh.objectid == q {
        items' := items' + [sh.offset];
      }
    }
  }

  /**
    * Whatever the batches, the parents found are all of them in key order; none if quota is disabled. The
    * result is an error exactly if a search failed otherwise than for a missing tree, and is its error.
    */
  method FindParents(k: Kernel, qgroupid: U64) returns (r: Result<seq<U64>>)
    requires k.Valid()
    modifies k`calls
    ensures old(k.calls) <= k.calls
    ensures Target(k, qgroupid).Err? ==> r == Err(Target(k, qgroupid).errno) && k.calls == old(k.calls)
    ensures Target(k, qgroupid).Ok? ==> (r.Ok? <==> AllWell(Since(old(k.calls), k.calls)))
    ensures Target(k, qgroupid).Ok? && r.Err? ==> StoppedBy(Since(old(k.calls), k.calls), r.errno)
    ensures Target(k, qgroupid).Ok? && k.quota.None? ==> r == Ok([])
    ensures r.Ok? ==> Target(k, qgroupid).Ok? && r.value == Parents(k.Items(), Target(k, qgroupid).value)
  {
    var target := Target(k, qgroupid);
    if target.Err? {
      return Err(target.errno);
    }
    hide Number, InRange, Sorted, First, Last, AllWell, StoppedBy;
    assert Parents([], target.value) == [];
    hide Parents;
    var q := target.value;
    var args := new SearchArgs(First(q, RELATION), Last(q, RELATION));
    ParentsInRange(k.Items(), q);
    r := SearchLoop(k, args, q);
  }

  method SearchLoop(k: Kernel, args: SearchArgs, q: U64) returns (r: Result<seq<U64>>)
    requires k.Valid()
    modifies args, k`calls
    ensures old(k.calls) <= k.calls && (r.Ok? <==> AllWell(Since(old(k.calls), k.calls)))
    ensures r.Err? ==> StoppedBy(Since(old(k.calls), k.calls), r.errno) && k.quota.Some?
    ensures r.Ok? ==> r.value == Parents(InRange(k.Items(), old(args.Min()), args.max), q)
  {
    hide Number, InRange, Parents, Sorted, Fails, AllWell, StoppedBy;
    ghost var all := Parents(InRange(k.Items(), args.Min(), args.max), q);
    var items: seq<U64> := [];
    var order := args.Compare();
    Joined([], all);
    NoCalls(k.calls);
    while order <= 0
      modifies args, k`calls
      invariant order <= 0 <==> Number(args.Min()) <= Number(args.max)
      invariant items + Parents(InRange(k.Items(), args.Min(), args.max), q) == all
      invariant old(k.calls) <= k.calls && AllWell(Since(old(k.calls), k.calls))
      decreases Number(args.max) + 1 - Number(args.Min())
    {
      var more: Result<bool>;
      ghost var before := k.calls;
      more, items := SearchOnce(k, args, q, items);
      OneMoreCall(old(k.calls), before, k.calls[|before|]);
      if more.Err? {
        StopIsFailure(Since(old(k.calls), k.calls), more.errno);
        return Err(more.errno);
      }
      if !more.value {
        return Ok(items);
      }
      order := args.Compare();
    }
    NothingAbove(k.Items(), args.Min(), args.max);
    EmptyCase(q, args.Min(), args.max);
    Joined(items, []);
    return Ok(items);
  }

  lemma NoCalls(cs: seq<Call>)
    ensures Since(cs, cs) == [] && AllWell(Since(cs, cs))
  {}

  lemma Joined(a: seq<U64>, b: seq<U64>)
    ensures a == [] ==> a + b == b
    ensures b == [] ==> a + b == a
  {}

  /** The body of the search loop; no more once the rest of the range is known to be empty. */
  method SearchOnce(k: Kernel, args: SearchArgs, q: U64, items: seq<U64>) returns (more: Result<bool>, items': seq<U64>)
    requires k.Valid()
    modifies args, k`calls
    ensures exists e :: k.calls == old(k.calls) + [Search(e)] && (more.Err? <==> Fails(Search(e))) && (more.Err? ==> e == more.errno)
    ensures k.quota.None? ==> more.Ok?
    ensures more.Ok? && more.value ==> Number(args.Min()) > Number(old(args.Min()))
    ensures more.Ok? && more.value ==>
      items + Parents(InRange(k.Items(), old(args.Min()), args.max), q)
      == items' + Parents(InRange(k.Items(), args.Min(), args.max), q)
    ensures more.Ok? && !more.value ==> items' == items + Parents(InRange(k.Items(), old(args.Min()), args.max), q)
  {
    hide Parents, InRange, Sorted, Number;
    items' := items;
    var lo := args.Min();
    ghost var found := InRange(k.Items(), lo, args.max);
    EmptyCase(q, lo, args.max);
    Joined(items, []);
    var batch := k.TreeSearch(true, lo, args.max);
    if batch.Err? {
      if batch.errno == ENOENT {
        return Ok(false), items';
      }
      return Err(batch.errno), items';
    }
    if batch.value == [] {
      return Ok(false), items';
    }
    ghost var n := |batch.value|;
    assert found == batch.value + found[n..];
    ParentsConcat(batch.value, found[n..], q);
    items' := ScanBatch(args, batch.value, q, items);
    InRangeMember(k.Items(), lo, args.max, found[n - 1]);
    MoreAbove(k.Items(), lo, args.max, n);
    var ok := args.Inc();
    if ok {
      AfterBatch(k.Items(), lo, args.Min(), args.max, n);
    } else {
      assert found[n..] == [];
    }
    return Ok(ok), items';
  }

  lemma EmptyCase(q: U64, lo: Key, hi: Key)
    ensures InRange([], lo, hi) == [] && Parents([], q) == []
  {}

  lemma {:induction false} NothingAbove(t: seq<Key>, lo: Key, hi: Key)
    requires Number(lo) > Number(hi)
    ensures InRange(t, lo, hi) == []
  {
    hide Number;
    if t != [] {
      NothingAbove(t[1..], lo, hi);
    }
  }
}
