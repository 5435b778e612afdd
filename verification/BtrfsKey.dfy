/**
  * The search cursor of btrfs-util.c: a key of object id, type and offset, compared as one
  * 136-bit integer, and the loop step that moves the lower bound past the last item seen.
  */
module BtrfsKey {
  const UINT64_END: nat := 0x1_0000_0000_0000_0000

  type U64 = x: nat | x < 0x1_0000_0000_0000_0000
  type U8 = x: nat | x < 0x100

  const U64_MAX: U64 := 0xFFFF_FFFF_FFFF_FFFF
  const U8_MAX: U8 := 0xFF

  datatype Key = Key(objectid: U64, kind: U8, offset: U64)

  /** The 136-bit integer that a key is. */
  function Number(k: Key): (n: nat)
    ensures n < 0x100_0000_0000_0000_0000 * UINT64_END
  {
    k.objectid * 0x100_0000_0000_0000_0000 + k.kind * UINT64_END + k.offset
  }

  lemma NumberIsInjective(a: Key, b: Key)
    requires Number(a) == Number(b)
    ensures a == b
  {
    assert a.kind * UINT64_END + a.offset < 0x100_0000_0000_0000_0000;
    assert b.kind * UINT64_END + b.offset < 0x100_0000_0000_0000_0000;
    assert a.objectid == b.objectid;
    assert a.kind == b.kind;
  }

  function Cmp(a: nat, b: nat): int {
    if a < b then -1 else if a > b then 1 else 0
  }

  class SearchArgs {
    var minObjectid: U64
    var minType: U8
    var minOffset: U64
    const max: Key

    constructor (min: Key, max: Key)
      ensures Min() == min && this.max == max
    {
      minObjectid, minType, minOffset := min.objectid, min.kind, min.offset;
      this.max := max;
    }

    function Min(): Key
      reads this
    {
      Key(minObjectid, minType, minOffset)
    }

    /** The exact successor, failing exactly at the greatest key of all. */
    method Inc() returns (ok: bool)
      modifies this
      ensures ok ==> Number(Min()) == Number(old(Min())) + 1
      ensures !ok ==> Min() == old(Min())
      ensures ok <==> exists k :: Number(k) > Number(old(Min()))
    {
      ghost var top := Key(U64_MAX, U8_MAX, U64_MAX);
      ghost var was := Min();
      ok := true;
      if minOffset < U64_MAX {
        minOffset := minOffset + 1;
      } else if minType < U8_MAX {
        minType := minType + 1;
        minOffset := 0;
      } else if minObjectid < U64_MAX {
        minObjectid := minObjectid + 1;
        minOffset := 0;
        minType := 0;
      } else {
        ok := false;
      }
      assert ok ==> Number(Min()) > Number(was);
      assert !ok ==> was == top;
    }

    method Set(h: Key)
      modifies this
      ensures Min() == h
    {
      minObjectid := h.objectid;
      minType := h.kind;
      minOffset := h.offset;
    }

    /** Negative, zero or positive as the lower bound is below, at or above the upper one. */
    method Compare() returns (r: int)
      ensures r < 0 <==> Number(Min()) < Number(max)
      ensures r == 0 <==> Min() == max
      ensures r > 0 <==> Number(Min()) > Number(max)
    {
      r := Cmp(minObjectid, max.objectid);
      if r != 0 {
        return;
      }
      r := Cmp(minType, max.kind);
      if r != 0 {
        return;
      }
      r := Cmp(minOffset, max.offset);
    }
  }

  // ---------------------------------------------------------------- items in key order

  predicate Sorted(t: seq<Key>) {
    forall i, j | 0 <= i < j < |t| :: Number(t[i]) < Number(t[j])
  }

  /** The items between two keys, bounds included. */
  function InRange(t: seq<Key>, lo: Key, hi: Key): seq<Key> {
    if t == [] then []
    else (if Number(lo) <= Number(t[0]) <= Number(hi) then [t[0]] else []) + InRange(t[1..], lo, hi)
  }

  lemma {:induction false} InRangeMember(t: seq<Key>, lo: Key, hi: Key, k: Key)
    ensures k in InRange(t, lo, hi) <==> k in t && Number(lo) <= Number(k) <= Number(hi)
  {
    hide Number;
    if t != [] {
      InRangeMember(t[1..], lo, hi, k);
    }
  }

  lemma {:induction false} InRangeSorted(t: seq<Key>, lo: Key, hi: Key)
    requires Sorted(t)
    ensures Sorted(InRange(t, lo, hi))
  {
    hide Number;
    if t != [] {
      InRangeSorted(t[1..], lo, hi);
      forall i | 0 <= i < |InRange(t[1..], lo, hi)|
        ensures Number(t[0]) < Number(InRange(t[1..], lo, hi)[i])
      {
        InRangeMember(t[1..], lo, hi, InRange(t[1..], lo, hi)[i]);
      }
    }
  }

  lemma {:induction false} InRangeTwice(t: seq<Key>, lo: Key, lo': Key, hi: Key)
    requires Number(lo) <= Number(lo')
    ensures InRange(InRange(t, lo, hi), lo', hi) == InRange(t, lo', hi)
  {
    hide Number;
    if t != [] {
      InRangeTwice(t[1..], lo, lo', hi);
      var rest := InRange(t[1..], lo, hi);
      if Number(lo) <= Number(t[0]) <= Number(hi) {
        assert ([t[0]] + rest)[1..] == rest;
      } else {
        assert InRange(t, lo, hi) == rest;
      }
    }
  }

  /** In a sorted list the items above the n-th are the rest of the list. */
  lemma {:induction false} SortedSuffix(s: seq<Key>, n: nat, lo: Key, hi: Key)
    requires Sorted(s) && n <= |s|
    requires forall i | 0 <= i < |s| :: Number(s[i]) <= Number(hi)
    requires forall i | 0 <= i < |s| :: i < n <==> Number(s[i]) < Number(lo)
    ensures InRange(s, lo, hi) == s[n..]
  {
    hide Number;
    if s != [] {
      var m: nat := if n == 0 then 0 else n - 1;
      assert forall i | 0 <= i < |s[1..]| :: s[1..][i] == s[i + 1];
      SortedSuffix(s[1..], m, lo, hi);
      if n == 0 {
        assert InRange(s, lo, hi) == [s[0]] + s[1..];
      } else {
        assert s[1..][m..] == s[n..];
        assert InRange(s, lo, hi) == [] + InRange(s[1..], lo, hi);
      }
    }
  }

  /** Moving the lower bound just past a batch leaves exactly the items after it. */
  lemma AfterBatch(t: seq<Key>, lo: Key, lo': Key, hi: Key, n: nat)
    requires Sorted(t) && 0 < n <= |InRange(t, lo, hi)|
    requires Number(lo') == Number(InRange(t, lo, hi)[n - 1]) + 1
    ensures InRange(t, lo', hi) == InRange(t, lo, hi)[n..]
  {
    hide Number, InRange;
    var s := InRange(t, lo, hi);
    InRangeSorted(t, lo, hi);
    forall i | 0 <= i < |s| ensures Number(lo) <= Number(s[i]) <= Number(hi) {
      InRangeMember(t, lo, hi, s[i]);
    }
    InRangeTwice(t, lo, lo', hi);
    SortedSuffix(s, n, lo', hi);
  }

  /** A batch that ends before the range does ends below some key. */
  lemma MoreAbove(t: seq<Key>, lo: Key, hi: Key, n: nat)
    requires Sorted(t) && 0 < n <= |InRange(t, lo, hi)|
    ensures n < |InRange(t, lo, hi)| ==> exists k :: Number(k) > Number(InRange(t, lo, hi)[n - 1])
  {
    hide Number, InRange;
    InRangeSorted(t, lo, hi);
    var s := InRange(t, lo, hi);
    if n < |s| {
      assert Number(s[n - 1]) < Number(s[n]);
    }
  }
}
