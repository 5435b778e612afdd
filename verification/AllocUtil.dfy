/** The growing-buffer allocator that every parser of the library relies on. */
module AllocUtil {

  const SIZE_MAX: nat := 0xFFFF_FFFF_FFFF_FFFF

  predicate SizeMultiplyOverflow(n: nat, size: nat) {
    size != 0 && n > SIZE_MAX / size
  }

  /** The request is refused: doubling it, or scaling it by the element size, leaves the range of size_t. */
  predicate TooLarge(need: nat, size: nat) {
    need > SIZE_MAX / 2 || SizeMultiplyOverflow(need * 2, size)
  }

  /**
   * Makes room for `need` elements of `size` bytes, keeping the old contents in front. The array's
   * length is the caller's `allocated` counter. A growing call at least doubles the request, so a
   * sequence of one-element appends copies each element a bounded number of times.
   */
  method GreedyRealloc<T(0)>(p: array<T>, need: nat, size: nat) returns (q: array?<T>)
    ensures q == null <==> p.Length < need && TooLarge(need, size)
    ensures q != null ==> need <= q.Length && (q == p || fresh(q))
    ensures q != null && p.Length < need ==> fresh(q) && 2 * need <= q.Length
    ensures need <= p.Length ==> q == p
    ensures q != null ==> p.Length <= q.Length && q[..p.Length] == p[..]
  {
    if p.Length >= need {
      return p;
    }
    if TooLarge(need, size) {
      return null;
    }
    var newalloc := need * 2;
    if size > 0 {
      var a := newalloc * size;
      if a < 64 {
        SmallRequest(newalloc, size);
        newalloc := 64 / size;
      }
      // The heap may have handed out more than was asked for; the surplus is put to use.
      var usable: nat :| true;
      if usable > newalloc {
        newalloc := usable;
      }
    }
    q := new T[newalloc];
    forall i | 0 <= i < p.Length {
      q[i] := p[i];
    }
  }

  lemma SmallRequest(n: nat, size: nat)
    requires 0 < size && n * size < 64
    ensures n <= 64 / size
  {
    var q := 64 / size;
    assert 64 < (q + 1) * size;
    assert n > q ==> (q + 1) * size <= n * size;
  }
}
