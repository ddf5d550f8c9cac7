/** `std::sort` with a comparison: both programs sort a vector in place,
    the index builder by (term, doc id) and the tokenizer by descending
    frequency. Modelled by an insertion sort over an array, which meets
    the same contract: the array ends up ordered and holds the same
    elements. Like `std::sort` it promises nothing about the order of
    elements the comparison cannot tell apart. */
module Sorting {

  /** What `std::sort` demands of its comparison: irreflexive and
      asymmetric, and "not less" is transitive (so equivalent elements
      form classes). */
  ghost predicate StrictWeakOrder<T(!new)>(less: (T, T) -> bool)
  {
    (forall x, y :: less(x, y) ==> !less(y, x)) &&
    (forall x, y, z :: !less(x, y) && !less(y, z) ==> !less(x, z))
  }

  /** No element is less than one before it. */
  predicate Sorted<T>(s: seq<T>, less: (T, T) -> bool)
  {
    forall p, q :: 0 <= p < q < |s| ==> !less(s[q], s[p])
  }

  /** Insertion sort by adjacent swaps. */
  method SortArray<T(!new)>(a: array<T>, less: (T, T) -> bool)
    requires StrictWeakOrder(less)
    modifies a
    ensures Sorted(a[..], less)
    ensures multiset(a[..]) == multiset(old(a[..]))
  {
    var i := 0;
    while i < a.Length
      invariant 0 <= i <= a.Length
      invariant Sorted(a[..i], less)
      invariant multiset(a[..]) == multiset(old(a[..]))
    {
      Insert(a, i, less);
      i := i + 1;
    }
    assert a[..a.Length] == a[..];
  }

  /** Move a[i] left past every element it is less than; a[..i] is
      sorted before, a[..i + 1] after. */
  method Insert<T(!new)>(a: array<T>, i: nat, less: (T, T) -> bool)
    requires StrictWeakOrder(less) && i < a.Length && Sorted(a[..i], less)
    modifies a
    ensures Sorted(a[..i + 1], less)
    ensures multiset(a[..]) == multiset(old(a[..]))
  {
    var j := i;
    while j > 0 && less(a[j], a[j - 1])
      invariant 0 <= j <= i
      invariant forall p, q :: 0 <= p < q <= i && p != j && q != j ==> !less(a[q], a[p])
      invariant forall q :: j < q <= i ==> less(a[j], a[q])
      invariant multiset(a[..]) == multiset(old(a[..]))
    {
      a[j - 1], a[j] := a[j], a[j - 1];
      j := j - 1;
    }
    forall p, q | 0 <= p < q <= i
      ensures !less(a[q], a[p])
    {
      if q == j {
        if p < j - 1 {
          assert !less(a[j - 1], a[p]);
        }
      } else if p == j {
        assert less(a[j], a[q]);
      }
    }
  }
}
