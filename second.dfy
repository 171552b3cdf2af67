/**
 * The `T: Ord` version of the sorter (second.rs): the direction is a
 * boolean `up` and the pair test is `(x[i] > x[mid_point + i]) == up`.
 * The element order `Ord::cmp` is the parameter cmp, so `x > y` is
 * `cmp(x, y) == Greater`. A Rust slice `&mut x[lo..hi]` of the caller's
 * buffer is the region [lo, hi) of one array here.
 */
module Second {
  import opened Orders
  import opened PowerOfTwo
  import opened Utils
  import opened Network
  import opened Correctness
  import opened SortResult
  import opened Slices

  /** The decision `(x[i] > x[mid_point + i]) == up`. */
  function OrdSwap<T>(cmp: (T, T) -> Ordering): Swapper<T> {
    (up: bool, x: T, y: T) => (cmp(x, y) == Greater) == up
  }

  /**
   * The decision exchanges every pair that is out of order for the
   * direction and keeps every pair that is in order; a tie is exchanged
   * exactly when sorting downwards.
   */
  lemma OrdSwapConsistent<T(!new)>(cmp: (T, T) -> Ordering)
    ensures Consistent(OrdSwap(cmp), cmp)
    ensures forall up, x, y :: cmp(x, y) == Equal ==> (OrdSwap(cmp)(up, x, y) <==> !up)
  {
  }

  /** `compare_and_swap` on the region [lo, hi) of a. */
  method CompareAndSwap<T>(a: array<T>, lo: nat, hi: nat, up: bool, cmp: (T, T) -> Ordering)
    requires lo <= hi <= a.Length
    modifies a
    ensures a[lo..hi] == CompareAndSwapSpec(old(a[lo..hi]), up, OrdSwap(cmp))
    ensures FramedOutside(a[..], old(a[..]), lo, hi)
  {
    ghost var s, sw := a[lo..hi], OrdSwap(cmp);
    var mid := (hi - lo) / 2;
    for i := 0 to mid
      invariant a[lo..hi] == PassPrefix(s, i, up, sw)
      invariant FramedOutside(a[..], old(a[..]), lo, hi)
    {
      ghost var b0 := a[..];
      var swapped := (cmp(a[lo + i], a[lo + mid + i]) == Greater) == up;
      if swapped {
        Swap(a, lo, hi, i, mid + i);
      }
      PassStep(s, b0, a[..], lo, hi, mid, i, up, sw, swapped);
      FramedOutsideTrans(a[..], b0, old(a[..]), lo, hi, lo, hi);
    }
  }

  /** `sub_sort` on the region [lo, hi) of a: the bitonic merge. */
  method SubSort<T>(a: array<T>, lo: nat, hi: nat, up: bool, cmp: (T, T) -> Ordering)
    requires lo <= hi <= a.Length
    modifies a
    ensures a[lo..hi] == SubSortSpec(old(a[lo..hi]), up, OrdSwap(cmp))
    ensures FramedOutside(a[..], old(a[..]), lo, hi)
    decreases hi - lo
  {
    if hi - lo > 1 {
      ghost var a0 := a[..];
      CompareAndSwap(a, lo, hi, up, cmp);
      ghost var a1 := a[..];
      var mid := lo + (hi - lo) / 2;
      SubSort(a, lo, mid, up, cmp);
      ghost var a2 := a[..];
      SubSort(a, mid, hi, up, cmp);
      SubSortSteps(a0, a1, a2, a[..], lo, mid, hi, up, OrdSwap(cmp));
    }
  }

  /** `do_sort` on the region [lo, hi) of a. */
  method DoSort<T>(a: array<T>, lo: nat, hi: nat, up: bool, cmp: (T, T) -> Ordering)
    requires lo <= hi <= a.Length
    modifies a
    ensures a[lo..hi] == DoSortSpec(old(a[lo..hi]), up, OrdSwap(cmp))
    ensures FramedOutside(a[..], old(a[..]), lo, hi)
    decreases hi - lo
  {
    if hi - lo > 1 {
      ghost var a0 := a[..];
      var mid := lo + (hi - lo) / 2;
      DoSort(a, lo, mid, true, cmp);
      ghost var a1 := a[..];
      DoSort(a, mid, hi, false, cmp);
      ghost var a2 := a[..];
      SubSort(a, lo, hi, up, cmp);
      DoSortSteps(a0, a1, a2, a[..], lo, mid, hi, up, OrdSwap(cmp));
    }
  }

  /**
   * `sort`: a power-of-two length is sorted in the requested order and the
   * call succeeds; any other length fails with the length in the message
   * and leaves the slice alone.
   */
  method Sort<T(!new)>(a: array<T>, order: SortOrder, cmp: (T, T) -> Ordering) returns (r: Result)
    modifies a
    ensures r == if IsPowerOfTwo(a.Length) then Ok else Err(LengthMessage(a.Length))
    ensures r.Ok? ==> a[..] == DoSortSpec(old(a[..]), order == Ascending, OrdSwap(cmp))
    ensures r.Err? ==> a[..] == old(a[..])
    ensures r.Ok? ==> multiset(a[..]) == multiset(old(a[..]))
    ensures r.Ok? && TotalOrder(cmp) ==> IsSortedIn(cmp, a[..], order == Ascending)
  {
    if IsPowerOfTwo(a.Length) {
      ghost var s := a[..];
      assert a[0..a.Length] == a[..];
      match order {
        case Ascending => DoSort(a, 0, a.Length, true, cmp);
        case Descending => DoSort(a, 0, a.Length, false, cmp);
      }
      assert a[0..a.Length] == a[..];
      DoSortPermutes(s, order == Ascending, OrdSwap(cmp));
      if TotalOrder(cmp) {
        OrdSwapConsistent(cmp);
        DoSortIsSortedPermutation(s, order == Ascending, OrdSwap(cmp), cmp);
      }
      r := Ok;
    } else {
      r := Err(LengthMessage(a.Length));
    }
  }
}
