/**
 * The comparator version of the sorter (third.rs): `sort_by` sorts a
 * slice in place with a caller-supplied comparator returning an Ordering,
 * and `sort` derives that comparator from the element order and the
 * requested SortOrder. A Rust slice `&mut x[lo..hi]` of the caller's
 * buffer is the region [lo, hi) of one array here.
 */
module Third {
  import opened Orders
  import opened PowerOfTwo
  import opened Utils
  import opened Network
  import opened Correctness
  import opened SortResult
  import opened Slices

  /** `swap_condition`: forward swaps a Greater pair, backward a Less pair; a tie never. */
  function SwapCondition(forward: bool): (o: Ordering)
    ensures o != Equal
    ensures o == Greater <==> forward
  {
    if forward then Greater else Less
  }

  /** The decision `comparator(&x[i], &x[mid_point + i]) == swap_condition`. */
  function ComparatorSwap<T>(cmp: (T, T) -> Ordering): Swapper<T> {
    (forward: bool, x: T, y: T) => cmp(x, y) == SwapCondition(forward)
  }

  /**
   * The decision exchanges every pair that is out of order for the
   * direction, keeps every pair that is in order, and never exchanges a tie.
   */
  lemma ComparatorSwapConsistent<T(!new)>(cmp: (T, T) -> Ordering)
    ensures Consistent(ComparatorSwap(cmp), cmp)
    ensures forall forward, x, y :: ComparatorSwap(cmp)(forward, x, y) ==> cmp(x, y) != Equal
  {
  }

  /** `compare_amd_swap` on the region [lo, hi) of a. */
  method CompareAndSwap<T>(a: array<T>, lo: nat, hi: nat, forward: bool, cmp: (T, T) -> Ordering)
    requires lo <= hi <= a.Length
    modifies a
    ensures a[lo..hi] == CompareAndSwapSpec(old(a[lo..hi]), forward, ComparatorSwap(cmp))
    ensures FramedOutside(a[..], old(a[..]), lo, hi)
  {
    ghost var s, sw := a[lo..hi], ComparatorSwap(cmp);
    var swapCondition := SwapCondition(forward);
    var mid := (hi - lo) / 2;
    for i := 0 to mid
      invariant a[lo..hi] == PassPrefix(s, i, forward, sw)
      invariant FramedOutside(a[..], old(a[..]), lo, hi)
    {
      ghost var b0 := a[..];
      var swapped := cmp(a[lo + i], a[lo + mid + i]) == swapCondition;
      if swapped {
        Swap(a, lo, hi, i, mid + i);
      }
      PassStep(s, b0, a[..], lo, hi, mid, i, forward, sw, swapped);
      FramedOutsideTrans(a[..], b0, old(a[..]), lo, hi, lo, hi);
    }
  }

  /** `sub_sort` on the region [lo, hi) of a: the bitonic merge. */
  method SubSort<T>(a: array<T>, lo: nat, hi: nat, forward: bool, cmp: (T, T) -> Ordering)
    requires lo <= hi <= a.Length
    modifies a
    ensures a[lo..hi] == SubSortSpec(old(a[lo..hi]), forward, ComparatorSwap(cmp))
    ensures FramedOutside(a[..], old(a[..]), lo, hi)
    decreases hi - lo
  {
    if hi - lo > 1 {
      ghost var sw, a0 := ComparatorSwap(cmp), a[..];
      CompareAndSwap(a, lo, hi, forward, cmp);
      ghost var a1 := a[..];
      var mid := lo + (hi - lo) / 2;
      SubSort(a, lo, mid, forward, cmp);
      ghost var a2 := a[..];
      SubSort(a, mid, hi, forward, cmp);
      SubSortSteps(a0, a1, a2, a[..], lo, mid, hi, forward, sw);
    }
  }

  /** `do_sort` on the region [lo, hi) of a. */
  method DoSort<T>(a: array<T>, lo: nat, hi: nat, forward: bool, cmp: (T, T) -> Ordering)
    requires lo <= hi <= a.Length
    modifies a
    ensures a[lo..hi] == DoSortSpec(old(a[lo..hi]), forward, ComparatorSwap(cmp))
    ensures FramedOutside(a[..], old(a[..]), lo, hi)
    decreases hi - lo
  {
    if hi - lo > 1 {
      ghost var a0 := a[..];
      var mid := lo + (hi - lo) / 2;
      DoSort(a, lo, mid, true, cmp);
      ghost var a1 := a[..];
      DoSort(a, mid, hi, false, cmp);
      ghost var a2 := a[..];
      SubSort(a, lo, hi, forward, cmp);
      DoSortSteps(a0, a1, a2, a[..], lo, mid, hi, forward, ComparatorSwap(cmp));
    }
  }

  /**
   * `sort_by`: a power-of-two length is sorted in comparator order and the
   * call succeeds; any other length fails with the length in the message
   * and leaves the slice alone.
   */
  method SortBy<T(!new)>(a: array<T>, cmp: (T, T) -> Ordering) returns (r: Result)
    modifies a
    ensures r == if IsPowerOfTwo(a.Length) then Ok else Err(LengthMessage(a.Length))
    ensures r.Ok? ==> a[..] == DoSortSpec(old(a[..]), true, ComparatorSwap(cmp))
    ensures r.Err? ==> a[..] == old(a[..])
    ensures r.Ok? ==> multiset(a[..]) == multiset(old(a[..]))
    ensures r.Ok? && TotalOrder(cmp) ==> IsSortedAscending(cmp, a[..])
  {
    if IsPowerOfTwo(a.Length) {
      ghost var s := a[..];
      assert a[0..a.Length] == a[..];
      DoSort(a, 0, a.Length, true, cmp);
      assert a[0..a.Length] == a[..];
      DoSortPermutes(s, true, ComparatorSwap(cmp));
      if TotalOrder(cmp) {
        ComparatorSwapConsistent(cmp);
        DoSortIsSortedPermutation(s, true, ComparatorSwap(cmp), cmp);
      }
      r := Ok;
    } else {
      r := Err(LengthMessage(a.Length));
    }
  }

  /** The comparator `sort` hands to `sort_by`: `a.cmp(b)` or `b.cmp(a)`. */
  function OrderComparator<T>(cmp: (T, T) -> Ordering, order: SortOrder): (T, T) -> Ordering {
    match order
    case Ascending => cmp
    case Descending => Flip(cmp)
  }

  /**
   * `sort`: `sort_by` with the element order for Ascending and the reversed
   * order for Descending.
   */
  method Sort<T(!new)>(a: array<T>, order: SortOrder, cmp: (T, T) -> Ordering) returns (r: Result)
    modifies a
    ensures r == if IsPowerOfTwo(a.Length) then Ok else Err(LengthMessage(a.Length))
    ensures r.Ok? ==> a[..] == DoSortSpec(old(a[..]), true, ComparatorSwap(OrderComparator(cmp, order)))
    ensures r.Err? ==> a[..] == old(a[..])
    ensures r.Ok? ==> multiset(a[..]) == multiset(old(a[..]))
    ensures r.Ok? && TotalOrder(cmp) ==> IsSortedIn(cmp, a[..], order == Ascending)
  {
    match order
    case Ascending =>
      r := SortBy(a, cmp);
    case Descending =>
      r := SortBy(a, Flip(cmp));
      if r.Ok? && TotalOrder(cmp) {
        FlipTotalOrder(cmp);
        DescendingIsFlippedAscending(cmp, a[..]);
      }
  }
}
