/**
 * A Rust slice `&mut x[lo..hi]` of a buffer is the region [lo, hi) of one
 * array: indices into the slice are offsets from lo, and nothing outside
 * the region changes.
 */
module Slices {
  import opened Network

  /** Everything outside [lo, hi) is as it was. */
  ghost predicate FramedOutside<T>(a: seq<T>, b: seq<T>, lo: nat, hi: nat) {
    |a| == |b| && forall k | 0 <= k < |a| && !(lo <= k < hi) :: a[k] == b[k]
  }

  /** `x.swap(i, j)` on the slice [lo, hi): exchange the elements at offsets i and j. */
  method Swap<T>(a: array<T>, lo: nat, hi: nat, i: nat, j: nat)
    requires lo <= hi <= a.Length && i < hi - lo && j < hi - lo
    modifies a
    ensures a[lo..hi] == old(a[lo..hi])[i := old(a[lo + j])][j := old(a[lo + i])]
    ensures FramedOutside(a[..], old(a[..]), lo, hi)
  {
    ghost var p := a[lo..hi];
    a[lo + i], a[lo + j] := a[lo + j], a[lo + i];
    assert a[lo..hi] == p[i := old(a[lo + j])][j := old(a[lo + i])];
  }

  /** A region disjoint from [lo, hi) is untouched. */
  lemma FramedSliceUnchanged<T>(a: seq<T>, b: seq<T>, lo: nat, hi: nat, lo': nat, hi': nat)
    requires FramedOutside(a, b, lo, hi) && lo' <= hi' <= |a|
    requires hi' <= lo || hi <= lo'
    ensures a[lo'..hi'] == b[lo'..hi']
  {
  }

  /** Joining two framed steps on nested regions. */
  lemma FramedOutsideTrans<T>(a: seq<T>, b: seq<T>, c: seq<T>, lo: nat, hi: nat, lo': nat, hi': nat)
    requires lo <= lo' && hi' <= hi
    requires FramedOutside(a, b, lo', hi') && FramedOutside(b, c, lo, hi)
    ensures FramedOutside(a, c, lo, hi)
  {
  }

  /**
   * Two framed steps on the halves [lo, mid) and [mid, hi): the region
   * [lo, hi) ends as the two results side by side.
   */
  lemma FramedHalves<T>(a1: seq<T>, a2: seq<T>, a3: seq<T>, lo: nat, mid: nat, hi: nat, left: seq<T>, right: seq<T>)
    requires lo <= mid <= hi <= |a1| && |a2| == |a1| && |a3| == |a1|
    requires a2[lo..mid] == left && FramedOutside(a2, a1, lo, mid)
    requires a3[mid..hi] == right && FramedOutside(a3, a2, mid, hi)
    ensures a3[lo..hi] == left + right && FramedOutside(a3, a1, lo, hi)
    ensures a2[mid..hi] == a1[mid..hi]
  {
    FramedSliceUnchanged(a2, a1, lo, mid, mid, hi);
    FramedSliceUnchanged(a3, a2, mid, hi, lo, mid);
    assert a3[lo..hi] == a3[lo..mid] + a3[mid..hi];
  }

  /** The halves of the region [lo, hi) are the regions [lo, mid) and [mid, hi). */
  lemma SliceHalves<T>(a: seq<T>, lo: nat, mid: nat, hi: nat)
    requires lo <= mid <= hi <= |a|
    ensures a[lo..hi][..mid - lo] == a[lo..mid] && a[lo..hi][mid - lo..] == a[mid..hi]
  {
  }

  /**
   * One iteration of the pass on [lo, hi): the region held the first i
   * iterations; after exchanging the pair i or not, as the swapper says, it
   * holds the first i + 1.
   */
  lemma PassStep<T>(s: seq<T>, b0: seq<T>, b1: seq<T>, lo: nat, hi: nat, mid: nat, i: nat, up: bool, swap: Swapper<T>, swapped: bool)
    requires lo <= hi <= |b0| && |b1| == |b0| && |s| == hi - lo && mid == |s| / 2 && i < mid
    requires b0[lo..hi] == PassPrefix(s, i, up, swap)
    requires swapped == swap(up, b0[lo + i], b0[lo + mid + i])
    requires swapped ==> b1[lo..hi] == b0[lo..hi][i := b0[lo + (mid + i)]][mid + i := b0[lo + i]]
    requires !swapped ==> b1 == b0
    ensures b1[lo..hi] == PassPrefix(s, i + 1, up, swap)
  {
    var p := b0[lo..hi];
    assert p[i] == b0[lo + i] && p[mid + i] == b0[lo + mid + i];
  }

  /** The three steps of `sub_sort` on [lo, hi): a pass, then the merge of each half. */
  lemma SubSortSteps<T>(a0: seq<T>, a1: seq<T>, a2: seq<T>, a3: seq<T>, lo: nat, mid: nat, hi: nat, up: bool, swap: Swapper<T>)
    requires lo + 1 < hi <= |a0| && mid == lo + (hi - lo) / 2
    requires |a1| == |a0| && |a2| == |a0| && |a3| == |a0|
    requires a1[lo..hi] == CompareAndSwapSpec(a0[lo..hi], up, swap) && FramedOutside(a1, a0, lo, hi)
    requires a2[lo..mid] == SubSortSpec(a1[lo..mid], up, swap) && FramedOutside(a2, a1, lo, mid)
    requires a3[mid..hi] == SubSortSpec(a2[mid..hi], up, swap) && FramedOutside(a3, a2, mid, hi)
    ensures a3[lo..hi] == SubSortSpec(a0[lo..hi], up, swap) && FramedOutside(a3, a0, lo, hi)
  {
    SliceHalves(a1, lo, mid, hi);
    FramedHalves(a1, a2, a3, lo, mid, hi, SubSortSpec(a1[lo..mid], up, swap), SubSortSpec(a2[mid..hi], up, swap));
    SubSortOfPass(a0[lo..hi], a1[lo..hi], a1[lo..mid], a1[mid..hi], a2[lo..mid], a3[mid..hi], up, swap);
  }

  /** The three steps of `do_sort` on [lo, hi): sort each half, then merge the region. */
  lemma DoSortSteps<T>(a0: seq<T>, a1: seq<T>, a2: seq<T>, a3: seq<T>, lo: nat, mid: nat, hi: nat, up: bool, swap: Swapper<T>)
    requires lo + 1 < hi <= |a0| && mid == lo + (hi - lo) / 2
    requires |a1| == |a0| && |a2| == |a0| && |a3| == |a0|
    requires a1[lo..mid] == DoSortSpec(a0[lo..mid], true, swap) && FramedOutside(a1, a0, lo, mid)
    requires a2[mid..hi] == DoSortSpec(a1[mid..hi], false, swap) && FramedOutside(a2, a1, mid, hi)
    requires a3[lo..hi] == SubSortSpec(a2[lo..hi], up, swap) && FramedOutside(a3, a2, lo, hi)
    ensures a3[lo..hi] == DoSortSpec(a0[lo..hi], up, swap) && FramedOutside(a3, a0, lo, hi)
  {
    SliceHalves(a0, lo, mid, hi);
    FramedHalves(a0, a1, a2, lo, mid, hi, DoSortSpec(a0[lo..mid], true, swap), DoSortSpec(a1[mid..hi], false, swap));
    DoSortOfHalves(a0[lo..hi], a0[lo..mid], a0[mid..hi], a1[lo..mid], a2[mid..hi], up, swap);
  }
}
