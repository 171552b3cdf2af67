/**
 * The three layers of the bitonic sorter as functions on sequences: one
 * compare-and-swap pass, the bitonic merge (`sub_sort`) and the
 * build-and-merge recursion (`do_sort`). The methods of the two source
 * versions (second.rs and third.rs) are proved equal to these functions on
 * the region they work on.
 *
 * The versions differ only in the test that decides whether the pair
 * (s[i], s[mid + i]) is exchanged, so that test is a parameter: a
 * `Swapper` receives the direction and the pair.
 */
module Network {
  import opened Orders

  /** Given the direction and the pair (s[i], s[mid + i]): exchange them? */
  type Swapper<!T> = (bool, T, T) -> bool

  /**
   * A swapper is consistent with a comparator when, in direction `up`,
   * it exchanges every strictly descending pair and keeps every strictly
   * ascending one (and the reverse when not `up`). Pairs that compare Equal
   * may go either way.
   */
  ghost predicate Consistent<T(!new)>(swap: Swapper<T>, cmp: (T, T) -> Ordering) {
    forall up, x, y ::
      && (cmp(x, y) == Greater ==> swap(up, x, y) == up)
      && (cmp(x, y) == Less ==> swap(up, x, y) == !up)
  }

  /**
   * The state of the pass after its first k iterations: iteration i tests
   * the current pair (p[i], p[mid + i]) and exchanges it when the swapper
   * says so.
   */
  function PassPrefix<T>(s: seq<T>, k: nat, up: bool, swap: Swapper<T>): (r: seq<T>)
    requires k <= |s| / 2
    ensures |r| == |s|
  {
    if k == 0 then s
    else
      var p, i, m := PassPrefix(s, k - 1, up, swap), k - 1, |s| / 2;
      if swap(up, p[i], p[m + i]) then p[i := p[m + i]][m + i := p[i]] else p
  }

  /**
   * `compare_and_swap`: the loop run over all len/2 pairs.
   */
  function CompareAndSwapSpec<T>(s: seq<T>, up: bool, swap: Swapper<T>): (r: seq<T>)
    ensures |r| == |s|
  {
    PassPrefix(s, |s| / 2, up, swap)
  }

  /**
   * The closed form of the first k iterations: since every pair is visited
   * once and the pairs are disjoint, positions i < k and mid + i hold the
   * pair (s[i], s[mid + i]) of the input after its test, and every other
   * position holds its input element.
   */
  lemma {:induction false} PassPrefixAt<T>(s: seq<T>, k: nat, up: bool, swap: Swapper<T>, j: nat)
    requires k <= |s| / 2 && j < |s|
    ensures var m, r := |s| / 2, PassPrefix(s, k, up, swap);
      r[j] ==
        if j < k then (if swap(up, s[j], s[m + j]) then s[m + j] else s[j])
        else if m <= j < m + k then (if swap(up, s[j - m], s[j]) then s[j - m] else s[j])
        else s[j]
  {
    if k > 0 {
      var m, i := |s| / 2, k - 1;
      PassPrefixAt(s, i, up, swap, i);
      PassPrefixAt(s, i, up, swap, m + i);
      PassPrefixAt(s, i, up, swap, j);
    }
  }

  /** What the pass leaves at positions j and mid + j, for one j < len/2. */
  lemma CompareAndSwapAt<T>(s: seq<T>, up: bool, swap: Swapper<T>, j: nat)
    requires j < |s| / 2
    ensures var r, m := CompareAndSwapSpec(s, up, swap), |s| / 2;
      && r[j] == (if swap(up, s[j], s[m + j]) then s[m + j] else s[j])
      && r[m + j] == (if swap(up, s[j], s[m + j]) then s[j] else s[m + j])
  {
    PassPrefixAt(s, |s| / 2, up, swap, j);
    PassPrefixAt(s, |s| / 2, up, swap, |s| / 2 + j);
  }

  /** An odd last element is not part of any pair and stays where it is. */
  lemma CompareAndSwapKeepsOddLast<T>(s: seq<T>, up: bool, swap: Swapper<T>)
    requires |s| % 2 == 1
    ensures CompareAndSwapSpec(s, up, swap)[|s| - 1] == s[|s| - 1]
  {
    PassPrefixAt(s, |s| / 2, up, swap, |s| - 1);
  }

  /** The pass only exchanges elements, so the result is a permutation. */
  lemma {:induction false} PassPrefixPermutes<T>(s: seq<T>, k: nat, up: bool, swap: Swapper<T>)
    requires k <= |s| / 2
    ensures multiset(PassPrefix(s, k, up, swap)) == multiset(s)
  {
    if k > 0 {
      var p, i, m := PassPrefix(s, k - 1, up, swap), k - 1, |s| / 2;
      PassPrefixPermutes(s, i, up, swap);
      ExchangeOrKeepPermutes(p, PassPrefix(s, k, up, swap), i, m + i, swap(up, p[i], p[m + i]));
    }
  }

  /** A sequence that is p with i and j exchanged, or p itself, is a permutation of p. */
  lemma ExchangeOrKeepPermutes<T>(p: seq<T>, q: seq<T>, i: nat, j: nat, exchanged: bool)
    requires i < j < |p|
    requires exchanged ==> q == p[i := p[j]][j := p[i]]
    requires !exchanged ==> q == p
    ensures multiset(q) == multiset(p)
  {
    if exchanged {
      ExchangePermutes(p, i, j);
    }
  }

  /** Exchanging two positions keeps the multiset of elements. */
  lemma ExchangePermutes<T>(p: seq<T>, i: nat, j: nat)
    requires i < j < |p|
    ensures multiset(p[i := p[j]][j := p[i]]) == multiset(p)
  {
    var q := p[i := p[j]][j := p[i]];
    assert p == p[..i] + [p[i]] + p[i + 1..j] + [p[j]] + p[j + 1..];
    assert q == p[..i] + [p[j]] + p[i + 1..j] + [p[i]] + p[j + 1..];
  }

  /** A compare-and-swap pass permutes its input. */
  lemma CompareAndSwapPermutes<T>(s: seq<T>, up: bool, swap: Swapper<T>)
    ensures multiset(CompareAndSwapSpec(s, up, swap)) == multiset(s)
  {
    PassPrefixPermutes(s, |s| / 2, up, swap);
  }

  /**
   * After the pass, with a consistent swapper and a total order, every pair
   * (r[i], r[mid + i]) is in order: `r[i] <= r[mid + i]` when `up`,
   * `r[i] >= r[mid + i]` otherwise.
   */
  lemma CompareAndSwapOrdersPairs<T(!new)>(s: seq<T>, up: bool, swap: Swapper<T>, cmp: (T, T) -> Ordering)
    requires TotalOrder(cmp) && Consistent(swap, cmp)
    ensures var r, m := CompareAndSwapSpec(s, up, swap), |s| / 2;
      forall i :: 0 <= i < m ==>
        if up then cmp(r[i], r[m + i]) != Greater else cmp(r[i], r[m + i]) != Less
  {
    var r, m := CompareAndSwapSpec(s, up, swap), |s| / 2;
    forall i | 0 <= i < m
      ensures if up then cmp(r[i], r[m + i]) != Greater else cmp(r[i], r[m + i]) != Less
    {
      CompareAndSwapAt(s, up, swap, i);
      Reflexive(cmp, s[i]);
      Reflexive(cmp, s[m + i]);
    }
  }

  /**
   * `sub_sort`: on a region longer than 1, one pass over the whole region,
   * then the same merge on its left half and on its right half, in the same
   * direction.
   */
  function SubSortSpec<T>(s: seq<T>, up: bool, swap: Swapper<T>): (r: seq<T>)
    ensures |r| == |s|
    decreases |s|
  {
    if |s| <= 1 then s
    else
      var c, m := CompareAndSwapSpec(s, up, swap), |s| / 2;
      SubSortSpec(c[..m], up, swap) + SubSortSpec(c[m..], up, swap)
  }

  /**
   * `do_sort`: on a region longer than 1, sort the left half ascending and
   * the right half descending, whatever `up` is, then merge the whole
   * region in direction `up`.
   */
  function DoSortSpec<T>(s: seq<T>, up: bool, swap: Swapper<T>): (r: seq<T>)
    ensures |r| == |s|
    decreases |s|
  {
    if |s| <= 1 then s
    else
      var m := |s| / 2;
      SubSortSpec(DoSortSpec(s[..m], true, swap) + DoSortSpec(s[m..], false, swap), up, swap)
  }

  /** One level of `sub_sort`: the merges of the two halves of the pass, side by side. */
  lemma SubSortOfPass<T>(s: seq<T>, c: seq<T>, cl: seq<T>, cr: seq<T>, l: seq<T>, r: seq<T>, up: bool, swap: Swapper<T>)
    requires |s| > 1 && c == CompareAndSwapSpec(s, up, swap)
    requires cl == c[..|s| / 2] && cr == c[|s| / 2..]
    requires l == SubSortSpec(cl, up, swap) && r == SubSortSpec(cr, up, swap)
    ensures l + r == SubSortSpec(s, up, swap)
  {
  }

  /** One level of `do_sort`: merging the ascending left half and the descending right half. */
  lemma DoSortOfHalves<T>(s: seq<T>, sl: seq<T>, sr: seq<T>, l: seq<T>, r: seq<T>, up: bool, swap: Swapper<T>)
    requires |s| > 1 && sl == s[..|s| / 2] && sr == s[|s| / 2..]
    requires l == DoSortSpec(sl, true, swap) && r == DoSortSpec(sr, false, swap)
    ensures SubSortSpec(l + r, up, swap) == DoSortSpec(s, up, swap)
  {
  }

  /** The merge permutes its input. */
  lemma {:induction false} SubSortPermutes<T>(s: seq<T>, up: bool, swap: Swapper<T>)
    ensures multiset(SubSortSpec(s, up, swap)) == multiset(s)
    decreases |s|
  {
    if |s| > 1 {
      var c, m := CompareAndSwapSpec(s, up, swap), |s| / 2;
      var cl, cr := c[..m], c[m..];
      CompareAndSwapPermutes(s, up, swap);
      SubSortPermutes(cl, up, swap);
      SubSortPermutes(cr, up, swap);
      PermutesHalves(c, cl, cr, SubSortSpec(cl, up, swap), SubSortSpec(cr, up, swap), SubSortSpec(s, up, swap));
    }
  }

  /** Permuting each half of s and then the whole gives a permutation of s. */
  lemma PermutesHalves<T>(s: seq<T>, sl: seq<T>, sr: seq<T>, l: seq<T>, r: seq<T>, t: seq<T>)
    requires |sl| <= |s| && sl == s[..|sl|] && sr == s[|sl|..]
    requires multiset(l) == multiset(sl) && multiset(r) == multiset(sr)
    requires multiset(t) == multiset(l + r)
    ensures multiset(t) == multiset(s)
  {
    assert s == sl + sr;
  }

  /** The whole sort permutes its input. */
  lemma {:induction false} DoSortPermutes<T>(s: seq<T>, up: bool, swap: Swapper<T>)
    ensures multiset(DoSortSpec(s, up, swap)) == multiset(s)
    decreases |s|
  {
    if |s| > 1 {
      var m := |s| / 2;
      var sl, sr := s[..m], s[m..];
      var left, right := DoSortSpec(sl, true, swap), DoSortSpec(sr, false, swap);
      DoSortPermutes(sl, true, swap);
      DoSortPermutes(sr, false, swap);
      SubSortPermutes(left + right, up, swap);
      DoSortOfHalves(s, sl, sr, left, right, up, swap);
      PermutesHalves(s, sl, sr, left, right, DoSortSpec(s, up, swap));
    }
  }
}
