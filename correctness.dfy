/**
 * Sortedness of the network for any element type and any total-order
 * comparator, by a threshold argument: for a threshold t, mark every
 * element greater than t with true. The network commutes with this marking,
 * so the theorem on 0-1 sequences carries over to every threshold, and a
 * sequence whose every marking is sorted is sorted.
 */
module Correctness {
  import opened Orders
  import opened PowerOfTwo
  import opened Utils
  import opened Network
  import opened ZeroOne

  /** The marking of s by threshold t: position i is true when s[i] > t. */
  function Bits<T>(s: seq<T>, t: T, cmp: (T, T) -> Ordering): (b: seq<bool>)
    ensures |b| == |s|
  {
    seq(|s|, i requires 0 <= i < |s| => cmp(s[i], t) == Greater)
  }

  lemma BitsConcat<T>(x: seq<T>, y: seq<T>, t: T, cmp: (T, T) -> Ordering)
    ensures Bits(x + y, t, cmp) == Bits(x, t, cmp) + Bits(y, t, cmp)
  {
  }

  lemma BitsSplit<T>(s: seq<T>, m: nat, t: T, cmp: (T, T) -> Ordering)
    requires m <= |s|
    ensures Bits(s[..m], t, cmp) == Bits(s, t, cmp)[..m]
    ensures Bits(s[m..], t, cmp) == Bits(s, t, cmp)[m..]
  {
  }

  /**
   * Marking commutes with one decision of the pass: the elements the
   * swapper puts low and high are marked as the bit swap puts the marks.
   */
  ghost predicate MarkingCommutes<T>(x: T, y: T, t: T, up: bool, swap: Swapper<T>, cmp: (T, T) -> Ordering) {
    var mx, my, sw := cmp(x, t) == Greater, cmp(y, t) == Greater, swap(up, x, y);
    && (cmp((if sw then y else x), t) == Greater) == (if BitSwap(up, mx, my) then my else mx)
    && (cmp((if sw then x else y), t) == Greater) == (if BitSwap(up, mx, my) then mx else my)
  }

  /** With a total order and a consistent swapper, marking commutes with every decision. */
  lemma BitsOfPair<T(!new)>(x: T, y: T, t: T, up: bool, swap: Swapper<T>, cmp: (T, T) -> Ordering)
    requires TotalOrder(cmp) && Consistent(swap, cmp)
    ensures MarkingCommutes(x, y, t, up, swap, cmp)
  {
    var mx, my := cmp(x, t) == Greater, cmp(y, t) == Greater;
    if cmp(x, y) == Greater {
      // y <= x, so y > t forces x > t
      assert cmp(y, x) != Greater;
      assert my ==> mx by {
        if !mx { assert cmp(y, x) != Greater && cmp(x, t) != Greater; }
      }
    } else if cmp(x, y) == Less {
      assert mx ==> my by {
        if !my { assert cmp(x, y) != Greater && cmp(y, t) != Greater; }
      }
    } else {
      assert cmp(y, x) == Equal;
      assert mx == my;
    }
  }

  /** Marking commutes with a compare-and-swap pass, at the pair (i, mid + i). */
  lemma BitsCompareAndSwapPair<T>(s: seq<T>, t: T, up: bool, swap: Swapper<T>, cmp: (T, T) -> Ordering, i: nat)
    requires i < |s| / 2
    requires MarkingCommutes(s[i], s[|s| / 2 + i], t, up, swap, cmp)
    ensures var m, lhs, rhs := |s| / 2, Bits(CompareAndSwapSpec(s, up, swap), t, cmp), CompareAndSwapSpec(Bits(s, t, cmp), up, BitSwap);
      lhs[i] == rhs[i] && lhs[m + i] == rhs[m + i]
  {
    var m, b := |s| / 2, Bits(s, t, cmp);
    CompareAndSwapAt(s, up, swap, i);
    CompareAndSwapAt(b, up, BitSwap, i);
  }

  /** Marking commutes with a compare-and-swap pass. */
  lemma BitsCompareAndSwap<T(!new)>(s: seq<T>, t: T, up: bool, swap: Swapper<T>, cmp: (T, T) -> Ordering)
    requires TotalOrder(cmp) && Consistent(swap, cmp)
    ensures Bits(CompareAndSwapSpec(s, up, swap), t, cmp) == CompareAndSwapSpec(Bits(s, t, cmp), up, BitSwap)
  {
    var m := |s| / 2;
    var lhs, rhs := Bits(CompareAndSwapSpec(s, up, swap), t, cmp), CompareAndSwapSpec(Bits(s, t, cmp), up, BitSwap);
    forall j | 0 <= j < |s| ensures lhs[j] == rhs[j] {
      if j < 2 * m {
        var i := if j < m then j else j - m;
        BitsOfPair(s[i], s[m + i], t, up, swap, cmp);
        BitsCompareAndSwapPair(s, t, up, swap, cmp, i);
      } else {
        CompareAndSwapKeepsOddLast(s, up, swap);
        CompareAndSwapKeepsOddLast(Bits(s, t, cmp), up, BitSwap);
      }
    }
  }

  /** Marking commutes with the bitonic merge. */
  lemma {:induction false} BitsSubSort<T(!new)>(s: seq<T>, t: T, up: bool, swap: Swapper<T>, cmp: (T, T) -> Ordering)
    requires TotalOrder(cmp) && Consistent(swap, cmp)
    ensures Bits(SubSortSpec(s, up, swap), t, cmp) == SubSortSpec(Bits(s, t, cmp), up, BitSwap)
    decreases |s|
  {
    if |s| > 1 {
      var c, m := CompareAndSwapSpec(s, up, swap), |s| / 2;
      var cb := CompareAndSwapSpec(Bits(s, t, cmp), up, BitSwap);
      BitsCompareAndSwap(s, t, up, swap, cmp);
      BitsSplit(c, m, t, cmp);
      BitsSubSort(c[..m], t, up, swap, cmp);
      BitsSubSort(c[m..], t, up, swap, cmp);
      BitsConcat(SubSortSpec(c[..m], up, swap), SubSortSpec(c[m..], up, swap), t, cmp);
    }
  }

  /** Marking an ascending sequence gives an ascending 0-1 sequence. */
  lemma BitsOfAscending<T(!new)>(x: seq<T>, t: T, cmp: (T, T) -> Ordering)
    requires TotalOrder(cmp) && IsSortedAscending(cmp, x)
    ensures SortedBits(Bits(x, t, cmp), true)
  {
    var b := Bits(x, t, cmp);
    AscendingAllPairs(cmp, x);
    forall i, j | 0 <= i < j < |x| ensures b[i] ==> b[j] {
      if !b[j] {
        assert cmp(x[i], x[j]) != Greater && cmp(x[j], t) != Greater;
      }
    }
  }

  /** Marking a descending sequence gives a descending 0-1 sequence. */
  lemma BitsOfDescending<T(!new)>(x: seq<T>, t: T, cmp: (T, T) -> Ordering)
    requires TotalOrder(cmp) && IsSortedDescending(cmp, x)
    ensures SortedBits(Bits(x, t, cmp), false)
  {
    var b := Bits(x, t, cmp);
    DescendingAllPairs(cmp, x);
    forall i, j | 0 <= i < j < |x| ensures b[j] ==> b[i] {
      if !b[i] {
        assert cmp(x[j], x[i]) != Greater && cmp(x[i], t) != Greater;
      }
    }
  }

  /** Every marking of the merge of an ascending and a descending run is sorted. */
  lemma MergedBitsSorted<T(!new)>(x: seq<T>, y: seq<T>, t: T, up: bool, swap: Swapper<T>, cmp: (T, T) -> Ordering)
    requires TotalOrder(cmp) && Consistent(swap, cmp) && IsPowerOfTwo(|x| + |y|)
    requires IsSortedAscending(cmp, x) && IsSortedDescending(cmp, y)
    ensures SortedBits(Bits(SubSortSpec(x + y, up, swap), t, cmp), up)
  {
    BitsSubSort(x + y, t, up, swap, cmp);
    BitsConcat(x, y, t, cmp);
    BitsOfAscending(x, t, cmp);
    BitsOfDescending(y, t, cmp);
    AscendingDescendingIsBitonic(Bits(x, t, cmp), Bits(y, t, cmp));
    SubSortSortsBitonicBits(Bits(x + y, t, cmp), up);
  }

  /**
   * The bitonic merge: `sub_sort` applied to an ascending run followed by a
   * descending run, of power-of-two total length, sorts it in direction `up`.
   */
  lemma SubSortMergesBitonic<T(!new)>(x: seq<T>, y: seq<T>, up: bool, swap: Swapper<T>, cmp: (T, T) -> Ordering)
    requires TotalOrder(cmp) && Consistent(swap, cmp) && IsPowerOfTwo(|x| + |y|)
    requires IsSortedAscending(cmp, x) && IsSortedDescending(cmp, y)
    ensures IsSortedIn(cmp, SubSortSpec(x + y, up, swap), up)
  {
    var r := SubSortSpec(x + y, up, swap);
    forall i | 0 <= i < |r| - 1
      ensures if up then cmp(r[i], r[i + 1]) != Greater else cmp(r[i], r[i + 1]) != Less
    {
      var t := if up then r[i + 1] else r[i];
      MergedBitsSorted(x, y, t, up, swap, cmp);
      Reflexive(cmp, t);
      var b := Bits(r, t, cmp);
      assert b[i] == (cmp(r[i], t) == Greater) && b[i + 1] == (cmp(r[i + 1], t) == Greater);
    }
  }

  /**
   * `do_sort` sorts: on a sequence of power-of-two length, with a total
   * order and a consistent swapper, the result is sorted in direction `up`.
   */
  lemma {:induction false} DoSortSorts<T(!new)>(s: seq<T>, up: bool, swap: Swapper<T>, cmp: (T, T) -> Ordering)
    requires TotalOrder(cmp) && Consistent(swap, cmp) && IsPowerOfTwo(|s|)
    ensures IsSortedIn(cmp, DoSortSpec(s, up, swap), up)
    decreases |s|
  {
    if |s| > 1 {
      var m := |s| / 2;
      HalfOfPowerOfTwo(|s|);
      DoSortSorts(s[..m], true, swap, cmp);
      DoSortSorts(s[m..], false, swap, cmp);
      SubSortMergesBitonic(DoSortSpec(s[..m], true, swap), DoSortSpec(s[m..], false, swap), up, swap, cmp);
    } else {
      ShortIsSorted(cmp, DoSortSpec(s, up, swap));
    }
  }

  /** No two different elements of s compare Equal. */
  ghost predicate NoTies<T>(cmp: (T, T) -> Ordering, s: seq<T>) {
    forall i, j :: 0 <= i < |s| && 0 <= j < |s| && cmp(s[i], s[j]) == Equal ==> s[i] == s[j]
  }

  /** Two ascending permutations of one multiset without ties start with the same element. */
  lemma SortedPermutationsSameHead<T(!new)>(cmp: (T, T) -> Ordering, s: seq<T>, t: seq<T>)
    requires TotalOrder(cmp) && NoTies(cmp, s)
    requires IsSortedAscending(cmp, s) && IsSortedAscending(cmp, t)
    requires multiset(s) == multiset(t) && |s| > 0
    ensures |t| > 0 && s[0] == t[0]
  {
    assert t[0] in multiset(s) && s[0] in multiset(t) by {
      assert |t| == |multiset(t)| == |multiset(s)| == |s|;
    }
    var k :| 0 <= k < |s| && s[k] == t[0];
    var l :| 0 <= l < |t| && t[l] == s[0];
    AscendingAllPairs(cmp, s);
    AscendingAllPairs(cmp, t);
    assert cmp(s[0], s[k]) != Greater && cmp(t[0], t[l]) != Greater;
  }

  /** Dropping the first element keeps a sequence ascending. */
  lemma TailSorted<T>(cmp: (T, T) -> Ordering, s: seq<T>)
    requires IsSortedAscending(cmp, s) && |s| > 0
    ensures IsSortedAscending(cmp, s[1..])
  {
    var u := s[1..];
    forall i | 0 <= i < |u| - 1 ensures cmp(u[i], u[i + 1]) != Greater {
      assert u[i] == s[i + 1] && u[i + 1] == s[i + 2];
    }
  }

  /** Dropping the first element keeps a sequence without ties. */
  lemma TailNoTies<T>(cmp: (T, T) -> Ordering, s: seq<T>)
    requires NoTies(cmp, s) && |s| > 0
    ensures NoTies(cmp, s[1..])
  {
    var u := s[1..];
    forall i, j | 0 <= i < |u| && 0 <= j < |u| && cmp(u[i], u[j]) == Equal ensures u[i] == u[j] {
      assert u[i] == s[i + 1] && u[j] == s[j + 1];
    }
  }

  /** The multiset of the tail is the multiset less the head. */
  lemma TailMultiset<T>(s: seq<T>)
    requires |s| > 0
    ensures multiset(s[1..]) == multiset(s) - multiset{s[0]}
  {
    assert s == [s[0]] + s[1..];
  }

  /**
   * When no two different elements tie, there is only one ascending
   * arrangement of a multiset: two sorted permutations are equal.
   */
  lemma {:induction false} SortedPermutationUnique<T(!new)>(cmp: (T, T) -> Ordering, s: seq<T>, t: seq<T>)
    requires TotalOrder(cmp) && NoTies(cmp, s)
    requires IsSortedAscending(cmp, s) && IsSortedAscending(cmp, t)
    requires multiset(s) == multiset(t)
    ensures s == t
    decreases |s|
  {
    if |s| == 0 {
      assert |t| == |multiset(t)| == 0;
    } else {
      SortedPermutationsTails(cmp, s, t);
      SortedPermutationUnique(cmp, s[1..], t[1..]);
      assert s == [s[0]] + s[1..] && t == [t[0]] + t[1..];
    }
  }

  /** Two sorted permutations without ties agree on the head, and their tails are again such a pair. */
  lemma SortedPermutationsTails<T(!new)>(cmp: (T, T) -> Ordering, s: seq<T>, t: seq<T>)
    requires TotalOrder(cmp) && NoTies(cmp, s)
    requires IsSortedAscending(cmp, s) && IsSortedAscending(cmp, t)
    requires multiset(s) == multiset(t) && |s| > 0
    ensures |t| > 0 && s[0] == t[0]
    ensures NoTies(cmp, s[1..]) && IsSortedAscending(cmp, s[1..]) && IsSortedAscending(cmp, t[1..])
    ensures multiset(s[1..]) == multiset(t[1..])
  {
    SortedPermutationsSameHead(cmp, s, t);
    TailSorted(cmp, s);
    TailNoTies(cmp, s);
    TailSorted(cmp, t);
    TailMultiset(s);
    TailMultiset(t);
  }

  /**
   * The whole sort: on a power-of-two length, `do_sort` returns a sorted
   * permutation of its input.
   */
  lemma DoSortIsSortedPermutation<T(!new)>(s: seq<T>, up: bool, swap: Swapper<T>, cmp: (T, T) -> Ordering)
    requires TotalOrder(cmp) && Consistent(swap, cmp) && IsPowerOfTwo(|s|)
    ensures var r := DoSortSpec(s, up, swap);
      IsSortedIn(cmp, r, up) && multiset(r) == multiset(s)
  {
    DoSortSorts(s, up, swap, cmp);
    DoSortPermutes(s, up, swap);
  }

  /**
   * Sorting an ascending sequence without ties ascending changes nothing;
   * more generally, the result is the one sorted arrangement of the input.
   */
  lemma DoSortOfSortedIsIdentity<T(!new)>(s: seq<T>, swap: Swapper<T>, cmp: (T, T) -> Ordering)
    requires TotalOrder(cmp) && Consistent(swap, cmp) && IsPowerOfTwo(|s|)
    requires IsSortedAscending(cmp, s) && NoTies(cmp, s)
    ensures DoSortSpec(s, true, swap) == s
  {
    DoSortIsSortedPermutation(s, true, swap, cmp);
    SortedPermutationUnique(cmp, s, DoSortSpec(s, true, swap));
  }
}
