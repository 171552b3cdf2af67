/**
 * The two versions against each other: on an input without ties, `sort`
 * of second.rs (direction flag) and `sort` of third.rs (reversed
 * comparator) leave the same result, the one sorted arrangement of the
 * input, and the descending result is the ascending one reversed.
 * With ties they may order equal elements differently.
 */
module Agreement {
  import opened Orders
  import opened PowerOfTwo
  import opened Utils
  import opened Network
  import opened Correctness
  import Second
  import Third

  /** A permutation of a sequence without ties has no ties. */
  lemma NoTiesPermutation<T>(cmp: (T, T) -> Ordering, s: seq<T>, t: seq<T>)
    requires NoTies(cmp, s) && multiset(t) == multiset(s)
    ensures NoTies(cmp, t)
  {
    forall i, j | 0 <= i < |t| && 0 <= j < |t| && cmp(t[i], t[j]) == Equal ensures t[i] == t[j] {
      assert t[i] in multiset(s) && t[j] in multiset(s);
      var k :| 0 <= k < |s| && s[k] == t[i];
      var l :| 0 <= l < |s| && s[l] == t[j];
    }
  }

  /** Reading the order backwards creates no ties. */
  lemma NoTiesFlip<T(!new)>(cmp: (T, T) -> Ordering, s: seq<T>)
    requires TotalOrder(cmp) && NoTies(cmp, s)
    ensures NoTies(Flip(cmp), s)
  {
    forall i, j | 0 <= i < |s| && 0 <= j < |s| && Flip(cmp)(s[i], s[j]) == Equal ensures s[i] == s[j] {
      assert cmp(s[j], s[i]) == Equal;
      assert cmp(s[i], s[j]) != Greater && cmp(s[i], s[j]) != Less;
    }
  }

  /**
   * Two permutations of the same tie-free input, both sorted in one
   * direction of one total order, are equal.
   */
  lemma SortedResultsAgree<T(!new)>(cmp: (T, T) -> Ordering, s: seq<T>, r1: seq<T>, r2: seq<T>, up: bool)
    requires TotalOrder(cmp) && NoTies(cmp, s)
    requires IsSortedIn(cmp, r1, up) && multiset(r1) == multiset(s)
    requires IsSortedIn(cmp, r2, up) && multiset(r2) == multiset(s)
    ensures r1 == r2
  {
    NoTiesPermutation(cmp, s, r1);
    if up {
      SortedPermutationUnique(cmp, r1, r2);
    } else {
      FlipTotalOrder(cmp);
      NoTiesFlip(cmp, r1);
      DescendingIsFlippedAscending(cmp, r1);
      DescendingIsFlippedAscending(cmp, r2);
      SortedPermutationUnique(Flip(cmp), r1, r2);
    }
  }

  /**
   * On a power-of-two input without ties under a total order, the
   * second.rs `sort` and the third.rs `sort` compute the same result.
   */
  lemma SecondAgreesWithThird<T(!new)>(s: seq<T>, order: SortOrder, cmp: (T, T) -> Ordering)
    requires TotalOrder(cmp) && NoTies(cmp, s) && IsPowerOfTwo(|s|)
    ensures DoSortSpec(s, order == Ascending, Second.OrdSwap(cmp))
         == DoSortSpec(s, true, Third.ComparatorSwap(Third.OrderComparator(cmp, order)))
  {
    var up := order == Ascending;
    var c := Third.OrderComparator(cmp, order);
    var r1, r2 := DoSortSpec(s, up, Second.OrdSwap(cmp)), DoSortSpec(s, true, Third.ComparatorSwap(c));
    Second.OrdSwapConsistent(cmp);
    DoSortIsSortedPermutation(s, up, Second.OrdSwap(cmp), cmp);
    Third.ComparatorSwapConsistent(c);
    if up {
      DoSortIsSortedPermutation(s, true, Third.ComparatorSwap(c), c);
    } else {
      FlipTotalOrder(cmp);
      DoSortIsSortedPermutation(s, true, Third.ComparatorSwap(c), c);
      DescendingIsFlippedAscending(cmp, r2);
    }
    SortedResultsAgree(cmp, s, r1, r2, up);
  }
  /** The sequence read from its last element to its first. */
  function Reverse<T>(s: seq<T>): (r: seq<T>)
    ensures |r| == |s|
    ensures forall i :: 0 <= i < |s| ==> r[i] == s[|s| - 1 - i]
  {
    if s == [] then [] else Reverse(s[1..]) + [s[0]]
  }

  /** Reversing keeps the multiset of elements. */
  lemma {:induction false} ReversePermutes<T>(s: seq<T>)
    ensures multiset(Reverse(s)) == multiset(s)
  {
    if s != [] {
      ReversePermutes(s[1..]);
      assert s == [s[0]] + s[1..];
    }
  }

  /** Reversing an ascending sequence gives a descending one. */
  lemma ReverseOfAscending<T(!new)>(cmp: (T, T) -> Ordering, s: seq<T>)
    requires TotalOrder(cmp) && IsSortedAscending(cmp, s)
    ensures IsSortedDescending(cmp, Reverse(s))
  {
    var r, n := Reverse(s), |s|;
    forall i | 0 <= i < n - 1 ensures cmp(r[i], r[i + 1]) != Less {
      assert r[i] == s[n - 1 - i] && r[i + 1] == s[n - 1 - (i + 1)];
      assert cmp(s[n - 1 - (i + 1)], s[n - 1 - i]) != Greater;
    }
  }

  /**
   * Two permutations of one tie-free input, one ascending and one
   * descending, are each other's reverse.
   */
  lemma SortedResultsMirror<T(!new)>(cmp: (T, T) -> Ordering, s: seq<T>, asc: seq<T>, desc: seq<T>)
    requires TotalOrder(cmp) && NoTies(cmp, s)
    requires IsSortedAscending(cmp, asc) && multiset(asc) == multiset(s)
    requires IsSortedDescending(cmp, desc) && multiset(desc) == multiset(s)
    ensures desc == Reverse(asc)
  {
    ReverseOfAscending(cmp, asc);
    ReversePermutes(asc);
    SortedResultsAgree(cmp, s, desc, Reverse(asc), false);
  }

  /**
   * third.rs: on a tie-free power-of-two input, sorting with the reversed
   * comparator `b.cmp(a)` gives exactly the reverse of sorting with `a.cmp(b)`.
   */
  lemma ThirdMirror<T(!new)>(s: seq<T>, cmp: (T, T) -> Ordering)
    requires TotalOrder(cmp) && NoTies(cmp, s) && IsPowerOfTwo(|s|)
    ensures DoSortSpec(s, true, Third.ComparatorSwap(Flip(cmp)))
         == Reverse(DoSortSpec(s, true, Third.ComparatorSwap(cmp)))
  {
    var r1 := DoSortSpec(s, true, Third.ComparatorSwap(cmp));
    var r2 := DoSortSpec(s, true, Third.ComparatorSwap(Flip(cmp)));
    Third.ComparatorSwapConsistent(cmp);
    DoSortIsSortedPermutation(s, true, Third.ComparatorSwap(cmp), cmp);
    FlipTotalOrder(cmp);
    Third.ComparatorSwapConsistent(Flip(cmp));
    DoSortIsSortedPermutation(s, true, Third.ComparatorSwap(Flip(cmp)), Flip(cmp));
    DescendingIsFlippedAscending(cmp, r2);
    SortedResultsMirror(cmp, s, r1, r2);
  }

  /**
   * second.rs: on a tie-free power-of-two input, sorting with `up == false`
   * gives exactly the reverse of sorting with `up == true`.
   */
  lemma SecondMirror<T(!new)>(s: seq<T>, cmp: (T, T) -> Ordering)
    requires TotalOrder(cmp) && NoTies(cmp, s) && IsPowerOfTwo(|s|)
    ensures DoSortSpec(s, false, Second.OrdSwap(cmp)) == Reverse(DoSortSpec(s, true, Second.OrdSwap(cmp)))
  {
    Second.OrdSwapConsistent(cmp);
    DoSortIsSortedPermutation(s, true, Second.OrdSwap(cmp), cmp);
    DoSortIsSortedPermutation(s, false, Second.OrdSwap(cmp), cmp);
    SortedResultsMirror(cmp, s, DoSortSpec(s, true, Second.OrdSwap(cmp)), DoSortSpec(s, false, Second.OrdSwap(cmp)));
  }
}
