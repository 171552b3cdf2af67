/**
 * The sortedness checks of utils.rs, `is_sorted_ascending` and
 * `is_sorted_descending`. Rust's `<=` and `>=` on a `T: Ord` are read
 * through the type's comparator: `a <= b` is `a.cmp(b) != Greater` and
 * `a >= b` is `a.cmp(b) != Less`. Both take a read-only slice, so here
 * they are predicates on a sequence value.
 */
module Utils {
  import opened Orders

  /** `x.windows(2).all(|pair| pair[0] <= pair[1])`. */
  predicate IsSortedAscending<T>(cmp: (T, T) -> Ordering, s: seq<T>) {
    forall i :: 0 <= i < |s| - 1 ==> cmp(s[i], s[i + 1]) != Greater
  }

  /** `x.windows(2).all(|pair| pair[0] >= pair[1])`. */
  predicate IsSortedDescending<T>(cmp: (T, T) -> Ordering, s: seq<T>) {
    forall i :: 0 <= i < |s| - 1 ==> cmp(s[i], s[i + 1]) != Less
  }

  /** Sorted in the direction `up` names: ascending when true, descending when false. */
  predicate IsSortedIn<T>(cmp: (T, T) -> Ordering, s: seq<T>, up: bool) {
    if up then IsSortedAscending(cmp, s) else IsSortedDescending(cmp, s)
  }

  /** `windows(2)` of a slice shorter than 2 is empty, so both checks hold. */
  lemma ShortIsSorted<T>(cmp: (T, T) -> Ordering, s: seq<T>)
    requires |s| <= 1
    ensures IsSortedAscending(cmp, s) && IsSortedDescending(cmp, s)
  {
  }

  /** The adjacent-pair check gives `s[i] <= s[j]` for one i <= j. */
  lemma {:induction false} AscendingPair<T(!new)>(cmp: (T, T) -> Ordering, s: seq<T>, i: nat, j: nat)
    requires TotalOrder(cmp) && IsSortedAscending(cmp, s)
    requires i <= j < |s|
    ensures cmp(s[i], s[j]) != Greater
    decreases j - i
  {
    if i == j {
      Reflexive(cmp, s[i]);
    } else {
      AscendingPair(cmp, s, i, j - 1);
    }
  }

  /** Under a total order, ascending adjacent pairs mean every pair is in order. */
  lemma AscendingAllPairs<T(!new)>(cmp: (T, T) -> Ordering, s: seq<T>)
    requires TotalOrder(cmp)
    ensures IsSortedAscending(cmp, s) <==>
      forall i, j :: 0 <= i <= j < |s| ==> cmp(s[i], s[j]) != Greater
  {
    if IsSortedAscending(cmp, s) {
      forall i, j | 0 <= i <= j < |s| ensures cmp(s[i], s[j]) != Greater {
        AscendingPair(cmp, s, i, j);
      }
    }
  }

  /** Descending under cmp is ascending under the flipped comparator. */
  lemma DescendingIsFlippedAscending<T(!new)>(cmp: (T, T) -> Ordering, s: seq<T>)
    requires TotalOrder(cmp)
    ensures IsSortedDescending(cmp, s) <==> IsSortedAscending(Flip(cmp), s)
  {
    FlipTotalOrder(cmp);
  }

  /** Under a total order, descending adjacent pairs mean every pair is in order. */
  lemma DescendingAllPairs<T(!new)>(cmp: (T, T) -> Ordering, s: seq<T>)
    requires TotalOrder(cmp)
    ensures IsSortedDescending(cmp, s) <==>
      forall i, j :: 0 <= i <= j < |s| ==> cmp(s[i], s[j]) != Less
  {
    FlipTotalOrder(cmp);
    DescendingIsFlippedAscending(cmp, s);
    AscendingAllPairs(Flip(cmp), s);
  }
}
