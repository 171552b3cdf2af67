/**
 * The comparison vocabulary of the sorter: Rust's three-way `Ordering`,
 * the two-valued `SortOrder` of lib.rs, and what a comparator must satisfy
 * for the sort to be correct (the contract of `Ord::cmp`).
 */
module Orders {

  /** `std::cmp::Ordering`: the result of a three-way comparison. */
  datatype Ordering = Less | Equal | Greater

  /** The order intent of the public `sort` entry points. */
  datatype SortOrder = Ascending | Descending

  /**
   * A comparator is a valid total (pre)order when swapping its arguments
   * swaps Less and Greater, and "not Greater" (that is, `<=`) is transitive.
   * Elements that compare Equal need not be identical (students of the
   * same age, for instance).
   */
  ghost predicate TotalOrder<T(!new)>(cmp: (T, T) -> Ordering) {
    && (forall x, y :: cmp(x, y) == Greater <==> cmp(y, x) == Less)
    && (forall x, y, z :: cmp(x, y) != Greater && cmp(y, z) != Greater ==> cmp(x, z) != Greater)
  }

  /** Under a total order every element compares Equal to itself. */
  lemma Reflexive<T(!new)>(cmp: (T, T) -> Ordering, x: T)
    requires TotalOrder(cmp)
    ensures cmp(x, x) == Equal
  {
    assert cmp(x, x) == Greater <==> cmp(x, x) == Less;
  }

  /** The comparator `|a, b| b.cmp(a)`: the same order read backwards. */
  function Flip<T>(cmp: (T, T) -> Ordering): (T, T) -> Ordering {
    (a: T, b: T) => cmp(b, a)
  }

  /** Reading a total order backwards gives a total order. */
  lemma FlipTotalOrder<T(!new)>(cmp: (T, T) -> Ordering)
    requires TotalOrder(cmp)
    ensures TotalOrder(Flip(cmp))
    ensures forall x, y :: Flip(cmp)(x, y) == Greater <==> cmp(x, y) == Less
  {
    forall x, y, z | Flip(cmp)(x, y) != Greater && Flip(cmp)(y, z) != Greater
      ensures Flip(cmp)(x, z) != Greater
    {
      assert cmp(z, y) != Greater && cmp(y, x) != Greater;
    }
  }
}
