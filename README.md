# Bitonic sorter, modelled and proved in Dafny

This project models the bitonic sorter of `Chapter3/bitonic-sorter`, in both of its versions:

- the generic comparator version of `third.rs`: `sort_by`, `do_sort`, `sub_sort`, `compare_amd_swap` and the `sort` wrapper;
- the earlier `T: Ord` version of `second.rs`: `sort`, `do_sort`, `sub_sort` and `compare_and_swap`, steered by an `up: bool` direction.

It also models the two sortedness checks of `utils.rs` and the `SortOrder` enum of `lib.rs`.

The sorter works in place on a mutable slice whose length must be a power of two. A compare-and-swap pass looks at the pairs `(i, mid + i)` and exchanges the pairs that are out of order. `sub_sort` is the bitonic merge: one pass, then the same merge on both halves. `do_sort` sorts the left half ascending and the right half descending, which makes the region bitonic, and then merges it in the requested direction. A length that is not a power of two (0 included) is refused with `Err` and a message that carries the length.

How the model is laid out:

- **orders.dfy**: `Ordering`, `SortOrder` and the total-order contract a comparator must meet.
- **power_of_two.dfy**: `usize::is_power_of_two` ("exactly one bit set").
- **sort_result.dfy**: `Result<(), String>` and the decimal rendering in the error message.
- **utils.dfy**: `is_sorted_ascending` and `is_sorted_descending`.
- **network.dfy**: one pass, the merge and the build-and-merge recursion, as functions on sequences. Both versions share these functions. They differ only in the swap decision, which is a parameter.
- **slices.dfy**: a Rust sub-slice `&mut x[lo..hi]` is the region [lo, hi) of one array. This file holds the frame facts: nothing outside the region changes.
- **third.rs and second.rs models** (third.dfy, second.dfy): the real algorithms, as imperative methods on an `array`. The pass is a `for` loop with its invariant, and the recursion is on regions. Each method is proved equal to the sequence function on its region, and to leave every position outside the region alone.
- **zero_one.dfy and correctness.dfy**: why the network sorts. On 0-1 sequences, one pass over a bitonic sequence leaves two bitonic halves separated from each other. Marking every element above a threshold carries this over to any element type and any total order. The result is that `do_sort` returns a sorted permutation of its input.
- **agreement.dfy**: the 0-1 proof only relies on the swap decision being consistent with the order. The two versions decide differently on ties, so they are proved to agree on every input without ties. On such inputs, sorting descending is also proved to give exactly the reverse of sorting ascending, in both versions.
- **examples.dfy and second_examples.dfy**: the unit tests of both files, stated as proved facts. They cover the u32 and string vectors both ways, the length-3 failure, the students sorted by age and by name with `sort_by`, and the large test with its random vectors taken as arguments.

Where the code and its evident intent part ways, the model follows the intent:

- `third.rs:14` calls a free function `is_power_of_two(x.len())` that does not exist. It is modelled as `x.len().is_power_of_two()`, as in `second.rs:66`.
- `third.rs:88` calls `compare_and_swap`, but the function at `third.rs:110` is named `compare_amd_swap`. The call is modelled as the call of that function.
- The tests write `OK(())` (`third.rs:303`) and `&descending` (`third.rs:323`). They are read as `Ok(())` and `&Descending`.
- `Student` derives neither `PartialEq` nor `Debug`, yet `assert_eq!` compares `Vec<&Student>` values. The model compares the students as values.

None of these compiles as written, so none of them is a behaviour that could be exhibited.

## Model

| member | source | states |
|---|---|---|
| Orders.Ordering | Chapter3/bitonic-sorter/src/third.rs:9 | `std::cmp::Ordering`: the three outcomes Less, Equal and Greater of a comparison |
| Orders.SortOrder | Chapter3/bitonic-sorter/src/lib.rs:8-13 | the two order intents, Ascending and Descending |
| Orders.TotalOrder | Chapter3/bitonic-sorter/src/third.rs:153 | what an `Ord` comparator must be: swapping the arguments swaps Less and Greater, and "not Greater" is transitive |
| Orders.Flip | Chapter3/bitonic-sorter/src/third.rs:161 | the closure returning `b.cmp(a)`: the comparator with its arguments exchanged |
| Orders.FlipTotalOrder | Chapter3/bitonic-sorter/src/third.rs:161 | the reversed comparator `b.cmp(a)` of a total order is a total order, and it says Greater exactly where the original says Less |
| PowerOfTwo.CountOnes | Chapter3/bitonic-sorter/src/second.rs:66 | the number of one bits of n, by repeated halving |
| PowerOfTwo.IsPowerOfTwo | Chapter3/bitonic-sorter/src/second.rs:66 | `n.is_power_of_two()`: exactly one bit of n is set |
| PowerOfTwo.HalfOfPowerOfTwo | Chapter3/bitonic-sorter/src/third.rs:55-65 | a power of two above 1 is even and its half is a power of two, so every recursive call gets an exact half of power-of-two length |
| PowerOfTwo.PowerOfTwoPositive | Chapter3/bitonic-sorter/src/second.rs:66 | a power of two is at least 1: the empty slice is refused |
| PowerOfTwo.IsPowerOfTwoIffPow2 | Chapter3/bitonic-sorter/src/second.rs:66 | "exactly one bit set" holds exactly for the numbers 2^k |
| PowerOfTwo.Log2 | Chapter3/bitonic-sorter/src/second.rs:66 | every power of two is 2^k for the returned k |
| PowerOfTwo.Pow2IsPowerOfTwo | Chapter3/bitonic-sorter/src/second.rs:66 | every 2^k has exactly one bit set |
| SortResult.Result | Chapter3/bitonic-sorter/src/third.rs:11 | `Result<(), String>`: Ok with nothing, or Err with a message |
| SortResult.NatToString | Chapter3/bitonic-sorter/src/third.rs:21 | `{}` on a length gives a non-empty string of decimal digits without a leading zero |
| SortResult.StringToNatOfNatToString | Chapter3/bitonic-sorter/src/third.rs:21 | reading the rendered digits back gives the length |
| SortResult.LengthMessage | Chapter3/bitonic-sorter/src/third.rs:21 | the `format!` message: the fixed text, the decimal length, then ")" |
| SortResult.MessageCarriesLength | Chapter3/bitonic-sorter/src/third.rs:21 | the error message is the fixed text, then the digits of `x.len()`, then ")", and the digits read back as the length |
| SortResult.MessageInjective | Chapter3/bitonic-sorter/src/second.rs:77 | different lengths give different error messages |
| Utils.IsSortedAscending | Chapter3/bitonic-sorter/src/utils.rs:38-50 | `windows(2).all` with `pair[0] <= pair[1]`: no adjacent pair compares Greater |
| Utils.IsSortedDescending | Chapter3/bitonic-sorter/src/utils.rs:52-55 | `windows(2).all` with `pair[0] >= pair[1]`: no adjacent pair compares Less |
| Utils.ShortIsSorted | Chapter3/bitonic-sorter/src/utils.rs:38-55 | a slice of length 0 or 1 passes both checks, since `windows(2)` yields nothing |
| Utils.AscendingPair | Chapter3/bitonic-sorter/src/utils.rs:49 | under a total order, ascending adjacent pairs give `x[i] <= x[j]` for any i <= j |
| Utils.AscendingAllPairs | Chapter3/bitonic-sorter/src/utils.rs:49 | under a total order, the adjacent-pair check holds exactly when every pair i <= j is in order |
| Utils.DescendingAllPairs | Chapter3/bitonic-sorter/src/utils.rs:54 | the same for the descending check and `x[i] >= x[j]` |
| Utils.DescendingIsFlippedAscending | Chapter3/bitonic-sorter/src/utils.rs:52-55 | descending under `cmp` is exactly ascending under the reversed comparator |
| Network.PassPrefix | Chapter3/bitonic-sorter/src/third.rs:122-131 | the slice after the first k iterations of the loop: iteration i tests the current pair (x[i], x[mid+i]) and exchanges it when the decision says so; the length is kept |
| Network.CompareAndSwapSpec | Chapter3/bitonic-sorter/src/third.rs:110-132 | `compare_amd_swap`: the loop over all len/2 pairs; shared with `compare_and_swap` at second.rs:49-61, which differs only in the decision |
| Network.PassPrefixAt | Chapter3/bitonic-sorter/src/third.rs:122-131 | after the first k iterations of the loop, position i < k holds the chosen element of the pair (x[i], x[mid+i]), mid+i holds the other, and every other position is unchanged |
| Network.CompareAndSwapAt | Chapter3/bitonic-sorter/src/third.rs:123-131 | after the whole pass, x[j] and x[mid+j] are exchanged exactly when the swap decision on the input pair says so |
| Network.CompareAndSwapKeepsOddLast | Chapter3/bitonic-sorter/src/third.rs:122-123 | on an odd length the last element belongs to no pair and stays put |
| Network.ExchangePermutes | Chapter3/bitonic-sorter/src/third.rs:129 | `swap(i, j)` keeps the multiset of elements |
| Network.PassPrefixPermutes | Chapter3/bitonic-sorter/src/third.rs:123-131 | every prefix of the loop leaves a permutation of the input |
| Network.CompareAndSwapPermutes | Chapter3/bitonic-sorter/src/third.rs:110-132 | the pass permutes its input |
| Network.CompareAndSwapOrdersPairs | Chapter3/bitonic-sorter/src/second.rs:54-60 | after the pass, with a consistent decision and a total order, `x[i] <= x[mid+i]` for every i when up, and `x[i] >= x[mid+i]` otherwise |
| Network.SubSortSpec | Chapter3/bitonic-sorter/src/third.rs:83-93 | `sub_sort`: on a region longer than 1, one pass, then the merge of the left half and of the right half, in the same direction; the length is kept |
| Network.DoSortSpec | Chapter3/bitonic-sorter/src/third.rs:52-67 | `do_sort`: on a region longer than 1, the left half sorted ascending, the right half descending, then the merge of the whole in the requested direction; the length is kept |
| Network.SubSortPermutes | Chapter3/bitonic-sorter/src/third.rs:83-93 | the merge permutes its input |
| Network.DoSortPermutes | Chapter3/bitonic-sorter/src/third.rs:52-67 | the whole sort permutes its input |
| ZeroOne.AscendingDescendingIsBitonic | Chapter3/bitonic-sorter/src/third.rs:61-63 | an ascending run followed by a descending run is bitonic |
| ZeroOne.CompareAndSwapBits | Chapter3/bitonic-sorter/src/third.rs:123-131 | on 0-1 sequences the pass puts the and of each pair low and the or high (up), or the reverse |
| ZeroOne.BandHalves | Chapter3/bitonic-sorter/src/third.rs:88-91 | the and-half and the or-half of a bitonic 0-1 sequence are bitonic, and one of them is constant |
| ZeroOne.HalfCleanerBitonic | Chapter3/bitonic-sorter/src/third.rs:88-91 | one pass over a bitonic 0-1 sequence leaves two bitonic halves, every element of one at most (up) or at least every element of the other |
| ZeroOne.ConcatSorted | Chapter3/bitonic-sorter/src/third.rs:89-91 | two sorted halves separated in the direction make one sorted sequence |
| ZeroOne.SubSortSortsBitonicBits | Chapter3/bitonic-sorter/src/third.rs:83-93 | the merge sorts every bitonic 0-1 sequence of power-of-two length in its direction |
| Correctness.BitsCompareAndSwap | Chapter3/bitonic-sorter/src/third.rs:123-131 | marking the elements above a threshold commutes with the pass |
| Correctness.BitsSubSort | Chapter3/bitonic-sorter/src/third.rs:83-93 | marking commutes with the merge |
| Correctness.SubSortMergesBitonic | Chapter3/bitonic-sorter/src/second.rs:36-47 | the merge of an ascending run followed by a descending run, of power-of-two length, is sorted in direction up |
| Correctness.DoSortSorts | Chapter3/bitonic-sorter/src/second.rs:22-34 | on a power-of-two length, with a total order and a consistent decision, `do_sort` gives ascending output when up and descending output otherwise |
| Correctness.SortedPermutationUnique | Chapter3/bitonic-sorter/src/third.rs:218 | two ascending permutations of one tie-free multiset are equal, so a sorted result is determined by its input |
| Correctness.DoSortIsSortedPermutation | Chapter3/bitonic-sorter/src/third.rs:52-67 | `do_sort` on a power-of-two length returns a permutation of its input that is sorted in its direction |
| Correctness.DoSortOfSortedIsIdentity | Chapter3/bitonic-sorter/src/third.rs:52-67 | sorting an already ascending, tie-free sequence ascending changes nothing |
| Slices.Swap | Chapter3/bitonic-sorter/src/third.rs:129 | `x.swap(i, j)` on the sub-slice [lo, hi) exchanges offsets i and j and changes nothing outside the sub-slice |
| Slices.PassStep | Chapter3/bitonic-sorter/src/third.rs:127-130 | one loop iteration, a swap or not as the decision says, takes the first i iterations to the first i + 1 |
| Slices.SubSortSteps | Chapter3/bitonic-sorter/src/third.rs:86-92 | a pass on [lo, hi), then merges of [lo, mid) and [mid, hi), each framed, leave [lo, hi) merged and the rest untouched |
| Slices.DoSortSteps | Chapter3/bitonic-sorter/src/third.rs:55-66 | sorting [lo, mid) ascending, [mid, hi) descending and merging [lo, hi), each framed, leave [lo, hi) sorted and the rest untouched |
| Third.SwapCondition | Chapter3/bitonic-sorter/src/third.rs:114-121 | the swap condition is never Equal, and it is Greater exactly when forward |
| Third.ComparatorSwap | Chapter3/bitonic-sorter/src/third.rs:127 | the decision `comparator(&x[i], &x[mid_point + i]) == swap_condition` |
| Third.ComparatorSwapConsistent | Chapter3/bitonic-sorter/src/third.rs:127 | the test `comparator(x[i], x[mid+i]) == swap_condition` exchanges every out-of-order pair, keeps every in-order pair and never exchanges a tie |
| Third.CompareAndSwap | Chapter3/bitonic-sorter/src/third.rs:110-132 | the loop leaves the region as the pass function of its old contents, and nothing outside it changes |
| Third.SubSort | Chapter3/bitonic-sorter/src/third.rs:83-93 | the region becomes the merge of its old contents, and nothing outside it changes |
| Third.DoSort | Chapter3/bitonic-sorter/src/third.rs:52-67 | the region becomes `do_sort` of its old contents, and nothing outside it changes |
| Third.SortBy | Chapter3/bitonic-sorter/src/third.rs:11-23 | Ok exactly for a power-of-two length, else Err with the length message and the slice untouched; on Ok the slice is `do_sort` forward of its input and a permutation of it for any comparator, and ascending when the comparator is a total order |
| Third.OrderComparator | Chapter3/bitonic-sorter/src/third.rs:157-162 | the comparator `sort` hands to `sort_by`: `a.cmp(b)` for Ascending and `b.cmp(a)` for Descending |
| Third.Sort | Chapter3/bitonic-sorter/src/third.rs:153-163 | `sort_by` with `a.cmp(b)` for Ascending and `b.cmp(a)` for Descending: the same outcome, a permutation of the input on Ok, and ascending or descending output as asked under a total order |
| Second.OrdSwap | Chapter3/bitonic-sorter/src/second.rs:56 | the decision `(x[i] > x[mid_point + i]) == up` |
| Second.OrdSwapConsistent | Chapter3/bitonic-sorter/src/second.rs:56 | the test `(x[i] > x[mid+i]) == up` exchanges every out-of-order pair and keeps every in-order pair; a tie is exchanged exactly when not up |
| Second.CompareAndSwap | Chapter3/bitonic-sorter/src/second.rs:49-61 | the loop leaves the region as the pass function of its old contents, and nothing outside it changes |
| Second.SubSort | Chapter3/bitonic-sorter/src/second.rs:36-47 | the region becomes the merge of its old contents, and nothing outside it changes |
| Second.DoSort | Chapter3/bitonic-sorter/src/second.rs:22-34 | the region becomes `do_sort` of its old contents, and nothing outside it changes |
| Second.Sort | Chapter3/bitonic-sorter/src/second.rs:64-79 | Ok exactly for a power-of-two length, else Err with the length message and the slice untouched; on Ok the slice is a permutation of its input, and sorted in the requested order under a total order |
| Agreement.NoTiesPermutation | Chapter3/bitonic-sorter/src/third.rs:218 | a permutation of a tie-free sequence is tie-free |
| Agreement.SortedResultsAgree | Chapter3/bitonic-sorter/src/third.rs:218 | two permutations of one tie-free input, sorted in the same direction, are equal |
| Agreement.SecondAgreesWithThird | Chapter3/bitonic-sorter/src/third.rs:153-163 | on a tie-free power-of-two input, `sort` of second.rs and `sort` of third.rs give the same result in both orders |
| Agreement.Reverse | Chapter3/bitonic-sorter/src/third.rs:160-161 | the sequence read backwards: position i holds the element at len - 1 - i |
| Agreement.ReversePermutes | Chapter3/bitonic-sorter/src/third.rs:160-161 | reversing keeps the multiset of elements |
| Agreement.ReverseOfAscending | Chapter3/bitonic-sorter/src/third.rs:160-161 | under a total order, the reverse of an ascending sequence is descending |
| Agreement.SortedResultsMirror | Chapter3/bitonic-sorter/src/third.rs:160-161 | an ascending and a descending permutation of one tie-free input are each other's reverse |
| Agreement.ThirdMirror | Chapter3/bitonic-sorter/src/third.rs:160-161 | on a tie-free power-of-two input, `sort_by` with `b.cmp(a)` gives exactly the reverse of `sort_by` with `a.cmp(b)` |
| Agreement.SecondMirror | Chapter3/bitonic-sorter/src/second.rs:70-71 | on a tie-free power-of-two input, `do_sort(x, false)` gives exactly the reverse of `do_sort(x, true)` |
| Examples.IntCmp | Chapter3/bitonic-sorter/src/third.rs:160 | `a.cmp(b)` on numbers is Less, Equal or Greater exactly as a < b, a == b or a > b |
| Examples.IntCmpTotalOrder | Chapter3/bitonic-sorter/src/third.rs:160 | the order on numbers is a total order |
| Examples.StrCmp | Chapter3/bitonic-sorter/src/third.rs:231-245 | `Ord::cmp` on `&str`: lexicographic, element by element, a proper prefix first |
| Examples.StrCmpAntisymmetric | Chapter3/bitonic-sorter/src/third.rs:233 | string comparison says Greater one way exactly when it says Less the other way |
| Examples.StrCmpTransitive | Chapter3/bitonic-sorter/src/third.rs:233 | string `<=` is transitive |
| Examples.StrCmpEqual | Chapter3/bitonic-sorter/src/third.rs:233 | two strings compare Equal exactly when they are equal |
| Examples.StrCmpTotalOrder | Chapter3/bitonic-sorter/src/third.rs:233 | the order on strings is a total order |
| Examples.U32AscendingUnique | Chapter3/bitonic-sorter/src/third.rs:218 | the only ascending arrangement of the u32 test vector is `[4, 10, 11, 20, 21, 30, 110, 330]` |
| Examples.U32DescendingUnique | Chapter3/bitonic-sorter/src/third.rs:228 | the only descending arrangement is `[330, 110, 30, 21, 20, 11, 10, 4]` |
| Examples.StrAscendingUnique | Chapter3/bitonic-sorter/src/third.rs:236 | the only ascending arrangement of the string test vector is the listed one |
| Examples.StrDescendingUnique | Chapter3/bitonic-sorter/src/third.rs:244 | the only descending arrangement of the string test vector is the listed one |
| Examples.SortU32Ascending | Chapter3/bitonic-sorter/src/third.rs:204-219 | `sort(&mut x, &Ascending)` returns Ok and leaves `[4, 10, 11, 20, 21, 30, 110, 330]` |
| Examples.SortU32Descending | Chapter3/bitonic-sorter/src/third.rs:221-229 | `sort(&mut x, &Descending)` returns Ok and leaves `[330, 110, 30, 21, 20, 11, 10, 4]` |
| Examples.SortStrAscending | Chapter3/bitonic-sorter/src/third.rs:231-237 | the strings sort ascending to the listed order, with Ok |
| Examples.SortStrDescending | Chapter3/bitonic-sorter/src/third.rs:239-245 | the strings sort descending to the listed order, with Ok |
| Examples.SortToFail | Chapter3/bitonic-sorter/src/third.rs:247-252 | a length-3 vector gives Err with the length-3 message and stays as it was |
| Examples.u8 | Chapter3/bitonic-sorter/src/third.rs:182 | the `u8` age type: the integers from 0 to 255 |
| Examples.Student | Chapter3/bitonic-sorter/src/third.rs:178-183 | the test record: first name, last name and a `u8` age |
| Examples.ByAge | Chapter3/bitonic-sorter/src/third.rs:270 | the closure returning `a.age.cmp(&b.age)` |
| Examples.ThenWith | Chapter3/bitonic-sorter/src/third.rs:302 | `Ordering::then_with`: the first ordering unless it is Equal, else the second |
| Examples.ByName | Chapter3/bitonic-sorter/src/third.rs:299-302 | the closure comparing last names, then first names on a tie |
| Examples.ByNameEqual | Chapter3/bitonic-sorter/src/third.rs:299-302 | comparing by last name and then first name says Equal exactly when both names are equal |
| Examples.ByAgeTotalOrder | Chapter3/bitonic-sorter/src/third.rs:270 | `a.age.cmp(&b.age)` is a total preorder |
| Examples.ByNameTotalOrder | Chapter3/bitonic-sorter/src/third.rs:299-302 | last name `then_with` first name is a total preorder |
| Examples.StudentsByAgeUnique | Chapter3/bitonic-sorter/src/third.rs:266 | the only arrangement of the four students ascending by age is hanako, kyoko, taro, ryosuke |
| Examples.StudentsByNameUnique | Chapter3/bitonic-sorter/src/third.rs:290 | the only arrangement ascending by name is ryosuke, kyoko, hanako, taro |
| Examples.SortStudentsByAgeAscending | Chapter3/bitonic-sorter/src/third.rs:254-279 | `sort_by` with the age closure returns Ok and leaves the expected order |
| Examples.SortStudentsByNameAscending | Chapter3/bitonic-sorter/src/third.rs:281-306 | `sort_by` with the name closure returns Ok and leaves the expected order |
| Examples.LargeIsPowerOfTwo | Chapter3/bitonic-sorter/src/third.rs:314-315 | 65 536 is a power of two |
| Examples.SortU32Large | Chapter3/bitonic-sorter/src/third.rs:310-326 | any two vectors of 65 536 numbers sort with Ok, the first ascending and the second descending, each a permutation of itself |
| SecondExamples.SortU32Ascending | Chapter3/bitonic-sorter/src/second.rs:90-105 | the second.rs `sort` returns Ok and leaves `[4, 10, 11, 20, 21, 30, 110, 330]` |
| SecondExamples.SortU32Descending | Chapter3/bitonic-sorter/src/second.rs:107-115 | the second.rs `sort` returns Ok and leaves `[330, 110, 30, 21, 20, 11, 10, 4]` |
| SecondExamples.SortStrAscending | Chapter3/bitonic-sorter/src/second.rs:117-123 | the strings sort ascending to the listed order, with Ok |
| SecondExamples.SortStrDescending | Chapter3/bitonic-sorter/src/second.rs:125-131 | the strings sort descending to the listed order, with Ok |
| SecondExamples.SortToFail | Chapter3/bitonic-sorter/src/second.rs:133-138 | a length-3 vector gives Err with the length-3 message and stays as it was |

## Left out

- `new_u32_vec` (utils.rs:27-36) draws random numbers from the `rand` crates. It is not modelled: `Examples.SortU32Large` takes the two vectors as arguments and proves the outcome for every possible content.
- The commented-out drafts in third.rs and second.rs are superseded code and are not modelled. first.rs is not modelled either, since its bodies are all `unimplemented!()`. lib.rs declares modules, and only its `SortOrder` enum is modelled.
- Integer widths: `usize` lengths and `u32` elements are unbounded integers here; ages are a `u8` newtype bounded to [0, 256). The sort does no arithmetic on elements. Its index arithmetic stays below the slice length, which the proofs of every index show.
- The element order of `u32` and `&str` is given as `IntCmp` and `StrCmp`. `StrCmp` compares code points, which orders strings as Rust's byte-wise UTF-8 comparison does.
- `then_with` takes a closure that is run only when the first comparison is Equal. The closure has no effect, so `ThenWith` takes its value instead.
- `&Student` references are modelled as the student values, since the tests compare only values.
- Panics, allocation and Rust's test framework (`assert_eq!`, `#[test]`) are not modelled: the tests become methods whose postconditions are the assertions.
