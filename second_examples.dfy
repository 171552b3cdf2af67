/**
 * The unit tests of second.rs, stated as facts about the model: the same
 * u32 and string vectors, sorted both ways by the `T: Ord` version, and
 * the length-3 failure.
 */
module SecondExamples {
  import opened Orders
  import opened SortResult
  import opened Examples
  import Second

  /** `sort_u32_ascending` (second.rs). */
  method SortU32Ascending() returns (r: Result, y: seq<int>)
    ensures r == Ok && y == [4, 10, 11, 20, 21, 30, 110, 330]
  {
    var a := new int[] [10, 30, 11, 20, 4, 330, 21, 110];
    U32Input(a[..]);
    EightIsPowerOfTwo();
    IntCmpTotalOrder();
    r := Second.Sort(a, Ascending, IntCmp);
    y := a[..];
    U32AscendingUnique(y);
  }

  /** `sort_u32_descending` (second.rs). */
  method SortU32Descending() returns (r: Result, y: seq<int>)
    ensures r == Ok && y == [330, 110, 30, 21, 20, 11, 10, 4]
  {
    var a := new int[] [10, 30, 11, 20, 4, 330, 21, 110];
    U32Input(a[..]);
    EightIsPowerOfTwo();
    IntCmpTotalOrder();
    r := Second.Sort(a, Descending, IntCmp);
    y := a[..];
    U32DescendingUnique(y);
  }

  /** `sort_str_ascending` (second.rs). */
  method SortStrAscending() returns (r: Result, y: seq<string>)
    ensures r == Ok && y == ["GC", "Rust", "and", "fast", "is", "memory-efficient", "no", "with"]
  {
    var a := new string[] ["Rust", "is", "fast", "and", "memory-efficient", "with", "no", "GC"];
    StrInput(a[..]);
    EightIsPowerOfTwo();
    StrCmpTotalOrder();
    r := Second.Sort(a, Ascending, StrCmp);
    y := a[..];
    StrAscendingUnique(y);
  }

  /** `sort_str_descending` (second.rs). */
  method SortStrDescending() returns (r: Result, y: seq<string>)
    ensures r == Ok && y == ["with", "no", "memory-efficient", "is", "fast", "and", "Rust", "GC"]
  {
    var a := new string[] ["Rust", "is", "fast", "and", "memory-efficient", "with", "no", "GC"];
    StrInput(a[..]);
    EightIsPowerOfTwo();
    StrCmpTotalOrder();
    r := Second.Sort(a, Descending, StrCmp);
    y := a[..];
    StrDescendingUnique(y);
  }

  /** `sort_to_fail` (second.rs): a length of 3 is refused and the vector is left as it was. */
  method SortToFail() returns (r: Result, y: seq<int>)
    ensures r == Err(LengthMessage(3))
    ensures y == [10, 30, 11]
  {
    var a := new int[] [10, 30, 11];
    ThreeIsNotPowerOfTwo();
    r := Second.Sort(a, Ascending, IntCmp);
    y := a[..];
  }
}
