/**
 * The unit tests of third.rs, stated as facts about the model: the u32
 * and string vectors sorted both ways, the length-3 failure, and the
 * students sorted by age and by name with `sort_by`.
 */
module Examples {
  import opened Orders
  import opened PowerOfTwo
  import opened Utils
  import opened Correctness
  import opened SortResult
  import opened Agreement
  import Third

  /** `Ord::cmp` on integers. */
  function IntCmp(x: int, y: int): (o: Ordering)
    ensures o == Less <==> x < y
    ensures o == Equal <==> x == y
    ensures o == Greater <==> x > y
  {
    if x < y then Less else if x > y then Greater else Equal
  }

  lemma IntCmpTotalOrder()
    ensures TotalOrder(IntCmp)
  {
  }

  /** Integers never tie unless equal. */
  lemma IntCmpNoTies(s: seq<int>)
    ensures NoTies(IntCmp, s)
  {
  }

  /**
   * `Ord::cmp` on strings: lexicographic, character by character, a
   * proper prefix first. Comparing the UTF-8 bytes, as Rust does, orders
   * strings the same way as comparing their code points.
   */
  function StrCmp(a: string, b: string): Ordering
    decreases |a|
  {
    if |a| == 0 then (if |b| == 0 then Equal else Less)
    else if |b| == 0 then Greater
    else if a[0] < b[0] then Less
    else if a[0] > b[0] then Greater
    else StrCmp(a[1..], b[1..])
  }

  lemma {:induction false} StrCmpAntisymmetric(a: string, b: string)
    ensures StrCmp(a, b) == Greater <==> StrCmp(b, a) == Less
    decreases |a|
  {
    if |a| > 0 && |b| > 0 && a[0] == b[0] {
      StrCmpAntisymmetric(a[1..], b[1..]);
    }
  }

  lemma {:induction false} StrCmpTransitive(a: string, b: string, c: string)
    requires StrCmp(a, b) != Greater && StrCmp(b, c) != Greater
    ensures StrCmp(a, c) != Greater
    decreases |a|
  {
    if |a| > 0 && |b| > 0 && |c| > 0 && a[0] == b[0] == c[0] {
      StrCmpTransitive(a[1..], b[1..], c[1..]);
    }
  }

  lemma {:induction false} StrCmpEqual(a: string, b: string)
    ensures StrCmp(a, b) == Equal <==> a == b
    decreases |a|
  {
    if |a| > 0 && |b| > 0 && a[0] == b[0] {
      StrCmpEqual(a[1..], b[1..]);
      assert a == [a[0]] + a[1..] && b == [b[0]] + b[1..];
    }
  }

  lemma StrCmpTotalOrder()
    ensures TotalOrder(StrCmp)
  {
    forall a, b ensures StrCmp(a, b) == Greater <==> StrCmp(b, a) == Less {
      StrCmpAntisymmetric(a, b);
    }
    forall a, b, c | StrCmp(a, b) != Greater && StrCmp(b, c) != Greater ensures StrCmp(a, c) != Greater {
      StrCmpTransitive(a, b, c);
    }
  }

  lemma StrCmpNoTies(s: seq<string>)
    ensures NoTies(StrCmp, s)
  {
    forall i, j | 0 <= i < |s| && 0 <= j < |s| && StrCmp(s[i], s[j]) == Equal ensures s[i] == s[j] {
      StrCmpEqual(s[i], s[j]);
    }
  }

  /** The test vectors have eight elements, a power of two. */
  lemma EightIsPowerOfTwo()
    ensures IsPowerOfTwo(8)
  {
  }

  /** The failing test vector has three elements, not a power of two. */
  lemma ThreeIsNotPowerOfTwo()
    ensures !IsPowerOfTwo(3)
  {
  }

  /** The test vector of the u32 tests, as a multiset. */
  lemma U32Input(x: seq<int>)
    requires x == [10, 30, 11, 20, 4, 330, 21, 110]
    ensures multiset(x) == multiset{10, 30, 11, 20, 4, 330, 21, 110}
  {
  }

  /** The expected ascending result holds the test vector's elements. */
  lemma U32AscendingSameElements()
    ensures multiset{4, 10, 11, 20, 21, 30, 110, 330} == multiset{10, 30, 11, 20, 4, 330, 21, 110}
  {
  }

  /** The expected descending result holds the test vector's elements. */
  lemma U32DescendingSameElements()
    ensures multiset{330, 110, 30, 21, 20, 11, 10, 4} == multiset{10, 30, 11, 20, 4, 330, 21, 110}
  {
  }

  lemma U32AscendingSorted(e: seq<int>)
    requires e == [4, 10, 11, 20, 21, 30, 110, 330]
    ensures IsSortedAscending(IntCmp, e)
  {
  }

  lemma U32AscendingElements(e: seq<int>)
    requires e == [4, 10, 11, 20, 21, 30, 110, 330]
    ensures multiset(e) == multiset{4, 10, 11, 20, 21, 30, 110, 330}
  {
  }

  lemma U32DescendingSorted(e: seq<int>)
    requires e == [330, 110, 30, 21, 20, 11, 10, 4]
    ensures IsSortedDescending(IntCmp, e)
  {
  }

  lemma U32DescendingElements(e: seq<int>)
    requires e == [330, 110, 30, 21, 20, 11, 10, 4]
    ensures multiset(e) == multiset{330, 110, 30, 21, 20, 11, 10, 4}
  {
  }

  /** The only ascending arrangement of the u32 test vector is the expected one. */
  lemma U32AscendingUnique(y: seq<int>)
    requires IsSortedAscending(IntCmp, y) && multiset(y) == multiset{10, 30, 11, 20, 4, 330, 21, 110}
    ensures y == [4, 10, 11, 20, 21, 30, 110, 330]
  {
    var e := [4, 10, 11, 20, 21, 30, 110, 330];
    U32AscendingSorted(e);
    U32AscendingElements(e);
    U32AscendingSameElements();
    IntCmpTotalOrder();
    IntCmpNoTies(e);
    SortedResultsAgree(IntCmp, e, y, e, true);
  }

  /** The only descending arrangement of the u32 test vector is the expected one. */
  lemma U32DescendingUnique(y: seq<int>)
    requires IsSortedDescending(IntCmp, y) && multiset(y) == multiset{10, 30, 11, 20, 4, 330, 21, 110}
    ensures y == [330, 110, 30, 21, 20, 11, 10, 4]
  {
    var e := [330, 110, 30, 21, 20, 11, 10, 4];
    U32DescendingSorted(e);
    U32DescendingElements(e);
    U32DescendingSameElements();
    IntCmpTotalOrder();
    IntCmpNoTies(e);
    SortedResultsAgree(IntCmp, e, y, e, false);
  }

  /** `sort_u32_ascending` (third.rs): `sort(&mut x, &Ascending)` gives `Ok(())` and the expected vector. */
  method SortU32Ascending() returns (r: Result, y: seq<int>)
    ensures r == Ok && y == [4, 10, 11, 20, 21, 30, 110, 330]
  {
    var a := new int[] [10, 30, 11, 20, 4, 330, 21, 110];
    U32Input(a[..]);
    EightIsPowerOfTwo();
    IntCmpTotalOrder();
    r := Third.Sort(a, Ascending, IntCmp);
    y := a[..];
    U32AscendingUnique(y);
  }

  /** `sort_u32_descending` (third.rs): `sort(&mut x, &Descending)` gives `Ok(())` and the expected vector. */
  method SortU32Descending() returns (r: Result, y: seq<int>)
    ensures r == Ok && y == [330, 110, 30, 21, 20, 11, 10, 4]
  {
    var a := new int[] [10, 30, 11, 20, 4, 330, 21, 110];
    U32Input(a[..]);
    EightIsPowerOfTwo();
    IntCmpTotalOrder();
    r := Third.Sort(a, Descending, IntCmp);
    y := a[..];
    U32DescendingUnique(y);
  }

  /** The test vector of the string tests, as a multiset. */
  lemma StrInput(x: seq<string>)
    requires x == ["Rust", "is", "fast", "and", "memory-efficient", "with", "no", "GC"]
    ensures multiset(x) == multiset{"Rust", "is", "fast", "and", "memory-efficient", "with", "no", "GC"}
  {
  }

  /** The expected ascending result holds the test vector's elements. */
  lemma StrAscendingSameElements()
    ensures multiset{"GC", "Rust", "and", "fast", "is", "memory-efficient", "no", "with"} == multiset{"Rust", "is", "fast", "and", "memory-efficient", "with", "no", "GC"}
  {
  }

  /** The expected descending result holds the test vector's elements. */
  lemma StrDescendingSameElements()
    ensures multiset{"with", "no", "memory-efficient", "is", "fast", "and", "Rust", "GC"} == multiset{"Rust", "is", "fast", "and", "memory-efficient", "with", "no", "GC"}
  {
  }

  lemma StrAscendingSorted(e: seq<string>)
    requires e == ["GC", "Rust", "and", "fast", "is", "memory-efficient", "no", "with"]
    ensures IsSortedAscending(StrCmp, e)
  {
  }

  lemma StrAscendingElements(e: seq<string>)
    requires e == ["GC", "Rust", "and", "fast", "is", "memory-efficient", "no", "with"]
    ensures multiset(e) == multiset{"GC", "Rust", "and", "fast", "is", "memory-efficient", "no", "with"}
  {
  }

  lemma StrDescendingSorted(e: seq<string>)
    requires e == ["with", "no", "memory-efficient", "is", "fast", "and", "Rust", "GC"]
    ensures IsSortedDescending(StrCmp, e)
  {
  }

  lemma StrDescendingElements(e: seq<string>)
    requires e == ["with", "no", "memory-efficient", "is", "fast", "and", "Rust", "GC"]
    ensures multiset(e) == multiset{"with", "no", "memory-efficient", "is", "fast", "and", "Rust", "GC"}
  {
  }

  /** The only ascending arrangement of the string test vector is the expected one. */
  lemma StrAscendingUnique(y: seq<string>)
    requires IsSortedAscending(StrCmp, y) && multiset(y) == multiset{"Rust", "is", "fast", "and", "memory-efficient", "with", "no", "GC"}
    ensures y == ["GC", "Rust", "and", "fast", "is", "memory-efficient", "no", "with"]
  {
    var e := ["GC", "Rust", "and", "fast", "is", "memory-efficient", "no", "with"];
    StrAscendingSorted(e);
    StrAscendingElements(e);
    StrAscendingSameElements();
    StrCmpTotalOrder();
    StrCmpNoTies(e);
    SortedResultsAgree(StrCmp, e, y, e, true);
  }

  /** The only descending arrangement of the string test vector is the expected one. */
  lemma StrDescendingUnique(y: seq<string>)
    requires IsSortedDescending(StrCmp, y) && multiset(y) == multiset{"Rust", "is", "fast", "and", "memory-efficient", "with", "no", "GC"}
    ensures y == ["with", "no", "memory-efficient", "is", "fast", "and", "Rust", "GC"]
  {
    var e := ["with", "no", "memory-efficient", "is", "fast", "and", "Rust", "GC"];
    StrDescendingSorted(e);
    StrDescendingElements(e);
    StrDescendingSameElements();
    StrCmpTotalOrder();
    StrCmpNoTies(e);
    SortedResultsAgree(StrCmp, e, y, e, false);
  }

  /** `sort_str_ascending` (third.rs): `sort(&mut x, &Ascending)` gives `Ok(())` and the expected vector. */
  method SortStrAscending() returns (r: Result, y: seq<string>)
    ensures r == Ok && y == ["GC", "Rust", "and", "fast", "is", "memory-efficient", "no", "with"]
  {
    var a := new string[] ["Rust", "is", "fast", "and", "memory-efficient", "with", "no", "GC"];
    StrInput(a[..]);
    EightIsPowerOfTwo();
    StrCmpTotalOrder();
    r := Third.Sort(a, Ascending, StrCmp);
    y := a[..];
    StrAscendingUnique(y);
  }

  /** `sort_str_descending` (third.rs): `sort(&mut x, &Descending)` gives `Ok(())` and the expected vector. */
  method SortStrDescending() returns (r: Result, y: seq<string>)
    ensures r == Ok && y == ["with", "no", "memory-efficient", "is", "fast", "and", "Rust", "GC"]
  {
    var a := new string[] ["Rust", "is", "fast", "and", "memory-efficient", "with", "no", "GC"];
    StrInput(a[..]);
    EightIsPowerOfTwo();
    StrCmpTotalOrder();
    r := Third.Sort(a, Descending, StrCmp);
    y := a[..];
    StrDescendingUnique(y);
  }

  /** `sort_to_fail` (third.rs): a length of 3 is refused and the vector is left as it was. */
  method SortToFail() returns (r: Result, y: seq<int>)
    ensures r == Err(LengthMessage(3))
    ensures y == [10, 30, 11]
  {
    var a := new int[] [10, 30, 11];
    ThreeIsNotPowerOfTwo();
    r := Third.Sort(a, Ascending, IntCmp);
    y := a[..];
  }

  /** `u8`, the type of a student's age. */
  newtype u8 = x: int | 0 <= x < 256

  /** The `Student` struct of the tests. */
  datatype Student = Student(firstName: string, lastName: string, age: u8)

  const Taro := Student("Taro", "Yamada", 16)
  const Hanako := Student("Hanako", "Yamada", 14)
  const Kyoko := Student("Kyoko", "Ito", 15)
  const Ryosuke := Student("Ryosuke", "Hayashi", 17)

  /** The closure `|a, b| a.age.cmp(&b.age)`. */
  function ByAge(a: Student, b: Student): Ordering {
    IntCmp(a.age as int, b.age as int)
  }

  /** `Ordering::then_with`: the first comparison unless it is Equal, then the second. */
  function ThenWith(o: Ordering, next: Ordering): Ordering {
    if o == Equal then next else o
  }

  /** The closure comparing last names and then first names. */
  function ByName(a: Student, b: Student): Ordering {
    ThenWith(StrCmp(a.lastName, b.lastName), StrCmp(a.firstName, b.firstName))
  }

  /** Comparing ages is a total preorder: students of one age compare Equal. */
  lemma ByAgeTotalOrder()
    ensures TotalOrder(ByAge)
  {
  }

  /** Comparing by last name and then first name is a total preorder. */
  lemma ByNameTotalOrder()
    ensures TotalOrder(ByName)
  {
    forall a, b ensures ByName(a, b) == Greater <==> ByName(b, a) == Less {
      StrCmpAntisymmetric(a.lastName, b.lastName);
      StrCmpAntisymmetric(a.firstName, b.firstName);
      StrCmpEqual(a.lastName, b.lastName);
      StrCmpEqual(b.lastName, a.lastName);
    }
    forall a, b, c | ByName(a, b) != Greater && ByName(b, c) != Greater
      ensures ByName(a, c) != Greater
    {
      ByNameTransitive(a, b, c);
    }
  }

  lemma ByNameTransitive(a: Student, b: Student, c: Student)
    requires ByName(a, b) != Greater && ByName(b, c) != Greater
    ensures ByName(a, c) != Greater
  {
    StrCmpEqual(a.lastName, b.lastName);
    StrCmpEqual(b.lastName, c.lastName);
    StrCmpEqual(a.lastName, c.lastName);
    StrCmpTransitive(a.lastName, b.lastName, c.lastName);
    StrCmpAntisymmetric(a.lastName, c.lastName);
    StrCmpAntisymmetric(a.lastName, b.lastName);
    StrCmpAntisymmetric(b.lastName, c.lastName);
    if StrCmp(a.lastName, b.lastName) == Equal && StrCmp(b.lastName, c.lastName) == Equal {
      StrCmpTransitive(a.firstName, b.firstName, c.firstName);
    }
  }

  /** Last name and then first name decide: ByName ties exactly the students of one full name. */
  lemma ByNameEqual(a: Student, b: Student)
    ensures ByName(a, b) == Equal <==> a.lastName == b.lastName && a.firstName == b.firstName
  {
    StrCmpEqual(a.lastName, b.lastName);
    StrCmpEqual(a.firstName, b.firstName);
  }

  /** A sequence whose distinct elements never compare Equal has no ties. */
  lemma NoTiesOfDistinct<T>(cmp: (T, T) -> Ordering, s: seq<T>)
    requires forall a, b | a in s && b in s && a != b :: cmp(a, b) != Equal
    ensures NoTies(cmp, s)
  {
  }

  /** The students of the tests have four elements, a power of two. */
  lemma FourIsPowerOfTwo()
    ensures IsPowerOfTwo(4)
  {
  }

  /** The test vector of the student tests, as a multiset. */
  lemma StudentsInput(x: seq<Student>)
    requires x == [Taro, Hanako, Kyoko, Ryosuke]
    ensures multiset(x) == multiset{Taro, Hanako, Kyoko, Ryosuke}
  {
  }

  lemma StudentsByAgeSorted(e: seq<Student>)
    requires e == [Hanako, Kyoko, Taro, Ryosuke]
    ensures IsSortedAscending(ByAge, e)
  {
  }

  lemma StudentsByAgeElements(e: seq<Student>)
    requires e == [Hanako, Kyoko, Taro, Ryosuke]
    ensures multiset(e) == multiset{Hanako, Kyoko, Taro, Ryosuke}
  {
  }

  /** The expected order holds the test vector's students. */
  lemma StudentsByAgeSameElements()
    ensures multiset{Hanako, Kyoko, Taro, Ryosuke} == multiset{Taro, Hanako, Kyoko, Ryosuke}
  {
  }

  /** No two of the students tie under ByAge. */
  lemma StudentsByAgeNoTies(e: seq<Student>)
    requires e == [Hanako, Kyoko, Taro, Ryosuke]
    ensures NoTies(ByAge, e)
  {}

  /** The only arrangement of the students ascending under ByAge is the expected one. */
  lemma StudentsByAgeUnique(y: seq<Student>)
    requires IsSortedAscending(ByAge, y) && multiset(y) == multiset{Taro, Hanako, Kyoko, Ryosuke}
    ensures y == [Hanako, Kyoko, Taro, Ryosuke]
  {
    var e := [Hanako, Kyoko, Taro, Ryosuke];
    StudentsByAgeSorted(e);
    StudentsByAgeElements(e);
    StudentsByAgeSameElements();
    ByAgeTotalOrder();
    StudentsByAgeNoTies(e);
    SortedResultsAgree(ByAge, e, y, e, true);
  }

  /** `sort_students_by_age_ascending` (third.rs): `sort_by` with the closure gives `Ok(())` and the expected order. */
  method SortStudentsByAgeAscending() returns (r: Result, y: seq<Student>)
    ensures r == Ok && y == [Hanako, Kyoko, Taro, Ryosuke]
  {
    var a := new Student[] [Taro, Hanako, Kyoko, Ryosuke];
    StudentsInput(a[..]);
    FourIsPowerOfTwo();
    ByAgeTotalOrder();
    r := Third.SortBy(a, ByAge);
    y := a[..];
    StudentsByAgeUnique(y);
  }

  lemma StudentsByNameSorted(e: seq<Student>)
    requires e == [Ryosuke, Kyoko, Hanako, Taro]
    ensures IsSortedAscending(ByName, e)
  {
    assert StrCmp("Yamada", "Yamada") == Equal by {
      StrCmpEqual("Yamada", "Yamada");
    }
    assert ByName(Ryosuke, Kyoko) == Less && ByName(Kyoko, Hanako) == Less && ByName(Hanako, Taro) == Less;
    assert forall i | 0 <= i < 3 :: ByName(e[i], e[i + 1]) == Less;
  }

  lemma StudentsByNameElements(e: seq<Student>)
    requires e == [Ryosuke, Kyoko, Hanako, Taro]
    ensures multiset(e) == multiset{Ryosuke, Kyoko, Hanako, Taro}
  {
  }

  /** The expected order holds the test vector's students. */
  lemma StudentsByNameSameElements()
    ensures multiset{Ryosuke, Kyoko, Hanako, Taro} == multiset{Taro, Hanako, Kyoko, Ryosuke}
  {
  }

  /** No two of the students tie under ByName. */
  lemma StudentsByNameNoTies(e: seq<Student>)
    requires e == [Ryosuke, Kyoko, Hanako, Taro]
    ensures NoTies(ByName, e)
  {
    forall a, b | a in e && b in e && a != b ensures ByName(a, b) != Equal {
      assert a.firstName[0] != b.firstName[0];
      ByNameEqual(a, b);
    }
    NoTiesOfDistinct(ByName, e);
  }

  /** The only arrangement of the students ascending under ByName is the expected one. */
  lemma StudentsByNameUnique(y: seq<Student>)
    requires IsSortedAscending(ByName, y) && multiset(y) == multiset{Taro, Hanako, Kyoko, Ryosuke}
    ensures y == [Ryosuke, Kyoko, Hanako, Taro]
  {
    var e := [Ryosuke, Kyoko, Hanako, Taro];
    StudentsByNameSorted(e);
    StudentsByNameElements(e);
    StudentsByNameSameElements();
    ByNameTotalOrder();
    StudentsByNameNoTies(e);
    SortedResultsAgree(ByName, e, y, e, true);
  }

  /** `sort_students_by_name_ascending` (third.rs): `sort_by` with the closure gives `Ok(())` and the expected order. */
  method SortStudentsByNameAscending() returns (r: Result, y: seq<Student>)
    ensures r == Ok && y == [Ryosuke, Kyoko, Hanako, Taro]
  {
    var a := new Student[] [Taro, Hanako, Kyoko, Ryosuke];
    StudentsInput(a[..]);
    FourIsPowerOfTwo();
    ByNameTotalOrder();
    r := Third.SortBy(a, ByName);
    y := a[..];
    StudentsByNameUnique(y);
  }

  /** 65 536 is 2 raised to the 16th, a power of two. */
  lemma LargeIsPowerOfTwo()
    ensures IsPowerOfTwo(65536)
  {
    assert Pow2(1) == 2;
    assert Pow2(2) == 4;
    assert Pow2(3) == 8;
    assert Pow2(4) == 16;
    assert Pow2(5) == 32;
    assert Pow2(6) == 64;
    assert Pow2(7) == 128;
    assert Pow2(8) == 256;
    assert Pow2(9) == 512;
    assert Pow2(10) == 1024;
    assert Pow2(11) == 2048;
    assert Pow2(12) == 4096;
    assert Pow2(13) == 8192;
    assert Pow2(14) == 16384;
    assert Pow2(15) == 32768;
    assert Pow2(16) == 65536;
    Pow2IsPowerOfTwo(16);
  }

  /**
   * `sort_u32_large` (third.rs), with the two random vectors as parameters:
   * any 65 536 numbers sort ascending, and any 65 536 sort descending.
   */
  method SortU32Large(x: array<int>, z: array<int>) returns (r1: Result, r2: Result)
    requires x.Length == 65536 && z.Length == 65536 && x != z
    modifies x, z
    ensures r1 == Ok && IsSortedAscending(IntCmp, x[..]) && multiset(x[..]) == multiset(old(x[..]))
    ensures r2 == Ok && IsSortedDescending(IntCmp, z[..]) && multiset(z[..]) == multiset(old(z[..]))
  {
    LargeIsPowerOfTwo();
    IntCmpTotalOrder();
    r1 := Third.Sort(x, Ascending, IntCmp);
    r2 := Third.Sort(z, Descending, IntCmp);
  }
}
