/**
 * The network on sequences of booleans (false below a threshold, true
 * above it). This is the 0-1 half of the sortedness proof: a bitonic 0-1
 * sequence of power-of-two length comes out of the merge sorted.
 */
module ZeroOne {
  import opened PowerOfTwo
  import opened Network

  /**
   * The swap decision on bits: in direction `up` exchange (true, false),
   * otherwise exchange (false, true). Equal bits can stay where they are.
   */
  function BitSwap(up: bool, x: bool, y: bool): bool {
    if up then x && !y else !x && y
  }

  /** No true before a false (up), or no false before a true (not up). */
  ghost predicate SortedBits(b: seq<bool>, up: bool) {
    forall i, j :: 0 <= i < j < |b| ==> if up then (b[i] ==> b[j]) else (b[j] ==> b[i])
  }

  /** b holds `inside` exactly on the positions [p, q) and the opposite elsewhere. */
  ghost predicate Band(b: seq<bool>, p: int, q: int, inside: bool) {
    && 0 <= p <= q <= |b|
    && forall i :: 0 <= i < |b| ==> b[i] == ((p <= i < q) == inside)
  }

  /**
   * A bitonic 0-1 sequence: falses, trues, falses (a mountain) or trues,
   * falses, trues (a valley); each run may be empty.
   */
  ghost predicate Bitonic(b: seq<bool>) {
    exists p: int, q: int, inside: bool :: Band(b, p, q, inside)
  }

  /**
   * What one merge level guarantees in direction `up`: all of the low half
   * is at most all of the high half (for `up`), or at least (otherwise).
   */
  ghost predicate Separated(lo: seq<bool>, hi: seq<bool>, up: bool) {
    if up then true !in lo || false !in hi else false !in lo || true !in hi
  }

  /** The first position holding v, or |b| if there is none. */
  function FirstIndex(b: seq<bool>, v: bool): (k: nat)
    ensures k <= |b|
    ensures forall i :: 0 <= i < k ==> b[i] != v
    ensures k < |b| ==> b[k] == v
  {
    if b == [] then 0 else if b[0] == v then 0 else 1 + FirstIndex(b[1..], v)
  }

  /** An ascending run followed by a descending run is bitonic. */
  lemma AscendingDescendingIsBitonic(x: seq<bool>, y: seq<bool>)
    requires SortedBits(x, true) && SortedBits(y, false)
    ensures Bitonic(x + y)
  {
    var p, f := FirstIndex(x, true), FirstIndex(y, false);
    var q := |x| + f;
    forall i | 0 <= i < |x| + |y| ensures (x + y)[i] == (p <= i < q) {
      if i < |x| {
        if p < i { assert x[p] ==> x[i]; }
      } else {
        var k := i - |x|;
        assert (x + y)[i] == y[k];
        if f < k { assert y[f] == false; }
      }
    }
    assert Band(x + y, p, q, true);
  }

  // For a band [p, q) of a sequence of length 2m, the positions j < m where
  // both j and m + j lie in the band form one interval, the meet; those where
  // j or m + j lies in it form an interval or the complement of one, the join.

  function MeetLo(p: int, q: int, m: int): int { if p < q - m then p else 0 }
  function MeetHi(p: int, q: int, m: int): int { if p < q - m then q - m else 0 }

  function JoinLo(p: int, q: int, m: int): int {
    if q - p >= m then 0 else if p >= m then p - m else if q <= m then p else q - m
  }
  function JoinHi(p: int, q: int, m: int): int {
    if q - p >= m then (if q < m then q else m) else if p >= m then q - m else if q <= m then q else p
  }
  function JoinInside(p: int, q: int, m: int): bool {
    q - p >= m || p >= m || q <= m
  }

  /** The meet and the join are intervals of [0, m), and a non-empty meet makes the join full. */
  lemma MeetJoinAt(p: int, q: int, m: int, j: int)
    requires 0 <= p <= q <= 2 * m && 0 <= j < m
    ensures 0 <= MeetLo(p, q, m) <= MeetHi(p, q, m) <= m
    ensures 0 <= JoinLo(p, q, m) <= JoinHi(p, q, m) <= m
    ensures (p <= j < q && p <= m + j < q) <==> MeetLo(p, q, m) <= j < MeetHi(p, q, m)
    ensures (p <= j < q || p <= m + j < q) <==>
      ((JoinLo(p, q, m) <= j < JoinHi(p, q, m)) == JoinInside(p, q, m))
    ensures MeetLo(p, q, m) < MeetHi(p, q, m) ==> (p <= j < q || p <= m + j < q)
  {
  }

  /** The and of each pair (b[j], b[m + j]), j < m. */
  function AndHalf(b: seq<bool>): (r: seq<bool>)
    ensures |r| == |b| / 2
  {
    var m := |b| / 2;
    seq(m, j requires 0 <= j < m => b[j] && b[m + j])
  }

  /** The or of each pair (b[j], b[m + j]), j < m. */
  function OrHalf(b: seq<bool>): (r: seq<bool>)
    ensures |r| == |b| / 2
  {
    var m := |b| / 2;
    seq(m, j requires 0 <= j < m => b[j] || b[m + j])
  }

  /** On bits, the pass leaves the and or the or of the pair (b[j], b[m + j]) at j and m + j. */
  lemma CompareAndSwapBitsAt(b: seq<bool>, up: bool, j: nat)
    requires j < |b| / 2
    ensures var c, m := CompareAndSwapSpec(b, up, BitSwap), |b| / 2;
      && c[j] == (if up then b[j] && b[m + j] else b[j] || b[m + j])
      && c[m + j] == (if up then b[j] || b[m + j] else b[j] && b[m + j])
  {
    CompareAndSwapAt(b, up, BitSwap, j);
  }

  /** On bits, the pass puts the and-half low and the or-half high (up), or the reverse. */
  lemma CompareAndSwapBits(b: seq<bool>, up: bool)
    requires |b| % 2 == 0
    ensures var c, m := CompareAndSwapSpec(b, up, BitSwap), |b| / 2;
      && c[..m] == (if up then AndHalf(b) else OrHalf(b))
      && c[m..] == (if up then OrHalf(b) else AndHalf(b))
  {
    var c, m := CompareAndSwapSpec(b, up, BitSwap), |b| / 2;
    var lo, hi := if up then AndHalf(b) else OrHalf(b), if up then OrHalf(b) else AndHalf(b);
    forall j | 0 <= j < m ensures c[j] == lo[j] && c[m + j] == hi[j] {
      CompareAndSwapBitsAt(b, up, j);
    }
    assert c[..m] == lo;
    assert c[m..] == hi;
  }

  /**
   * The halves of a bitonic sequence: the and-half and the or-half of a band
   * are bands again, and either the and-half is all false or the or-half is
   * all true.
   */
  lemma BandHalves(b: seq<bool>, p: int, q: int, inside: bool)
    requires |b| % 2 == 0 && Band(b, p, q, inside)
    ensures Bitonic(AndHalf(b)) && Bitonic(OrHalf(b))
    ensures true !in AndHalf(b) || false !in OrHalf(b)
  {
    var m := |b| / 2;
    var mlo, mhi := MeetLo(p, q, m), MeetHi(p, q, m);
    var jlo, jhi, jin := JoinLo(p, q, m), JoinHi(p, q, m), JoinInside(p, q, m);
    var andH, orH := AndHalf(b), OrHalf(b);
    if m > 0 {
      MeetJoinAt(p, q, m, 0);
    }
    if inside {
      forall j | 0 <= j < m
        ensures andH[j] == (mlo <= j < mhi)
        ensures orH[j] == ((jlo <= j < jhi) == jin)
        ensures mlo < mhi ==> orH[j]
      {
        MeetJoinAt(p, q, m, j);
      }
      assert Band(andH, mlo, mhi, true);
      assert Band(orH, jlo, jhi, jin);
    } else {
      forall j | 0 <= j < m
        ensures andH[j] == ((jlo <= j < jhi) == !jin)
        ensures orH[j] == !(mlo <= j < mhi)
        ensures mlo < mhi ==> !andH[j]
      {
        MeetJoinAt(p, q, m, j);
      }
      assert Band(andH, jlo, jhi, !jin);
      assert Band(orH, mlo, mhi, false);
    }
    if mlo < mhi {
      if inside {
        assert false !in orH;
      } else {
        assert true !in andH;
      }
    } else if inside {
      assert true !in andH;
    } else {
      assert false !in orH;
    }
  }

  /**
   * The bitonic-merge step: one pass over a bitonic 0-1 sequence of even
   * length leaves two bitonic halves, separated in the pass's direction.
   */
  lemma HalfCleanerBitonic(b: seq<bool>, up: bool)
    requires |b| % 2 == 0 && Bitonic(b)
    ensures var c, m := CompareAndSwapSpec(b, up, BitSwap), |b| / 2;
      Bitonic(c[..m]) && Bitonic(c[m..]) && Separated(c[..m], c[m..], up)
  {
    var p, q, inside :| Band(b, p, q, inside);
    CompareAndSwapBits(b, up);
    BandHalves(b, p, q, inside);
  }

  /** Two sorted runs whose split is separated in direction `up` make one sorted run. */
  lemma ConcatSorted(x: seq<bool>, y: seq<bool>, up: bool)
    requires SortedBits(x, up) && SortedBits(y, up) && Separated(x, y, up)
    ensures SortedBits(x + y, up)
  {
    var z := x + y;
    forall i, j | 0 <= i < j < |z|
      ensures if up then (z[i] ==> z[j]) else (z[j] ==> z[i])
    {
      if i < |x| <= j {
        assert z[i] == x[i] && z[j] == y[j - |x|];
        assert x[i] in x && y[j - |x|] in y;
      }
    }
  }

  /**
   * The bitonic merge on bits: `sub_sort` on a bitonic 0-1 sequence of
   * power-of-two length sorts it in direction `up`.
   */
  lemma {:induction false} SubSortSortsBitonicBits(b: seq<bool>, up: bool)
    requires IsPowerOfTwo(|b|) && Bitonic(b)
    ensures SortedBits(SubSortSpec(b, up, BitSwap), up)
    decreases |b|
  {
    if |b| > 1 {
      var c, m := CompareAndSwapSpec(b, up, BitSwap), |b| / 2;
      HalfOfPowerOfTwo(|b|);
      HalfCleanerBitonic(b, up);
      var lo, hi := c[..m], c[m..];
      SubSortSortsBitonicBits(lo, up);
      SubSortSortsBitonicBits(hi, up);
      SubSortPermutes(lo, up, BitSwap);
      SubSortPermutes(hi, up, BitSwap);
      var slo, shi := SubSortSpec(lo, up, BitSwap), SubSortSpec(hi, up, BitSwap);
      assert (true in slo <==> true in lo) && (false in slo <==> false in lo) by {
        assert true in slo <==> true in multiset(slo);
        assert false in slo <==> false in multiset(slo);
      }
      assert (true in shi <==> true in hi) && (false in shi <==> false in hi) by {
        assert true in shi <==> true in multiset(shi);
        assert false in shi <==> false in multiset(shi);
      }
      ConcatSorted(slo, shi, up);
    }
  }
}
