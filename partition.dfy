/**
 * The pivot step of an in-place partition-exchange sort: the element at
 * `startIndex` is the pivot, every later element strictly smaller than it
 * is swapped into a growing low region, and finally the pivot is swapped
 * to the boundary, whose index is returned.
 */
module Partition {

  /** `s` with the elements at `i` and `j` exchanged. */
  function Swapped(s: seq<int>, i: nat, j: nat): (r: seq<int>)
    requires i < |s| && j < |s|
    ensures |r| == |s|
  {
    seq(|s|, k requires 0 <= k < |s| => if k == i then s[j] else if k == j then s[i] else s[k])
  }

  /** An exchange moves the two elements and no other. */
  lemma SwappedExchanges(s: seq<int>, i: nat, j: nat)
    requires i < |s| && j < |s|
    ensures var r := Swapped(s, i, j);
      r[i] == s[j] && r[j] == s[i] &&
      (forall k :: 0 <= k < |s| && k != i && k != j ==> r[k] == s[k])
  {
  }

  /** An exchange keeps the multiset of elements. */
  lemma SwappedPermutes(s: seq<int>, i: nat, j: nat)
    requires i < |s| && j < |s|
    ensures multiset(Swapped(s, i, j)) == multiset(s)
  {
    assert Swapped(s, i, j) == s[i := s[j]][j := s[i]];
  }

  /** The number of elements of `s` strictly smaller than `pivot`. */
  function CountLess(s: seq<int>, pivot: int): (c: nat)
    ensures c <= |s|
  {
    if s == [] then 0
    else CountLess(s[..|s| - 1], pivot) + (if s[|s| - 1] < pivot then 1 else 0)
  }

  /** No element counts exactly when none is below the pivot; all count exactly when all are. */
  lemma {:induction false} CountLessExtremes(s: seq<int>, pivot: int)
    ensures CountLess(s, pivot) == 0 <==> forall k :: 0 <= k < |s| ==> s[k] >= pivot
    ensures CountLess(s, pivot) == |s| <==> forall k :: 0 <= k < |s| ==> s[k] < pivot
  {
    if s != [] {
      var init := s[..|s| - 1];
      CountLessExtremes(init, pivot);
      assert forall k :: 0 <= k < |init| ==> init[k] == s[k];
    }
  }

  /** A position of the scan: the sequence so far and the end of its low region. */
  datatype ScanState = ScanState(arr: seq<int>, swapIndex: nat)

  /** Counting over one more element. */
  lemma CountLessExtend(s: seq<int>, lo: nat, hi: nat, pivot: int)
    requires lo < hi <= |s|
    ensures CountLess(s[lo..hi], pivot) == CountLess(s[lo..hi - 1], pivot) + (if s[hi - 1] < pivot then 1 else 0)
  {
    assert s[lo..hi][..hi - 1 - lo] == s[lo..hi - 1];
  }

  /**
   * Reference definition of the scan: the state once positions
   * `startIndex + 1` up to `i - 1` of `s` have been examined. An examined
   * element strictly below the pivot `s[startIndex]` is exchanged with the
   * element just after the low region, which then grows by one.
   */
  function ScanUpTo(s: seq<int>, startIndex: nat, i: nat): (r: ScanState)
    requires startIndex < i <= |s|
    ensures |r.arr| == |s| && startIndex <= r.swapIndex < i
    decreases i
  {
    if i == startIndex + 1 then ScanState(s, startIndex)
    else
      var prev := ScanUpTo(s, startIndex, i - 1);
      if s[startIndex] > prev.arr[i - 1] then
        ScanState(Swapped(prev.arr, prev.swapIndex + 1, i - 1), prev.swapIndex + 1)
      else prev
  }

  /**
   * Reference definition of the whole pivot step on a sequence: the scan
   * over the rest of the sequence, then the exchange that moves the pivot
   * to the end of the low region, whose index is the result.
   */
  function PivotOf(s: seq<int>, startIndex: nat): (r: ScanState)
    requires startIndex < |s|
    ensures |r.arr| == |s| && startIndex <= r.swapIndex < |s|
  {
    var scanned := ScanUpTo(s, startIndex, |s|);
    ScanState(Swapped(scanned.arr, scanned.swapIndex, startIndex), scanned.swapIndex)
  }

  /**
   * The scan up to `i` keeps the pivot and everything before it in place
   * and has not touched positions `i` onwards.
   */
  lemma {:induction false} ScanUpToFrame(s: seq<int>, startIndex: nat, i: nat)
    requires startIndex < i <= |s|
    ensures forall k :: 0 <= k <= startIndex || i <= k < |s| ==> ScanUpTo(s, startIndex, i).arr[k] == s[k]
    decreases i
  {
    if i > startIndex + 1 {
      ScanUpToFrame(s, startIndex, i - 1);
      var prev := ScanUpTo(s, startIndex, i - 1);
      if s[startIndex] > prev.arr[i - 1] {
        SwappedExchanges(prev.arr, prev.swapIndex + 1, i - 1);
      }
    }
  }

  /** The scan only permutes. */
  lemma {:induction false} ScanUpToPermutes(s: seq<int>, startIndex: nat, i: nat)
    requires startIndex < i <= |s|
    ensures multiset(ScanUpTo(s, startIndex, i).arr) == multiset(s)
    decreases i
  {
    if i > startIndex + 1 {
      ScanUpToPermutes(s, startIndex, i - 1);
      var prev := ScanUpTo(s, startIndex, i - 1);
      if s[startIndex] > prev.arr[i - 1] {
        SwappedPermutes(prev.arr, prev.swapIndex + 1, i - 1);
      }
    }
  }

  /**
   * After the scan up to `i`, the low region after the pivot holds only
   * elements below the pivot, and the examined positions after it only
   * elements not below it.
   */
  lemma {:induction false} ScanUpToSplits(s: seq<int>, startIndex: nat, i: nat)
    requires startIndex < i <= |s|
    ensures forall k :: startIndex < k <= ScanUpTo(s, startIndex, i).swapIndex ==>
              ScanUpTo(s, startIndex, i).arr[k] < s[startIndex]
    ensures forall k :: ScanUpTo(s, startIndex, i).swapIndex < k < i ==>
              ScanUpTo(s, startIndex, i).arr[k] >= s[startIndex]
    decreases i
  {
    if i > startIndex + 1 {
      ScanUpToSplits(s, startIndex, i - 1);
      var prev := ScanUpTo(s, startIndex, i - 1);
      if s[startIndex] > prev.arr[i - 1] {
        SwappedExchanges(prev.arr, prev.swapIndex + 1, i - 1);
      }
    }
  }

  /** The low region after the pivot is as long as the number of examined elements below the pivot. */
  lemma {:induction false} ScanUpToCounts(s: seq<int>, startIndex: nat, i: nat)
    requires startIndex < i <= |s|
    ensures ScanUpTo(s, startIndex, i).swapIndex - startIndex == CountLess(s[startIndex + 1..i], s[startIndex])
    decreases i
  {
    if i == startIndex + 1 {
      assert s[startIndex + 1..i] == [];
    } else {
      ScanUpToCounts(s, startIndex, i - 1);
      var prev := ScanUpTo(s, startIndex, i - 1);
      assert prev.arr[i - 1] == s[i - 1] by {
        ScanUpToFrame(s, startIndex, i - 1);
      }
      CountLessExtend(s, startIndex + 1, i, s[startIndex]);
    }
  }

  /**
   * The pivot step puts the pivot at the returned index, with only smaller
   * elements before it (from `startIndex` on) and only elements not
   * smaller after it; the index is `startIndex` plus the number of later
   * elements below the pivot; the result is a permutation of the input
   * and nothing before `startIndex` moves.
   */
  lemma PivotOfPartitions(s: seq<int>, startIndex: nat)
    requires startIndex < |s|
    ensures var r := PivotOf(s, startIndex);
      r.arr[r.swapIndex] == s[startIndex] &&
      (forall k :: startIndex <= k < r.swapIndex ==> r.arr[k] < r.arr[r.swapIndex]) &&
      (forall k :: r.swapIndex < k < |r.arr| ==> r.arr[k] >= r.arr[r.swapIndex]) &&
      r.swapIndex - startIndex == CountLess(s[startIndex + 1..], s[startIndex]) &&
      multiset(r.arr) == multiset(s) &&
      r.arr[..startIndex] == s[..startIndex]
  {
    ScanUpToFrame(s, startIndex, |s|);
    ScanUpToPermutes(s, startIndex, |s|);
    ScanUpToSplits(s, startIndex, |s|);
    ScanUpToCounts(s, startIndex, |s|);
    var scanned := ScanUpTo(s, startIndex, |s|);
    var u := Swapped(scanned.arr, scanned.swapIndex, startIndex);
    SwappedExchanges(scanned.arr, scanned.swapIndex, startIndex);
    SwappedPermutes(scanned.arr, scanned.swapIndex, startIndex);
    assert s[startIndex + 1..|s|] == s[startIndex + 1..];
    assert u[..startIndex] == s[..startIndex];
  }

  /**
   * The pivot stays at `startIndex` exactly when no later element is below
   * it, and ends at the last position exactly when every later one is.
   */
  lemma PivotOfExtremes(s: seq<int>, startIndex: nat)
    requires startIndex < |s|
    ensures PivotOf(s, startIndex).swapIndex == startIndex <==>
              forall k :: startIndex < k < |s| ==> s[k] >= s[startIndex]
    ensures PivotOf(s, startIndex).swapIndex == |s| - 1 <==>
              forall k :: startIndex < k < |s| ==> s[k] < s[startIndex]
  {
    PivotOfPartitions(s, startIndex);
    var rest := s[startIndex + 1..];
    CountLessExtremes(rest, s[startIndex]);
    assert forall k :: startIndex < k < |s| ==> s[k] == rest[k - startIndex - 1];
  }

  /** Exchanges two slots of `a`. */
  method Swap(a: array<int>, i: int, j: int)
    requires 0 <= i < a.Length && 0 <= j < a.Length
    modifies a
    ensures a[..] == Swapped(old(a[..]), i, j)
  {
    var t := a[i];
    a[i] := a[j];
    a[j] := t;
  }

  /**
   * Partitions `a[startIndex..]` around the pivot `a[startIndex]` and
   * returns the pivot's final index. `endIndex` is accepted and ignored:
   * the scan always runs to the end of the array.
   */
  method Pivot(a: array<int>, startIndex: int, endIndex: int) returns (r: int)
    requires 0 <= startIndex < a.Length
    modifies a
    ensures a[..] == PivotOf(old(a[..]), startIndex).arr && r == PivotOf(old(a[..]), startIndex).swapIndex
    ensures startIndex <= r < a.Length
    ensures a[r] == old(a[startIndex])
    ensures forall k :: startIndex <= k < r ==> a[k] < a[r]
    ensures forall k :: r < k < a.Length ==> a[k] >= a[r]
    ensures r - startIndex == CountLess(old(a[startIndex + 1..]), old(a[startIndex]))
    ensures multiset(a[..]) == multiset(old(a[..]))
    ensures a[..startIndex] == old(a[..startIndex])
  {
    ghost var s0 := a[..];
    var pivot := a[startIndex];
    var swapIndex := startIndex;
    for i := startIndex + 1 to a.Length
      invariant ScanUpTo(s0, startIndex, i) == ScanState(a[..], swapIndex)
    {
      if pivot > a[i] {
        swapIndex := swapIndex + 1;
        Swap(a, swapIndex, i);
      }
    }
    Swap(a, swapIndex, startIndex);
    r := swapIndex;
    PivotOfPartitions(s0, startIndex);
  }

  /** The reference scan traced on 4, 6, 2, 9, 1, 3 from position 0. */
  lemma PivotOfExample()
    ensures PivotOf([4, 6, 2, 9, 1, 3], 0) == ScanState([3, 2, 1, 4, 6, 9], 3)
  {
    var s := [4, 6, 2, 9, 1, 3];
    assert ScanUpTo(s, 0, 1) == ScanState(s, 0);
    assert ScanUpTo(s, 0, 2) == ScanState(s, 0);
    assert Swapped(s, 1, 2) == [4, 2, 6, 9, 1, 3];
    assert ScanUpTo(s, 0, 3) == ScanState([4, 2, 6, 9, 1, 3], 1);
    assert ScanUpTo(s, 0, 4) == ScanState([4, 2, 6, 9, 1, 3], 1);
    assert Swapped([4, 2, 6, 9, 1, 3], 2, 4) == [4, 2, 1, 9, 6, 3];
    assert ScanUpTo(s, 0, 5) == ScanState([4, 2, 1, 9, 6, 3], 2);
    assert Swapped([4, 2, 1, 9, 6, 3], 3, 5) == [4, 2, 1, 3, 6, 9];
    assert ScanUpTo(s, 0, 6) == ScanState([4, 2, 1, 3, 6, 9], 3);
    assert Swapped([4, 2, 1, 3, 6, 9], 3, 0) == [3, 2, 1, 4, 6, 9];
  }

  /**
   * Pivoting 4, 6, 2, 9, 1, 3 from position 0 returns 3 and leaves
   * 3, 2, 1, 4, 6, 9.
   */
  method PivotExample() returns (r: int, result: seq<int>)
    ensures r == 3 && result == [3, 2, 1, 4, 6, 9]
  {
    var a := new int[6];
    a[0], a[1], a[2], a[3], a[4], a[5] := 4, 6, 2, 9, 1, 3;
    assert a[..] == [4, 6, 2, 9, 1, 3];
    r := Pivot(a, 0, 5);
    result := a[..];
    PivotOfExample();
  }
}
