/** `is_sorted_elems`, the drivers' test oracle, and the checks the two
    drivers make with it after sorting. */
module SortChecks {
  import opened Sorting
  import opened Comparators
  import opened OddEvenMergeSorts

  /** Every element is at least its predecessor. */
  predicate NonDecreasing(s: seq<int>)
  {
    forall k :: 1 <= k < |s| ==> s[k - 1] <= s[k]
  }

  /** `is_sorted_elems(elems, n_elems)`: walks the elements keeping the
      previous one in e (elems[0] at the start, so the first round compares
      elems[0] with itself) and fails at the first element below it. */
  method IsSortedElems(elems: array<int>, nElems: int) returns (ok: bool)
    requires 0 <= nElems <= elems.Length
    ensures ok <==> NonDecreasing(elems[..nElems])
  {
    if nElems == 0 {
      return true;
    }
    var e := elems[0];
    var n := 0;
    while n < nElems
      invariant 0 <= n <= nElems
      invariant e == elems[if n == 0 then 0 else n - 1]
      invariant NonDecreasing(elems[..n])
    {
      if e > elems[n] {
        assert elems[..nElems][n - 1] == e && elems[..nElems][n] == elems[n];
        return false;
      }
      e := elems[n];
      assert elems[..n + 1] == elems[..n] + [elems[n]];
      n := n + 1;
    }
    assert elems[..n] == elems[..nElems];
    return true;
  }

  /** Adjacent order is the same as every pair being in order under the
      exact comparison. */
  lemma {:induction false} NonDecreasingIffSorted(s: seq<int>)
    ensures NonDecreasing(s) <==> Sorted(s, Compare)
  {
    if |s| >= 2 {
      var init := s[..|s| - 1];
      NonDecreasingIffSorted(init);
      if NonDecreasing(s) {
        assert NonDecreasing(init);
        forall i, j | 0 <= i < j < |s|
          ensures Compare(s[i], s[j]) <= 0
        {
          if j == |s| - 1 && i < |s| - 2 {
            assert Compare(init[i], init[|s| - 2]) <= 0;
          } else if j < |s| - 1 {
            assert Compare(init[i], init[j]) <= 0;
          }
        }
      }
      if Sorted(s, Compare) {
        forall k | 1 <= k < |s|
          ensures s[k - 1] <= s[k]
        {
          assert Compare(s[k - 1], s[k]) <= 0;
        }
      }
    }
  }

  /** Values the drivers generate: `rand() % max_element`. */
  predicate AllBelow(s: seq<int>, bound: int)
  {
    forall k :: 0 <= k < |s| ==> 0 <= s[k] < bound
  }

  /** The check of `task4.c`: `odd_even_sort(elems, n, sizeof(int),
      compare_int)` on values in [0, 100000) leaves an array that
      `is_sorted_elems` accepts (below the threaded threshold). */
  method SortThenCheck(elems: array<int>, n: int) returns (ok: bool)
    requires 0 <= n <= elems.Length && n < EasyNumberOfElements
    requires AllBelow(elems[..n], 100000)
    modifies elems
    ensures ok
    ensures multiset(elems[..n]) == old(multiset(elems[..n]))
  {
    ghost var dom := (x: int) => 0 <= x < Modulus(Int) / 2;
    var compareInt := (x: int, y: int) => CompareAsWritten(Int, x, y);
    CompareAsWrittenPreorderOnNonNegative(Int, compareInt, dom);
    ghost var before := elems[..n];
    OddEvenSort(elems, n, 4, compareInt, dom);
    AllBelowPermutation(before, elems[..n], Modulus(Int) / 2);
    SortedUnderExactCompare(elems[..n], Int, compareInt);
    NonDecreasingIffSorted(elems[..n]);
    ok := IsSortedElems(elems, n);
  }

  /** Sorted by `compare_T` on non-negative values of T is sorted by the
      exact comparison. */
  lemma SortedUnderExactCompare(s: seq<int>, t: CType, cmp: (int, int) -> int)
    requires forall x: int, y: int :: cmp(x, y) == CompareAsWritten(t, x, y)
    requires AllBelow(s, Modulus(t) / 2)
    requires Sorted(s, cmp)
    ensures Sorted(s, Compare)
  {
    forall i, j | 0 <= i < j < |s|
      ensures Compare(s[i], s[j]) <= 0
    {
      assert cmp(s[i], s[j]) <= 0;
      CompareAsWrittenOnNonNegative(t, s[i], s[j]);
    }
  }

  /** A permutation keeps the values in range. */
  lemma AllBelowPermutation(s: seq<int>, t: seq<int>, bound: int)
    requires multiset(s) == multiset(t) && AllBelow(s, bound)
    ensures AllBelow(t, bound)
  {
    forall k | 0 <= k < |t|
      ensures 0 <= t[k] < bound
    {
      assert t[k] in multiset(t);
    }
  }

  /** The root's check of `task4_2.c` after `odd_even_merge_sort(elems, n,
      MPI_INT, root, comm)` on values in [0, 100), for the branch where the
      root sorts alone. */
  method RootSortThenCheck(elems: array<int>, n: nat, nProc: nat) returns (ok: bool)
    requires 1 <= nProc && n <= elems.Length && n < 3 * nProc && n < EasyNumberOfElements
    requires AllBelow(elems[..n], 100)
    modifies elems
    ensures ok
    ensures multiset(elems[..n]) == old(multiset(elems[..n]))
  {
    ghost var before := elems[..n];
    ghost var bound := Modulus(Int) / 2;
    assert IntegerType(CompareType(MpiInt).value) == Int;
    assert forall k :: 0 <= k < n ==> 0 <= elems[k] < bound by {
      assert forall k :: 0 <= k < n ==> elems[k] == before[k];
    }
    assert AllBelow(before, bound);
    var outcome := OddEvenMergeSort(elems, n, MpiInt, true, nProc);
    ghost var after := elems[..n];
    AllBelowPermutation(before, after, bound);
    ghost var cmp := ElementCompare(MpiInt);
    assert forall x: int, y: int :: cmp(x, y) == CompareAsWritten(Int, x, y);
    SortedUnderExactCompare(after, Int, cmp);
    NonDecreasingIffSorted(after);
    ok := IsSortedElems(elems, n);
  }
}
