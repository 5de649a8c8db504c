/** The sequential sorting kernels behind `odd_even_sort`: element swap,
    compare-and-swap and bubble sort, generic in the element type and the
    comparator (`compare_func`: negative, zero or positive). */
module Sorting {

  /** Every pair in order: the comparator never puts a later element first. */
  ghost predicate Sorted<T(!new)>(s: seq<T>, cmp: (T, T) -> int)
  {
    forall i, j :: 0 <= i < j < |s| ==> cmp(s[i], s[j]) <= 0
  }

  /** Swapping a pair the comparator finds out of order puts it in order. */
  ghost predicate Antisymmetric<T(!new)>(cmp: (T, T) -> int, x: T, y: T)
  {
    cmp(x, y) > 0 ==> cmp(y, x) < 0
  }

  /** On the values `dom` admits, the comparator is a total preorder:
      antisymmetric in sign and transitive for "not after". */
  ghost predicate PreorderOn<T(!new)>(cmp: (T, T) -> int, dom: T -> bool)
  {
    && (forall x, y :: dom(x) && dom(y) ==> Antisymmetric(cmp, x, y))
    && (forall x, y, z :: dom(x) && dom(y) && dom(z) && cmp(x, y) <= 0 && cmp(y, z) <= 0 ==> cmp(x, z) <= 0)
  }

  ghost predicate AllIn<T(!new)>(s: seq<T>, dom: T -> bool)
  {
    forall k :: 0 <= k < |s| ==> dom(s[k])
  }

  /** `swap_elems`: the two elements change places, nothing else changes. */
  method SwapElems<T(!new)>(a: array<T>, i: int, j: int)
    requires 0 <= i < a.Length && 0 <= j < a.Length
    modifies a
    ensures a[..] == old(a[..])[i := old(a[j])][j := old(a[i])]
    ensures multiset(a[..]) == old(multiset(a[..]))
  {
    var tmp := a[i];
    a[i] := a[j];
    a[j] := tmp;
  }

  /** `compare_swap_elems`: swaps positions i and j exactly when the
      comparator puts the element at i after the one at j. */
  method CompareSwapElems<T(!new)>(a: array<T>, cmp: (T, T) -> int, i: int, j: int)
    requires 0 <= i < a.Length && 0 <= j < a.Length
    modifies a
    ensures cmp(old(a[i]), old(a[j])) > 0 ==> a[..] == old(a[..])[i := old(a[j])][j := old(a[i])]
    ensures cmp(old(a[i]), old(a[j])) <= 0 ==> a[..] == old(a[..])
    ensures multiset(a[..]) == old(multiset(a[..]))
    ensures i != j && Antisymmetric(cmp, old(a[i]), old(a[j])) ==> cmp(a[i], a[j]) <= 0
  {
    if cmp(a[i], a[j]) > 0 {
      SwapElems(a, i, j);
    }
  }

  /** `bubble_sort`: pass n (from 1 to nElems) compare-swaps the neighbours
      j, j + 1 for j below nElems - n. The first nElems elements are permuted
      and the rest left alone; when the comparator is a preorder on the
      elements, they end up sorted. */
  method BubbleSort<T(!new)>(a: array<T>, nElems: int, cmp: (T, T) -> int, ghost dom: T -> bool)
    requires 0 <= nElems <= a.Length
    modifies a
    ensures multiset(a[..nElems]) == old(multiset(a[..nElems]))
    ensures a[nElems..] == old(a[nElems..])
    ensures PreorderOn(cmp, dom) && AllIn(old(a[..nElems]), dom) ==> Sorted(a[..nElems], cmp)
  {
    ghost var good := PreorderOn(cmp, dom) && AllIn(a[..nElems], dom);
    var n := 1;
    while n <= nElems
      invariant 1 <= n <= nElems + 1
      invariant multiset(a[..nElems]) == old(multiset(a[..nElems]))
      invariant a[nElems..] == old(a[nElems..])
      invariant good ==> AllIn(a[..nElems], dom)
      invariant good ==> SortedTail(a[..nElems], nElems - n + 1, cmp)
    {
      BubblePass(a, nElems, nElems - n, cmp, dom, good);
      n := n + 1;
    }
    if good {
      SortedTailWhole(a[..nElems], cmp);
    }
  }

  /** Positions from `m` on are sorted, and nothing before `m` comes after
      anything from `m` on. */
  ghost predicate SortedTail<T(!new)>(s: seq<T>, m: int, cmp: (T, T) -> int)
  {
    0 <= m <= |s|
    && (forall i, j :: m <= i < j < |s| ==> cmp(s[i], s[j]) <= 0)
    && (forall i, k :: 0 <= i < m <= k < |s| ==> cmp(s[i], s[k]) <= 0)
  }

  lemma SortedTailWhole<T(!new)>(s: seq<T>, cmp: (T, T) -> int)
    requires SortedTail(s, 0, cmp)
    ensures Sorted(s, cmp)
  {
  }

  /** What one compare-swap of neighbours j, j + 1 does to the elements. */
  function StepAt<T(!new)>(s: seq<T>, j: int, cmp: (T, T) -> int): (t: seq<T>)
    requires 0 <= j && j + 1 < |s|
    ensures |t| == |s| && multiset(t) == multiset(s)
  {
    if cmp(s[j], s[j + 1]) > 0 then s[j := s[j + 1]][j + 1 := s[j]] else s
  }

  /** The inner loop's invariant at position j of a pass ending at `last`:
      the tail from last + 1 is in place and s[j] is a greatest element of
      s[..j + 1]. */
  ghost predicate PassInvariant<T(!new)>(s: seq<T>, j: int, last: int, cmp: (T, T) -> int, dom: T -> bool)
  {
    && 0 <= j <= last < |s|
    && PreorderOn(cmp, dom) && AllIn(s, dom)
    && SortedTail(s, last + 1, cmp)
    && (forall k :: 0 <= k <= j ==> cmp(s[k], s[j]) <= 0)
  }

  /** A compare-swap at j moves the greatest of s[..j + 2] to j + 1. */
  lemma StepKeepsPassInvariant<T(!new)>(s: seq<T>, j: int, last: int, cmp: (T, T) -> int, dom: T -> bool)
    requires j < last && PassInvariant(s, j, last, cmp, dom)
    ensures PassInvariant(StepAt(s, j, cmp), j + 1, last, cmp, dom)
  {
    if cmp(s[j], s[j + 1]) > 0 {
      SwapKeepsPassInvariant(s, j, last, cmp, dom);
    } else {
      assert dom(s[j]) && dom(s[j + 1]);
      forall k | 0 <= k <= j + 1
        ensures cmp(s[k], s[j + 1]) <= 0
      {
        if k <= j {
          assert dom(s[k]) && cmp(s[k], s[j]) <= 0;
        } else {
          assert Antisymmetric(cmp, s[k], s[k]);
        }
      }
    }
  }

  /** The swapping case: s[j], the greatest so far, moves up to j + 1. */
  lemma SwapKeepsPassInvariant<T(!new)>(s: seq<T>, j: int, last: int, cmp: (T, T) -> int, dom: T -> bool)
    requires j < last && PassInvariant(s, j, last, cmp, dom) && cmp(s[j], s[j + 1]) > 0
    ensures PassInvariant(s[j := s[j + 1]][j + 1 := s[j]], j + 1, last, cmp, dom)
  {
    var t := s[j := s[j + 1]][j + 1 := s[j]];
    assert dom(s[j]) && dom(s[j + 1]) && Antisymmetric(cmp, s[j], s[j + 1]);
    forall k | 0 <= k < |t|
      ensures dom(t[k])
    {
      assert t[k] == s[k] || t[k] == s[j] || t[k] == s[j + 1];
    }
    forall i, k | 0 <= i < last + 1 <= k < |t|
      ensures cmp(t[i], t[k]) <= 0
    {
      assert t[k] == s[k];
      assert t[i] == s[i] || t[i] == s[j] || t[i] == s[j + 1];
    }
    forall k | 0 <= k <= j + 1
      ensures cmp(t[k], t[j + 1]) <= 0
    {
      if k == j + 1 {
        assert Antisymmetric(cmp, s[j], s[j]);
      }
    }
  }

  /** A pass starts with the first element as the greatest so far. */
  lemma PassInvariantStart<T(!new)>(s: seq<T>, last: int, cmp: (T, T) -> int, dom: T -> bool)
    requires 0 <= last < |s| && PreorderOn(cmp, dom) && AllIn(s, dom) && SortedTail(s, last + 1, cmp)
    ensures PassInvariant(s, 0, last, cmp, dom)
  {
    assert dom(s[0]) && Antisymmetric(cmp, s[0], s[0]);
  }

  /** At the end of a pass the greatest of s[..last + 1] sits at `last`, so
      the sorted tail grows by one. */
  lemma PassInvariantEnd<T(!new)>(s: seq<T>, last: int, cmp: (T, T) -> int, dom: T -> bool)
    requires PassInvariant(s, last, last, cmp, dom)
    ensures SortedTail(s, last, cmp)
  {
  }

  /** `compare_swap_elems` on the neighbours j, j + 1 of the first nElems. */
  method BubbleStep<T(!new)>(a: array<T>, nElems: int, j: int, cmp: (T, T) -> int)
    requires 0 <= j && j + 1 < nElems <= a.Length
    modifies a
    ensures a[..nElems] == StepAt(old(a[..nElems]), j, cmp)
    ensures a[nElems..] == old(a[nElems..])
  {
    ghost var full := a[..];
    CompareSwapElems(a, cmp, j, j + 1);
    assert a[..nElems] == a[..][..nElems];
    assert old(a[..nElems]) == full[..nElems];
  }

  /** One outer pass of `bubble_sort`: the inner loop compare-swaps the
      neighbours j, j + 1 for j below `last`. */
  method BubblePass<T(!new)>(a: array<T>, nElems: int, last: int, cmp: (T, T) -> int, ghost dom: T -> bool, ghost good: bool)
    requires 0 <= nElems <= a.Length && 0 <= last < nElems
    requires good ==> PreorderOn(cmp, dom) && AllIn(a[..nElems], dom)
    requires good ==> SortedTail(a[..nElems], last + 1, cmp)
    modifies a
    ensures multiset(a[..nElems]) == old(multiset(a[..nElems]))
    ensures a[nElems..] == old(a[nElems..])
    ensures good ==> AllIn(a[..nElems], dom) && SortedTail(a[..nElems], last, cmp)
  {
    if good {
      PassInvariantStart(a[..nElems], last, cmp, dom);
    }
    var j := 0;
    while j < last
      invariant 0 <= j <= last
      invariant multiset(a[..nElems]) == old(multiset(a[..nElems]))
      invariant a[nElems..] == old(a[nElems..])
      invariant good ==> PassInvariant(a[..nElems], j, last, cmp, dom)
    {
      ghost var s := a[..nElems];
      BubbleStep(a, nElems, j, cmp);
      if good {
        StepKeepsPassInvariant(s, j, last, cmp, dom);
      }
      j := j + 1;
    }
    if good {
      PassInvariantEnd(a[..nElems], last, cmp, dom);
    }
  }

  /** `odd_even_sort` below the threaded threshold of 20 elements: checks the
      element size bound of 1024 bytes, then bubble-sorts. */
  method OddEvenSort<T(!new)>(a: array<T>, nElems: int, elemSize: int, cmp: (T, T) -> int, ghost dom: T -> bool)
    requires elemSize <= MaxElemSize
    requires 0 <= nElems <= a.Length && nElems < EasyNumberOfElements
    modifies a
    ensures multiset(a[..nElems]) == old(multiset(a[..nElems]))
    ensures a[nElems..] == old(a[nElems..])
    ensures PreorderOn(cmp, dom) && AllIn(old(a[..nElems]), dom) ==> Sorted(a[..nElems], cmp)
  {
    BubbleSort(a, nElems, cmp, dom);
  }

  const MaxElemSize := 1024
  const EasyNumberOfElements := 20
}
