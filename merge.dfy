/** `merge_sort`: merges a left and a right run through a temporary buffer
    and copies the result back, the first left_count elements into the left
    buffer and the rest into the right one. */
module Merging {
  import opened Sorting

  /** The merge the loop performs: the left element goes first only when
      the comparator puts it strictly before the right one; once a side is
      exhausted the other side follows unchanged. */
  function Merge<T(!new)>(xs: seq<T>, ys: seq<T>, cmp: (T, T) -> int): (r: seq<T>)
    ensures |r| == |xs| + |ys|
    ensures multiset(r) == multiset(xs) + multiset(ys)
    ensures xs == [] ==> r == ys
    ensures ys == [] ==> r == xs
    decreases |xs| + |ys|
  {
    if xs == [] then ys
    else if ys == [] then xs
    else if cmp(xs[0], ys[0]) < 0 then
      assert xs == [xs[0]] + xs[1..];
      [xs[0]] + Merge(xs[1..], ys, cmp)
    else
      assert ys == [ys[0]] + ys[1..];
      [ys[0]] + Merge(xs, ys[1..], cmp)
  }

  /** Nothing in s comes before h. */
  ghost predicate NotBefore<T(!new)>(h: T, s: seq<T>, cmp: (T, T) -> int)
  {
    forall k :: 0 <= k < |s| ==> cmp(h, s[k]) <= 0
  }

  lemma NotBeforeMerge<T(!new)>(h: T, xs: seq<T>, ys: seq<T>, cmp: (T, T) -> int)
    requires NotBefore(h, xs, cmp) && NotBefore(h, ys, cmp)
    ensures NotBefore(h, Merge(xs, ys, cmp), cmp)
  {
    var r := Merge(xs, ys, cmp);
    forall k | 0 <= k < |r|
      ensures cmp(h, r[k]) <= 0
    {
      assert r[k] in multiset(r);
      assert r[k] in multiset(xs) || r[k] in multiset(ys);
    }
  }

  lemma AllInMerge<T(!new)>(xs: seq<T>, ys: seq<T>, cmp: (T, T) -> int, dom: T -> bool)
    requires AllIn(xs, dom) && AllIn(ys, dom)
    ensures AllIn(Merge(xs, ys, cmp), dom)
  {
    var r := Merge(xs, ys, cmp);
    forall k | 0 <= k < |r|
      ensures dom(r[k])
    {
      assert r[k] in multiset(r);
      assert r[k] in multiset(xs) || r[k] in multiset(ys);
    }
  }

  lemma SortedCons<T(!new)>(h: T, s: seq<T>, cmp: (T, T) -> int)
    requires Sorted(s, cmp) && NotBefore(h, s, cmp)
    ensures Sorted([h] + s, cmp)
  {
    var r := [h] + s;
    forall i, j | 0 <= i < j < |r|
      ensures cmp(r[i], r[j]) <= 0
    {
      if i > 0 {
        assert r[i] == s[i - 1] && r[j] == s[j - 1];
      }
    }
  }

  /** Two sorted runs merge into a sorted run, when the comparator is a
      preorder on their elements. */
  lemma {:induction false} MergeSorted<T(!new)>(xs: seq<T>, ys: seq<T>, cmp: (T, T) -> int, dom: T -> bool)
    requires PreorderOn(cmp, dom) && AllIn(xs, dom) && AllIn(ys, dom)
    requires Sorted(xs, cmp) && Sorted(ys, cmp)
    ensures Sorted(Merge(xs, ys, cmp), cmp)
    decreases |xs| + |ys|
  {
    if xs == [] || ys == [] {
    } else if cmp(xs[0], ys[0]) < 0 {
      var rest := xs[1..];
      assert Sorted(rest, cmp) && AllIn(rest, dom);
      MergeSorted(rest, ys, cmp, dom);
      assert dom(xs[0]) && dom(ys[0]);
      forall k | 0 <= k < |ys|
        ensures cmp(xs[0], ys[k]) <= 0
      {
        assert dom(ys[k]) && cmp(ys[0], ys[k]) <= 0;
      }
      assert NotBefore(xs[0], rest, cmp) by {
        forall k | 0 <= k < |rest|
          ensures cmp(xs[0], rest[k]) <= 0
        {
          assert rest[k] == xs[k + 1];
        }
      }
      NotBeforeMerge(xs[0], rest, ys, cmp);
      SortedCons(xs[0], Merge(rest, ys, cmp), cmp);
    } else {
      var rest := ys[1..];
      assert Sorted(rest, cmp) && AllIn(rest, dom);
      MergeSorted(xs, rest, cmp, dom);
      assert dom(xs[0]) && dom(ys[0]);
      assert Antisymmetric(cmp, ys[0], xs[0]);
      forall k | 0 <= k < |xs|
        ensures cmp(ys[0], xs[k]) <= 0
      {
        assert dom(xs[k]) && cmp(xs[0], xs[k]) <= 0;
      }
      assert NotBefore(ys[0], rest, cmp) by {
        forall k | 0 <= k < |rest|
          ensures cmp(ys[0], rest[k]) <= 0
        {
          assert rest[k] == ys[k + 1];
        }
      }
      NotBeforeMerge(ys[0], xs, rest, cmp);
      SortedCons(ys[0], Merge(xs, rest, cmp), cmp);
    }
  }

  /** On a tie the right element is emitted first: merging two records with
      equal keys puts the right-hand record ahead of the left-hand one. */
  lemma TieTakesRightFirst()
    ensures Merge([(1, 'L')], [(1, 'R')], (x: (int, char), y: (int, char)) => x.0 - y.0) == [(1, 'R'), (1, 'L')]
  {
    var cmp := (x: (int, char), y: (int, char)) => x.0 - y.0;
    assert Merge([(1, 'L')], [], cmp) == [(1, 'L')];
  }

  /** `memcpy(dst + to, src + from, count)` between distinct buffers. */
  method CopyRange<T>(src: array<T>, from: int, dst: array<T>, to: int, count: int)
    requires src != dst
    requires 0 <= count && 0 <= from && from + count <= src.Length && 0 <= to && to + count <= dst.Length
    modifies dst
    ensures dst[..] == old(dst[..to]) + src[from..from + count] + old(dst[to + count..])
    ensures dst[to..to + count] == src[from..from + count]
    ensures dst[..to] == old(dst[..to]) && dst[to + count..] == old(dst[to + count..])
  {
    ghost var orig := dst[..];
    var k := 0;
    while k < count
      invariant 0 <= k <= count
      invariant dst[..] == orig[..to] + src[from..from + k] + orig[to + k..]
    {
      CopyOne(src, from, dst, to, count, k, orig);
      k := k + 1;
    }
    SpliceParts(dst[..], orig[..to], src[from..from + count], orig[to + count..]);
  }

  /** A sequence is the join of its halves at any cut. */
  lemma SplitJoin<T>(whole: seq<T>, front: seq<T>, back: seq<T>, k: nat)
    requires k <= |whole| && front == whole[..k] && back == whole[k..]
    ensures front + back == whole
  {
  }

  /** The three parts of a sequence built as pre + mid + post. */
  lemma SpliceParts<T>(whole: seq<T>, pre: seq<T>, mid: seq<T>, post: seq<T>)
    requires whole == pre + mid + post
    ensures whole[..|pre|] == pre && whole[|pre|..|pre| + |mid|] == mid && whole[|pre| + |mid|..] == post
  {
  }

  /** One round of the copy loop: element k moves and the copied prefix grows by one. */
  method CopyOne<T>(src: array<T>, from: int, dst: array<T>, to: int, count: int, k: int, ghost orig: seq<T>)
    requires src != dst && |orig| == dst.Length
    requires 0 <= k < count && 0 <= from && from + count <= src.Length && 0 <= to && to + count <= dst.Length
    requires dst[..] == orig[..to] + src[from..from + k] + orig[to + k..]
    modifies dst
    ensures dst[..] == orig[..to] + src[from..from + k + 1] + orig[to + k + 1..]
  {
    dst[to + k] := src[from + k];
    assert src[from..from + k + 1] == src[from..from + k] + [src[from + k]];
  }

  /** `merge_sort(left_buf, left_count, right_buf, right_count, size, comp)`
      with the allocation succeeding: the first left_count and right_count
      elements of the two buffers are replaced by their merge, split at
      left_count. */
  method MergeSort<T(0,!new)>(left: array<T>, leftCount: int, right: array<T>, rightCount: int, cmp: (T, T) -> int, ghost dom: T -> bool)
    requires left != right
    requires 0 <= leftCount <= left.Length && 0 <= rightCount <= right.Length
    modifies left, right
    ensures left[..leftCount] + right[..rightCount] == Merge(old(left[..leftCount]), old(right[..rightCount]), cmp)
    ensures left[leftCount..] == old(left[leftCount..])
    ensures right[rightCount..] == old(right[rightCount..])
    ensures multiset(left[..leftCount] + right[..rightCount]) == old(multiset(left[..leftCount]) + multiset(right[..rightCount]))
    ensures PreorderOn(cmp, dom) && AllIn(old(left[..leftCount]), dom) && AllIn(old(right[..rightCount]), dom)
            && Sorted(old(left[..leftCount]), cmp) && Sorted(old(right[..rightCount]), cmp)
            ==> Sorted(left[..leftCount] + right[..rightCount], cmp)
  {
    ghost var xs := left[..leftCount];
    ghost var ys := right[..rightCount];
    var tmp := new T[leftCount + rightCount];
    MergeIntoBuffer(left, leftCount, right, rightCount, cmp, tmp);
    ghost var merged := tmp[..];
    assert merged == Merge(xs, ys, cmp);
    CopyRange(tmp, 0, left, 0, leftCount);
    CopyRange(tmp, leftCount, right, 0, rightCount);
    ghost var l, r := left[..leftCount], right[..rightCount];
    assert l == left[0..0 + leftCount] == merged[..leftCount];
    assert r == right[0..0 + rightCount] == merged[leftCount..];
    SplitJoin(merged, l, r, leftCount);
    if PreorderOn(cmp, dom) && AllIn(xs, dom) && AllIn(ys, dom) && Sorted(xs, cmp) && Sorted(ys, cmp) {
      MergeSorted(xs, ys, cmp, dom);
    }
  }

  /** The loop of `merge_sort`: fills the temporary buffer with the merge. */
  method MergeIntoBuffer<T(!new)>(left: array<T>, leftCount: int, right: array<T>, rightCount: int, cmp: (T, T) -> int, tmp: array<T>)
    requires tmp != left && tmp != right
    requires 0 <= leftCount <= left.Length && 0 <= rightCount <= right.Length
    requires tmp.Length == leftCount + rightCount
    modifies tmp
    ensures tmp[..] == Merge(left[..leftCount], right[..rightCount], cmp)
  {
    var index, leftIndex, rightIndex := 0, 0, 0;
    assert left[leftIndex..leftCount] == left[..leftCount] && right[rightIndex..rightCount] == right[..rightCount];
    while true
      invariant 0 <= leftIndex <= leftCount && 0 <= rightIndex <= rightCount
      invariant index == leftIndex + rightIndex
      invariant tmp[..index] + Merge(left[leftIndex..leftCount], right[rightIndex..rightCount], cmp) == Merge(left[..leftCount], right[..rightCount], cmp)
      decreases leftCount + rightCount - index
    {
      if leftIndex == leftCount {
        Flush(right, rightIndex, rightCount, tmp, index);
        break;
      }
      if rightIndex == rightCount {
        Flush(left, leftIndex, leftCount, tmp, index);
        break;
      }
      leftIndex, rightIndex := EmitOne(left, leftCount, right, rightCount, cmp, tmp, leftIndex, rightIndex);
      index := index + 1;
    }
  }

  /** One round of the loop with both sides non-empty: the smaller head
      (the right one on a tie) goes to tmp[index]. */
  method EmitOne<T(!new)>(left: array<T>, leftCount: int, right: array<T>, rightCount: int, cmp: (T, T) -> int, tmp: array<T>,
                          leftIndex: int, rightIndex: int) returns (leftNext: int, rightNext: int)
    requires tmp != left && tmp != right
    requires 0 <= leftIndex < leftCount <= left.Length && 0 <= rightIndex < rightCount <= right.Length
    requires leftIndex + rightIndex < tmp.Length
    modifies tmp
    ensures leftIndex <= leftNext <= leftCount && rightIndex <= rightNext <= rightCount
    ensures leftNext + rightNext == leftIndex + rightIndex + 1
    ensures tmp[..leftNext + rightNext] + Merge(left[leftNext..leftCount], right[rightNext..rightCount], cmp)
         == old(tmp[..leftIndex + rightIndex]) + Merge(left[leftIndex..leftCount], right[rightIndex..rightCount], cmp)
  {
    var index := leftIndex + rightIndex;
    ghost var xs, ys := left[leftIndex..leftCount], right[rightIndex..rightCount];
    ghost var prefix := tmp[..index];
    var x;
    if cmp(left[leftIndex], right[rightIndex]) < 0 {
      MergeTakesLeft(xs, ys, cmp);
      assert xs[1..] == left[leftIndex + 1..leftCount];
      x := left[leftIndex];
      leftNext, rightNext := leftIndex + 1, rightIndex;
    } else {
      MergeTakesRight(xs, ys, cmp);
      assert ys[1..] == right[rightIndex + 1..rightCount];
      x := right[rightIndex];
      leftNext, rightNext := leftIndex, rightIndex + 1;
    }
    ghost var rest := Merge(left[leftNext..leftCount], right[rightNext..rightCount], cmp);
    assert Merge(xs, ys, cmp) == [x] + rest;
    tmp[index] := x;
    assert tmp[..index + 1] == prefix + [x];
    AppendOne(prefix, x, rest);
  }

  lemma AppendOne<T>(prefix: seq<T>, x: T, rest: seq<T>)
    ensures (prefix + [x]) + rest == prefix + ([x] + rest)
  {
  }

  /** The `memcpy` of the remainder of one side once the other is exhausted. */
  method Flush<T>(src: array<T>, from: int, to: int, tmp: array<T>, index: int)
    requires src != tmp
    requires 0 <= from <= to <= src.Length && 0 <= index && index + (to - from) == tmp.Length
    modifies tmp
    ensures tmp[..] == old(tmp[..index]) + src[from..to]
  {
    CopyRange(src, from, tmp, index, to - from);
    assert tmp[index + (to - from)..] == [];
  }

  lemma MergeTakesLeft<T(!new)>(xs: seq<T>, ys: seq<T>, cmp: (T, T) -> int)
    requires xs != [] && ys != [] && cmp(xs[0], ys[0]) < 0
    ensures Merge(xs, ys, cmp) == [xs[0]] + Merge(xs[1..], ys, cmp)
  {
  }

  lemma MergeTakesRight<T(!new)>(xs: seq<T>, ys: seq<T>, cmp: (T, T) -> int)
    requires xs != [] && ys != [] && cmp(xs[0], ys[0]) >= 0
    ensures Merge(xs, ys, cmp) == [ys[0]] + Merge(xs, ys[1..], cmp)
  {
  }
}
