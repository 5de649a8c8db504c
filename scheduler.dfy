/** The scheduler's bookkeeping: cutting tasks from the operand pools
    (`give_task`), the result list kept sorted by order (`collect_task_result`)
    and the carry-resolution merge (`merge_task_results`). The statics
    `order_gen` and `transfer_digit` are fields of the Scheduler object. */
module Scheduling {
  import opened Digits
  import opened DigitPools
  import opened Tasks
  import CarryResolution

  /** The copy of a task's result that the list keeps: its order and the first
      nDigits digits of both speculative sums with their carries. */
  datatype TaskResult = TaskResult(order: int, sumV0: seq<Digit>, sumV1: seq<Digit>,
                                   transferV0: Digit, transferV1: Digit)

  /** The digit count a task asks for: the trust-scaled request `(int)(coef *
      DIGITS_PER_TASK)`, capped at MAX_DIGITS_PER_TASK. */
  function RequestSize(scaled: int): (n: int)
    ensures n <= MaxDigitsPerTask
    ensures n == scaled || (scaled > MaxDigitsPerTask && n == MaxDigitsPerTask)
  {
    if scaled > MaxDigitsPerTask then MaxDigitsPerTask else scaled
  }

  /** In static mode the coefficient is 1.0, so every task asks for 2048 digits. */
  lemma StaticModeRequest()
    ensures RequestSize(DigitsPerTask) == 2048
  {
  }

  /** The result `collect_task_result` copies out of a returned task. */
  function Snapshot(task: Task): (r: TaskResult)
    reads task, task.sumV0, task.sumV1
    requires task.Valid()
    ensures r.order == task.order
    ensures |r.sumV0| == |r.sumV1| == task.nDigits
  {
    TaskResult(task.order, task.sumV0[..task.nDigits], task.sumV1[..task.nDigits],
               task.transferV0, task.transferV1)
  }

  ghost predicate SortedByOrder(rs: seq<TaskResult>)
  {
    forall i, j :: 0 <= i < j < |rs| ==> rs[i].order <= rs[j].order
  }

  /** Results of equal order are the same result (true when orders are never reused). */
  ghost predicate OrdersIdentify(m: multiset<TaskResult>)
  {
    forall x, y :: x in m && y in m && x.order == y.order ==> x == y
  }

  /** Where the list walk of `collect_task_result` links a new node of order
      `key`: before the first node of greater order, or at the end. */
  function FirstAfter(rs: seq<TaskResult>, key: int): (p: nat)
    ensures p <= |rs|
    ensures forall k :: 0 <= k < p ==> rs[k].order <= key
    ensures p < |rs| ==> rs[p].order > key
  {
    if rs == [] || rs[0].order > key then 0 else 1 + FirstAfter(rs[1..], key)
  }

  /** The list after `collect_task_result` has linked in `r`. */
  function InsertByOrder(rs: seq<TaskResult>, r: TaskResult): seq<TaskResult>
  {
    var p := FirstAfter(rs, r.order);
    rs[..p] + [r] + rs[p..]
  }

  /** Inserting keeps the list sorted. */
  lemma InsertByOrderSorted(rs: seq<TaskResult>, r: TaskResult)
    requires SortedByOrder(rs)
    ensures SortedByOrder(InsertByOrder(rs, r))
  {
    var out := InsertByOrder(rs, r);
    var p := FirstAfter(rs, r.order);
    forall i, j | 0 <= i < j < |out|
      ensures out[i].order <= out[j].order
    {
      if j < p {
        assert out[i] == rs[i] && out[j] == rs[j];
      } else if j == p {
        assert out[i] == rs[i];
      } else if i > p {
        assert out[i] == rs[i - 1] && out[j] == rs[j - 1];
      } else if i == p {
        assert out[j] == rs[j - 1];
        assert rs[p].order <= rs[j - 1].order;
      } else {
        assert out[i] == rs[i] && out[j] == rs[j - 1];
      }
    }
  }

  /** Inserting adds exactly the new result: the list grows by one node, the new
      node sits after every node of equal or smaller order and before every node
      of greater order, and removing it gives back the old list. */
  lemma InsertByOrderPlacement(rs: seq<TaskResult>, r: TaskResult)
    ensures var out := InsertByOrder(rs, r); var p := FirstAfter(rs, r.order);
      && multiset(out) == multiset(rs) + multiset{r}
      && out[p] == r
      && (forall k :: 0 <= k < p ==> out[k].order <= r.order)
      && out[..p] + out[p + 1..] == rs
  {
    var p := FirstAfter(rs, r.order);
    SpliceParts(rs, p, r);
  }

  /** Putting x at position p of s: the parts around it are the two halves
      of s, and the elements are those of s plus x. */
  lemma SpliceParts<T>(s: seq<T>, p: nat, x: T)
    requires p <= |s|
    ensures var out := s[..p] + [x] + s[p..];
      && out[p] == x
      && (forall k :: 0 <= k < p ==> out[k] == s[k])
      && out[..p] + out[p + 1..] == s
      && multiset(out) == multiset(s) + multiset{x}
  {
    var out := s[..p] + [x] + s[p..];
    assert out[..p] == s[..p] && out[p + 1..] == s[p..];
    assert s == s[..p] + s[p..];
  }

  /** The result list built from results arriving in the order of `arrivals`. */
  function CollectAll(arrivals: seq<TaskResult>): seq<TaskResult>
  {
    if arrivals == [] then []
    else InsertByOrder(CollectAll(arrivals[..|arrivals| - 1]), arrivals[|arrivals| - 1])
  }

  lemma {:induction false} CollectAllSortedPermutation(arrivals: seq<TaskResult>)
    ensures SortedByOrder(CollectAll(arrivals))
    ensures multiset(CollectAll(arrivals)) == multiset(arrivals)
    decreases |arrivals|
  {
    if arrivals != [] {
      var init, last := arrivals[..|arrivals| - 1], arrivals[|arrivals| - 1];
      CollectAllSortedPermutation(init);
      InsertByOrderSorted(CollectAll(init), last);
      InsertByOrderMultiset(CollectAll(init), last);
      MultisetSnoc(arrivals);
    }
  }

  /** Inserting adds exactly the one result. */
  lemma InsertByOrderMultiset(rs: seq<TaskResult>, r: TaskResult)
    ensures multiset(InsertByOrder(rs, r)) == multiset(rs) + multiset{r}
  {
    InsertByOrderPlacement(rs, r);
  }

  lemma MultisetTail<T>(s: seq<T>)
    requires s != []
    ensures s == [s[0]] + s[1..] && multiset(s[1..]) == multiset(s) - multiset{s[0]}
  {
    assert s == [s[0]] + s[1..];
  }

  lemma MultisetSnoc<T>(s: seq<T>)
    requires s != []
    ensures multiset(s) == multiset(s[..|s| - 1]) + multiset{s[|s| - 1]}
  {
    assert s == s[..|s| - 1] + [s[|s| - 1]];
  }

  /** The first elements of two sorted lists holding the same results, where
      equal orders mean equal results, coincide. */
  lemma SortedHeadsEqual(xs: seq<TaskResult>, ys: seq<TaskResult>)
    requires xs != [] && SortedByOrder(xs) && SortedByOrder(ys)
    requires multiset(xs) == multiset(ys) && OrdersIdentify(multiset(xs))
    ensures ys != [] && xs[0] == ys[0]
  {
    assert xs[0] in multiset(ys);
    var j :| 0 <= j < |ys| && ys[j] == xs[0];
    assert ys[0] in multiset(xs);
    var i :| 0 <= i < |xs| && xs[i] == ys[0];
    assert xs[0].order <= xs[i].order;
    assert ys[0].order <= ys[j].order;
  }

  lemma OrdersIdentifySubset(m: multiset<TaskResult>, sub: multiset<TaskResult>)
    requires OrdersIdentify(m) && sub <= m
    ensures OrdersIdentify(sub)
  {
  }

  lemma SortedTail(xs: seq<TaskResult>)
    requires xs != [] && SortedByOrder(xs)
    ensures SortedByOrder(xs[1..])
  {
    forall i, j | 0 <= i < j < |xs| - 1
      ensures xs[1..][i].order <= xs[1..][j].order
    {
      assert xs[1..][i] == xs[i + 1] && xs[1..][j] == xs[j + 1];
    }
  }

  /** Two sorted lists holding the same results, where equal orders mean equal
      results, are the same list. */
  lemma {:induction false} SortedUnique(xs: seq<TaskResult>, ys: seq<TaskResult>)
    requires SortedByOrder(xs) && SortedByOrder(ys)
    requires multiset(xs) == multiset(ys) && OrdersIdentify(multiset(xs))
    ensures xs == ys
    decreases |xs|
  {
    if xs == [] {
      assert |ys| == |multiset(ys)| == 0;
    } else {
      SortedHeadsEqual(xs, ys);
      var tx, ty := xs[1..], ys[1..];
      MultisetTail(xs);
      MultisetTail(ys);
      OrdersIdentifySubset(multiset(xs), multiset(tx));
      SortedTail(xs);
      SortedTail(ys);
      SortedUnique(tx, ty);
    }
  }

  /** The result list does not depend on the order in which the workers'
      results arrive, as long as no order number is shared by two results. */
  lemma ArrivalOrderIrrelevant(arrivals1: seq<TaskResult>, arrivals2: seq<TaskResult>)
    requires multiset(arrivals1) == multiset(arrivals2)
    requires OrdersIdentify(multiset(arrivals1))
    ensures CollectAll(arrivals1) == CollectAll(arrivals2)
  {
    CollectAllSortedPermutation(arrivals1);
    CollectAllSortedPermutation(arrivals2);
    SortedUnique(CollectAll(arrivals1), CollectAll(arrivals2));
  }

  /** Digits pushed by one merge walk and the carry it leaves behind. */
  datatype Merged = Merged(digits: seq<Digit>, transfer: Digit)

  /** One step of the loop of `merge_task_results`: the carry-0 digits when the
      running carry is 0, the carry-1 digits when it is 1, and nothing for any
      other carry value, as the switch has no default. */
  function MergeStep(transfer: Digit, r: TaskResult): Merged
  {
    if transfer == 0 then Merged(r.sumV0, r.transferV0)
    else if transfer == 1 then Merged(r.sumV1, r.transferV1)
    else Merged([], transfer)
  }

  /** The loop of `merge_task_results` over the list in order. */
  function MergeFold(transfer: Digit, rs: seq<TaskResult>): Merged
    decreases |rs|
  {
    if rs == [] then Merged([], transfer)
    else
      var prev := MergeFold(transfer, rs[..|rs| - 1]);
      var step := MergeStep(prev.transfer, rs[|rs| - 1]);
      Merged(prev.digits + step.digits, step.transfer)
  }

  /** One more result of the list extends the walk by one step. */
  lemma MergeFoldPrefix(transfer: Digit, rs: seq<TaskResult>, i: nat)
    requires i < |rs|
    ensures var prev := MergeFold(transfer, rs[..i]); var step := MergeStep(prev.transfer, rs[i]);
      MergeFold(transfer, rs[..i + 1]) == Merged(prev.digits + step.digits, step.transfer)
  {
    assert rs[..i + 1][..i] == rs[..i];
  }

  /** Walking two lists one after the other, threading the carry, is walking
      their concatenation. */
  lemma {:induction false} MergeFoldAppend(transfer: Digit, xs: seq<TaskResult>, ys: seq<TaskResult>)
    ensures var m1 := MergeFold(transfer, xs); var m2 := MergeFold(m1.transfer, ys);
      MergeFold(transfer, xs + ys) == Merged(m1.digits + m2.digits, m2.transfer)
    decreases |ys|
  {
    if ys == [] {
      assert xs + ys == xs;
    } else {
      var init := ys[..|ys| - 1];
      MergeFoldAppend(transfer, xs, init);
      assert (xs + ys)[..|xs + ys| - 1] == xs + init;
    }
  }

  /** A worker's result seen as the pair of speculated variants of its chunk. */
  function Lift(r: TaskResult): (s: CarryResolution.Speculated)
    ensures s.v0.digits == r.sumV0 && s.v0.carry == r.transferV0
    ensures s.v1.digits == r.sumV1 && s.v1.carry == r.transferV1
  {
    CarryResolution.Speculated(CarryResolution.Variant(r.sumV0, r.transferV0), CarryResolution.Variant(r.sumV1, r.transferV1))
  }

  function LiftAll(rs: seq<TaskResult>): (ss: seq<CarryResolution.Speculated>)
    ensures |ss| == |rs| && forall k :: 0 <= k < |rs| ==> ss[k] == Lift(rs[k])
  {
    seq(|rs|, k requires 0 <= k < |rs| => Lift(rs[k]))
  }

  /** While every carry is 0 or 1, the merge loop is the carry-select walk of
      the corrected adder: the same digits and the same final carry. */
  lemma {:induction false} MergeFoldResolves(transfer: Digit, rs: seq<TaskResult>)
    requires transfer <= 1
    requires forall k :: 0 <= k < |rs| ==> rs[k].transferV0 <= 1 && rs[k].transferV1 <= 1
    ensures MergeFold(transfer, rs).digits == CarryResolution.Resolve(transfer, LiftAll(rs)).digits
    ensures MergeFold(transfer, rs).transfer == CarryResolution.Resolve(transfer, LiftAll(rs)).carry
    decreases |rs|
  {
    if rs != [] {
      var head, tail := rs[0], rs[1..];
      assert [head] + tail == rs;
      MergeFoldAppend(transfer, [head], tail);
      MergeFoldSingle(transfer, head);
      var step := MergeStep(transfer, head);
      assert LiftAll(rs)[1..] == LiftAll(tail);
      MergeFoldResolves(step.transfer, tail);
    }
  }

  /** One call of `merge_task_results` over the results of all chunks, each of
      whose variants is the exact radix-100 sum of its chunk, outputs exactly
      the corrected chunked sum. */
  lemma MergeRoundAdds(rs: seq<TaskResult>, aChunks: seq<seq<int>>, bChunks: seq<seq<int>>)
    requires CarryResolution.Chunked(aChunks, bChunks) && |rs| == |aChunks|
    requires forall k :: 0 <= k < |rs| ==>
      Lift(rs[k]) == CarryResolution.Speculated(CarryResolution.AddChunk(aChunks[k], bChunks[k], 0), CarryResolution.AddChunk(aChunks[k], bChunks[k], 1))
    ensures RoundOutput(0, rs) == CarryResolution.AddChunked(aChunks, bChunks)
  {
    assert LiftAll(rs) == CarryResolution.Speculate(aChunks, bChunks);
    forall k | 0 <= k < |rs|
      ensures rs[k].transferV0 <= 1 && rs[k].transferV1 <= 1
    {
      assert Lift(rs[k]).v0.carry == rs[k].transferV0 && Lift(rs[k]).v1.carry == rs[k].transferV1;
    }
    MergeFoldResolves(0, rs);
  }

  /** What one call of `merge_task_results` appends to the sum pool: the merged
      digits followed by the carry digit, whatever its value. */
  function RoundOutput(transfer: Digit, rs: seq<TaskResult>): seq<Digit>
  {
    var m := MergeFold(transfer, rs);
    m.digits + [m.transfer]
  }

  /** A one-digit chunk as a worker returns it. */
  function ChunkResult(order: int, a: Digit, b: Digit): TaskResult
  {
    var v0 := PassV0([a], [b]);
    var v1 := PassV1(v0.digits);
    TaskResult(order, v0.digits, v1.digits, v0.transfer, v1.transfer)
  }

  /** The carry digit is appended at the end of every call and also kept as the
      carry-in of the next call, so the output depends on where the rounds are
      cut: two one-chunk rounds give [1, 1, 1, 0] where one round with both
      chunks gives [1, 1, 0]. A last call with an empty list repeats the carry. */
  lemma CarryRepeatedAcrossRounds()
    ensures var r1 := ChunkResult(0, 98, 2); var r2 := ChunkResult(1, 0, 0);
      && MergeFold(0, [r1]).transfer == 1
      && RoundOutput(0, [r1]) + RoundOutput(1, [r2]) == [1, 1, 1, 0]
      && RoundOutput(0, [r1, r2]) == [1, 1, 0]
      && RoundOutput(1, []) == [1]
  {
    CarryingChunk();
    QuietChunk();
    TwoRoundsOutput(TaskResult(0, [1], [2], 1, 0), TaskResult(1, [0], [1], 0, 0));
    OneRoundOutput(TaskResult(0, [1], [2], 1, 0), TaskResult(1, [0], [1], 0, 0));
  }

  /** The example merged in two rounds, one chunk each. */
  lemma TwoRoundsOutput(r1: TaskResult, r2: TaskResult)
    requires r1 == TaskResult(0, [1], [2], 1, 0) && r2 == TaskResult(1, [0], [1], 0, 0)
    ensures MergeFold(0, [r1]).transfer == 1
    ensures RoundOutput(0, [r1]) + RoundOutput(1, [r2]) == [1, 1, 1, 0]
  {
    MergeFoldSingle(0, r1);
    MergeFoldSingle(1, r2);
    assert RoundOutput(0, [r1]) == [1, 1];
    assert RoundOutput(1, [r2]) == [1, 0];
  }

  /** The example merged in one round with both chunks. */
  lemma OneRoundOutput(r1: TaskResult, r2: TaskResult)
    requires r1 == TaskResult(0, [1], [2], 1, 0) && r2 == TaskResult(1, [0], [1], 0, 0)
    ensures RoundOutput(0, [r1, r2]) == [1, 1, 0]
  {
    MergeFoldPair(0, r1, r2);
    assert MergeStep(0, r1) == Merged([1], 1) && MergeStep(1, r2) == Merged([1], 0);
  }

  /** A walk over two results is the first step followed by the second. */
  lemma MergeFoldPair(transfer: Digit, x: TaskResult, y: TaskResult)
    ensures var p := MergeStep(transfer, x); var q := MergeStep(p.transfer, y);
      MergeFold(transfer, [x, y]) == Merged(p.digits + q.digits, q.transfer)
  {
    MergeFoldPrefix(transfer, [x, y], 1);
    PairPrefixes(x, y);
    MergeFoldSingle(transfer, x);
  }

  lemma PairPrefixes<T>(x: T, y: T)
    ensures [x, y][..1] == [x] && [x, y][..2] == [x, y]
  {
  }

  /** A walk over a single result is that result's step. */
  lemma MergeFoldSingle(transfer: Digit, r: TaskResult)
    ensures MergeFold(transfer, [r]) == MergeStep(transfer, r)
  {
    assert [r][..0] == [];
  }

  /** The first chunk of the example: 98 + 2 carries. */
  lemma CarryingChunk()
    ensures ChunkResult(0, 98, 2) == TaskResult(0, [1], [2], 1, 0)
  {
    assert PassV0([98], [2]) == Pass([1], 1) by {
      var one: seq<Digit> := [98];
      assert one[..0] == [];
    }
    assert PassV1([1]) == Pass([2], 0) by {
      var one: seq<Digit> := [1];
      assert one[..0] == [];
    }
  }

  /** The second chunk of the example: 0 + 0 does not carry. */
  lemma QuietChunk()
    ensures ChunkResult(1, 0, 0) == TaskResult(1, [0], [1], 0, 0)
  {
    assert PassV0([0], [0]) == Pass([0], 0) by {
      var one: seq<Digit> := [0];
      assert one[..0] == [];
    }
    assert PassV1([0]) == Pass([1], 0) by {
      var one: seq<Digit> := [0];
      assert one[..0] == [];
    }
  }

  class Scheduler {
    var orderGen: int
    var transferDigit: Digit
    var results: seq<TaskResult>

    /** Both statics start at 0 and the result list is empty. */
    constructor ()
      ensures orderGen == 0 && transferDigit == 0 && results == []
    {
      orderGen, transferDigit, results := 0, 0, [];
    }

    /** `give_task`: stamps the next order number (on every call, empty task or
        not), then pops the same request from both operand pools; the digit
        count is the count popped from the b pool. */
    method GiveTask(aPool: DigitPool, bPool: DigitPool, scaledRequest: int, task: Task)
      requires aPool.Valid() && bPool.Valid() && task.Valid() && aPool != bPool
      requires {aPool.storage, bPool.storage} !! {task.aDigits, task.bDigits}
      modifies this`orderGen, aPool`nPopped, bPool`nPopped, task`order, task`nDigits
      modifies task.aDigits, task.bDigits
      ensures aPool.Valid() && bPool.Valid() && task.Valid()
      ensures task.order == old(orderGen) && orderGen == old(orderGen) + 1
      ensures var n := RequestSize(scaledRequest);
        var ka := Min(Max0(n), |old(aPool.Contents())|);
        var kb := Min(Max0(n), |old(bPool.Contents())|);
        && task.nDigits == kb
        && task.aDigits[..ka] == old(aPool.Contents())[..ka]
        && task.bDigits[..kb] == old(bPool.Contents())[..kb]
        && aPool.Contents() == old(aPool.Contents())[ka..]
        && bPool.Contents() == old(bPool.Contents())[kb..]
        && task.aDigits[ka..] == old(task.aDigits[ka..])
        && task.bDigits[kb..] == old(task.bDigits[kb..])
      ensures task.IsEmpty() <==> (RequestSize(scaledRequest) <= 0 || old(bPool.IsEmpty()))
    {
      ghost var aBefore, bBefore := aPool.Contents(), bPool.Contents();
      task.order := orderGen;
      orderGen := orderGen + 1;
      var n := RequestSize(scaledRequest);
      task.nDigits := aPool.Pop(task.aDigits, n);
      ghost var ka := task.nDigits;
      assert aPool.Valid() && aPool.Contents() == aBefore[ka..];
      assert task.aDigits[..ka] == aBefore[..ka];
      assert task.aDigits[ka..] == old(task.aDigits[ka..]);
      task.nDigits := bPool.Pop(task.bDigits, n);
      assert bPool.Contents() == bBefore[task.nDigits..];
      assert task.nDigits == 0 <==> (n <= 0 || bBefore == []);
    }

    /** `collect_task_result`: links a copy of the task's result in before the
        first node of greater order. */
    method CollectTaskResult(task: Task)
      requires task.Valid()
      modifies this`results
      ensures results == InsertByOrder(old(results), Snapshot(task))
    {
      var r := Snapshot(task);
      var p := 0;
      while p < |results| && results[p].order <= r.order
        invariant 0 <= p <= |results|
        invariant forall k :: 0 <= k < p ==> results[k].order <= r.order
      {
        p := p + 1;
      }
      assert p == FirstAfter(results, r.order);
      results := results[..p] + [r] + results[p..];
    }

    /** `___clear_tasks_results`: frees every node and empties the list. */
    method ClearTasksResults()
      modifies this`results
      ensures results == []
    {
      results := [];
    }

    /** `merge_task_results`: pushes the variant the running carry selects for
        each result in list order, updates the carry, pushes the carry digit if
        the pool is not full, and empties the list. The carry stays for the next
        call. */
    method MergeTaskResults(sumPool: DigitPool)
      requires sumPool.Valid()
      modifies this`transferDigit, this`results, sumPool`nPushed, sumPool.storage
      ensures sumPool.Valid() && sumPool.nPopped == old(sumPool.nPopped)
      ensures transferDigit == MergeFold(old(transferDigit), old(results)).transfer
      ensures sumPool.Pushed() == Clip(old(sumPool.Pushed()) + RoundOutput(old(transferDigit), old(results)))
      ensures forall k :: sumPool.nPushed <= k < DigitsPerPool ==> sumPool.storage[k] == old(sumPool.storage[k])
      ensures results == []
    {
      ghost var m := MergeFold(transferDigit, results);
      MergeWalk(sumPool);
      PushTransfer(sumPool);
      ClipAppend(old(sumPool.Pushed()) + m.digits, [m.transfer]);
      assert old(sumPool.Pushed()) + m.digits + [m.transfer]
          == old(sumPool.Pushed()) + RoundOutput(old(transferDigit), old(results));
      ClearTasksResults();
    }

    /** The loop of `merge_task_results`: one pass over the list in order. */
    method MergeWalk(sumPool: DigitPool)
      requires sumPool.Valid()
      modifies this`transferDigit, sumPool`nPushed, sumPool.storage
      ensures sumPool.Valid() && sumPool.nPopped == old(sumPool.nPopped)
      ensures transferDigit == MergeFold(old(transferDigit), results).transfer
      ensures sumPool.Pushed() == Clip(old(sumPool.Pushed()) + MergeFold(old(transferDigit), results).digits)
      ensures forall k :: sumPool.nPushed <= k < DigitsPerPool ==> sumPool.storage[k] == old(sumPool.storage[k])
    {
      ghost var start := sumPool.Pushed();
      var i := 0;
      while i < |results|
        invariant 0 <= i <= |results|
        invariant sumPool.Valid() && sumPool.nPopped == old(sumPool.nPopped)
        invariant transferDigit == MergeFold(old(transferDigit), results[..i]).transfer
        invariant sumPool.Pushed() == Clip(start + MergeFold(old(transferDigit), results[..i]).digits)
        invariant forall k :: sumPool.nPushed <= k < DigitsPerPool ==> sumPool.storage[k] == old(sumPool.storage[k])
      {
        MergeWalkStep(sumPool, start, old(transferDigit), i);
        i := i + 1;
      }
      assert results[..i] == results;
    }

    /** One round of the loop of `merge_task_results`, with the loop's
        invariant before and after. */
    method MergeWalkStep(sumPool: DigitPool, ghost start: seq<Digit>, ghost initial: Digit, i: nat)
      requires i < |results| && sumPool.Valid()
      requires transferDigit == MergeFold(initial, results[..i]).transfer
      requires sumPool.Pushed() == Clip(start + MergeFold(initial, results[..i]).digits)
      modifies this`transferDigit, sumPool`nPushed, sumPool.storage
      ensures sumPool.Valid() && sumPool.nPopped == old(sumPool.nPopped) && old(sumPool.nPushed) <= sumPool.nPushed
      ensures transferDigit == MergeFold(initial, results[..i + 1]).transfer
      ensures sumPool.Pushed() == Clip(start + MergeFold(initial, results[..i + 1]).digits)
      ensures forall k :: sumPool.nPushed <= k < DigitsPerPool ==> sumPool.storage[k] == old(sumPool.storage[k])
    {
      ghost var before := MergeFold(initial, results[..i]);
      ghost var step := MergeStep(before.transfer, results[i]);
      MergeFoldPrefix(initial, results, i);
      PushSelected(sumPool, results[i]);
      ClipAppend(start + before.digits, step.digits);
      assert start + before.digits + step.digits == start + (before.digits + step.digits);
    }

    /** The body of the loop of `merge_task_results` for one result. */
    method PushSelected(sumPool: DigitPool, r: TaskResult)
      requires sumPool.Valid()
      modifies this`transferDigit, sumPool`nPushed, sumPool.storage
      ensures sumPool.Valid() && sumPool.nPopped == old(sumPool.nPopped)
      ensures transferDigit == MergeStep(old(transferDigit), r).transfer
      ensures sumPool.Pushed() == Clip(old(sumPool.Pushed()) + MergeStep(old(transferDigit), r).digits)
      ensures forall k :: sumPool.nPushed <= k < DigitsPerPool ==> sumPool.storage[k] == old(sumPool.storage[k])
    {
      if transferDigit == 0 {
        var _ := sumPool.Push(r.sumV0, |r.sumV0|);
        assert r.sumV0[..Max0(|r.sumV0|)] == r.sumV0;
        transferDigit := r.transferV0;
      } else if transferDigit == 1 {
        var _ := sumPool.Push(r.sumV1, |r.sumV1|);
        assert r.sumV1[..Max0(|r.sumV1|)] == r.sumV1;
        transferDigit := r.transferV1;
      } else {
        assert old(sumPool.Pushed()) + [] == old(sumPool.Pushed());
      }
    }

    /** The tail of `merge_task_results`: the carry digit is pushed unless the
        pool is already full. */
    method PushTransfer(sumPool: DigitPool)
      requires sumPool.Valid()
      modifies sumPool`nPushed, sumPool.storage
      ensures sumPool.Valid() && sumPool.nPopped == old(sumPool.nPopped)
      ensures sumPool.Pushed() == Clip(old(sumPool.Pushed()) + [transferDigit])
      ensures forall k :: sumPool.nPushed <= k < DigitsPerPool ==> sumPool.storage[k] == old(sumPool.storage[k])
    {
      if !sumPool.IsFull() {
        var _ := sumPool.Push([transferDigit], 1);
        assert [transferDigit][..Max0(1)] == [transferDigit];
      }
    }
  }
}
