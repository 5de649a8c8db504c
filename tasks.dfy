/** The task exchanged between the scheduler and a worker (`task_t` and its
    `task_result_t`) and the worker's computation `do_task`. */
module Tasks {
  import opened Digits

  const DigitsPerTask := 128 * 4 * 4
  const MaxDigitsPerTask := 256 * 4 * 4

  /** Digits of one addition pass and the carry left at its end. */
  datatype Pass = Pass(digits: seq<Digit>, transfer: Digit)

  /** The carry-0 pass of `do_task` over the first |a| digit pairs: digit n is
      `add_digits(a[n], b[n] + carry)` with the carry starting at 0. */
  function PassV0(a: seq<Digit>, b: seq<Digit>): (p: Pass)
    requires |a| == |b|
    ensures |p.digits| == |a| && p.transfer <= 1
    ensures forall k :: 0 <= k < |p.digits| ==> p.digits[k] <= MaxDigitValue - 1
    decreases |a|
  {
    if |a| == 0 then Pass([], 0)
    else
      var prev := PassV0(a[..|a| - 1], b[..|b| - 1]);
      var s := AddDigits(a[|a| - 1], ToDigit(b[|b| - 1] + prev.transfer));
      Pass(prev.digits + [s.digit], s.transfer)
  }

  /** The carry-1 pass of `do_task` over the carry-0 digits: digit n is
      `add_digits(v0[n] + carry, 0)` with the carry starting at 1. */
  function PassV1(v0: seq<Digit>): (p: Pass)
    ensures |p.digits| == |v0| && p.transfer <= 1
    ensures |v0| == 0 ==> p.transfer == 1
    decreases |v0|
  {
    if |v0| == 0 then Pass([], 1)
    else
      var prev := PassV1(v0[..|v0| - 1]);
      var s := AddDigits(ToDigit(v0[|v0| - 1] + prev.transfer), 0);
      Pass(prev.digits + [s.digit], s.transfer)
  }

  /** Because every carry-0 digit is at most 98, the carry-1 pass only bumps the
      lowest digit (modulo 99) and never carries out of a non-empty chunk. */
  lemma {:induction false} PassV1Shape(v0: seq<Digit>)
    requires |v0| >= 1
    requires forall k :: 0 <= k < |v0| ==> v0[k] <= MaxDigitValue - 1
    ensures PassV1(v0) == Pass([(v0[0] + 1) % MaxDigitValue] + v0[1..], 0)
    decreases |v0|
  {
    var last := |v0| - 1;
    if last > 0 {
      PassV1Shape(v0[..last]);
      assert v0[..last][1..] + [v0[last]] == v0[1..];
    }
  }

  /** The carry-1 variant of a worker's chunk, in terms of the carry-0 inputs. */
  lemma SecondVariantOfChunk(a: seq<Digit>, b: seq<Digit>)
    requires |a| == |b| >= 1
    ensures |PassV0(a, b).digits| == |a|
    ensures PassV1(PassV0(a, b).digits) == Pass([(PassV0(a, b).digits[0] + 1) % MaxDigitValue] + PassV0(a, b).digits[1..], 0)
  {
    PassV1Shape(PassV0(a, b).digits);
  }

  /** When no digit pair reaches 99 the carry-0 pass is the exact digit-wise sum
      and leaves no carry. */
  lemma {:induction false} PassV0ExactWithoutOverflow(a: seq<Digit>, b: seq<Digit>)
    requires |a| == |b|
    requires forall k :: 0 <= k < |a| ==> a[k] + b[k] <= MaxDigitValue - 1
    ensures PassV0(a, b).transfer == 0
    ensures forall k :: 0 <= k < |a| ==> PassV0(a, b).digits[k] == a[k] + b[k]
    decreases |a|
  {
    if |a| > 0 {
      var last := |a| - 1;
      PassV0ExactWithoutOverflow(a[..last], b[..last]);
      AddDigitsExactBelowModulus(a[last], b[last]);
      var p := PassV0(a, b);
      forall k | 0 <= k < |a|
        ensures p.digits[k] == a[k] + b[k]
      {
        if k < last {
          assert a[..last][k] == a[k] && b[..last][k] == b[k];
        }
      }
    }
  }

  class Task {
    var order: int
    var nDigits: int
    const aDigits: array<Digit>
    const bDigits: array<Digit>
    const sumV0: array<Digit>
    const sumV1: array<Digit>
    var transferV0: Digit
    var transferV1: Digit

    /** Four distinct fixed-size digit arrays and a digit count that fits them. */
    ghost predicate Valid()
      reads this
    {
      && aDigits.Length == MaxDigitsPerTask && bDigits.Length == MaxDigitsPerTask
      && sumV0.Length == MaxDigitsPerTask && sumV1.Length == MaxDigitsPerTask
      && 0 <= nDigits <= MaxDigitsPerTask
      && aDigits != bDigits && aDigits != sumV0 && aDigits != sumV1
      && bDigits != sumV0 && bDigits != sumV1 && sumV0 != sumV1
    }

    /** `new_task`: a zeroed task. */
    constructor ()
      ensures Valid() && fresh(aDigits) && fresh(bDigits) && fresh(sumV0) && fresh(sumV1)
      ensures order == 0 && nDigits == 0 && transferV0 == 0 && transferV1 == 0
    {
      order, nDigits := 0, 0;
      aDigits := new Digit[MaxDigitsPerTask](_ => 0);
      bDigits := new Digit[MaxDigitsPerTask](_ => 0);
      sumV0 := new Digit[MaxDigitsPerTask](_ => 0);
      sumV1 := new Digit[MaxDigitsPerTask](_ => 0);
      transferV0, transferV1 := 0, 0;
    }

    /** `task_is_empty`: the task carries no digit pairs (the stop sentinel). */
    predicate IsEmpty(): (r: bool)
      reads this
      requires Valid()
      ensures r <==> aDigits[..nDigits] == []
    {
      nDigits == 0
    }

    /** `do_task`: fills both speculative sums of the first nDigits pairs; the
        operands, the order and the count are left alone. */
    method DoTask()
      requires Valid()
      modifies this`transferV0, this`transferV1, sumV0, sumV1
      ensures Valid()
      ensures PassV0(aDigits[..nDigits], bDigits[..nDigits]) == Pass(sumV0[..nDigits], transferV0)
      ensures PassV1(sumV0[..nDigits]) == Pass(sumV1[..nDigits], transferV1)
      ensures sumV0[nDigits..] == old(sumV0[nDigits..]) && sumV1[nDigits..] == old(sumV1[nDigits..])
    {
      FirstPass();
      SecondPass();
    }

    /** The carry-0 loop of `do_task`. */
    method FirstPass()
      requires Valid()
      modifies this`transferV0, sumV0
      ensures PassV0(aDigits[..nDigits], bDigits[..nDigits]) == Pass(sumV0[..nDigits], transferV0)
      ensures sumV0[nDigits..] == old(sumV0[nDigits..])
    {
      var transfer: Digit := 0;
      var n := 0;
      while n < nDigits
        invariant 0 <= n <= nDigits
        invariant PassV0(aDigits[..n], bDigits[..n]) == Pass(sumV0[..n], transfer)
        invariant sumV0[nDigits..] == old(sumV0[nDigits..])
      {
        transfer := FirstPassStep(n, transfer);
        n := n + 1;
      }
      transferV0 := transfer;
    }

    /** One round of the carry-0 loop: digit n of the pass and the carry after it. */
    method FirstPassStep(n: nat, transfer: Digit) returns (next: Digit)
      requires Valid() && n < nDigits
      requires PassV0(aDigits[..n], bDigits[..n]) == Pass(sumV0[..n], transfer)
      modifies sumV0
      ensures PassV0(aDigits[..n + 1], bDigits[..n + 1]) == Pass(sumV0[..n + 1], next)
      ensures forall k :: 0 <= k < sumV0.Length && k != n ==> sumV0[k] == old(sumV0[k])
    {
      ghost var before := sumV0[..n];
      assert aDigits[..n + 1][..n] == aDigits[..n] && bDigits[..n + 1][..n] == bDigits[..n];
      var s := AddDigits(aDigits[n], ToDigit(bDigits[n] + transfer));
      sumV0[n] := s.digit;
      assert sumV0[..n + 1] == before + [s.digit];
      next := s.transfer;
    }

    /** The carry-1 loop of `do_task`, over the digits of the carry-0 loop. */
    method SecondPass()
      requires Valid()
      modifies this`transferV1, sumV1
      ensures PassV1(sumV0[..nDigits]) == Pass(sumV1[..nDigits], transferV1)
      ensures sumV1[nDigits..] == old(sumV1[nDigits..])
    {
      var transfer: Digit := 1;
      var n := 0;
      while n < nDigits
        invariant 0 <= n <= nDigits
        invariant PassV1(sumV0[..n]) == Pass(sumV1[..n], transfer)
        invariant sumV1[nDigits..] == old(sumV1[nDigits..])
      {
        transfer := SecondPassStep(n, transfer);
        n := n + 1;
      }
      transferV1 := transfer;
    }

    /** One round of the carry-1 loop: digit n of the pass and the carry after it. */
    method SecondPassStep(n: nat, transfer: Digit) returns (next: Digit)
      requires Valid() && n < nDigits
      requires PassV1(sumV0[..n]) == Pass(sumV1[..n], transfer)
      modifies sumV1
      ensures PassV1(sumV0[..n + 1]) == Pass(sumV1[..n + 1], next)
      ensures forall k :: 0 <= k < sumV1.Length && k != n ==> sumV1[k] == old(sumV1[k])
    {
      ghost var before := sumV1[..n];
      assert sumV0[..n + 1][..n] == sumV0[..n];
      var s := AddDigits(ToDigit(sumV0[n] + transfer), 0);
      sumV1[n] := s.digit;
      assert sumV1[..n + 1] == before + [s.digit];
      next := s.transfer;
    }
  }
}
