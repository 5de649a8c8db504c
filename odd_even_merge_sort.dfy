/** The local side of `odd_even_merge_sort`: the error codes, the choice of
    comparator from the MPI datatype, the small-input branch, the block
    partition the root scatters and the odd-even neighbour rule. The
    message exchange itself is not part of this model. */
module OddEvenMergeSorts {
  import opened Sorting
  import opened Comparators
  import opened Wrappers

  /** `error_t`. */
  datatype Error = Ok | ErrMpi | ErrInvalidType | ErrOutOfMemory

  function Code(err: Error): (c: int)
    ensures 1 <= c <= 4
  {
    match err
    case Ok => 1
    case ErrMpi => 2
    case ErrInvalidType => 3
    case ErrOutOfMemory => 4
  }

  /** `error_message` of an integer code. */
  function ErrorMessage(code: int): (m: string)
    ensures m == "unknown error" <==> !(1 <= code <= 4)
  {
    if code == 1 then "ok"
    else if code == 2 then "internal MPI error"
    else if code == 3 then "invalid type"
    else if code == 4 then "out of memory"
    else "unknown error"
  }

  /** Every error has its own code and its own message. */
  lemma ErrorCodesDistinct(e1: Error, e2: Error)
    ensures Code(e1) == Code(e2) <==> e1 == e2
    ensures ErrorMessage(Code(e1)) == ErrorMessage(Code(e2)) <==> e1 == e2
  {
  }

  datatype MpiDatatype = MpiChar | MpiShort | MpiInt | MpiLong | MpiFloat | MpiDouble | MpiOther

  /** The `compare_T` functions by name. */
  datatype Comparator = CompareChar | CompareShort | CompareInt | CompareLong | CompareFloat | CompareDouble

  /** `compare_type`: a comparator for the six supported types, none
      otherwise. */
  function CompareType(t: MpiDatatype): (r: Option<Comparator>)
    ensures r.None? <==> t == MpiOther
    ensures r.Some? ==> SameType(t, r.value)
  {
    match t
    case MpiChar => Some(CompareChar)
    case MpiShort => Some(CompareShort)
    case MpiInt => Some(CompareInt)
    case MpiLong => Some(CompareLong)
    case MpiFloat => Some(CompareFloat)
    case MpiDouble => Some(CompareDouble)
    case MpiOther => None
  }

  /** The comparator and the datatype name the same C type. */
  predicate SameType(t: MpiDatatype, c: Comparator)
  {
    match c
    case CompareChar => t == MpiChar
    case CompareShort => t == MpiShort
    case CompareInt => t == MpiInt
    case CompareLong => t == MpiLong
    case CompareFloat => t == MpiFloat
    case CompareDouble => t == MpiDouble
  }

  /** The C integer type of an integer comparator. */
  function IntegerType(c: Comparator): CType
    requires c != CompareFloat && c != CompareDouble
  {
    match c
    case CompareChar => Char
    case CompareShort => Short
    case CompareInt => Int
    case CompareLong => Long
  }

  /** `MPI_Type_size` of an integer type (LP64: long has 8 bytes). */
  function TypeSize(t: MpiDatatype): (size: int)
    requires t != MpiFloat && t != MpiDouble && t != MpiOther
    ensures size == 1 || size == 2 || size == 4 || size == 8
  {
    match t
    case MpiChar => 1
    case MpiShort => 2
    case MpiInt => 4
    case MpiLong => 8
  }

  /** `count - (n_proc - 1) * (count / n_proc)`: the root's share. */
  function RootCount(count: nat, nProc: nat): (r: int)
    requires 1 <= nProc
    ensures r == count / nProc + count % nProc
    ensures count / nProc <= r < count / nProc + nProc
  {
    count - (nProc - 1) * (count / nProc)
  }

  /** The block sizes the root scatters: its own share first, then
      count / n_proc for every other rank. */
  function Counts(count: nat, nProc: nat): (cs: seq<int>)
    requires 1 <= nProc
    ensures |cs| == nProc
  {
    [RootCount(count, nProc)] + seq(nProc - 1, _ => count / nProc)
  }

  function Sum(s: seq<int>): int
  {
    if s == [] then 0 else Sum(s[..|s| - 1]) + s[|s| - 1]
  }

  /** Offsets are the running sums of the counts before them. */
  function Offsets(cs: seq<int>): (os: seq<int>)
    ensures |os| == |cs|
  {
    seq(|cs|, n requires 0 <= n <= |cs| => Sum(cs[..n]))
  }

  lemma {:induction false} SumConstant(k: nat, v: int)
    ensures Sum(seq(k, _ => v)) == k * v
  {
    if k > 0 {
      assert seq(k, _ => v)[..k - 1] == seq(k - 1, _ => v);
      SumConstant(k - 1, v);
    }
  }

  lemma {:induction false} SumPrepend(x: int, s: seq<int>)
    ensures Sum([x] + s) == x + Sum(s)
    decreases |s|
  {
    if s != [] {
      assert ([x] + s)[..|s|] == [x] + s[..|s| - 1];
      SumPrepend(x, s[..|s| - 1]);
    }
  }

  /** The blocks cover the whole buffer: the counts add up to count. */
  lemma CountsSum(count: nat, nProc: nat)
    requires 1 <= nProc
    ensures Sum(Counts(count, nProc)) == count
  {
    SumConstant(nProc - 1, count / nProc);
    SumPrepend(RootCount(count, nProc), seq(nProc - 1, _ => count / nProc));
  }

  /** Each block starts where the previous one ends, the first at 0, and the
      last ends at count: the blocks tile the buffer. */
  lemma OffsetsTile(count: nat, nProc: nat)
    requires 1 <= nProc
    ensures Offsets(Counts(count, nProc))[0] == 0
    ensures forall n :: 0 <= n < nProc - 1 ==> Offsets(Counts(count, nProc))[n + 1] == Offsets(Counts(count, nProc))[n] + Counts(count, nProc)[n]
    ensures Offsets(Counts(count, nProc))[nProc - 1] + Counts(count, nProc)[nProc - 1] == count
  {
    var cs := Counts(count, nProc);
    forall n | 0 <= n < nProc - 1
      ensures Offsets(cs)[n + 1] == Offsets(cs)[n] + cs[n]
    {
      assert cs[..n + 1][..n] == cs[..n];
    }
    CountsSum(count, nProc);
    assert cs[..nProc] == cs;
    assert cs[..nProc][..nProc - 1] == cs[..nProc - 1];
  }

  /** The partition loop at the root, into `n_proc`-slot arrays:
      `buf_counts[n]` is the root's share for n = 0 and count / n_proc
      otherwise, and `buf_offsets[n]` is the running total of the counts
      before n. */
  method Partition(count: nat, nProc: nat) returns (bufCounts: array<int>, bufOffsets: array<int>)
    requires 1 <= nProc
    ensures fresh(bufCounts) && fresh(bufOffsets) && bufCounts != bufOffsets
    ensures bufCounts[..] == Counts(count, nProc)
    ensures bufOffsets[..] == Offsets(Counts(count, nProc))
  {
    bufCounts := new int[nProc];
    bufOffsets := new int[nProc];
    var offset := 0;
    var n := 0;
    while n < nProc
      invariant 0 <= n <= nProc
      invariant PartitionedUpTo(bufCounts[..], bufOffsets[..], offset, count, nProc, n)
    {
      offset := PartitionSlot(bufCounts, bufOffsets, offset, count, nProc, n);
      n := n + 1;
    }
    assert bufCounts[..] == Counts(count, nProc);
    OffsetsPointwise(Counts(count, nProc), bufOffsets[..]);
  }

  /** The first n slots of both arrays are filled, and `offset` is the offset
      of slot n - 1. */
  ghost predicate PartitionedUpTo(counts: seq<int>, offsets: seq<int>, offset: int, count: nat, nProc: nat, n: nat)
    requires 1 <= nProc && n <= nProc == |counts| == |offsets|
  {
    var cs := Counts(count, nProc);
    && (forall k :: 0 <= k < n ==> counts[k] == cs[k])
    && (forall k :: 0 <= k < n ==> offsets[k] == Sum(cs[..k]))
    && offset == if n == 0 then 0 else Sum(cs[..n - 1])
  }

  /** One round of the partition loop: slot n gets the root's share (n = 0)
      or count / n_proc, and the running offset. */
  method PartitionSlot(bufCounts: array<int>, bufOffsets: array<int>, offset: int, count: nat, nProc: nat, n: nat)
    returns (next: int)
    requires 1 <= nProc && n < nProc == bufCounts.Length == bufOffsets.Length && bufCounts != bufOffsets
    requires PartitionedUpTo(bufCounts[..], bufOffsets[..], offset, count, nProc, n)
    modifies bufCounts, bufOffsets
    ensures PartitionedUpTo(bufCounts[..], bufOffsets[..], next, count, nProc, n + 1)
  {
    ghost var cs := Counts(count, nProc);
    CountsAt(count, nProc, n);
    bufCounts[n] := if n == 0 then count - (nProc - 1) * (count / nProc) else count / nProc;
    next := offset + if n == 0 then 0 else bufCounts[n - 1];
    bufOffsets[n] := next;
    if n > 0 {
      SumPrefixStep(cs, n);
    }
  }

  /** A sequence holding the running sum at every index is `Offsets`. */
  lemma OffsetsPointwise(cs: seq<int>, os: seq<int>)
    requires |os| == |cs| && forall k :: 0 <= k < |cs| ==> os[k] == Sum(cs[..k])
    ensures os == Offsets(cs)
  {
  }

  /** Entry n of the counts. */
  lemma CountsAt(count: nat, nProc: nat, n: nat)
    requires 1 <= nProc && n < nProc
    ensures Counts(count, nProc)[n] == if n == 0 then count - (nProc - 1) * (count / nProc) else count / nProc
  {
  }

  /** The running sum grows by the next count. */
  lemma SumPrefixStep(cs: seq<int>, n: nat)
    requires 0 < n <= |cs|
    ensures Sum(cs[..n]) == Sum(cs[..n - 1]) + cs[n - 1]
  {
    assert cs[..n][..n - 1] == cs[..n - 1];
  }

  /** How many `int` slots `calloc(proc_count, size)` provides at the root,
      where proc_count is the root's share and size the element size. */
  function SlotsAsWritten(count: nat, nProc: nat, size: nat): (slots: int)
    requires 1 <= nProc
    ensures slots * 4 <= RootCount(count, nProc) * size < slots * 4 + 4
  {
    RootCount(count, nProc) * size / 4
  }

  /** The partition loop writes n_proc slots of each array; with 30 ints on
      10 processes the count is not below 3·n_proc, so the partition branch is
      taken, and the root's share is 3, so only 3 slots are allocated. */
  lemma PartitionOverflowsAllocation()
    ensures !(30 < 3 * 10)
    ensures SlotsAsWritten(30, 10, 4) == 3 < 10
  {
  }

  /** `is_even`, `is_odd` on the non-negative phase and rank. */
  predicate SameParity(a: nat, b: nat)
  {
    (a % 2 == 0 && b % 2 == 0) || (a % 2 == 1 && b % 2 == 1)
  }

  /** The partner of `rank` in phase `phase`: the next rank (clamped to the
      last) when phase and rank have the same parity, the previous one
      (clamped to 0) otherwise. */
  function Neighbor(phase: nat, rank: nat, nProc: nat): (q: int)
    requires rank < nProc
    ensures 0 <= q < nProc
    ensures SameParity(phase, rank) ==> (q == rank + 1 || (q == rank && rank == nProc - 1))
    ensures !SameParity(phase, rank) ==> (q == rank - 1 || (q == rank && rank == 0))
  {
    if SameParity(phase, rank) then (if rank + 1 < nProc - 1 then rank + 1 else nProc - 1)
    else (if rank - 1 > 0 then rank - 1 else 0)
  }

  /** The pairing is mutual: if rank r is paired with q != r, then q is
      paired with r in the same phase. */
  lemma NeighborSymmetric(phase: nat, rank: nat, nProc: nat)
    requires rank < nProc && Neighbor(phase, rank, nProc) != rank
    ensures Neighbor(phase, Neighbor(phase, rank, nProc), nProc) == rank
  {
  }

  /** In each phase one rank of every pair sends first (its partner is
      above it) and the other merges (its partner is below it). */
  lemma NeighborRoles(phase: nat, rank: nat, nProc: nat)
    requires rank < nProc
    ensures var q := Neighbor(phase, rank, nProc);
            q > rank ==> Neighbor(phase, q, nProc) < q
  {
  }

  /** Where the local part of `odd_even_merge_sort` ends: it returns, or the
      distributed exchange follows with this rank's block size and, at the
      root, the scatter counts and offsets. */
  datatype Outcome = Returned(err: Error) | ExchangeFollows(procCount: int, bufCounts: seq<int>, bufOffsets: seq<int>)

  /** The element comparison `compare_type` picks for an integer type. */
  function ElementCompare(t: MpiDatatype): (int, int) -> int
    requires t != MpiFloat && t != MpiDouble && t != MpiOther
  {
    (x: int, y: int) => CompareAsWritten(IntegerType(CompareType(t).value), x, y)
  }

  /** `odd_even_merge_sort(buf, count, type, root, comm)` on one rank, up to
      the scatter. Integer types only; the MPI queries succeed. Only the root
      needs a buffer of count elements: the other ranks never touch theirs
      before the scatter, and pass an empty array where the driver passes NULL. */
  method OddEvenMergeSort(buf: array<int>, count: nat, t: MpiDatatype, isRoot: bool, nProc: nat) returns (outcome: Outcome)
    requires 1 <= nProc && (isRoot ==> count <= buf.Length)
    requires t != MpiFloat && t != MpiDouble
    requires t != MpiOther && isRoot && count < 3 * nProc ==> count < EasyNumberOfElements
    modifies buf
    ensures t == MpiOther ==> outcome == Returned(ErrInvalidType) && buf[..] == old(buf[..])
    ensures t != MpiOther && count < 3 * nProc ==> outcome == Returned(Ok)
    ensures t != MpiOther && count < 3 * nProc && isRoot ==>
              multiset(buf[..count]) == old(multiset(buf[..count])) && buf[count..] == old(buf[count..])
    ensures t != MpiOther && count < 3 * nProc && isRoot && (forall k :: 0 <= k < count ==> 0 <= old(buf[k]) < Modulus(IntegerType(CompareType(t).value)) / 2) ==>
              Sorted(buf[..count], ElementCompare(t))
    ensures t != MpiOther && count < 3 * nProc && !isRoot ==> buf[..] == old(buf[..])
    ensures t != MpiOther && count >= 3 * nProc ==>
              buf[..] == old(buf[..])
              && outcome == ExchangeFollows(if isRoot then RootCount(count, nProc) else count / nProc,
                                            if isRoot then Counts(count, nProc) else [],
                                            if isRoot then Offsets(Counts(count, nProc)) else [])
  {
    var comp := CompareType(t);
    if comp.None? {
      return Returned(ErrInvalidType);
    }
    if count < nProc * 3 {
      if isRoot {
        SortAtRoot(buf, count, t);
      }
      return Returned(Ok);
    }
    var procCount := count / nProc;
    var rootCount := count - (nProc - 1) * procCount;
    procCount := if isRoot then rootCount else procCount;
    if isRoot {
      var bufCounts, bufOffsets := Partition(count, nProc);
      return ExchangeFollows(procCount, bufCounts[..], bufOffsets[..]);
    }
    return ExchangeFollows(procCount, [], []);
  }

  /** `odd_even_sort(buf, count, size, comp)` at the root with the comparator
      `compare_type` picked: a permutation of the first count elements, sorted
      when they are non-negative values of the type. */
  method SortAtRoot(buf: array<int>, count: nat, t: MpiDatatype)
    requires count <= buf.Length && count < EasyNumberOfElements
    requires t != MpiFloat && t != MpiDouble && t != MpiOther
    modifies buf
    ensures multiset(buf[..count]) == old(multiset(buf[..count])) && buf[count..] == old(buf[count..])
    ensures (forall k :: 0 <= k < count ==> 0 <= old(buf[k]) < Modulus(IntegerType(CompareType(t).value)) / 2) ==>
              Sorted(buf[..count], ElementCompare(t))
  {
    ghost var bound := Modulus(IntegerType(CompareType(t).value)) / 2;
    ghost var dom := (x: int) => 0 <= x < bound;
    ElementComparePreorder(t, dom);
    ghost var before := buf[..count];
    OddEvenSort(buf, count, TypeSize(t), ElementCompare(t), dom);
    if forall k :: 0 <= k < count ==> 0 <= before[k] < bound {
      assert AllIn(before, dom);
    }
  }

  /** The comparator `compare_type` picks is a total preorder on the
      non-negative values of the type. */
  lemma ElementComparePreorder(t: MpiDatatype, dom: int -> bool)
    requires t != MpiFloat && t != MpiDouble && t != MpiOther
    requires forall x :: dom(x) <==> 0 <= x < Modulus(IntegerType(CompareType(t).value)) / 2
    ensures PreorderOn(ElementCompare(t), dom)
  {
    CompareAsWrittenPreorderOnNonNegative(IntegerType(CompareType(t).value), ElementCompare(t), dom);
  }
}
