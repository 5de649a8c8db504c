/** The chunked addition the adder is built for, in radix 100: every chunk is
    added twice (carry-in 0 and carry-in 1), the variants are chosen in chunk
    order by the running carry, and the final carry is emitted once. Digits are
    stored least significant first, as the pools hold them. */
module CarryResolution {
  import opened Digits

  const Radix := MaxDigitValue + 1

  predicate IsDigits(ds: seq<int>)
  {
    forall k :: 0 <= k < |ds| ==> 0 <= ds[k] <= MaxDigitValue
  }

  /** 100 to the power n: the weight of the digit at position n, and the
      factor by which a chunk of n digits shifts the chunks above it (see
      ValueAppend and PowAdd). */
  function Pow(n: nat): (p: nat)
    ensures p >= 1
  {
    if n == 0 then 1 else 100 * Pow(n - 1)
  }

  /** The number a digit sequence stands for, least significant digit first. */
  function Value(ds: seq<int>): int
  {
    if ds == [] then 0 else ds[0] + 100 * Value(ds[1..])
  }

  lemma {:induction false} ValueAppend(x: seq<int>, y: seq<int>)
    ensures Value(x + y) == Value(x) + Pow(|x|) * Value(y)
    decreases |x|
  {
    if x == [] {
      assert x + y == y;
    } else {
      assert (x + y)[1..] == x[1..] + y;
      ValueAppend(x[1..], y);
      calc {
        Value(x + y);
        x[0] + 100 * Value(x[1..] + y);
        x[0] + 100 * (Value(x[1..]) + Pow(|x| - 1) * Value(y));
        x[0] + 100 * Value(x[1..]) + 100 * (Pow(|x| - 1) * Value(y));
        { MulAssoc(100, Pow(|x| - 1), Value(y)); }
        Value(x) + Pow(|x|) * Value(y);
      }
    }
  }

  lemma MulAssoc(a: int, b: int, c: int)
    ensures a * (b * c) == (a * b) * c
  {
  }

  /** Digits of one addition and the carry out of its last digit. */
  datatype Variant = Variant(digits: seq<int>, carry: int)

  /** Ripple addition of two equally long digit runs with a carry-in. */
  function AddChunk(a: seq<int>, b: seq<int>, carry: int): (r: Variant)
    requires |a| == |b| && IsDigits(a) && IsDigits(b) && 0 <= carry <= 1
    ensures |r.digits| == |a| && IsDigits(r.digits) && 0 <= r.carry <= 1
    decreases |a|
  {
    if a == [] then Variant([], carry)
    else
      var s := AddDigitsRadix100(a[0], b[0], carry);
      var rest := AddChunk(a[1..], b[1..], s.1);
      Variant([s.0] + rest.digits, rest.carry)
  }

  /** The digits and the carry of a chunk encode exactly the sum of the
      operands and the carry-in. */
  lemma {:induction false} AddChunkValue(a: seq<int>, b: seq<int>, carry: int)
    requires |a| == |b| && IsDigits(a) && IsDigits(b) && 0 <= carry <= 1
    ensures var r := AddChunk(a, b, carry);
      Value(r.digits) + Pow(|a|) * r.carry == Value(a) + Value(b) + carry
    decreases |a|
  {
    if a != [] {
      var s := AddDigitsRadix100(a[0], b[0], carry);
      AddChunkValue(a[1..], b[1..], s.1);
      var rest := AddChunk(a[1..], b[1..], s.1);
      var r := AddChunk(a, b, carry);
      assert r.digits == [s.0] + rest.digits && r.carry == rest.carry;
      assert r.digits[1..] == rest.digits;
      assert Value(r.digits) == s.0 + 100 * Value(rest.digits);
      MulAssoc(100, Pow(|a| - 1), rest.carry);
      assert Pow(|a|) * r.carry == 100 * (Pow(|a| - 1) * rest.carry);
      assert Value(a) == a[0] + 100 * Value(a[1..]);
      assert Value(b) == b[0] + 100 * Value(b[1..]);
    }
  }

  /** What a worker returns for one chunk: both speculative variants. */
  datatype Speculated = Speculated(v0: Variant, v1: Variant)

  /** The operand chunks, pairwise of equal length and made of digits. */
  predicate Chunked(aChunks: seq<seq<int>>, bChunks: seq<seq<int>>)
  {
    |aChunks| == |bChunks| && forall k :: 0 <= k < |aChunks| ==> |aChunks[k]| == |bChunks[k]| && IsDigits(aChunks[k]) && IsDigits(bChunks[k])
  }

  function Speculate(aChunks: seq<seq<int>>, bChunks: seq<seq<int>>): (rs: seq<Speculated>)
    requires Chunked(aChunks, bChunks)
    ensures |rs| == |aChunks|
  {
    seq(|aChunks|, k requires 0 <= k < |aChunks| => Speculated(AddChunk(aChunks[k], bChunks[k], 0), AddChunk(aChunks[k], bChunks[k], 1)))
  }

  function Concat(xs: seq<seq<int>>): seq<int>
  {
    if xs == [] then [] else xs[0] + Concat(xs[1..])
  }

  /** The merge walk: the running carry picks each chunk's variant in order. */
  function Resolve(carry: int, rs: seq<Speculated>): Variant
    decreases |rs|
  {
    if rs == [] then Variant([], carry)
    else
      var v := if carry == 0 then rs[0].v0 else rs[0].v1;
      var rest := Resolve(v.carry, rs[1..]);
      Variant(v.digits + rest.digits, rest.carry)
  }

  /** Resolving the speculated chunks adds the concatenated operands with the
      initial carry. */
  lemma ResolveValue(carry: int, aChunks: seq<seq<int>>, bChunks: seq<seq<int>>)
    requires Chunked(aChunks, bChunks) && 0 <= carry <= 1
    ensures var r := Resolve(carry, Speculate(aChunks, bChunks));
      |r.digits| == |Concat(aChunks)| && 0 <= r.carry <= 1
      && Value(r.digits) + Pow(|Concat(aChunks)|) * r.carry == Value(Concat(aChunks)) + Value(Concat(bChunks)) + carry
  {
    ResolveSpeculated(carry, aChunks, bChunks, Speculate(aChunks, bChunks));
  }

  /** The results of the workers, one per chunk, in chunk order. */
  ghost predicate SpeculatedFrom(rs: seq<Speculated>, aChunks: seq<seq<int>>, bChunks: seq<seq<int>>)
    requires Chunked(aChunks, bChunks)
  {
    |rs| == |aChunks|
    && forall k :: 0 <= k < |rs| ==>
         rs[k] == Speculated(AddChunk(aChunks[k], bChunks[k], 0), AddChunk(aChunks[k], bChunks[k], 1))
  }

  lemma {:induction false} ResolveSpeculated(carry: int, aChunks: seq<seq<int>>, bChunks: seq<seq<int>>, rs: seq<Speculated>)
    requires Chunked(aChunks, bChunks) && 0 <= carry <= 1 && SpeculatedFrom(rs, aChunks, bChunks)
    ensures |Resolve(carry, rs).digits| == |Concat(aChunks)| && 0 <= Resolve(carry, rs).carry <= 1
    ensures Value(Resolve(carry, rs).digits) + Pow(|Concat(aChunks)|) * Resolve(carry, rs).carry
         == Value(Concat(aChunks)) + Value(Concat(bChunks)) + carry
    decreases |aChunks|
  {
    if aChunks != [] {
      var a0, b0 := aChunks[0], bChunks[0];
      var aTail, bTail := aChunks[1..], bChunks[1..];
      var v := AddChunk(a0, b0, carry);
      assert Chunked(aTail, bTail) && SpeculatedFrom(rs[1..], aTail, bTail);
      ResolveSpeculated(v.carry, aTail, bTail, rs[1..]);
      var rest := Resolve(v.carry, rs[1..]);
      var r := Resolve(carry, rs);
      assert rs[0] == Speculated(AddChunk(a0, b0, 0), AddChunk(a0, b0, 1));
      if carry == 0 {
        assert v == rs[0].v0;
      } else {
        assert carry == 1 && v == rs[0].v1;
      }
      assert r == Variant(v.digits + rest.digits, rest.carry);
      AddChunkValue(a0, b0, carry);
      ValueAppend(v.digits, rest.digits);
      ConcatValue(aChunks);
      ConcatValue(bChunks);
      var n0, n1 := |a0|, |Concat(aTail)|;
      PowAdd(n0, n1);
      ConcatLengths(aTail, bTail);
      assert |b0| == n0 && |v.digits| == n0;
      var p, q := Pow(n0), Pow(n1);
      Combine(p, q, Value(v.digits), v.carry, Value(rest.digits), rest.carry,
        Value(a0) + Value(b0) + carry, Value(Concat(aTail)), Value(Concat(bTail)));
      Regroup(Value(r.digits), Pow(|Concat(aChunks)|), r.carry, Value(Concat(aChunks)), Value(Concat(bChunks)), carry,
        p, q, Value(v.digits), Value(rest.digits), Value(a0), Value(b0), Value(Concat(aTail)), Value(Concat(bTail)));
    }
  }

  /** The arithmetic step of ResolveValue: a low part worth `low` with carry
      `vc`, followed by a high part of weight P that absorbs that carry. */
  lemma Combine(p: int, q: int, vd: int, vc: int, rd: int, rc: int, low: int, ha: int, hb: int)
    requires vd + p * vc == low
    requires rd + q * rc == ha + hb + vc
    ensures vd + p * rd + (p * q) * rc == low + p * ha + p * hb
  {
    calc {
      vd + p * rd + (p * q) * rc;
      { MulAssoc(p, q, rc); }
      vd + p * rd + p * (q * rc);
      vd + p * (rd + q * rc);
      vd + p * (ha + hb + vc);
      vd + p * vc + p * ha + p * hb;
    }
  }

  /** The value of a concatenation of chunks: the first chunk, then the
      rest weighted by the first chunk's length. */
  lemma ConcatValue(xs: seq<seq<int>>)
    requires xs != []
    ensures |Concat(xs)| == |xs[0]| + |Concat(xs[1..])|
    ensures Value(Concat(xs)) == Value(xs[0]) + Pow(|xs[0]|) * Value(Concat(xs[1..]))
  {
    ValueAppend(xs[0], Concat(xs[1..]));
  }

  /** The goal of ResolveValue once every part is named. */
  lemma Regroup(vr: int, pt: int, rc: int, va: int, vb: int, carry: int,
                p: int, q: int, vd: int, rd: int, a0: int, b0: int, ha: int, hb: int)
    requires vr == vd + p * rd && pt == p * q
    requires va == a0 + p * ha && vb == b0 + p * hb
    requires vd + p * rd + (p * q) * rc == a0 + b0 + carry + p * ha + p * hb
    ensures vr + pt * rc == va + vb + carry
  {
  }

  lemma {:induction false} PowAdd(m: nat, n: nat)
    ensures Pow(m + n) == Pow(m) * Pow(n)
    decreases m
  {
    if m > 0 {
      PowAdd(m - 1, n);
    }
  }

  lemma {:induction false} ConcatLengths(aChunks: seq<seq<int>>, bChunks: seq<seq<int>>)
    requires Chunked(aChunks, bChunks)
    ensures |Concat(aChunks)| == |Concat(bChunks)|
    decreases |aChunks|
  {
    if aChunks != [] {
      assert Chunked(aChunks[1..], bChunks[1..]);
      ConcatLengths(aChunks[1..], bChunks[1..]);
    }
  }

  /** The whole sum: the merge walk from carry 0, then the final carry once. */
  function AddChunked(aChunks: seq<seq<int>>, bChunks: seq<seq<int>>): seq<int>
    requires Chunked(aChunks, bChunks)
  {
    var r := Resolve(0, Speculate(aChunks, bChunks));
    r.digits + [r.carry]
  }

  /** The chunked sum is the sum of the two numbers, one digit longer than the
      operands, however the digits are cut into chunks. */
  lemma AddChunkedCorrect(aChunks: seq<seq<int>>, bChunks: seq<seq<int>>)
    requires Chunked(aChunks, bChunks)
    ensures IsDigitsSum(AddChunked(aChunks, bChunks), |Concat(aChunks)| + 1)
    ensures Value(AddChunked(aChunks, bChunks)) == Value(Concat(aChunks)) + Value(Concat(bChunks))
  {
    ResolveValue(0, aChunks, bChunks);
    var r := Resolve(0, Speculate(aChunks, bChunks));
    ValueAppend(r.digits, [r.carry]);
    assert [r.carry][1..] == [];
    assert Value([r.carry]) == r.carry;
    ResolveDigits(0, aChunks, bChunks);
    var sum := r.digits + [r.carry];
    assert sum == AddChunked(aChunks, bChunks);
    assert forall k :: 0 <= k < |sum| ==> 0 <= sum[k] <= MaxDigitValue by {
      forall k | 0 <= k < |sum| ensures 0 <= sum[k] <= MaxDigitValue {
        if k < |r.digits| { assert sum[k] == r.digits[k]; }
      }
    }
  }

  /** Every digit of the resolved sum is a radix-100 digit. */
  lemma {:induction false} ResolveDigits(carry: int, aChunks: seq<seq<int>>, bChunks: seq<seq<int>>)
    requires Chunked(aChunks, bChunks) && 0 <= carry <= 1
    ensures IsDigits(Resolve(carry, Speculate(aChunks, bChunks)).digits)
    decreases |aChunks|
  {
    if aChunks != [] {
      var rs := Speculate(aChunks, bChunks);
      var v := if carry == 0 then rs[0].v0 else rs[0].v1;
      assert Chunked(aChunks[1..], bChunks[1..]);
      assert rs[1..] == Speculate(aChunks[1..], bChunks[1..]);
      ResolveDigits(v.carry, aChunks[1..], bChunks[1..]);
    }
  }

  predicate IsDigitsSum(ds: seq<int>, n: nat)
  {
    |ds| == n && IsDigits(ds)
  }

  /** 23 + 77 in one chunk: digit 0 and the carry 1, that is 100. */
  lemma TwentyThreePlusSeventySeven()
    ensures AddChunked([[23]], [[77]]) == [0, 1]
  {
    assert Speculate([[23]], [[77]])[0] == Speculated(Variant([0], 1), Variant([1], 1));
  }

  /** 99 + 1 in the low chunk selects the carry-1 variant of the high chunk,
      and the carry appears once at the end. */
  lemma CarryIntoSecondChunk()
    ensures AddChunked([[99], [0]], [[1], [0]]) == [0, 1, 0]
  {
    var rs := Speculate([[99], [0]], [[1], [0]]);
    assert rs[0] == Speculated(Variant([0], 1), Variant([1], 1));
    assert rs[1] == Speculated(Variant([0], 0), Variant([1], 0));
    assert rs[1..][1..] == [];
  }
}
