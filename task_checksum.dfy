/** The token passed around the ring of processes: a `Task` struct holding
    a text to print, a done flag and a checksum over the bytes before the
    checksum. The struct is modelled as its first 260 bytes (`print[256]`,
    `done`, three bytes of padding) plus the stored 32-bit checksum. */
module TaskChecksums {
  import opened Decimal

  const PrintLen := 256
  const DoneOffset := 256
  /** `sizeof(Task) - sizeof(int)`: the bytes the checksum covers. */
  const ChecksummedLen := 260
  const Seed: bv32 := 0x400

  /** `(int)` of a `char` byte: sign extension from 8 to 32 bits. */
  function SignExtend(b: bv8): bv32
  {
    if b < 0x80 then b as bv32 else (b as bv32) | 0xFFFF_FF00
  }

  /** The extension keeps the byte in its low 8 bits and copies its top bit
      into the upper 24, so different bytes stay different. */
  lemma SignExtendKeepsByte(x: bv8, y: bv8)
    ensures SignExtend(x) & 0xFF == x as bv32
    ensures x < 0x80 <==> SignExtend(x) < 0x80
    ensures x != y ==> SignExtend(x) != SignExtend(y)
  {
    assert (x as bv32) & 0xFF == x as bv32;
    assert (y as bv32) & 0xFF == y as bv32;
  }

  /** The covered bytes as the loop reads them: each one widened to `int`. */
  function Extend(s: seq<bv8>): (ws: seq<bv32>)
    ensures |ws| == |s|
  {
    seq(|s|, k requires 0 <= k < |s| => SignExtend(s[k]))
  }

  /** `c op ws[0] op ... op ws[n - 1]`, folded from the left. */
  function Fold<T>(op: (T, T) -> T, c: T, ws: seq<T>, n: nat): T
    requires n <= |ws|
  {
    if n == 0 then c else op(Fold(op, c, ws, n - 1), ws[n - 1])
  }

  function Xor(a: bv32, b: bv32): bv32
  {
    a ^ b
  }

  /** `cs = 1 << 10` folded with `cs ^= (int)b[i]` over the bytes. */
  function ChecksumOf(s: seq<bv8>): bv32
  {
    Fold(Xor, Seed, Extend(s), |s|)
  }

  /** The two laws of XOR the argument needs: the words folded in can be
      reordered, and folding a word twice undoes it. */
  ghost predicate RightCommutative<T(!new)>(op: (T, T) -> T)
  {
    forall a, x, y :: op(op(a, x), y) == op(op(a, y), x)
  }

  ghost predicate SelfCancelling<T(!new)>(op: (T, T) -> T)
  {
    forall a, x :: op(op(a, x), x) == a
  }

  lemma XorLaws()
    ensures RightCommutative(Xor) && SelfCancelling(Xor)
  {
    XorRightCommutative();
    XorSelfCancelling();
  }

  lemma XorRightCommutative()
    ensures RightCommutative(Xor)
  {
    forall a: bv32, x: bv32, y: bv32
      ensures Xor(Xor(a, x), y) == Xor(Xor(a, y), x)
    {
      XorReorder(a, x, y);
    }
  }

  lemma XorSelfCancelling()
    ensures SelfCancelling(Xor)
  {
    forall a: bv32, x: bv32
      ensures Xor(Xor(a, x), x) == a
    {
      XorTwice(a, x);
    }
  }

  /** One round of `cs ^= (int)b[i]`. */
  method ChecksumRound(ghost ws: seq<bv32>, i: nat, cs: bv32, b: bv8) returns (next: bv32)
    requires i < |ws| && ws[i] == SignExtend(b) && cs == Fold(Xor, Seed, ws, i)
    ensures next == Fold(Xor, Seed, ws, i + 1)
  {
    next := cs ^ SignExtend(b);
  }

  lemma XorReorder(a: bv32, x: bv32, y: bv32)
    ensures (a ^ x) ^ y == (a ^ y) ^ x
  {
  }

  lemma XorTwice(a: bv32, x: bv32)
    ensures (a ^ x) ^ x == a
  {
  }

  /** The fold reads only the first n words. */
  lemma {:induction false} FoldAgree<T>(op: (T, T) -> T, c: T, ws: seq<T>, vs: seq<T>, n: nat)
    requires n <= |ws| && n <= |vs|
    requires forall k :: 0 <= k < n ==> ws[k] == vs[k]
    ensures Fold(op, c, ws, n) == Fold(op, c, vs, n)
  {
    if n > 0 {
      FoldAgree(op, c, ws, vs, n - 1);
    }
  }

  /** Replacing one word of the fold by w changes the result by folding in
      the old word (which cancels it) and then w. */
  lemma {:induction false} FoldUpdate<T(!new)>(op: (T, T) -> T, c: T, ws: seq<T>, i: nat, w: T, n: nat)
    requires RightCommutative(op) && SelfCancelling(op)
    requires i < n <= |ws|
    ensures Fold(op, c, ws[i := w], n) == op(op(Fold(op, c, ws, n), ws[i]), w)
  {
    var vs := ws[i := w];
    var prev := Fold(op, c, ws, n - 1);
    if n == i + 1 {
      FoldAgree(op, c, ws, vs, i);
      assert op(op(prev, ws[i]), ws[i]) == prev;
    } else {
      FoldUpdate(op, c, ws, i, w, n - 1);
      assert vs[n - 1] == ws[n - 1];
      assert op(op(op(prev, ws[i]), w), ws[n - 1]) == op(op(op(prev, ws[i]), ws[n - 1]), w);
      assert op(op(prev, ws[i]), ws[n - 1]) == op(op(prev, ws[n - 1]), ws[i]);
    }
  }

  lemma XorCancel(c: bv32, x: bv32, y: bv32)
    requires x != y
    ensures c ^ x ^ y != c
  {
  }

  /** Changing any single byte without recomputing the checksum is
      detected. */
  lemma OneByteChangeDetected(s: seq<bv8>, i: int, b: bv8)
    requires 0 <= i < |s| && b != s[i]
    ensures ChecksumOf(s[i := b]) != ChecksumOf(s)
  {
    var ws := Extend(s);
    assert Extend(s[i := b]) == ws[i := SignExtend(b)];
    XorLaws();
    FoldUpdate(Xor, Seed, ws, i, SignExtend(b), |s|);
    SignExtendKeepsByte(s[i], b);
    XorCancel(ChecksumOf(s), ws[i], SignExtend(b));
  }

  /** Two changes can cancel: swapping two different bytes is not
      detected. */
  lemma SwapUndetected()
    ensures ChecksumOf([0x31, 0x32]) == ChecksumOf([0x32, 0x31])
  {
    var one, two := Extend([0x31, 0x32]), Extend([0x32, 0x31]);
    assert one[0] == two[1] == 0x31 && one[1] == two[0] == 0x32;
    assert Fold(Xor, Seed, one, 2) == (Seed ^ 0x31) ^ 0x32;
    assert Fold(Xor, Seed, two, 2) == (Seed ^ 0x32) ^ 0x31;
  }

  /** The byte of an ASCII character. */
  function Byte(c: char): bv8
    requires c as int < 256
  {
    (c as int) as bv8
  }

  /** The bytes `sprintf(print, "%d\n", rank)` writes, NUL included. */
  function RankText(rank: nat): (s: seq<bv8>)
    ensures |s| == |DecimalText(rank)| + 2 && s[|s| - 1] == 0
    ensures forall k :: 0 <= k < |s| - 1 ==> s[k] != 0
  {
    var text := DecimalText(rank);
    seq(|text|, k requires 0 <= k < |text| => Byte(text[k])) + [Byte('\n'), 0]
  }

  /** `strlen` of a buffer that holds a NUL. */
  function Strlen(s: seq<bv8>): (n: nat)
    requires 0 in s
    ensures n < |s| && s[n] == 0
    ensures forall k :: 0 <= k < n ==> s[k] != 0
  {
    if s[0] == 0 then 0 else 1 + Strlen(s[1..])
  }

  class Task {
    /** `print`, `done` and the padding, as bytes. */
    var bytes: array<bv8>
    var checksum: bv32

    ghost predicate Valid()
      reads this
    {
      bytes.Length == ChecksummedLen
    }

    /** The zeroed buffer the ring's processes start from. */
    constructor ()
      ensures Valid() && fresh(bytes)
      ensures bytes[..] == seq(ChecksummedLen, _ => 0) && checksum == 0
    {
      bytes := new bv8[ChecksummedLen](_ => 0);
      checksum := 0;
    }

    /** `CalcTaskChecksum`: folds every covered byte, and only those, into
        the seed; the stored checksum plays no part. */
    method CalcTaskChecksum() returns (cs: bv32)
      requires Valid()
      ensures cs == ChecksumOf(bytes[..])
    {
      ghost var ws := Extend(bytes[..]);
      cs := Seed;
      var i := 0;
      while i < ChecksummedLen
        invariant 0 <= i <= ChecksummedLen
        invariant cs == Fold(Xor, Seed, ws, i)
      {
        cs := ChecksumRound(ws, i, cs, bytes[i]);
        i := i + 1;
      }
    }

    /** The stored checksum matches the bytes. */
    ghost predicate Consistent()
      reads this, bytes
    {
      checksum == ChecksumOf(bytes[..])
    }

    /** `TaskIsOK`: the stored checksum equals the recomputed one. */
    method TaskIsOK() returns (ok: bool)
      requires Valid()
      ensures ok <==> Consistent()
    {
      var got := CalcTaskChecksum();
      ok := got == checksum;
    }

    /** `InitTask(t, rank)`: prints the rank and a newline (with its NUL)
        at the start of `print`, clears `done`, refreshes the checksum. The
        text of an `int` rank always fits in `print`. */
    method InitTask(rank: nat)
      requires Valid() && rank < 0x8000_0000
      modifies this, bytes
      ensures Valid() && bytes == old(bytes) && Consistent()
      ensures |RankText(rank)| < PrintLen
      ensures bytes[..] == RankText(rank) + old(bytes[|RankText(rank)|..DoneOffset]) + [0] + old(bytes[DoneOffset + 1..])
    {
      DecimalTextLength(rank, 10, Pow10(10));
      var text := RankText(rank);
      ghost var orig := bytes[..];
      WriteText(text);
      bytes[DoneOffset] := 0;
      ghost var expected := text + orig[|text|..DoneOffset] + [0] + orig[DoneOffset + 1..];
      assert |expected| == ChecksummedLen;
      forall i | 0 <= i < ChecksummedLen
        ensures bytes[i] == expected[i]
      {
        if i < |text| {
          assert bytes[i] == text[i];
        } else if i != DoneOffset {
          assert bytes[i] == orig[i];
        }
      }
      assert bytes[..] == expected;
      checksum := CalcTaskChecksum();
    }

    /** `sprintf` into `print`. */
    method WriteText(text: seq<bv8>)
      requires Valid() && |text| < PrintLen
      modifies bytes
      ensures bytes[..] == text + old(bytes[|text|..])
    {
      ghost var orig := bytes[..];
      var k := 0;
      while k < |text|
        invariant 0 <= k <= |text|
        invariant forall i :: 0 <= i < k ==> bytes[i] == text[i]
        invariant forall i :: k <= i < bytes.Length ==> bytes[i] == orig[i]
      {
        bytes[k] := text[k];
        k := k + 1;
      }
      assert bytes[..] == text + orig[|text|..];
    }

    /** `DoTask(t)` after `write` returned `written`: `done` records
        whether the whole text was written, and the checksum is refreshed,
        so the task is consistent whatever `write` returned. */
    method DoTask(written: int)
      requires Valid() && 0 in bytes[..PrintLen]
      modifies this, bytes
      ensures Valid() && bytes == old(bytes) && Consistent()
      ensures bytes[..] == old(bytes[..])[DoneOffset := if written == Strlen(old(bytes[..PrintLen])) then 1 else 0]
    {
      var expected := Strlen(bytes[..PrintLen]);
      bytes[DoneOffset] := if written == expected then 1 else 0;
      checksum := CalcTaskChecksum();
    }
  }

  /** The bytes of a zeroed task after `InitTask(t, rank)`. */
  function InitialBytes(rank: nat): (s: seq<bv8>)
    requires |RankText(rank)| < PrintLen
    ensures |s| == ChecksummedLen
  {
    RankText(rank) + seq(ChecksummedLen - |RankText(rank)|, _ => 0)
  }

  /** A process of the ring: a zeroed task is initialised for `rank`; the
      receiver's `TaskIsOK` accepts it, and after byte i is overwritten with
      b it accepts it exactly when b is the byte that was there. */
  method InitThenCheck(rank: nat, i: int, b: bv8) returns (freshOk: bool, corruptedOk: bool)
    requires rank < 0x8000_0000 && 0 <= i < ChecksummedLen
    ensures |RankText(rank)| < PrintLen
    ensures freshOk
    ensures corruptedOk <==> b == InitialBytes(rank)[i]
  {
    var t := new Task();
    t.InitTask(rank);
    assert t.bytes[..] == InitialBytes(rank);
    freshOk := t.TaskIsOK();
    ghost var before := t.bytes[..];
    t.bytes[i] := b;
    assert t.bytes[..] == before[i := b];
    if b != before[i] {
      OneByteChangeDetected(before, i, b);
    }
    corruptedOk := t.TaskIsOK();
  }
}
