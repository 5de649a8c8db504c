/** The fixed-capacity FIFO of digits (`digits_pool_t`) with its two cursors. */
module DigitPools {
  import opened Digits

  const DigitsPerPool := 1024

  /** The part of `s` that fits in a pool: pushes beyond the capacity are dropped. */
  function Clip(s: seq<Digit>): (r: seq<Digit>)
    ensures |r| == if |s| <= DigitsPerPool then |s| else DigitsPerPool
    ensures r == s[..|r|]
  {
    if |s| <= DigitsPerPool then s else s[..DigitsPerPool]
  }

  /** Clipping after each of two pushes is the same as clipping once. */
  lemma ClipAppend(x: seq<Digit>, y: seq<Digit>)
    ensures Clip(Clip(x) + y) == Clip(x + y)
  {
    if |x| > DigitsPerPool {
      assert (x + y)[..DigitsPerPool] == x[..DigitsPerPool];
      assert (x[..DigitsPerPool] + y)[..DigitsPerPool] == x[..DigitsPerPool];
    }
  }

  function Max0(n: int): nat { if n < 0 then 0 else n }

  function Min(x: int, y: int): int { if x < y then x else y }

  class DigitPool {
    const storage: array<Digit>
    var nPopped: int
    var nPushed: int

    /** popped <= pushed <= capacity. */
    ghost predicate Valid()
      reads this
    {
      storage.Length == DigitsPerPool && 0 <= nPopped <= nPushed <= DigitsPerPool
    }

    /** Every digit pushed since the last clear, in push order. */
    ghost function Pushed(): seq<Digit>
      reads this, storage
      requires Valid()
    {
      storage[..nPushed]
    }

    /** The digits still waiting to be popped, oldest first. */
    ghost function Contents(): seq<Digit>
      reads this, storage
      requires Valid()
    {
      storage[nPopped..nPushed]
    }

    /** `new_digits_pool`: zeroed storage, both cursors at 0. */
    constructor ()
      ensures Valid() && fresh(storage)
      ensures nPopped == 0 && nPushed == 0
      ensures forall k :: 0 <= k < DigitsPerPool ==> storage[k] == 0
    {
      storage := new Digit[DigitsPerPool](_ => 0);
      nPopped, nPushed := 0, 0;
    }

    /** `pool_is_empty`: nothing is left to pop. */
    predicate IsEmpty(): (r: bool)
      reads this, storage
      requires Valid()
      ensures r <==> Contents() == []
    {
      nPopped == nPushed
    }

    /** `pool_is_full`: the push cursor has reached the capacity, so every further
        push is dropped. */
    predicate IsFull(): (r: bool)
      reads this, storage
      requires Valid()
      ensures r <==> |Pushed()| == DigitsPerPool
      ensures r ==> forall s: seq<Digit> :: Clip(Pushed() + s) == Pushed()
    {
      nPushed == DigitsPerPool
    }

    /** `push_digits`: appends the first n digits of `src` as far as they fit,
        returns how many were appended and moves only the push cursor. */
    method Push(src: seq<Digit>, n: int) returns (count: int)
      requires Valid() && n <= |src|
      modifies this`nPushed, storage
      ensures Valid() && nPopped == old(nPopped)
      ensures count == Min(Max0(n), DigitsPerPool - old(nPushed))
      ensures nPushed == old(nPushed) + count
      ensures Pushed() == Clip(old(Pushed()) + src[..Max0(n)])
      ensures Contents() == old(Contents()) + src[..count]
      ensures forall k :: nPushed <= k < DigitsPerPool ==> storage[k] == old(storage[k])
    {
      count := 0;
      while count < n && nPushed < DigitsPerPool
        invariant Valid() && nPopped == old(nPopped)
        invariant 0 <= count <= Max0(n)
        invariant nPushed == old(nPushed) + count
        invariant storage[..nPushed] == old(storage[..nPushed]) + src[..count]
        invariant forall k :: nPushed <= k < DigitsPerPool ==> storage[k] == old(storage[k])
      {
        storage[nPushed] := src[count];
        nPushed := nPushed + 1;
        count := count + 1;
      }
      assert src[..Max0(n)][..count] == src[..count];
      if count < Max0(n) {
        assert (old(Pushed()) + src[..Max0(n)])[..DigitsPerPool] == old(Pushed()) + src[..count];
      }
      assert storage[nPopped..nPushed] == (storage[..nPushed])[nPopped..];
      assert old(storage[nPopped..nPushed]) == old(storage[..nPushed])[nPopped..];
    }

    /** `pop_digits`: moves up to n of the oldest digits into `dst`, returns how
        many and moves only the pop cursor. */
    method Pop(dst: array<Digit>, n: int) returns (count: int)
      requires Valid() && dst != storage && n <= dst.Length
      modifies this`nPopped, dst
      ensures Valid() && nPushed == old(nPushed)
      ensures count == Min(Max0(n), old(nPushed - nPopped))
      ensures nPopped == old(nPopped) + count
      ensures dst[..count] == old(Contents())[..count]
      ensures dst[count..] == old(dst[count..])
      ensures Contents() == old(Contents())[count..]
    {
      count := 0;
      while count < n && nPopped < nPushed
        invariant Valid() && nPushed == old(nPushed)
        invariant 0 <= count <= Max0(n)
        invariant nPopped == old(nPopped) + count
        invariant dst[..count] == old(Contents())[..count]
        invariant dst[count..] == old(dst[count..])
      {
        dst[count] := storage[nPopped];
        nPopped := nPopped + 1;
        count := count + 1;
      }
    }

    /** `___clear_digits`: resets both cursors; the stored digits stay in place. */
    method Clear()
      requires Valid()
      modifies this`nPopped, this`nPushed
      ensures Valid() && nPopped == 0 && nPushed == 0
      ensures Contents() == [] && Pushed() == []
    {
      nPopped, nPushed := 0, 0;
    }
  }
}
