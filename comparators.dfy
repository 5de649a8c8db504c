/** The `compare_T` sign functions: the difference x - y is computed and
    stored in the element type T, then its sign is returned. Integer types
    only; char is taken as signed and every type wraps in two's complement. */
module Comparators {
  import opened Sorting

  datatype CType = Char | Short | Int | Long

  /** 2^bits of the type (char 8, short 16, int 32, long 64 bits). */
  function Modulus(t: CType): (m: int)
    ensures m >= 256 && m % 2 == 0
  {
    match t
    case Char => 0x100
    case Short => 0x1_0000
    case Int => 0x1_0000_0000
    case Long => 0x1_0000_0000_0000_0000
  }

  predicate InRange(t: CType, x: int)
  {
    -Modulus(t) / 2 <= x < Modulus(t) / 2
  }

  /** Conversion of an integer into T: the value congruent to x modulo 2^bits
      in T's range. */
  function Wrap(t: CType, x: int): (r: int)
    ensures InRange(t, r)
    ensures r % Modulus(t) == x % Modulus(t)
    ensures InRange(t, x) ==> r == x
  {
    var m := Modulus(t);
    WrapMod(m, x);
    var u := x % m;
    if u >= m / 2 then u - m else u
  }

  /** The arithmetic behind Wrap, for each type's modulus m. */
  lemma WrapMod(m: int, x: int)
    requires m == 0x100 || m == 0x1_0000 || m == 0x1_0000_0000 || m == 0x1_0000_0000_0000_0000
    ensures var u := x % m; var r := if u >= m / 2 then u - m else u;
      && -m / 2 <= r < m / 2 && r % m == x % m && (-m / 2 <= x < m / 2 ==> r == x)
  {
  }

  /** `(z > 0) - (z < 0)`. */
  function Sign(z: int): (r: int)
    ensures -1 <= r <= 1
    ensures r < 0 <==> z < 0
    ensures r == 0 <==> z == 0
  {
    (if z > 0 then 1 else 0) - (if z < 0 then 1 else 0)
  }

  /** `compare_T` as written: the sign of x - y after conversion into T. */
  function CompareAsWritten(t: CType, x: int, y: int): (r: int)
    ensures -1 <= r <= 1
    ensures r == 0 <==> Wrap(t, x) == Wrap(t, y)
  {
    Sign(Wrap(t, Wrap(t, x) - Wrap(t, y)))
  }

  /** The intended comparison: the sign of the exact difference. */
  function Compare(x: int, y: int): (r: int)
    ensures -1 <= r <= 1
    ensures r <= 0 <==> x <= y
    ensures r == 0 <==> x == y
  {
    Sign(x - y)
  }

  /** When the difference of two values of T fits in T, `compare_T` is the
      exact comparison. */
  lemma CompareAsWrittenExact(t: CType, x: int, y: int)
    requires InRange(t, x) && InRange(t, y) && InRange(t, x - y)
    ensures CompareAsWritten(t, x, y) == Compare(x, y)
  {
  }

  /** Non-negative values of T never overflow the difference, so on them
      `compare_T` is the exact comparison. */
  lemma CompareAsWrittenOnNonNegative(t: CType, x: int, y: int)
    requires 0 <= x < Modulus(t) / 2 && 0 <= y < Modulus(t) / 2
    ensures CompareAsWritten(t, x, y) == Compare(x, y)
  {
    CompareAsWrittenExact(t, x, y);
  }

  /** `compare_char` is not a valid ordering: -100 before 0 before 100, but
      100 - (-100) = 200 wraps to -56, so -100 comes after 100. */
  lemma CompareCharNotTransitive()
    ensures CompareAsWritten(Char, -100, 0) == -1
    ensures CompareAsWritten(Char, 0, 100) == -1
    ensures CompareAsWritten(Char, -100, 100) == 1
    ensures !PreorderOn((x: int, y: int) => CompareAsWritten(Char, x, y), (x: int) => InRange(Char, x))
  {
    var cmp := (x: int, y: int) => CompareAsWritten(Char, x, y);
    assert Wrap(Char, -200) == 56;
    assert cmp(-100, 0) <= 0 && cmp(0, 100) <= 0 && cmp(-100, 100) > 0;
  }

  /** The same overflow for `compare_int` on values far apart, under the
      two's-complement wrap this model takes for signed overflow. */
  lemma CompareIntOverflows()
    ensures CompareAsWritten(Int, -2000000000, 2000000000) == 1
  {
    assert Wrap(Int, -4000000000) == 294967296;
  }

  /** The exact comparison is a total preorder on all integers. */
  lemma CompareIsPreorder()
    ensures PreorderOn(Compare, (x: int) => true)
  {
  }

  /** `compare_T` is a total preorder on the non-negative values of T, the
      values the drivers generate. */
  lemma CompareAsWrittenPreorderOnNonNegative(t: CType, cmp: (int, int) -> int, dom: int -> bool)
    requires forall x: int, y: int :: cmp(x, y) == CompareAsWritten(t, x, y)
    requires forall x: int :: dom(x) <==> 0 <= x < Modulus(t) / 2
    ensures PreorderOn(cmp, dom)
  {
    forall x: int, y: int | dom(x) && dom(y)
      ensures cmp(x, y) == Compare(x, y)
    {
      CompareAsWrittenOnNonNegative(t, x, y);
    }
  }
}
