/** Digits of the chunked big-number adder and the pairwise digit adder
    `add_digits`, modelled as written: the sum is truncated to an unsigned
    char, the carry test is `> 99` and the reduction is modulo 99. */
module Digits {

  /** digit_t is an unsigned char: every stored digit is in [0, 256). */
  type Digit = x: int | 0 <= x < 256

  const MaxDigitValue := 99
  const CharsPerDigit := 2

  /** The C conversion of an int to digit_t (wrap-around modulo 2^8). */
  function ToDigit(x: int): (d: Digit)
    ensures 0 <= x < 256 ==> d == x
    ensures (d - x) % 256 == 0
  {
    x % 256
  }

  /** The value `add_digits` returns and the carry it stores through its pointer. */
  datatype Added = Added(digit: Digit, transfer: Digit)

  /** `add_digits(a, b, &t)`: the sum is stored in a digit_t, the carry is set
      when that sum exceeds 99 and the returned digit is the sum modulo 99. */
  function AddDigits(a: Digit, b: Digit): (r: Added)
    ensures r.digit <= MaxDigitValue - 1
    ensures r.transfer <= 1
    ensures a + b < 256 ==> (r.transfer == 1 <==> a + b > MaxDigitValue)
    ensures a + b < 256 ==> r.digit == (a + b) % MaxDigitValue
  {
    var sum := ToDigit(a + b);
    Added(sum % MaxDigitValue, if sum > MaxDigitValue then 1 else 0)
  }

  /** Below the modulus the adder is exact: no carry and the plain sum. */
  lemma AddDigitsExactBelowModulus(a: Digit, b: Digit)
    requires a + b <= MaxDigitValue - 1
    ensures AddDigits(a, b) == Added(a + b, 0)
  {
  }

  /** The sum is stored in a digit_t before anything else, so from 256 on it
      wraps: 200 + 100 is taken as 44, which neither carries nor reads as 300. */
  lemma AddDigitsWrapsAbove255()
    ensures AddDigits(200, 100) == Added(44, 0)
  {
  }

  /** A sum of exactly 99 is a valid two-character digit, yet the adder turns it
      into 0 with no carry: the digit's value is lost. */
  lemma AddDigitsDropsNinetyNine()
    ensures AddDigits(99, 0) == Added(0, 0)
    ensures AddDigits(99, 0).digit + 100 * AddDigits(99, 0).transfer != 99 + 0
  {
  }

  /** 23 + 77 = 100 should give digit 0 and carry 1 in radix 100; as written it
      gives digit 1 and carry 1, which reads as 101. */
  lemma AddDigitsTwentyThreePlusSeventySeven()
    ensures AddDigits(23, 77) == Added(1, 1)
    ensures AddDigits(23, 77).digit + 100 * AddDigits(23, 77).transfer == 101
  {
  }

  /** The radix-100 adder the two-character digit format calls for: digit and
      carry encode exactly the sum of two digits and an incoming carry. */
  function AddDigitsRadix100(a: int, b: int, carry: int): (r: (int, int))
    requires 0 <= a <= MaxDigitValue && 0 <= b <= MaxDigitValue && 0 <= carry <= 1
    ensures 0 <= r.0 <= MaxDigitValue && 0 <= r.1 <= 1
    ensures r.0 + (MaxDigitValue + 1) * r.1 == a + b + carry
  {
    var sum := a + b + carry;
    (sum % (MaxDigitValue + 1), sum / (MaxDigitValue + 1))
  }
}
