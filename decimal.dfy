/** Decimal text as the C library writes it with `%d` and reads it with
    `strtol(…, 10)`, shared by the digit files and the checksum task. */
module Decimal {

  predicate IsDecimal(c: char)
  {
    '0' <= c <= '9'
  }

  /** The characters `isspace` accepts in the C locale. */
  predicate IsSpace(c: char)
  {
    c == ' ' || 9 <= c as int <= 13
  }

  function DigitChar(d: int): (c: char)
    requires 0 <= d < 10
    ensures IsDecimal(c) && CharValue(c) == d
  {
    ('0' as int + d) as char
  }

  function CharValue(c: char): (d: int)
    requires IsDecimal(c)
    ensures 0 <= d < 10
  {
    c as int - '0' as int
  }

  /** The value of a string of decimal characters, most significant first. */
  function DecimalValue(s: seq<char>): nat
    requires forall k :: 0 <= k < |s| ==> IsDecimal(s[k])
  {
    if s == [] then 0 else DecimalValue(s[..|s| - 1]) * 10 + CharValue(s[|s| - 1])
  }

  /** `sprintf("%d", n)` for a non-negative n. */
  function DecimalText(n: nat): (s: seq<char>)
    ensures 1 <= |s|
    ensures forall k :: 0 <= k < |s| ==> IsDecimal(s[k])
  {
    if n < 10 then [DigitChar(n)] else DecimalText(n / 10) + [DigitChar(n % 10)]
  }

  /** Reading back what `%d` wrote gives the number. */
  lemma {:induction false} DecimalTextValue(n: nat)
    ensures DecimalValue(DecimalText(n)) == n
  {
    if n >= 10 {
      DecimalTextValue(n / 10);
      var s := DecimalText(n);
      assert s[..|s| - 1] == DecimalText(n / 10);
    }
  }

  /** One or two characters below 100. */
  lemma DecimalTextBelowHundred(n: nat)
    requires n < 100
    ensures n < 10 ==> DecimalText(n) == [DigitChar(n)]
    ensures n >= 10 ==> DecimalText(n) == [DigitChar(n / 10), DigitChar(n % 10)]
  {
  }

  /** A decimal character is the character of its value. */
  lemma CharOfValue(c: char)
    requires IsDecimal(c)
    ensures DigitChar(CharValue(c)) == c
  {
  }

  /** Numbers below 10^k take at most k characters. */
  lemma {:induction false} DecimalTextLength(n: nat, k: nat, bound: nat)
    requires 1 <= k && bound == Pow10(k) && n < bound
    ensures |DecimalText(n)| <= k
  {
    if n >= 10 {
      assert Pow10(1) == 10;
      DecimalTextLength(n / 10, k - 1, Pow10(k - 1));
    }
  }

  function Pow10(k: nat): (p: nat)
    ensures p >= 1
  {
    if k == 0 then 1 else 10 * Pow10(k - 1)
  }

  /** The run of decimal characters `strtol` consumes, folded into `acc`. */
  function LeadingValue(s: seq<char>, acc: int): int
  {
    if s == [] || !IsDecimal(s[0]) then acc else LeadingValue(s[1..], acc * 10 + CharValue(s[0]))
  }

  function SkipSpaces(s: seq<char>): (t: seq<char>)
    ensures |t| <= |s| && t == s[|s| - |t|..]
    ensures t != [] ==> !IsSpace(t[0])
  {
    if s != [] && IsSpace(s[0]) then SkipSpaces(s[1..]) else s
  }

  /** `strtol(s, &end, 10)` on the text before the first NUL: leading white
      space, an optional sign, then as many decimal characters as follow; 0
      when there are none. No overflow can occur on the short strings used
      here. */
  function Strtol(s: seq<char>): int
  {
    SignedValue(SkipSpaces(s))
  }

  /** What `strtol` reads once the white space is skipped. */
  function SignedValue(t: seq<char>): int
  {
    if t != [] && t[0] == '-' then -LeadingValue(t[1..], 0)
    else if t != [] && t[0] == '+' then LeadingValue(t[1..], 0)
    else LeadingValue(t, 0)
  }

  /** `strtol` on a string of at most two characters, case by case: a leading
      white-space or sign character leaves one character to read. */
  function StrtolTwo(c0: char, c1: char): (v: int)
    ensures IsDecimal(c0) && IsDecimal(c1) ==> v == 10 * CharValue(c0) + CharValue(c1)
    ensures -9 <= v <= 99
  {
    var rest := if IsDecimal(c1) then CharValue(c1) else 0;
    if IsDecimal(c0) then (if IsDecimal(c1) then 10 * CharValue(c0) + CharValue(c1) else CharValue(c0))
    else if c0 == '-' then -rest
    else if c0 == '+' || IsSpace(c0) then rest
    else 0
  }

  /** The case analysis agrees with the general `strtol` on every two-character
      string. */
  lemma StrtolTwoAgrees(s: seq<char>)
    requires |s| == 2
    ensures Strtol(s) == StrtolTwo(s[0], s[1])
  {
    if IsDecimal(s[0]) {
      StrtolAfterDecimal(s);
    } else if IsSpace(s[0]) {
      StrtolAfterSpace(s);
    } else {
      StrtolAfterOther(s);
    }
  }

  lemma StrtolAfterDecimal(s: seq<char>)
    requires |s| == 2 && IsDecimal(s[0])
    ensures Strtol(s) == StrtolTwo(s[0], s[1])
  {
    assert SkipSpaces(s) == s;
    assert s[1..][0] == s[1];
    LeadingOne(s[1..], CharValue(s[0]));
  }

  lemma StrtolAfterSpace(s: seq<char>)
    requires |s| == 2 && IsSpace(s[0])
    ensures Strtol(s) == StrtolTwo(s[0], s[1])
  {
    var tail := s[1..];
    assert tail[0] == s[1];
    StrtolDropSpace(s);
    StrtolOne(tail);
    StrtolTwoAfterSpace(s[0], s[1]);
  }

  /** Leading white space does not change what `strtol` reads. */
  lemma StrtolDropSpace(s: seq<char>)
    requires s != [] && IsSpace(s[0])
    ensures Strtol(s) == Strtol(s[1..])
  {
    SkipLeadingSpace(s);
  }

  /** `strtol` on a single character. */
  lemma StrtolOne(t: seq<char>)
    requires |t| == 1
    ensures Strtol(t) == if IsDecimal(t[0]) then CharValue(t[0]) else 0
  {
    SkipOne(t);
    if !IsSpace(t[0]) {
      SignedOne(t);
    }
  }

  lemma SignedOne(t: seq<char>)
    requires |t| == 1
    ensures SignedValue(t) == if IsDecimal(t[0]) then CharValue(t[0]) else 0
  {
    assert t[1..] == [];
    LeadingOne(t, 0);
  }

  lemma StrtolTwoAfterSpace(c0: char, c1: char)
    requires IsSpace(c0)
    ensures StrtolTwo(c0, c1) == if IsDecimal(c1) then CharValue(c1) else 0
  {
  }

  lemma StrtolAfterOther(s: seq<char>)
    requires |s| == 2 && !IsDecimal(s[0]) && !IsSpace(s[0])
    ensures Strtol(s) == StrtolTwo(s[0], s[1])
  {
    var tail := s[1..];
    assert tail[0] == s[1];
    assert SkipSpaces(s) == s;
    LeadingOne(tail, 0);
  }

  lemma LeadingOne(t: seq<char>, acc: int)
    requires |t| == 1
    ensures LeadingValue(t, acc) == if IsDecimal(t[0]) then acc * 10 + CharValue(t[0]) else acc
  {
    assert t[1..] == [];
  }

  lemma SkipLeadingSpace(s: seq<char>)
    requires s != [] && IsSpace(s[0])
    ensures SkipSpaces(s) == SkipSpaces(s[1..])
  {
  }

  lemma SkipOne(t: seq<char>)
    requires |t| == 1
    ensures SkipSpaces(t) == if IsSpace(t[0]) then [] else t
  {
    assert t[1..] == [];
  }
}
