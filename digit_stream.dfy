/** The text form of a digit pool: each digit is two decimal characters and a
    space (`digit_to_str`, `str_to_digit`, `read_digits`, `write_digits`).
    The file descriptors are replaced by what `read` delivered and by what
    `write` returned. */
module DigitStreams {
  import opened Digits
  import opened DigitPools
  import opened Decimal
  import opened Wrappers

  /** Two characters and a space. */
  const CharsPerToken := 3
  const CharsPerBuffer := 3 * 1024

  /** The error codes the two stream functions can return. */
  datatype Status = Ok | ErrFileFormat | ErrUnistdRead | ErrUnistdWrite

  /** The outcome of the one `read` call: a failure, or the characters read. */
  datatype ReadOutcome = ReadFailed | ReadChars(chars: seq<char>)

  /** `digit_to_str` followed by the space that overwrites the terminator: the
      two characters of a token. Below 10 a '0' is put in front; from 100 on
      `%d` writes three characters and the third is overwritten. */
  function DigitToStr(d: Digit): (s: seq<char>)
    ensures |s| == CharsPerDigit && IsDecimal(s[0]) && IsDecimal(s[1])
    ensures d <= MaxDigitValue ==> 10 * CharValue(s[0]) + CharValue(s[1]) == d
  {
    if d < 10 then ['0', DigitChar(d)]
    else if d < 100 then [DigitChar(d / 10), DigitChar(d % 10)]
    else [DigitChar(d / 100), DigitChar(d / 10 % 10)]
  }

  /** `digit_to_str` prints `"0%d"` below 10 and `"%d"` otherwise. */
  function Printed(d: Digit): seq<char>
  {
    if d < 10 then ['0'] + DecimalText(d) else DecimalText(d)
  }

  /** The two token characters are the first two that `sprintf` prints. */
  lemma DigitToStrIsPrinted(d: Digit)
    ensures |Printed(d)| >= CharsPerDigit && DigitToStr(d) == Printed(d)[..CharsPerDigit]
  {
    if d >= 100 {
      DecimalTextBelowHundred(d / 10);
      assert d / 10 / 10 == d / 100;
      assert DecimalText(d) == DecimalText(d / 10) + [DigitChar(d % 10)];
    } else {
      DecimalTextBelowHundred(d);
    }
  }

  function Token(d: Digit): seq<char>
  {
    DigitToStr(d) + [' ']
  }

  /** The characters `write_digits` hands to `write` for the digits `ds`. */
  function Encode(ds: seq<Digit>): (cs: seq<char>)
    ensures |cs| == 3 * |ds|
  {
    if ds == [] then [] else Encode(ds[..|ds| - 1]) + Token(ds[|ds| - 1])
  }

  /** The two characters of token i, as `str` holds them once its third
      character has been replaced by the terminator. */
  function TokenText(cs: seq<char>, i: int): seq<char>
    requires 0 <= i && 3 * i + CharsPerToken <= |cs|
  {
    cs[3 * i..3 * i + CharsPerDigit]
  }

  /** Token i ends in a space, the one format check `read_digits` makes. */
  predicate Spaced(cs: seq<char>, i: int)
    requires 0 <= i && 3 * i + CharsPerToken <= |cs|
  {
    cs[3 * i + CharsPerDigit] == ' '
  }

  /** The first n tokens all pass the format check. */
  predicate AllSpaced(cs: seq<char>, n: nat)
    requires 3 * n <= |cs|
  {
    n == 0 || (AllSpaced(cs, n - 1) && Spaced(cs, n - 1))
  }

  /** A passing token extends a passing prefix. */
  lemma AllSpacedStep(cs: seq<char>, n: nat)
    requires 3 * (n + 1) <= |cs| && AllSpaced(cs, n) && Spaced(cs, n)
    ensures AllSpaced(cs, n + 1)
  {
  }

  /** AllSpaced is the pointwise check over the first n tokens. */
  lemma {:induction false} AllSpacedEach(cs: seq<char>, n: nat)
    requires 3 * n <= |cs|
    ensures AllSpaced(cs, n) <==> forall j :: 0 <= j < n ==> Spaced(cs, j)
  {
    if n > 0 {
      AllSpacedEach(cs, n - 1);
    }
  }

  /** One token failing the check fails every longer prefix that holds it. */
  lemma {:induction false} UnspacedBreaksAll(cs: seq<char>, i: nat, m: nat)
    requires i < m && 3 * m <= |cs| && !Spaced(cs, i)
    ensures !AllSpaced(cs, m)
  {
    if i < m - 1 {
      UnspacedBreaksAll(cs, i, m - 1);
    }
  }

  /** Token i is the first one that fails the format check. */
  predicate FirstUnspaced(cs: seq<char>, i: nat)
    requires 3 * i + CharsPerToken <= |cs|
  {
    !Spaced(cs, i) && AllSpaced(cs, i)
  }

  /** `str_to_digit`: `strtol` in base 10, stored in a digit_t. */
  function StrToDigit(s: seq<char>): (d: Digit)
    requires |s| == CharsPerDigit
    ensures IsDecimal(s[0]) && IsDecimal(s[1]) ==> d == 10 * CharValue(s[0]) + CharValue(s[1])
  {
    ToDigit(StrtolTwo(s[0], s[1]))
  }

  /** The digits of the first k tokens of `cs`. */
  function Decode(cs: seq<char>, k: nat): (ds: seq<Digit>)
    requires 3 * k <= |cs|
    ensures |ds| == k
  {
    seq(k, i requires 0 <= i < k => StrToDigit(TokenText(cs, i)))
  }

  /** One more token decodes to one more digit. */
  lemma DecodeStep(cs: seq<char>, n: nat)
    requires 3 * (n + 1) <= |cs|
    ensures Decode(cs, n + 1) == Decode(cs, n) + [StrToDigit(TokenText(cs, n))]
  {
  }

  /** Encoding one more digit appends its token. */
  lemma EncodeStep(ds: seq<Digit>, n: nat)
    requires n < |ds|
    ensures Encode(ds[..n + 1]) == Encode(ds[..n]) + Token(ds[n])
  {
    assert ds[..n + 1][..n] == ds[..n];
  }

  /** Token i of an encoding is the token of digit i. */
  lemma {:induction false} EncodeToken(ds: seq<Digit>, i: int)
    requires 0 <= i < |ds|
    ensures TokenText(Encode(ds), i) == DigitToStr(ds[i]) && Spaced(Encode(ds), i)
    decreases |ds|
  {
    var init := ds[..|ds| - 1];
    var cs := Encode(ds);
    assert cs == Encode(init) + Token(ds[|ds| - 1]);
    if i < |init| {
      EncodeToken(init, i);
      assert cs[..3 * |init|] == Encode(init);
    } else {
      assert cs[3 * i..] == Token(ds[i]);
    }
  }

  /** Decoding an encoding gives back every digit up to 99, and every token
      passes the format check. */
  lemma DecodeEncode(ds: seq<Digit>)
    requires forall k :: 0 <= k < |ds| ==> ds[k] <= MaxDigitValue
    ensures AllSpaced(Encode(ds), |ds|)
    ensures Decode(Encode(ds), |ds|) == ds
  {
    forall i | 0 <= i < |ds|
      ensures Spaced(Encode(ds), i) && Decode(Encode(ds), |ds|)[i] == ds[i]
    {
      EncodeToken(ds, i);
    }
    AllSpacedEach(Encode(ds), |ds|);
  }

  /** `write_digits`: pops every digit, encodes it into the buffer and hands
      the 3·k characters to `write`; `written` is what `write` returned. The
      pool is cleared only when the write is not found short. */
  method WriteDigits(pool: DigitPool, written: int) returns (err: Status, data: seq<char>)
    requires pool.Valid() && -0x8000_0000 <= written < 0x8000_0000
    modifies pool`nPopped, pool`nPushed
    ensures pool.Valid() && pool.Contents() == []
    ensures data == Encode(old(pool.Contents()))
    ensures err == Ok || err == ErrUnistdWrite
    ensures err == ErrUnistdWrite <==> ShortWriteAsWritten(written, |data|)
    ensures err == Ok ==> pool.Pushed() == []
    ensures err == ErrUnistdWrite ==> pool.Pushed() == old(pool.Pushed())
  {
    var buf := new char[CharsPerBuffer](_ => '\0');
    ghost var ds := pool.Contents();
    var n := 0;
    while !pool.IsEmpty()
      invariant pool.Valid() && pool.nPushed == old(pool.nPushed)
      invariant pool.Pushed() == old(pool.Pushed())
      invariant 0 <= n <= |ds| && pool.Contents() == ds[n..]
      invariant buf[..3 * n] == Encode(ds[..n])
      decreases pool.nPushed - pool.nPopped
    {
      EncodeNext(pool, buf, ds, n);
      n := n + 1;
    }
    assert ds[..n] == ds;
    data := buf[..3 * n];
    if ShortWriteAsWritten(written, |data|) {
      return ErrUnistdWrite, data;
    }
    pool.Clear();
    err := Ok;
  }

  /** One round of the loop of `write_digits`: the next digit is popped and
      its token appended to the buffer. */
  method EncodeNext(pool: DigitPool, buf: array<char>, ghost ds: seq<Digit>, n: nat)
    requires pool.Valid() && pool.nPopped < pool.nPushed && buf.Length == CharsPerBuffer
    requires n <= |ds| <= DigitsPerPool && pool.Contents() == ds[n..] && buf[..3 * n] == Encode(ds[..n])
    modifies pool`nPopped, buf
    ensures pool.Valid() && pool.nPushed == old(pool.nPushed) && pool.nPopped == old(pool.nPopped) + 1
    ensures pool.Pushed() == old(pool.Pushed())
    ensures n < |ds| && pool.Contents() == ds[n + 1..] && buf[..3 * (n + 1)] == Encode(ds[..n + 1])
  {
    ghost var rest := pool.Contents();
    var digit := PopOne(pool);
    assert n < |ds| && ds[n] == digit && ds[n + 1..] == rest[1..];
    EncodeStep(ds, n);
    CopyToken(buf, n, digit);
  }

  /** `memcpy(buf + n * sizeof(str), str, sizeof(str))` with the token of
      `digit`: the buffer up to token n is kept and the token appended. */
  method CopyToken(buf: array<char>, n: nat, digit: Digit)
    requires 3 * n + CharsPerToken <= buf.Length
    modifies buf
    ensures buf[..3 * n + CharsPerToken] == old(buf[..3 * n]) + Token(digit)
  {
    var s := DigitToStr(digit);
    buf[3 * n] := s[0];
    buf[3 * n + 1] := s[1];
    buf[3 * n + 2] := ' ';
  }

  /** `n_written_chars < n_digits * sizeof(str)` as written: the int result of
      `write` is converted to the 64-bit size_t of the right-hand side before
      the comparison. */
  function ShortWriteAsWritten(written: int, len: nat): (short: bool)
    requires -0x8000_0000 <= written < 0x8000_0000 && len < 0x8000_0000
    ensures 0 <= written ==> (short <==> written < len)
    ensures written < 0 ==> !short
  {
    written % 0x1_0000_0000_0000_0000 < len
  }

  /** The comparison the error check means: any result of `write` other than
      the full length, the failure result -1 included, is a short write. */
  function ShortWrite(written: int, len: nat): (short: bool)
    requires -1 <= written <= len
    ensures short <==> written != len
  {
    written < len
  }

  /** A failed `write` (-1) is not reported by the check as written, and is
      reported by the intended one. */
  lemma FailedWriteUndetected()
    ensures !ShortWriteAsWritten(-1, 3 * 2) && ShortWrite(-1, 3 * 2)
  {
  }

  /** `read_digits`: clears the pool, then decodes ⌊chars/3⌋ tokens in order
      (a trailing partial token is ignored), stopping with ErrFileFormat at
      the first token whose third character is not a space. `nDigits` is the
      token count the source stores even when a token is rejected; on a read
      failure the source returns before storing it, so the caller keeps the
      value it had, given here as `callerDigits`. */
  method ReadDigits(pool: DigitPool, input: ReadOutcome, callerDigits: int) returns (err: Status, nDigits: int)
    requires pool.Valid()
    requires input.ReadChars? ==> |input.chars| <= CharsPerBuffer
    modifies pool`nPopped, pool`nPushed, pool.storage
    ensures pool.Valid() && pool.nPopped == 0
    ensures input.ReadFailed? ==> err == ErrUnistdRead && nDigits == callerDigits && pool.Pushed() == []
    ensures input.ReadChars? ==> nDigits == |input.chars| / CharsPerToken
    ensures input.ReadChars? ==> (err == Ok || err == ErrFileFormat)
    ensures input.ReadChars? ==>
      (err == Ok <==> AllSpaced(input.chars, nDigits))
    ensures err == Ok ==> pool.Pushed() == Decode(input.chars, nDigits)
    ensures err == ErrFileFormat ==>
      (exists i :: 0 <= i < nDigits && FirstUnspaced(input.chars, i) && pool.Pushed() == Decode(input.chars, i))
  {
    pool.Clear();
    if input.ReadFailed? {
      return ErrUnistdRead, callerDigits;
    }
    var cs := input.chars;
    nDigits := |cs| / CharsPerToken;
    err := ScanTokens(pool, cs, nDigits);
  }

  /** The token loop of `read_file`: tokens 0 .. nDigits-1 of cs are pushed in
      order until one does not end in a space. */
  method ScanTokens(pool: DigitPool, cs: seq<char>, nDigits: nat) returns (err: Status)
    requires pool.Valid() && pool.nPopped == 0 && pool.Pushed() == []
    requires 3 * nDigits <= |cs| && nDigits <= DigitsPerPool
    modifies pool`nPushed, pool.storage
    ensures pool.Valid() && pool.nPopped == 0
    ensures err == Ok || err == ErrFileFormat
    ensures err == Ok <==> AllSpaced(cs, nDigits)
    ensures err == Ok ==> pool.Pushed() == Decode(cs, nDigits)
    ensures err == ErrFileFormat ==>
      (exists i :: 0 <= i < nDigits && FirstUnspaced(cs, i) && pool.Pushed() == Decode(cs, i))
  {
    var n := 0;
    while n < nDigits
      invariant 0 <= n <= nDigits
      invariant pool.Valid() && pool.nPopped == 0
      invariant AllSpaced(cs, n)
      invariant pool.Pushed() == Decode(cs, n)
    {
      if cs[3 * n + CharsPerDigit] != ' ' {
        assert !Spaced(cs, n);
        UnspacedBreaksAll(cs, n, nDigits);
        assert FirstUnspaced(cs, n) && pool.Pushed() == Decode(cs, n);
        return ErrFileFormat;
      }
      AllSpacedStep(cs, n);
      PushToken(pool, cs, n);
      n := n + 1;
    }
    err := Ok;
  }

  /** `str_to_digit` on token n followed by `push_digits(pool, &digit, 1)`. */
  method PushToken(pool: DigitPool, cs: seq<char>, n: nat)
    requires pool.Valid() && 3 * (n + 1) <= |cs| && n < DigitsPerPool
    requires pool.Pushed() == Decode(cs, n)
    modifies pool`nPushed, pool.storage
    ensures pool.Valid() && pool.nPopped == old(pool.nPopped)
    ensures pool.Pushed() == Decode(cs, n + 1)
  {
    var digit := StrToDigit(TokenText(cs, n));
    DecodeStep(cs, n);
    PushOne(pool, digit);
  }

  /** `pop_digits(pool, &digit, 1)` on a pool with a digit left. */
  method PopOne(pool: DigitPool) returns (digit: Digit)
    requires pool.Valid() && pool.nPopped < pool.nPushed
    modifies pool`nPopped
    ensures pool.Valid() && pool.nPushed == old(pool.nPushed)
    ensures [digit] + pool.Contents() == old(pool.Contents())
  {
    var cell := new Digit[1](_ => 0);
    var _ := pool.Pop(cell, 1);
    digit := cell[0];
  }

  /** `push_digits(pool, &digit, 1)` on a pool with room left. */
  method PushOne(pool: DigitPool, digit: Digit)
    requires pool.Valid() && pool.nPushed < DigitsPerPool
    modifies pool`nPushed, pool.storage
    ensures pool.Valid() && pool.nPopped == old(pool.nPopped)
    ensures pool.Pushed() == old(pool.Pushed()) + [digit]
  {
    var _ := pool.Push([digit], 1);
    assert [digit][..Max0(1)] == [digit];
  }

  /** `str_to_digit` as written: its `ok` flag tests the end pointer, which
      `strtol` always sets, so no token text is rejected and non-decimal text
      is read as whatever `strtol` makes of it. */
  lemma NonDecimalTokensAccepted()
    ensures Decode("ab -1 ", 2) == [0, 255]
    ensures AllSpaced("ab -1 ", 2)
  {
    var cs := "ab -1 ";
    assert TokenText(cs, 0) == "ab";
    assert TokenText(cs, 1) == "-1";
  }

  /** The token check `str_to_digit` means to make: two decimal characters
      whose value is at most 99. */
  function ParseToken(s: seq<char>): (d: Option<Digit>)
    requires |s| == CharsPerDigit
    ensures d.Some? <==> IsDecimal(s[0]) && IsDecimal(s[1])
  {
    if IsDecimal(s[0]) && IsDecimal(s[1]) then Some(StrToDigit(s)) else None
  }

  /** The checked parser and `digit_to_str` are inverse on digits up to 99, in
      both directions. */
  lemma ParseTokenRoundTrip(d: Digit, s: seq<char>)
    requires |s| == CharsPerDigit
    ensures d <= MaxDigitValue ==> ParseToken(DigitToStr(d)) == Some(d)
    ensures ParseToken(s) == Some(d) ==> d <= MaxDigitValue && DigitToStr(d) == s
  {
    if ParseToken(s) == Some(d) {
      var hi, lo := CharValue(s[0]), CharValue(s[1]);
      assert d == 10 * hi + lo;
      assert d / 10 == hi && d % 10 == lo;
      CharOfValue(s[0]);
      CharOfValue(s[1]);
    }
  }
}
