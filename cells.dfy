/** Tape cells are Rust `i32`s. This module fixes the fixed-width arithmetic
    the interpreter relies on: wrap-around increment and decrement, the
    `as u8 as char` conversion used by `.`, and the decimal rendering used by
    `?`. */
module Cells {

  const I32Min: int := -0x8000_0000
  const I32Max: int := 0x7fff_ffff
  const I32Span: int := 0x1_0000_0000

  predicate IsI32(x: int) {
    I32Min <= x <= I32Max
  }

  /** Two's-complement wrap-around into the `i32` range (release-build `+=`). */
  function Wrap32(x: int): (r: int)
    ensures IsI32(r)
    ensures (r - x) % I32Span == 0
    ensures IsI32(x) ==> r == x
  {
    (x - I32Min) % I32Span + I32Min
  }

  lemma WrapPastMax()
    ensures Wrap32(I32Max + 1) == I32Min
    ensures Wrap32(I32Min - 1) == I32Max
  {
  }

  /** `v as u8 as char`: the low eight bits of the two's-complement value,
      read as a code point below 256. */
  function ByteChar(v: int): (c: char)
    ensures c as int < 256
    ensures (c as int - v) % 256 == 0
  {
    (v % 256) as char
  }

  predicate IsDigit(c: char) {
    '0' <= c <= '9'
  }

  function DigitChar(d: int): (c: char)
    requires 0 <= d < 10
    ensures IsDigit(c) && c as int - '0' as int == d
  {
    ('0' as int + d) as char
  }

  /** Decimal digits of a natural number, most significant first. */
  function Digits(n: nat): (s: string)
    ensures |s| >= 1
    ensures forall k :: 0 <= k < |s| ==> IsDigit(s[k])
    ensures s[0] == '0' ==> n == 0
    decreases n
  {
    if n < 10 then [DigitChar(n)] else Digits(n / 10) + [DigitChar(n % 10)]
  }

  /** What `format!("{}", v)` yields for an integer: an optional minus sign,
      then the digits of the magnitude without leading zeros. */
  function Decimal(v: int): (s: string)
    ensures |s| >= 1
    ensures (s[0] == '-') <==> v < 0
    ensures forall k :: (if v < 0 then 1 else 0) <= k < |s| ==> IsDigit(s[k])
    ensures v < 0 ==> |s| >= 2
    ensures s[if v < 0 then 1 else 0] == '0' ==> v == 0
  {
    if v < 0 then "-" + Digits(-v) else Digits(v)
  }

  /** Reading a run of decimal digits back as a number. */
  function DigitsValue(s: string): nat
    requires forall k :: 0 <= k < |s| ==> IsDigit(s[k])
  {
    if s == [] then 0
    else
      assert IsDigit(s[|s| - 1]);
      DigitsValue(s[..|s| - 1]) * 10 + (s[|s| - 1] as int - '0' as int)
  }

  /** Reading decimal text (optional minus sign, then digits) back as an integer. */
  function ParseDecimal(s: string): int
    requires |s| >= 1
    requires forall k :: (if s[0] == '-' then 1 else 0) <= k < |s| ==> IsDigit(s[k])
  {
    if s[0] == '-' then -(DigitsValue(s[1..]) as int) else DigitsValue(s)
  }

  lemma {:induction false} DigitsRoundTrip(n: nat)
    ensures DigitsValue(Digits(n)) == n
    decreases n
  {
    if n >= 10 {
      var s := Digits(n);
      assert s[..|s| - 1] == Digits(n / 10);
      DigitsRoundTrip(n / 10);
    }
  }

  /** `?` loses nothing: its text reads back as the cell's value. */
  lemma DecimalRoundTrip(v: int)
    ensures ParseDecimal(Decimal(v)) == v
  {
    if v < 0 {
      assert Decimal(v)[1..] == Digits(-v);
      DigitsRoundTrip(-v);
    } else {
      DigitsRoundTrip(v);
    }
  }
}
