/**
  The two conversions of Go's `strconv` package the codec relies on:
  `Itoa` for the length prefixes the encoder prints, and
  `ParseInt(s, 10, 64)` for the length prefixes the decoder reads.
 */
module Strconv {
  import opened Bytes

  datatype Option<+T> = None | Some(value: T)

  const MaxUint64: nat := 0xFFFF_FFFF_FFFF_FFFF
  const MaxInt64: int := 0x7FFF_FFFF_FFFF_FFFF
  const MinInt64: int := -0x8000_0000_0000_0000

  function Pow10(k: nat): (r: nat)
    ensures r >= 1
  {
    if k == 0 then 1 else 10 * Pow10(k - 1)
  }

  function DigitValue(b: byte): nat
    requires IsDigit(b)
  {
    b - ZERO
  }

  function DigitChar(d: nat): (b: byte)
    requires d < 10
    ensures IsDigit(b) && DigitValue(b) == d
  {
    ZERO + d
  }

  /** The number a string of decimal digits denotes, most significant digit first. */
  function DigitsValue(s: seq<byte>): nat
    requires AllDigits(s)
  {
    if |s| == 0 then 0 else 10 * DigitsValue(s[..|s| - 1]) + DigitValue(s[|s| - 1])
  }

  /** A numeral as `Itoa` writes it: one or more digits, no leading zero except for "0" itself. */
  predicate Canonical(s: seq<byte>) {
    1 <= |s| && AllDigits(s) && (s[0] == ZERO ==> |s| == 1)
  }

  /**
    An optional `+` or `-` sign followed by one or more decimal digits:
    the only text `ParseInt` accepts in base 10.
   */
  predicate IsDecimal(s: seq<byte>) {
    || (1 <= |s| && AllDigits(s))
    || (2 <= |s| && (s[0] == PLUS || s[0] == MINUS) && AllDigits(s[1..]))
  }

  /** The signed value of a decimal numeral. */
  function DecimalValue(s: seq<byte>): int
    requires IsDecimal(s)
  {
    if AllDigits(s) then DigitsValue(s)
    else if s[0] == MINUS then -(DigitsValue(s[1..]) as int)
    else DigitsValue(s[1..])
  }

  /** strconv.Itoa restricted to the non-negative lengths the encoder prints. */
  function Itoa(n: nat): (r: seq<byte>)
    ensures 1 <= |r|
  {
    if n < 10 then [DigitChar(n)] else Itoa(n / 10) + [DigitChar(n % 10)]
  }

  /** `Itoa` prints a canonical numeral, with no CR in it, that denotes `n`. */
  lemma {:induction false} ItoaSpec(n: nat)
    ensures Canonical(Itoa(n)) && NoCR(Itoa(n)) && DigitsValue(Itoa(n)) == n
    decreases n
  {
    var r := Itoa(n);
    if n < 10 {
      assert r[..0] == [];
    } else {
      var init := Itoa(n / 10);
      ItoaSpec(n / 10);
      assert r[..|r| - 1] == init;
      assert r[0] == init[0];
    }
  }

  lemma {:induction false} DigitsValueFront(s: seq<byte>)
    requires 1 <= |s| && AllDigits(s)
    ensures DigitsValue(s) == DigitValue(s[0]) * Pow10(|s| - 1) + DigitsValue(s[1..])
  {
    if |s| == 1 {
      assert s[..0] == [] && s[1..] == [];
    } else {
      var init := s[..|s| - 1];
      var last := DigitValue(s[|s| - 1]);
      DigitsValueFront(init);
      assert init[0] == s[0];
      assert init[1..] == s[1..][..|s| - 2];
      assert s[1..][|s| - 2] == s[|s| - 1];
      FrontArithmetic(DigitValue(s[0]), Pow10(|s| - 2), DigitsValue(init[1..]), last);
    }
  }

  lemma {:induction false} FrontArithmetic(d: nat, p: nat, t: nat, l: nat)
    ensures 10 * (d * p + t) + l == d * (10 * p) + (10 * t + l)
  {
  }

  /**
    The digit loop of strconv.ParseUint in base 10 with a 64-bit result,
    continued from the value `acc` of the digits already read. Go checks
    `n >= cutoff` before multiplying and `n1 > maxVal` after adding; over
    unbounded integers the pair amounts to the second test alone.
   */
  function ParseUintFrom(s: seq<byte>, acc: nat): (r: Option<nat>)
    requires acc <= MaxUint64
    ensures r.Some? ==> acc <= r.value <= MaxUint64
    decreases |s|
  {
    if |s| == 0 then Some(acc)
    else if !IsDigit(s[0]) then None
    else
      var n1 := acc * 10 + DigitValue(s[0]);
      if n1 > MaxUint64 then None else ParseUintFrom(s[1..], n1)
  }

  /**
    The digit loop accepts exactly the all-digit strings whose value,
    appended to `acc`, fits in 64 bits, and returns that value.
   */
  lemma {:induction false} ParseUintFromSpec(s: seq<byte>, acc: nat)
    requires acc <= MaxUint64
    ensures ParseUintFrom(s, acc).Some? <==> AllDigits(s) && acc * Pow10(|s|) + DigitsValue(s) <= MaxUint64
    ensures ParseUintFrom(s, acc).Some? ==> ParseUintFrom(s, acc).value == acc * Pow10(|s|) + DigitsValue(s)
    decreases |s|
  {
    if |s| > 0 && IsDigit(s[0]) {
      var n1 := acc * 10 + DigitValue(s[0]);
      if n1 > MaxUint64 {
        NumeralTooLarge(s, acc);
      } else {
        ShiftDigit(s, acc);
        ParseUintFromSpec(s[1..], n1);
      }
    }
  }

  /** Reading one more digit moves it from the numeral into the accumulator. */
  lemma {:induction false} ShiftDigit(s: seq<byte>, acc: nat)
    requires 1 <= |s| && IsDigit(s[0])
    ensures AllDigits(s) <==> AllDigits(s[1..])
    ensures AllDigits(s) ==>
      acc * Pow10(|s|) + DigitsValue(s)
      == (acc * 10 + DigitValue(s[0])) * Pow10(|s| - 1) + DigitsValue(s[1..])
  {
    AllDigitsTail(s);
    if AllDigits(s) {
      DigitsValueFront(s);
      ShiftArithmetic(acc, DigitValue(s[0]), Pow10(|s| - 1));
    }
  }

  lemma {:induction false} AllDigitsTail(s: seq<byte>)
    requires 1 <= |s| && IsDigit(s[0])
    ensures AllDigits(s) <==> AllDigits(s[1..])
  {
    if AllDigits(s[1..]) {
      forall i | 0 <= i < |s| ensures IsDigit(s[i]) {
        if i > 0 { assert s[i] == s[1..][i - 1]; }
      }
    }
  }

  lemma {:induction false} ShiftArithmetic(acc: nat, d: nat, p: nat)
    ensures acc * (10 * p) + d * p == (acc * 10 + d) * p
  {
  }

  /** Once the accumulator has overflowed, the whole numeral is out of range. */
  lemma {:induction false} NumeralTooLarge(s: seq<byte>, acc: nat)
    requires 1 <= |s| && IsDigit(s[0])
    requires acc * 10 + DigitValue(s[0]) > MaxUint64
    ensures AllDigits(s) ==> acc * Pow10(|s|) + DigitsValue(s) > MaxUint64
  {
    if AllDigits(s) {
      ShiftDigit(s, acc);
      AtLeastOnce(acc * 10 + DigitValue(s[0]), Pow10(|s| - 1));
    }
  }

  lemma {:induction false} AtLeastOnce(a: nat, b: nat)
    requires b >= 1
    ensures a * b >= a
  {
    assert a * b == a * (b - 1) + a;
  }

  /**
    strconv.ParseInt(s, 10, 64). Go reports a syntax error and a range
    error apart; both become `None` here.
   */
  function ParseInt(s: seq<byte>): (r: Option<int>)
    ensures r.Some? ==> MinInt64 <= r.value <= MaxInt64
  {
    if |s| == 0 then None
    else
      var neg := s[0] == MINUS;
      var digits := if s[0] == PLUS || s[0] == MINUS then s[1..] else s;
      if |digits| == 0 then None
      else match ParseUintFrom(digits, 0)
        case None => None
        case Some(u) =>
          if !neg && u > MaxInt64 then None
          else if neg && u > -MinInt64 then None
          else Some(if neg then -(u as int) else u as int)
  }

  /**
    `ParseInt` accepts exactly the decimal numerals whose value is an
    int64, and returns that value.
   */
  lemma {:induction false} ParseIntSpec(s: seq<byte>)
    ensures ParseInt(s).Some? <==> IsDecimal(s) && MinInt64 <= DecimalValue(s) <= MaxInt64
    ensures ParseInt(s).Some? ==> IsDecimal(s) && ParseInt(s).value == DecimalValue(s)
  {
    if |s| > 0 {
      var digits := if s[0] == PLUS || s[0] == MINUS then s[1..] else s;
      if |digits| > 0 {
        ParseUintFromSpec(digits, 0);
      }
    }
  }

  /** `Itoa` and `DigitsValue` are inverse on canonical numerals. */
  lemma {:induction false} ItoaOfDigitsValue(s: seq<byte>)
    requires Canonical(s)
    ensures Itoa(DigitsValue(s)) == s
  {
    if |s| > 1 {
      var init := s[..|s| - 1];
      assert Canonical(init);
      DigitsValuePositive(init);
      ItoaOfDigitsValue(init);
      var n := DigitsValue(s);
      assert n == 10 * DigitsValue(init) + DigitValue(s[|s| - 1]);
      assert n / 10 == DigitsValue(init) && n % 10 == DigitValue(s[|s| - 1]);
      assert s == init + [s[|s| - 1]];
    }
  }

  lemma {:induction false} DigitsValuePositive(s: seq<byte>)
    requires Canonical(s) && s[0] != ZERO
    ensures DigitsValue(s) >= 1
  {
    if |s| > 1 {
      var init := s[..|s| - 1];
      assert Canonical(init) && init[0] == s[0];
      DigitsValuePositive(init);
    }
  }

  /** `ParseInt` reads back every non-negative int64 that `Itoa` prints. */
  lemma {:induction false} ParseIntItoa(n: nat)
    requires n <= MaxInt64
    ensures ParseInt(Itoa(n)) == Some(n)
  {
    ItoaSpec(n);
    ParseIntSpec(Itoa(n));
    assert IsDecimal(Itoa(n));
  }
}
