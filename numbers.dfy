/** Rust `i32` values, their decimal rendering (`Display`) and
    `str::parse::<i32>()`. */
module Numbers {
  import opened Outcomes
  import opened Text

  const I32Min: int := -0x8000_0000
  const I32Max: int := 0x7FFF_FFFF

  type I32 = x: int | I32Min <= x <= I32Max

  /** Two's-complement wrap-around of an `i32` operation (overflow checks
      off, as in a release build). */
  function WrapI32(x: int): (r: I32)
    ensures I32Min <= x <= I32Max ==> r == x
    ensures (r - x) % 0x1_0000_0000 == 0
  {
    (x - I32Min) % 0x1_0000_0000 + I32Min
  }

  predicate IsDigit(c: char) { '0' <= c <= '9' }

  function DigitValue(c: char): nat
    requires IsDigit(c)
  {
    c as int - '0' as int
  }

  function DigitChar(d: nat): (c: char)
    requires d < 10
    ensures IsDigit(c) && DigitValue(c) == d
  {
    (d + '0' as int) as char
  }

  function Pow10(k: nat): (p: nat)
    ensures p >= 1
  {
    if k == 0 then 1 else 10 * Pow10(k - 1)
  }

  /** Decimal digits of `n`, without leading zeros. */
  function NatToString(n: nat): (s: string)
    ensures |s| >= 1 && forall i :: 0 <= i < |s| ==> IsDigit(s[i])
  {
    if n < 10 then [DigitChar(n)] else NatToString(n / 10) + [DigitChar(n % 10)]
  }

  /** `Display` for an integer: a '-' sign for negatives, then the digits. */
  function IntToString(n: int): (s: string)
    ensures |s| >= 1
  {
    if n < 0 then "-" + NatToString(-n) else NatToString(n)
  }

  /** The number of digits is k exactly when 10^(k-1) <= n < 10^k. */
  lemma {:induction false} NatToStringLength(n: nat, k: nat)
    requires k >= 1
    ensures |NatToString(n)| <= k <==> n < Pow10(k)
  {
    if n >= 10 {
      if k == 1 {
        assert |NatToString(n / 10)| >= 1;
      } else {
        NatToStringLength(n / 10, k - 1);
        assert n / 10 < Pow10(k - 1) <==> n < 10 * Pow10(k - 1);
      }
    } else {
      PowAtLeastTen(k);
    }
  }

  lemma {:induction false} PowAtLeastTen(k: nat)
    requires k >= 1
    ensures Pow10(k) >= 10
  {
    if k > 1 { PowAtLeastTen(k - 1); }
  }

  lemma SixDigits(n: nat)
    requires 100000 <= n <= 999999
    ensures |NatToString(n)| == 6
  {
    assert Pow10(5) == 100000 && Pow10(6) == 1000000;
    NatToStringLength(n, 6);
    NatToStringLength(n, 5);
  }

  lemma NoWhitespaceInNumber(n: int)
    ensures NoWhitespace(IntToString(n)) && IsAscii(IntToString(n))
  {
    var s := IntToString(n);
    if n < 0 {
      var d := NatToString(-n);
      assert forall i :: 1 <= i < |s| ==> s[i] == d[i - 1];
    }
  }

  // ---------------------------------------------------------------------------
  // str::parse::<i32>()

  /** `IntErrorKind` of Rust's `ParseIntError`. */
  datatype IntErrorKind = Empty | InvalidDigit | PosOverflow | NegOverflow {
    /** `{:?}` of the `ParseIntError` carrying this kind. */
    function Debug(): string {
      "ParseIntError { kind: " +
      (match this
       case Empty => "Empty"
       case InvalidDigit => "InvalidDigit"
       case PosOverflow => "PosOverflow"
       case NegOverflow => "NegOverflow") + " }"
    }
  }

  /** One step of the digit loop: shift in digit `c`, checking the digit
      first and then the `i32` range. */
  function Step(acc: I32, c: char, positive: bool): Result<I32, IntErrorKind> {
    if !IsDigit(c) then Err(InvalidDigit)
    else
      var next := if positive then acc * 10 + DigitValue(c) else acc * 10 - DigitValue(c);
      if next > I32Max then Err(PosOverflow)
      else if next < I32Min then Err(NegOverflow)
      else Ok(next)
  }

  function Digits(ds: string, acc: I32, positive: bool): Result<I32, IntErrorKind> {
    if ds == [] then Ok(acc)
    else match Step(acc, ds[0], positive)
      case Err(e) => Err(e)
      case Ok(next) => Digits(ds[1..], next, positive)
  }

  /** `i32::from_str`: an optional sign, then one or more ASCII digits; a
      lone sign is `InvalidDigit`. */
  function ParseI32(s: string): Result<I32, IntErrorKind> {
    if s == [] then Err(Empty)
    else if (s[0] == '+' || s[0] == '-') && |s| == 1 then Err(InvalidDigit)
    else if s[0] == '+' then Digits(s[1..], 0, true)
    else if s[0] == '-' then Digits(s[1..], 0, false)
    else Digits(s, 0, true)
  }

  lemma {:induction false} DigitsAppend(a: string, c: char, acc: I32, positive: bool)
    ensures Digits(a + [c], acc, positive) ==
      match Digits(a, acc, positive)
      case Err(e) => Err(e)
      case Ok(v) => Step(v, c, positive)
  {
    if a == [] {
      assert a + [c] == [c];
      assert [c][1..] == [];
    } else {
      assert (a + [c])[0] == a[0];
      assert (a + [c])[1..] == a[1..] + [c];
      match Step(acc, a[0], positive)
      case Err(e) =>
      case Ok(next) => DigitsAppend(a[1..], c, next, positive);
    }
  }

  /** Reading back the digits of `n` with the given sign yields `±n`, as
      long as that is an `i32`. */
  lemma {:induction false} DigitsOfNat(n: nat, positive: bool)
    requires if positive then n <= I32Max else -(n as int) >= I32Min
    ensures Digits(NatToString(n), 0, positive) == Ok(if positive then n as int else -(n as int))
  {
    if n < 10 {
      assert NatToString(n)[1..] == [];
    } else {
      DigitsOfNat(n / 10, positive);
      DigitsAppend(NatToString(n / 10), DigitChar(n % 10), 0, positive);
    }
  }

  /** Rendering an `i32` and parsing it back gives the same value. */
  lemma ParseDisplay(n: I32)
    ensures ParseI32(IntToString(n)) == Ok(n)
  {
    if n < 0 {
      var s := IntToString(n);
      assert s[1..] == NatToString(-(n as int));
      DigitsOfNat(-(n as int), false);
    } else {
      var s := NatToString(n);
      assert IsDigit(s[0]);
      DigitsOfNat(n, true);
    }
  }

  lemma {:induction false} DigitsLeadingZeros(k: nat, s: string, positive: bool)
    ensures Digits(seq(k, _ => '0') + s, 0, positive) == Digits(s, 0, positive)
  {
    if k == 0 {
      assert seq(k, _ => '0') + s == s;
    } else {
      var z := seq(k, _ => '0') + s;
      assert z[0] == '0';
      assert z[1..] == seq(k - 1, _ => '0') + s;
      DigitsLeadingZeros(k - 1, s, positive);
    }
  }

  /** A natural number zero-padded to six places parses back to itself. */
  lemma ParsePadded(n: nat)
    requires n <= 999999
    ensures ParseI32(PadLeftZeros(NatToString(n), 6)) == Ok(n)
  {
    var d := NatToString(n);
    var p := PadLeftZeros(d, 6);
    DigitsOfNat(n, true);
    if |d| < 6 {
      DigitsLeadingZeros(6 - |d|, d, true);
    }
    assert IsDigit(p[0]);
  }
}
