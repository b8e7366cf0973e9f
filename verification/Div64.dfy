/**
 The 64-bit division routines of src/library/div64.h, with machine words as
 naturals and every wrap-around written out.
 */
module Div64 {
  import opened Arith

  const W16 := 0x1_0000
  const W32 := 0x1_0000_0000
  const W48 := 0x1_0000_0000_0000
  const W64 := 0x1_0000_0000_0000_0000

  function Pow2(k: nat): (r: nat)
    ensures r >= 1
  {
    if k == 0 then 1 else 2 * Pow2(k - 1)
  }

  function Scaled(divisor: nat, k: nat): nat {
    divisor * Pow2(k)
  }

  lemma Unsplit(dividend: nat, unit: nat)
    requires dividend < unit
    ensures Splits(dividend, 0, unit, dividend)
  {
  }

  /** One round of long division neither loses a bit nor leaves the word. */
  lemma Round(dividend: nat, q: nat, shift: nat, rem: nat)
    requires Splits(dividend, q, 2 * shift, rem)
    ensures q * 2 <= dividend && rem < 2 * shift
    ensures shift <= rem ==> q * 2 + 1 <= dividend && Splits(dividend, q * 2 + 1, shift, rem - shift)
    ensures rem < shift ==> Splits(dividend, q * 2, shift, rem)
  {
    MulDoubled(q, shift);
    MulSucc(q * 2, shift);
    if q > 0 { MulAtLeast(q * 2, shift); }
    MulAtLeast(q * 2 + 1, shift);
  }

  lemma Halve(divisor: nat, k: nat)
    requires divisor > 0
    ensures k > 0 ==> Scaled(divisor, k) == 2 * Scaled(divisor, k - 1) && Scaled(divisor, k - 1) >= divisor
    ensures k == 0 ==> Scaled(divisor, k) == divisor
  {
    if k > 0 {
      MulDoubled(divisor, Pow2(k - 1));
      MulAtLeast(Pow2(k - 1), divisor);
    }
  }

  /** The first loop: doubles the divisor until it reaches the dividend or its top bit is set. */
  method Align(dividend: nat, divisor: nat) returns (shift: nat, ghost k: nat)
    requires dividend < W64 && 0 < divisor < W64
    ensures shift == Scaled(divisor, k) && divisor <= shift < W64
    ensures dividend < 2 * shift
  {
    hide Scaled;
    shift := divisor;
    var aux := divisor;
    k := 0;
    Halve(divisor, k);
    while shift < dividend
      invariant shift == aux == Scaled(divisor, k) && divisor <= shift < W64
      decreases W64 - shift
    {
      aux := aux * 2 % W64;
      if !(aux > shift) {
        return;
      }
      k := k + 1;
      Halve(divisor, k);
      shift := aux;
    }
  }

  /** The body of the second loop: one more bit of the quotient. */
  method DivideBit(ghost dividend: nat, q: nat, shift: nat, rem: nat) returns (q': nat, rem': nat)
    requires dividend < W64 && Splits(dividend, q, 2 * shift, rem)
    ensures Splits(dividend, q', shift, rem') && q' <= dividend
  {
    hide Splits;
    Round(dividend, q, shift, rem);
    q', rem' := q * 2 % W64, rem;
    if shift <= rem {
      q' := (q' + 1) % W64;
      rem' := rem - shift;
    }
  }

  /** The long-division loop that uint64_div64 and uint64_mod64 share. */
  method LongDivision(dividend: nat, divisor: nat) returns (quotient: nat, remainder: nat)
    requires dividend < W64 && 0 < divisor < W64
    ensures Splits(dividend, quotient, divisor, remainder) && quotient <= dividend
  {
    hide Scaled, Splits;
    var shift; ghost var k: int;
    shift, k := Align(dividend, divisor);
    remainder := dividend;
    quotient := 0;
    Unsplit(dividend, 2 * shift);
    while shift >= divisor
      invariant -1 <= k
      invariant k >= 0 ==> shift == Scaled(divisor, k) && shift >= divisor
      invariant k >= 0 ==> Splits(dividend, quotient, 2 * shift, remainder)
      invariant k == -1 ==> shift < divisor && Splits(dividend, quotient, divisor, remainder)
      invariant quotient <= dividend
      decreases k
    {
      quotient, remainder := DivideBit(dividend, quotient, shift, remainder);
      Halve(divisor, k);
      shift := shift / 2;
      k := k - 1;
    }
  }

  method UInt64Div64(dividend: nat, divisor: nat) returns (quotient: nat)
    requires dividend < W64 && 0 < divisor < W64
    ensures quotient == dividend / divisor
  {
    var remainder;
    quotient, remainder := LongDivision(dividend, divisor);
    SplitsUnique(dividend, divisor, quotient, remainder);
  }

  method UInt64Mod64(dividend: nat, divisor: nat) returns (remainder: nat)
    requires dividend < W64 && 0 < divisor < W64
    ensures remainder == dividend % divisor
  {
    var quotient;
    quotient, remainder := LongDivision(dividend, divisor);
    SplitsUnique(dividend, divisor, quotient, remainder);
  }

  /** One 16-bit digit of uint64_div32: brings down a digit, in 32 bits, and divides. */
  function Digit(rem: int, digit: int): int {
    (digit + rem * W16 % W32) % W32
  }

  /** The assignments of uint64_div32 and uint64_mod32: digit by digit, carrying the remainder down. */
  function LongDigits(high: int, midHigh: int, midLow: int, low: int, divisor: int): (int, int)
    requires divisor > 0
  {
    var x1 := Digit(high % divisor, midHigh);
    var q1 := high / divisor * W16 + x1 / divisor;
    var x2 := Digit(x1 % divisor, midLow);
    var q2 := q1 * W16 + x2 / divisor;
    var x3 := Digit(x2 % divisor, low);
    (q2 * W16 + x3 / divisor, x3 % divisor)
  }

  function Digits(dividend: int, divisor: int): (int, int)
    requires divisor > 0
  {
    LongDigits(dividend / W32 / W16, dividend / W32 % W16, dividend / W16 % W16, dividend % W16, divisor)
  }

  function UInt64Div32(dividend: nat, divisor: nat): int
    requires dividend < W64 && 0 < divisor < W32
  {
    Digits(dividend, divisor).0 % W32
  }

  function UInt64Mod32(dividend: nat, divisor: nat): int
    requires dividend < W64 && 0 < divisor < W32
  {
    Digits(dividend, divisor).1
  }

  /** Schoolbook long division: bringing down one digit. */
  lemma BringDown(value: int, q: int, rem: int, digit: int, a: int, rem': int, d: int)
    requires Splits(value, q, d, rem) && Splits(rem * W16 + digit, a, d, rem')
    ensures Splits(value * W16 + digit, q * W16 + a, d, rem')
  {
    assert (q * W16 + a) * d == (q * d) * W16 + a * d;
  }

  lemma NoCarry(rem: int, digit: int)
    requires 0 <= rem < W16 && 0 <= digit < W16
    ensures Digit(rem, digit) == rem * W16 + digit
  {
  }

  lemma BringDownDigit(value: int, q: int, rem: int, digit: int, d: int)
    requires Splits(value, q, d, rem) && d <= W16 && 0 <= digit < W16
    ensures var x := Digit(rem, digit); Splits(value * W16 + digit, q * W16 + x / d, d, x % d)
  {
    NoCarry(rem, digit);
    var x := Digit(rem, digit);
    Divides(x, d);
    BringDown(value, q, rem, digit, x / d, x % d, d);
  }

  lemma Digits64(dividend: nat)
    requires dividend < W64
    ensures var high, midHigh, midLow, low :=
              dividend / W32 / W16, dividend / W32 % W16, dividend / W16 % W16, dividend % W16;
            high < W16 && dividend == ((high * W16 + midHigh) * W16 + midLow) * W16 + low
  {
  }

  lemma SmallDigits(high: nat, midHigh: nat, midLow: nat, low: nat, d: nat)
    requires 0 < d <= W16 && high < W16 && midHigh < W16 && midLow < W16 && low < W16
    ensures var (q, r) := LongDigits(high, midHigh, midLow, low, d);
            Splits(((high * W16 + midHigh) * W16 + midLow) * W16 + low, q, d, r)
  {
    hide Splits, Digit;
    Divides(high, d);
    BringDownDigit(high, high / d, high % d, midHigh, d);
    var x1 := Digit(high % d, midHigh);
    var q1 := high / d * W16 + x1 / d;
    BringDownDigit(high * W16 + midHigh, q1, x1 % d, midLow, d);
    var x2 := Digit(x1 % d, midLow);
    BringDownDigit((high * W16 + midHigh) * W16 + midLow, q1 * W16 + x2 / d, x2 % d, low, d);
  }

  /** Up to 65536 the 32-bit routines compute the quotient, truncated to 32 bits, and the remainder. */
  lemma SmallDivisor(dividend: nat, divisor: nat)
    requires dividend < W64 && 0 < divisor <= W16
    ensures UInt64Div32(dividend, divisor) == dividend / divisor % W32
    ensures UInt64Mod32(dividend, divisor) == dividend % divisor
  {
    hide Splits, LongDigits;
    Digits64(dividend);
    SmallDigits(dividend / W32 / W16, dividend / W32 % W16, dividend / W16 % W16, dividend % W16, divisor);
    var (q, r) := Digits(dividend, divisor);
    SplitsUnique(dividend, divisor, q, r);
  }

  lemma LostDigits(d: nat)
    requires W16 < d
    ensures LongDigits(1, 0, 0, 0, d) == (0, 0)
  {
    Small(1, d);
    Small(W16, d);
    Small(0, d);
    assert Digit(1, 0) == W16 && Digit(W16, 0) == 0 && Digit(0, 0) == 0;
  }

  /** Above 65536 a carry is lost: 2^48 divides to 0 with remainder 0. */
  lemma LostCarry(divisor: nat)
    requires W16 < divisor < W32
    ensures UInt64Div32(W48, divisor) == 0 && UInt64Mod32(W48, divisor) == 0
    ensures 0 < W48 / divisor < W32
  {
    hide LongDigits;
    LostDigits(divisor);
    QuotientBounds(W48, divisor);
  }

  lemma Small(a: nat, d: nat)
    requires a < d
    ensures a / d == 0 && a % d == a
  {
    Unsplit(a, d);
    SplitsUnique(a, d, 0, a);
  }

  lemma QuotientBounds(a: nat, d: nat)
    requires W16 < d < W32 && a == W48
    ensures 0 < a / d < W32
  {
    var q := a / d;
    Divides(a, d);
    if q >= W32 {
      MulMinus(q, W32, d);
      if q > W32 { MulAtLeast(q - W32, d); }
    }
  }

  /** uint64_div32 is right for every dividend exactly when the divisor is at most 65536. */
  lemma Div32Exact(divisor: nat)
    requires 0 < divisor < W32
    ensures (forall n: nat :: n < W64 ==> UInt64Div32(n, divisor) == n / divisor % W32) <==> divisor <= W16
  {
    if divisor <= W16 {
      forall n: nat | n < W64 ensures UInt64Div32(n, divisor) == n / divisor % W32 {
        SmallDivisor(n, divisor);
      }
    } else {
      LostCarry(divisor);
      assert UInt64Div32(W48, divisor) != W48 / divisor % W32;
    }
  }

  ghost predicate DividesIt(d: int, a: int) {
    exists m :: m * d == a
  }

  /** A divisor of a power of two is a power of two. */
  lemma {:induction false} PowerDivisor(d: nat, n: nat) returns (j: nat)
    requires d > 0 && DividesIt(d, Pow2(n))
    ensures j <= n && d == Pow2(j)
    decreases n
  {
    var m :| m * d == Pow2(n);
    if d == 1 || n == 0 {
      if n == 0 { UnitDivisor(m, d); }
      j := 0;
    } else if d % 2 == 0 {
      var e := d / 2;
      MulDoubled(m, e);
      assert m * e == Pow2(n - 1) by { HalfEqual(m * e, Pow2(n - 1), m * d); }
      j := PowerDivisor(e, n - 1);
      j := j + 1;
    } else {
      OddFactor(m, d, Pow2(n - 1));
      j := PowerDivisor(d, n - 1);
    }
  }

  lemma UnitDivisor(m: int, d: int)
    requires d > 0 && m * d == 1
    ensures d == 1
  {
    if m >= 1 { MulAtLeast(m, d); }
  }

  lemma HalfEqual(x: int, y: int, z: int)
    requires z == 2 * y && z == 2 * x
    ensures x == y
  {
  }

  lemma OddFactor(m: int, d: int, p: int)
    requires d % 2 == 1 && m * d == 2 * p
    ensures DividesIt(d, p)
  {
    var e := d / 2;
    assert m * d == 2 * (m * e) + m by { assert d == 2 * e + 1; }
    assert m % 2 == 0;
    var h := m / 2;
    assert h * d == p by { assert m * d == (2 * h) * d == 2 * (h * d); }
  }

  /** uint64_mod32 works modulo any divisor of 2^32: what it loses in a carry is a multiple of the divisor. */
  lemma CarryVanishes(rem: nat, digit: nat, d: nat, m: nat)
    requires d > 0 && m * d == W32
    ensures Digit(rem, digit) % d == (rem * W16 + digit) % d
  {
    var x := rem * W16 + digit;
    var c := x / W32;
    WordWrap(rem * W16, digit);
    assert x == Digit(rem, digit) + c * W32;
    assert c * W32 == (c * m) * d;
    var y := Digit(rem, digit);
    Divides(y, d);
    BringUp(y, c * m, d);
  }

  lemma WordWrap(a: nat, b: nat)
    ensures (b + a % W32) % W32 == (a + b) % W32
  {
  }

  lemma BringUp(y: nat, k: int, d: nat)
    requires d > 0
    ensures (y + k * d) % d == y % d
  {
    Divides(y, d);
    assert (y / d + k) * d == y / d * d + k * d;
    SplitsUnique(y + k * d, d, y / d + k, y % d);
  }

  lemma BringDownMod(value: nat, digit: nat, d: nat, m: nat)
    requires d > 0 && m * d == W32
    ensures Digit(value % d, digit) % d == (value * W16 + digit) % d
  {
    CarryVanishes(value % d, digit, d, m);
    Divides(value, d);
    assert value * W16 + digit == (value % d) * W16 + digit + (value / d * W16) * d;
    BringUp((value % d) * W16 + digit, value / d * W16, d);
  }

  lemma PowerDigits(high: nat, midHigh: nat, midLow: nat, low: nat, d: nat, m: nat)
    requires d > 0 && m * d == W32
    ensures LongDigits(high, midHigh, midLow, low, d).1 == (((high * W16 + midHigh) * W16 + midLow) * W16 + low) % d
  {
    hide Digit;
    BringDownMod(high, midHigh, d, m);
    BringDownMod(high * W16 + midHigh, midLow, d, m);
    BringDownMod((high * W16 + midHigh) * W16 + midLow, low, d, m);
  }

  lemma {:induction false} Pow2Product(i: nat, j: nat)
    ensures Pow2(i) * Pow2(j) == Pow2(i + j)
    decreases i
  {
    if i > 0 {
      Pow2Product(i - 1, j);
      assert Pow2(i) * Pow2(j) == 2 * (Pow2(i - 1) * Pow2(j));
    }
  }

  lemma {:induction false} Pow2Grows(i: nat, j: nat)
    requires i <= j
    ensures Pow2(i) <= Pow2(j)
    decreases j - i
  {
    if i < j { Pow2Grows(i + 1, j); }
  }

  lemma Words()
    ensures Pow2(16) == W16 && Pow2(32) == W32 && Pow2(48) == W48
  {
    assert Pow2(8) == 256;
    Pow2Product(8, 8);
    Pow2Product(16, 16);
    Pow2Product(16, 32);
  }

  /** Below 2^32, dividing 2^48 and dividing 2^32 are the same: being a power of two. */
  lemma DividesWord(d: nat)
    requires 0 < d < W32 && W48 % d == 0
    ensures exists m: nat :: m * d == W32
  {
    Words();
    Divides(W48, d);
    assert (W48 / d) * d == Pow2(48);
    var j := PowerDivisor(d, 48);
    if j >= 32 { Pow2Grows(32, j); }
    Pow2Product(32 - j, j);
    assert Pow2(32 - j) * d == W32;
  }

  /** uint64_mod32 is right for every dividend exactly when the divisor is at most 65536 or a power of two. */
  lemma Mod32Exact(divisor: nat)
    requires 0 < divisor < W32
    ensures (forall n: nat :: n < W64 ==> UInt64Mod32(n, divisor) == n % divisor)
            <==> divisor <= W16 || W48 % divisor == 0
  {
    if divisor <= W16 {
      forall n: nat | n < W64 ensures UInt64Mod32(n, divisor) == n % divisor {
        SmallDivisor(n, divisor);
      }
    } else if W48 % divisor == 0 {
      DividesWord(divisor);
      var m: nat :| m * divisor == W32;
      forall n: nat | n < W64 ensures UInt64Mod32(n, divisor) == n % divisor {
        Digits64(n);
        PowerDigits(n / W32 / W16, n / W32 % W16, n / W16 % W16, n % W16, divisor, m);
      }
    } else {
      LostCarry(divisor);
      assert UInt64Mod32(W48, divisor) != W48 % divisor;
    }
  }
}
