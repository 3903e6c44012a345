/** The circuit breaker's exponential backoff (internal/sync/fairqueue.go:231-277), computed as the
    program computes it: in 64-bit two's-complement arithmetic that wraps around. */
module Backoff {

  const BREAKER_THRESHOLD: nat := 3

  /** Durations are in nanoseconds: the base is 10 seconds, the cap 5 minutes. */
  const BREAKER_BASE: int := 10_000_000_000
  const BREAKER_MAX: int := 300_000_000_000

  function TimesBase(x: int): int {
    10_000_000_000 * x
  }

  function Pow2(n: nat): (p: nat)
    ensures p >= 1
  {
    if n == 0 then 1 else 2 * Pow2(n - 1)
  }

  /** The int64 that a mathematical integer wraps to. */
  function Wrap64(x: int): int {
    (x + 0x8000_0000_0000_0000) % 0x1_0000_0000_0000_0000 - 0x8000_0000_0000_0000
  }

  /** Go's 1 << k on a 64-bit int: the bit falls out of the word from k = 64 on. */
  function ShiftOne(k: nat): int {
    if k >= 64 then 0 else Wrap64(Pow2(k))
  }

  /** The pause that the breaker computes after n consecutive failures. */
  function BackoffAfter(n: nat): int
    requires n >= BREAKER_THRESHOLD
  {
    var backoff := Wrap64(TimesBase(ShiftOne(n - BREAKER_THRESHOLD)));
    if backoff > BREAKER_MAX then BREAKER_MAX else backoff
  }

  /** The pause that the breaker is documented to compute: it doubles from the base up to the cap. */
  function IdealBackoff(n: nat): int
    requires n >= BREAKER_THRESHOLD
  {
    var backoff := 10_000_000_000 * Pow2(n - 3);
    if backoff > 300_000_000_000 then 300_000_000_000 else backoff
  }

  lemma {:induction false} Pow2Add(a: nat, b: nat)
    ensures Pow2(a + b) == Pow2(a) * Pow2(b)
  {
    if a > 0 {
      Pow2Add(a - 1, b);
      assert Pow2(a + b) == 2 * (Pow2(a - 1) * Pow2(b)) == Pow2(a) * Pow2(b);
    }
  }

  lemma {:induction false} Pow2Monotone(a: nat, b: nat)
    requires a <= b
    ensures Pow2(a) <= Pow2(b)
  {
    if a < b { Pow2Monotone(a, b - 1); }
  }

  /** The powers of two that the proofs name. */
  lemma PowerValues()
    ensures Pow2(1) == 2 && Pow2(10) == 1024 && Pow2(30) == 0x4000_0000 && Pow2(40) == 0x100_0000_0000
    ensures Pow2(54) == 0x40_0000_0000_0000 && Pow2(62) == 0x8000_0000_0000_0000 / 2 && Pow2(63) == 0x8000_0000_0000_0000
  {
    assert Pow2(10) == 1024;
    Pow2Add(10, 10);
    Pow2Add(20, 10);
    Pow2Add(20, 20);
    Pow2Add(40, 10);
    assert Pow2(54) == 16 * Pow2(50);
    Pow2Add(52, 10);
    assert Pow2(52) == 4 * Pow2(50);
    assert Pow2(63) == 2 * Pow2(62);
  }

  function Halve(x: nat, m: nat): nat {
    if m == 0 then x else Halve(x, m - 1) / 2
  }

  /** 9765625 is 5^10, the odd part of the base, since 10^10 is 5^10 * 2^10. Its bit 53 - k is the sign
      bit of the 64-bit product 10^10 * 2^k. */
  predicate SignBitSet(k: nat)
    requires k <= 53
  {
    Halve(9_765_625, 53 - k) % 2 == 1
  }

  lemma {:induction false} HalveSplits(x: nat, m: nat) returns (low: nat)
    ensures low < Pow2(m) && x == Halve(x, m) * Pow2(m) + low
  {
    if m == 0 {
      low := 0;
    } else {
      var low' := HalveSplits(x, m - 1);
      low := HalfStep(Halve(x, m - 1), Pow2(m - 1), low');
    }
  }

  lemma HalfStep(h: nat, p: nat, low: nat) returns (low': nat)
    requires low < p
    ensures low' < 2 * p && h * p + low == h / 2 * (2 * p) + low'
  {
    var half := h / 2;
    assert 2 * half * p == half * (2 * p);
    if h == 2 * half {
      low' := low;
    } else {
      assert h == 2 * half + 1;
      assert h * p == 2 * half * p + p;
      low' := p + low;
    }
  }

  lemma {:induction false} HalveVanishes(x: nat, m: nat, m': nat)
    requires m <= m' && Halve(x, m) == 0
    ensures Halve(x, m') == 0
  {
    if m < m' { HalveVanishes(x, m, m' - 1); }
  }

  lemma HalvedBase()
    ensures Halve(9_765_625, 23) == 1 && Halve(9_765_625, 24) == 0
  {
    assert Halve(9_765_625, 6) == 152_587;
    assert Halve(9_765_625, 12) == 2384;
    assert Halve(9_765_625, 18) == 37;
  }

  /** q * 2^64 does not survive the wrapping. */
  lemma WrapUnique(x: int, q: int, r: int)
    requires x == q * 0x1_0000_0000_0000_0000 + r && -0x8000_0000_0000_0000 <= r < 0x8000_0000_0000_0000
    ensures Wrap64(x) == r
  {
  }

  /** Wrapping the shifted bit before the multiplication makes no difference. */
  lemma ShiftThenMultiply(k: nat)
    requires k < 64
    ensures Wrap64(TimesBase(ShiftOne(k))) == Wrap64(TimesBase(Pow2(k)))
  {
    PowerValues();
    if k < 63 {
      Pow2Monotone(k, 62);
      WrapUnique(Pow2(k), 0, Pow2(k));
    } else {
      WrapUnique(Pow2(63), 1, -0x8000_0000_0000_0000);
    }
  }

  /** The base times 2^k is the odd factor, shifted by k + 10. */
  lemma BaseTimesPower(k: nat)
    ensures TimesBase(Pow2(k)) == 9_765_625 * Pow2(k + 10)
  {
    PowerValues();
    Pow2Add(k, 10);
  }

  /** An odd factor's bits above and below weight m, scaled by p, when m * p is the sign bit. */
  lemma ScaledBits(odd: nat, h: nat, m: nat, c: nat, p: nat)
    requires odd == h * m + c && c < m && m * p == 0x8000_0000_0000_0000
    ensures odd * p == h * 0x8000_0000_0000_0000 + c * p
    ensures c * p + p <= 0x8000_0000_0000_0000
    ensures c >= 1 ==> c * p >= p
  {
    assert odd * p == h * (m * p) + c * p;
    assert m * p == c * p + p + (m - 1 - c) * p;
    if c >= 1 { assert c * p == p + (c - 1) * p; }
  }

  /** The unwrapped product: the bits at and above the sign bit, and the bits below it. */
  lemma ProductBits(k: nat) returns (low: nat)
    requires k <= 53
    ensures TimesBase(Pow2(k)) == Halve(9_765_625, 53 - k) * 0x8000_0000_0000_0000 + low
    ensures low + Pow2(k + 10) <= 0x8000_0000_0000_0000
    ensures SignBitSet(k) || (k < 53 && low >= Pow2(k + 10))
  {
    var h, m, p := Halve(9_765_625, 53 - k), Pow2(53 - k), Pow2(k + 10);
    assert m * p == 0x8000_0000_0000_0000 by {
      PowerValues();
      Pow2Add(53 - k, k + 10);
    }
    var c := HalveSplits(9_765_625, 53 - k);
    ScaledBits(9_765_625, h, m, c, p);
    BaseTimesPower(k);
    if !SignBitSet(k) { OddHasLowBit(k, c); }
    low := c * p;
  }

  /** The wrapped product, as long as a bit of the odd factor is left in the word: the bits below the
      sign bit are kept, and the sign bit counts as -2^63. */
  lemma WrappedProduct(k: nat) returns (low: nat)
    requires k <= 53
    ensures SignBitSet(k) || (k < 53 && low >= Pow2(k + 10))
    ensures low < 0x8000_0000_0000_0000
    ensures Wrap64(TimesBase(ShiftOne(k))) == if SignBitSet(k) then low - 0x8000_0000_0000_0000 else low
  {
    ShiftThenMultiply(k);
    low := ProductBits(k);
    var top := Halve(9_765_625, 53 - k);
    if SignBitSet(k) {
      WrapUnique(TimesBase(Pow2(k)), top / 2 + 1, low - 0x8000_0000_0000_0000);
    } else {
      WrapUnique(TimesBase(Pow2(k)), top / 2, low);
    }
  }

  lemma OddHasLowBit(k: nat, c: nat)
    requires k <= 53 && !SignBitSet(k)
    requires 9_765_625 == Halve(9_765_625, 53 - k) * Pow2(53 - k) + c
    ensures k < 53 && c >= 1
  {
    if k < 53 && c == 0 {
      var h := Halve(9_765_625, 53 - k) * Pow2(52 - k);
      assert Halve(9_765_625, 53 - k) * (2 * Pow2(52 - k)) == 2 * h;
      assert false;
    }
  }

  /** Exactly when the computed pause is the documented one: while a bit of the odd factor is left in
      the word and the sign bit is clear. From the 57th failure on the pause is zero. */
  lemma BackoffIsIdealIff(n: nat)
    requires n >= BREAKER_THRESHOLD
    ensures BackoffAfter(n) == IdealBackoff(n) <==> n <= 56 && !SignBitSet(n - BREAKER_THRESHOLD)
    ensures n > 56 ==> BackoffAfter(n) == 0
  {
    var k := n - BREAKER_THRESHOLD;
    PowerValues();
    if k > 53 {
      LargeShiftVanishes(k);
    } else if k < 30 {
      SmallShiftExact(k);
    } else {
      var low := WrappedProduct(k);
      Pow2Monotone(40, k + 10);
      Pow2Monotone(30, k);
    }
  }

  /** Exactly which failures pause the mirror at all. */
  lemma BackoffPausesIff(n: nat)
    requires n >= BREAKER_THRESHOLD
    ensures BackoffAfter(n) > 0 <==> n <= 56 && !SignBitSet(n - BREAKER_THRESHOLD)
  {
    var k := n - BREAKER_THRESHOLD;
    if k > 53 {
      LargeShiftVanishes(k);
    } else {
      var low := WrappedProduct(k);
    }
  }

  lemma SmallShiftExact(k: nat)
    requires k < 30
    ensures !SignBitSet(k)
    ensures Wrap64(TimesBase(ShiftOne(k))) == TimesBase(Pow2(k))
  {
    HalvedBase();
    HalveVanishes(9_765_625, 24, 53 - k);
    PowerValues();
    ShiftThenMultiply(k);
    assert Pow2(30) == 2 * Pow2(29);
    Pow2Monotone(k, 29);
    WrapUnique(TimesBase(Pow2(k)), 0, TimesBase(Pow2(k)));
  }

  lemma LargeShiftVanishes(k: nat)
    requires k > 53
    ensures Wrap64(TimesBase(ShiftOne(k))) == 0
  {
    if k < 64 {
      PowerValues();
      ShiftThenMultiply(k);
      BaseTimesPower(k);
      Pow2Add(54, k - 54);
      Pow2Add(k, 10);
      WrapUnique(TimesBase(Pow2(k)), 9_765_625 * Pow2(k - 54), 0);
    }
  }

  /** From the 3rd to the 32nd failure the pause is the documented one, between the base and the cap,
      and never shorter than after fewer failures. */
  lemma BackoffWithinWord(n: nat, n': nat)
    requires BREAKER_THRESHOLD <= n <= n' <= 32
    ensures BackoffAfter(n') == IdealBackoff(n')
    ensures BREAKER_BASE <= BackoffAfter(n) <= BackoffAfter(n') <= BREAKER_MAX
  {
    SmallShiftExact(n - BREAKER_THRESHOLD);
    SmallShiftExact(n' - BREAKER_THRESHOLD);
    Pow2Monotone(n - BREAKER_THRESHOLD, n' - BREAKER_THRESHOLD);
  }

  /** 32 is the last such count: the 33rd failure makes the product negative, so the mirror is not
      paused at all. */
  lemma BackoffBreaksAt33()
    ensures BackoffAfter(33) < 0 < IdealBackoff(33)
  {
    var low := WrappedProduct(30);
    HalvedBase();
    PowerValues();
  }
}
