/**
 Conversion of 64-bit to 16-bit floating point numbers, as done by `f64_to_f16`.

 Bit patterns are natural numbers. A magnitude (the exact value of a pattern without its sign bit) is
 a whole number of units of 2^-1074, the smallest positive double, so both formats are measured
 exactly and in the same unit.
 */
module Float16 {
  import opened Bits

  const TWO_52 := 0x10_0000_0000_0000
  const TWO_42 := 0x400_0000_0000
  const TWO_64 := 0x1_0000_0000_0000_0000

  const F64_SIGN := 0x8000_0000_0000_0000
  const F64_INFINITY := 0x7FF0_0000_0000_0000
  const F16_SIGN := 0x8000
  const F16_INFINITY := 0x7C00
  const F16_NAN := 0x7E00

  lemma ShlBy42(a: nat, n: nat)
    ensures Shl(a, n + 42) == Shl(a * TWO_42, n)
  {
    ShlBy7(a, 0);
    ShlBy7(a, 7);
    ShlBy7(a, 14);
    ShlBy7(a, 21);
    ShlBy7(a, 28);
    ShlBy7(a, 35);
    ShlShl(a, 42, n);
  }

  // ----- Rounding to the nearest pattern -----

  function Distance(a: nat, b: nat): nat {
    if a <= b then b - a else a - b
  }

  ghost predicate Increasing(mag: nat -> nat) {
    forall h: nat, k: nat | h < k :: mag(h) < mag(k)
  }

  lemma Increases(mag: nat -> nat, h: nat, k: nat)
    requires Increasing(mag)
    ensures h < k ==> mag(h) < mag(k)
  {}

  /** r is the pattern, among 0..infinity, whose magnitude is nearest to v, ties going to the even one. */
  ghost predicate NearestEven(mag: nat -> nat, infinity: nat, v: nat, r: nat) {
    && r <= infinity
    && forall h: nat | h <= infinity && h != r ::
         var near, far := Distance(v, mag(r)), Distance(v, mag(h));
         near < far || (near == far && r % 2 == 0)
  }

  /** Whether q units and a remainder round up to q + 1 units. */
  predicate RoundsUp(q: nat, remainder: nat, unit: nat) {
    2 * remainder > unit || (2 * remainder == unit && q % 2 == 1)
  }

  /** Rounding between two neighbouring patterns is rounding in the whole format. */
  lemma RoundFrom(mag: nat -> nat, infinity: nat, v: nat, h: nat, r: nat)
    requires Increasing(mag) && h < infinity && mag(h) <= v < mag(h + 1)
    requires r == if RoundsUp(h, v - mag(h), mag(h + 1) - mag(h)) then h + 1 else h
    ensures NearestEven(mag, infinity, v, r)
  {
    forall k: nat | k <= infinity && k != r
      ensures var near, far := Distance(v, mag(r)), Distance(v, mag(k));
              near < far || (near == far && r % 2 == 0)
    {
      assert k < h ==> mag(k) < mag(h);
      assert k > h + 1 ==> mag(h + 1) < mag(k);
    }
  }

  lemma NearestEvenUnique(mag: nat -> nat, infinity: nat, v: nat, r: nat, s: nat)
    requires Increasing(mag)
    requires NearestEven(mag, infinity, v, r) && NearestEven(mag, infinity, v, s)
    ensures r == s
  {
    var lo, hi := if r < s then r else s, if r < s then s else r;
    Increases(mag, lo, lo + 1);
    Increases(mag, lo + 1, hi);
  }

  /** Two formats that agree, up to an even offset, around q round a value the same way. */
  lemma RoundTogether(f: nat -> nat, fInfinity: nat, g: nat -> nat, gInfinity: nat,
                      v: nat, q: nat, base: nat, offset: nat, sum: nat)
    requires Increasing(f) && Increasing(g)
    requires q < fInfinity && base + q < gInfinity && base % 2 == 0
    requires f(q) <= v < f(q + 1)
    requires g(base + q) == offset + f(q) && g(base + q + 1) == offset + f(q + 1)
    requires NearestEven(g, gInfinity, v + offset, sum)
    ensures base <= sum <= base + q + 1
    ensures NearestEven(f, fInfinity, v, sum - base)
  {
    var r := if RoundsUp(q, v - f(q), f(q + 1) - f(q)) then q + 1 else q;
    var w, h, s := v + offset, base + q, base + r;
    RoundFrom(f, fInfinity, v, q, r);
    assert RoundsUp(h, w - g(h), g(h + 1) - g(h)) == RoundsUp(q, v - f(q), f(q + 1) - f(q));
    RoundFrom(g, gInfinity, w, h, s);
    NearestEvenUnique(g, gInfinity, w, sum, s);
  }

  lemma NearestEvenMonotone(mag: nat -> nat, infinity: nat, v: nat, w: nat, r: nat, s: nat)
    requires Increasing(mag) && v <= w
    requires NearestEven(mag, infinity, v, r) && NearestEven(mag, infinity, w, s)
    ensures r <= s
  {
    if s < r {
      assert mag(s) < mag(r);
      if v == w {
        NearestEvenUnique(mag, infinity, v, r, s);
      }
    }
  }

  lemma NearestToItself(mag: nat -> nat, infinity: nat, h: nat)
    requires Increasing(mag) && h <= infinity
    ensures NearestEven(mag, infinity, mag(h), h)
  {
    forall k: nat | k <= infinity && k != h
      ensures Distance(mag(h), mag(k)) > 0
    {
      assert if h < k then mag(h) < mag(k) else mag(k) < mag(h);
    }
  }

  lemma NearestInfinity(mag: nat -> nat, infinity: nat, v: nat, r: nat)
    requires Increasing(mag) && infinity > 0 && infinity % 2 == 0
    requires NearestEven(mag, infinity, v, r)
    ensures r == infinity <==> 2 * v >= mag(infinity - 1) + mag(infinity)
  {
    assert mag(infinity - 1) < mag(infinity);
    assert r < infinity - 1 ==> mag(r) < mag(infinity - 1);
  }

  // ----- The two formats -----

  /** The exact magnitude of a pattern with m mantissas, in units of the format's smallest positive
      number: subnormal numbers and the first binade are their own patterns, and each further step
      of the exponent field doubles the value. Infinity counts as the power of two that would follow
      the largest finite number, which is how section 4.3.1 of IEEE 754-2019 lets it take part in
      rounding. */
  function Mag(m: nat, h: nat): nat
    requires m > 0
    decreases h
  {
    if h < 2 * m then h else 2 * Mag(m, h - m)
  }

  function Mag64(h: nat): nat { Mag(TWO_52, h) }

  /** The smallest positive half-precision number is 2^-24. */
  function Mag16(h: nat): nat { Shl(Mag(0x400, h), 1050) }

  /** k steps of the exponent field above q. */
  function Pattern(m: nat, k: nat, q: nat): nat {
    if k == 0 then q else m + Pattern(m, k - 1, q)
  }

  lemma {:induction false} PatternValue(k: nat, q: nat)
    ensures Pattern(TWO_52, k, q) == k * TWO_52 + q && Pattern(0x400, k, q) == k * 0x400 + q
  {
    if k > 0 {
      PatternValue(k - 1, q);
    }
  }

  /** A normal number is its significand, hidden bit included, scaled by its exponent; consecutive
      patterns are one ulp apart, also across a change of binade. */
  lemma {:induction false} SignificandAndExponent(m: nat, k: nat, q: nat)
    requires m > 0 && q < 2 * m && (k > 0 ==> q >= m)
    ensures Mag(m, Pattern(m, k, q)) == Shl(q, k)
    ensures Mag(m, Pattern(m, k, q) + 1) == Shl(q + 1, k) == Shl(q, k) + Shl(1, k)
  {
    ShlAdd(q, 1, k);
    if k > 0 {
      SignificandAndExponent(m, k - 1, q);
      PatternAtLeast(m, k - 1, q);
    }
  }

  lemma {:induction false} PatternAtLeast(m: nat, k: nat, q: nat)
    ensures Pattern(m, k, q) >= q
  {
    if k > 0 {
      PatternAtLeast(m, k - 1, q);
    }
  }

  lemma {:induction false} MagIncreases(m: nat, h: nat, k: nat)
    requires m > 0 && h < k
    ensures Mag(m, h) < Mag(m, k)
    decreases k
  {
    if k >= 2 * m {
      if h >= 2 * m {
        MagIncreases(m, h - m, k - m);
      } else if k > 2 * m {
        MagIncreases(m, m, k - m);
      }
    }
  }

  lemma MagnitudesIncrease()
    ensures Increasing(Mag64) && Increasing(Mag16)
  {
    forall h: nat, k: nat | h < k ensures Mag64(h) < Mag64(k) && Mag16(h) < Mag16(k) {
      MagIncreases(TWO_52, h, k);
      MagIncreases(0x400, h, k);
      ShlOrder(Mag(0x400, h), Mag(0x400, k), 1050);
    }
  }

  // ----- Addition of non-negative doubles -----

  /** How far a magnitude must be shifted right to leave fewer than 2 * m. */
  function Binade(m: nat, v: nat): (b: nat)
    requires m > 0
    ensures Shr(v, b) < 2 * m && (b > 0 ==> Shr(v, b) >= m)
    decreases v
  {
    if v < 2 * m then 0 else
      var b := 1 + Binade(m, v / 2);
      ShrHalf(v, b);
      b
  }

  lemma {:induction false} ShrHalf(v: nat, n: nat)
    requires n > 0
    ensures Shr(v, n) == Shr(v / 2, n - 1)
  {
    if n > 1 {
      ShrHalf(v, n - 1);
    }
  }

  /** The hardware addition of two finite non-negative doubles: the exact sum, correctly rounded
      (section 4.3.1 of IEEE 754-2019). */
  method AddF64(a: nat, b: nat) returns (r: nat)
    requires Mag64(a) + Mag64(b) < Mag64(F64_INFINITY)
    ensures NearestEven(Mag64, F64_INFINITY, Mag64(a) + Mag64(b), r)
  {
    var v := Mag64(a) + Mag64(b);
    var shift := Binade(TWO_52, v);
    var q := Shr(v, shift);
    ShrBounds(v, shift);
    var h := shift * TWO_52 + q;
    r := if RoundsUp(q, v - Shl(q, shift), Shl(1, shift)) then h + 1 else h;
    RoundSum(v, shift, q, h, r);
  }

  lemma RoundSum(v: nat, shift: nat, q: nat, h: nat, r: nat)
    requires v < Mag64(F64_INFINITY) && h == shift * TWO_52 + q
    requires q < 2 * TWO_52 && (shift > 0 ==> q >= TWO_52)
    requires Shl(q, shift) <= v < Shl(q + 1, shift)
    requires r == if RoundsUp(q, v - Shl(q, shift), Shl(1, shift)) then h + 1 else h
    ensures NearestEven(Mag64, F64_INFINITY, v, r)
  {
    PatternValue(shift, q);
    SignificandAndExponent(TWO_52, shift, q);
    EvenMultiple(shift, q);
    Round64(v, h, r);
  }

  lemma EvenMultiple(k: nat, q: nat)
    ensures (k * TWO_52 + q) % 2 == q % 2
  {}

  lemma Round64(v: nat, h: nat, r: nat)
    requires Mag64(h) <= v < Mag64(h + 1) && v < Mag64(F64_INFINITY)
    requires r == if RoundsUp(h, v - Mag64(h), Mag64(h + 1) - Mag64(h)) then h + 1 else h
    ensures NearestEven(Mag64, F64_INFINITY, v, r)
  {
    MagnitudesIncrease();
    Increases(Mag64, F64_INFINITY, h);
    RoundFrom(Mag64, F64_INFINITY, v, h, r);
  }

  lemma Round16(v: nat, h: nat, r: nat)
    requires h < F16_INFINITY && Mag16(h) <= v < Mag16(h + 1)
    requires r == if RoundsUp(h, v - Mag16(h), Mag16(h + 1) - Mag16(h)) then h + 1 else h
    ensures NearestEven(Mag16, F16_INFINITY, v, r)
  {
    MagnitudesIncrease();
    RoundFrom(Mag16, F16_INFINITY, v, h, r);
  }

  // ----- The conversion -----

  /** Doubles from here on become infinity: 2^16. */
  const INFINITY_THRESHOLD := (1023 + 16) * TWO_52

  /** Doubles from here on become normal half-precision numbers: 2^-14. */
  const NORMAL_THRESHOLD := (1023 - 14) * TWO_52

  const DENORMAL_MAGIC := (1023 - 14 + 52 - 10) * TWO_52
  const NORMAL_MAGIC := ((TWO_64 + 15 - 1023) * TWO_52) % TWO_64 + 0x200_0000_0000 - 1

  function WrappingAdd(a: nat, b: nat): nat
    requires a < TWO_64 && b < TWO_64
  {
    if a + b < TWO_64 then a + b else a + b - TWO_64
  }

  function WrappingSub(a: nat, b: nat): nat
    requires a < TWO_64 && b < TWO_64
  {
    if a >= b then a - b else a + TWO_64 - b
  }

  /** What the conversion promises: every NaN becomes the canonical NaN, every other double the nearest
      half-precision number, ties to even and with overflow to infinity; the sign is kept. */
  ghost predicate Converts(value: nat, bits: nat) {
    var input := value % F64_SIGN;
    && value < TWO_64
    && bits < 0x1_0000
    && bits / F16_SIGN == value / F64_SIGN
    && (input > F64_INFINITY ==> bits % F16_SIGN == F16_NAN)
    && (input <= F64_INFINITY ==> NearestEven(Mag16, F16_INFINITY, Mag64(input), bits % F16_SIGN))
  }

  method F64ToF16(value: nat) returns (bits: nat)
    requires value < TWO_64
    ensures Converts(value, bits)
  {
    var sign := value / F64_SIGN;
    var input := value % F64_SIGN;
    var result := ConvertMagnitude(input);
    bits := sign * F16_SIGN + result;
    assert bits % F16_SIGN == result && bits / F16_SIGN == sign;
  }

  /** The conversion of a pattern whose sign has been removed. */
  method ConvertMagnitude(input: nat) returns (result: nat)
    requires input < F64_SIGN
    ensures result < F16_SIGN
    ensures input > F64_INFINITY ==> result == F16_NAN
    ensures input <= F64_INFINITY ==> NearestEven(Mag16, F16_INFINITY, Mag64(input), result)
  {
    if input > F64_INFINITY {
      return F16_NAN;
    }
    if input >= INFINITY_THRESHOLD {
      OverflowToInfinity(input);
      return F16_INFINITY;
    }
    if input < NORMAL_THRESHOLD {
      result := ConvertDenormal(input);
      return;
    }
    var isMantissaOdd := (input / TWO_42) % 2;
    var rounded := WrappingAdd(input, NORMAL_MAGIC);
    rounded := WrappingAdd(rounded, isMantissaOdd);
    result := (rounded / TWO_42) % 0x1_0000;
    NormalTrick(input, isMantissaOdd, result);
  }

  /** Doubles below 2^-14: the hardware addition of a large power of two does the rounding. */
  method ConvertDenormal(input: nat) returns (result: nat)
    requires input < NORMAL_THRESHOLD
    ensures result <= 0x400
    ensures NearestEven(Mag16, F16_INFINITY, Mag64(input), result)
  {
    DenormalSumIsFinite(input, DENORMAL_MAGIC);
    var adjusted := AddF64(input, DENORMAL_MAGIC);
    DenormalAddition(input, DENORMAL_MAGIC, adjusted);
    result := WrappingSub(adjusted, DENORMAL_MAGIC) % 0x1_0000;
  }

  lemma OverflowToInfinity(input: nat)
    requires INFINITY_THRESHOLD <= input
    ensures NearestEven(Mag16, F16_INFINITY, Mag64(input), F16_INFINITY)
  {
    ThresholdIsInfinity(INFINITY_THRESHOLD, F16_INFINITY);
    MagnitudesIncrease();
    Increases(Mag64, INFINITY_THRESHOLD, input);
    NearestAbove(Mag16, F16_INFINITY, Mag64(input));
  }

  lemma ThresholdIsInfinity(t: nat, h: nat)
    requires t == INFINITY_THRESHOLD && h == F16_INFINITY
    ensures Mag64(t) == Mag16(h)
  {
    var a, k, m, n := 1038, 30, TWO_52, 0x400;
    SignificandAndExponent(m, a, m);
    PatternValue(a, m);
    SignificandAndExponent(n, k, n);
    PatternValue(k, n);
    ShlShl(n, k, 1050);
    ShlBy42(n, a);
  }

  lemma NearestAbove(mag: nat -> nat, infinity: nat, v: nat)
    requires Increasing(mag) && v >= mag(infinity)
    ensures NearestEven(mag, infinity, v, infinity)
  {
    forall h: nat | h <= infinity && h != infinity
      ensures Distance(v, mag(infinity)) < Distance(v, mag(h))
    {
      assert mag(h) < mag(infinity);
    }
  }

  lemma DenormalSumIsFinite(input: nat, magic: nat)
    requires input < NORMAL_THRESHOLD && magic == DENORMAL_MAGIC
    ensures Mag64(input) + Mag64(magic) < Mag64(F64_INFINITY)
  {
    MagIncreases(TWO_52, input, magic);
    assert Mag64(magic + TWO_52) == 2 * Mag64(magic);
    MagIncreases(TWO_52, magic + TWO_52, F64_INFINITY);
  }

  /** The magic addition leaves the input, rounded to units of 2^-24, above the magic number; and in
      these units a small half-precision number is its own pattern. */
  lemma DenormalAddition(input: nat, magic: nat, sum: nat)
    requires input < NORMAL_THRESHOLD && magic == DENORMAL_MAGIC
    requires NearestEven(Mag64, F64_INFINITY, Mag64(input) + Mag64(magic), sum)
    ensures magic <= sum <= magic + 0x400
    ensures NearestEven(Mag16, F16_INFINITY, Mag64(input), sum - magic)
  {
    var q := DenormalQuotient(input);
    DenormalShape(magic, q);
    MagnitudesIncrease();
    RoundTogether(Mag16, F16_INFINITY, Mag64, F64_INFINITY, Mag64(input), q, magic, Mag64(magic), sum);
  }

  lemma DenormalQuotient(input: nat) returns (q: nat)
    requires input < NORMAL_THRESHOLD
    ensures q < 0x400 && Mag16(q) <= Mag64(input) < Mag16(q + 1)
  {
    var v := Mag64(input);
    MagIncreases(TWO_52, input, NORMAL_THRESHOLD);
    NormalThreshold(1008, NORMAL_THRESHOLD);
    q := Shr(v, 1050);
    ShrBounds(v, 1050);
    ShlOrder(q, 0x400, 1050);
    assert Mag(0x400, q) == q && Mag(0x400, q + 1) == q + 1;
  }

  lemma NormalThreshold(a: nat, t: nat)
    requires a == 1008 && t == NORMAL_THRESHOLD
    ensures Mag64(t) == Shl(0x400, a + 42)
  {
    SignificandAndExponent(TWO_52, a, TWO_52);
    PatternValue(a, TWO_52);
    ShlBy42(0x400, a);
  }

  lemma DenormalShape(magic: nat, q: nat)
    requires magic == DENORMAL_MAGIC && q < 0x400
    ensures Mag64(magic + q) == Mag64(magic) + Mag16(q)
    ensures Mag64(magic + q + 1) == Mag64(magic) + Mag16(q + 1)
  {
    var b := 1050;
    SignificandAndExponent(TWO_52, b, TWO_52);
    PatternValue(b, TWO_52);
    SignificandAndExponent(TWO_52, b, TWO_52 + q);
    PatternValue(b, TWO_52 + q);
    ShlAdd(TWO_52, q, b);
    ShlAdd(q, 1, b);
    assert Mag(0x400, q) == q && Mag(0x400, q + 1) == q + 1;
  }

  /** In the normal range the bit trick rounds the significand, split into its top eleven bits and
      its low 42 bits. */
  lemma NormalTrick(input: nat, odd: nat, result: nat)
    requires NORMAL_THRESHOLD <= input < INFINITY_THRESHOLD && odd == (input / TWO_42) % 2
    requires result == (WrappingAdd(WrappingAdd(input, NORMAL_MAGIC), odd) / TWO_42) % 0x1_0000
    ensures result < F16_SIGN && NearestEven(Mag16, F16_INFINITY, Mag64(input), result)
  {
    var e, top, low := input / TWO_52, (input / TWO_42) % 0x400, input % TWO_42;
    assert input == (e * 0x400 + top) * TWO_42 + low;
    TrickArithmetic(input, e, top, low, odd, result);
    NormalRounding(input, e - 1, top, low, (e - 1008) * 0x400 + top, result);
  }

  lemma TrickArithmetic(input: nat, e: nat, top: nat, low: nat, odd: nat, result: nat)
    requires 1009 <= e < 1039 && top < 0x400 && low < TWO_42
    requires input == (e * 0x400 + top) * TWO_42 + low && odd == (input / TWO_42) % 2
    requires result == (WrappingAdd(WrappingAdd(input, NORMAL_MAGIC), odd) / TWO_42) % 0x1_0000
    ensures var h := (e - 1008) * 0x400 + top;
            result == if RoundsUp(h, low, TWO_42) then h + 1 else h
  {
    var h := (e - 1008) * 0x400 + top;
    var x := h * TWO_42 + low + 0x200_0000_0000 - 1;
    assert odd == h % 2;
    assert input + NORMAL_MAGIC == TWO_64 + x;
    assert WrappingAdd(WrappingAdd(input, NORMAL_MAGIC), odd) == x + odd;
    HalfUp(h, low, odd);
  }

  /** Adding just under half, and the low bit of the quotient, rounds to nearest even. */
  lemma HalfUp(h: nat, low: nat, odd: nat)
    requires low < TWO_42 && odd == h % 2
    ensures (h * TWO_42 + low + 0x200_0000_0000 - 1 + odd) / TWO_42
         == if RoundsUp(h, low, TWO_42) then h + 1 else h
  {}

  lemma NormalRounding(input: nat, a: nat, top: nat, low: nat, h: nat, result: nat)
    requires 1008 <= a < 1038 && top < 0x400 && low < TWO_42
    requires input == ((a + 1) * 0x400 + top) * TWO_42 + low && h == (a - 1007) * 0x400 + top
    requires result == if RoundsUp(h, low, TWO_42) then h + 1 else h
    ensures NearestEven(Mag16, F16_INFINITY, Mag64(input), result)
  {
    NormalShape(input, a, top, low, h);
    ShlAdd(low, low, a);
    ShlOrder(low, TWO_42, a);
    ShlOrder(TWO_42, 2 * low, a);
    Round16(Mag64(input), h, result);
  }

  lemma NormalShape(input: nat, a: nat, top: nat, low: nat, h: nat)
    requires 1008 <= a < 1038 && top < 0x400 && low < TWO_42
    requires input == ((a + 1) * 0x400 + top) * TWO_42 + low && h == (a - 1007) * 0x400 + top
    ensures Mag64(input) == Mag16(h) + Shl(low, a)
    ensures Mag16(h + 1) == Mag16(h) + Shl(TWO_42, a)
  {
    var q, k := 0x400 + top, a - 1008;
    NormalDouble(input, a, q, low);
    NormalHalf(h, k, q, a);
  }

  lemma NormalDouble(input: nat, a: nat, q: nat, low: nat)
    requires 0x400 <= q < 0x800 && low < TWO_42 && input == a * TWO_52 + q * TWO_42 + low
    ensures Mag64(input) == Shl(q, a + 42) + Shl(low, a)
  {
    var s := q * TWO_42 + low;
    PatternValue(a, s);
    SignificandAndExponent(TWO_52, a, s);
    ShlAdd(q * TWO_42, low, a);
    ShlBy42(q, a);
  }

  lemma NormalHalf(h: nat, k: nat, q: nat, a: nat)
    requires 0x400 <= q < 0x800 && h == k * 0x400 + q && a == k + 1008
    ensures Mag16(h) == Shl(q, a + 42) && Mag16(h + 1) == Mag16(h) + Shl(TWO_42, a)
  {
    PatternValue(k, q);
    SignificandAndExponent(0x400, k, q);
    ShlShl(q, k, 1050);
    ShlShl(1, k, 1050);
    ShlAdd(Shl(q, k), Shl(1, k), 1050);
    assert 1050 + k == a + 42;
    ShlBy42(1, a);
  }

  // ----- Consequences -----

  /** The promise determines the result. */
  lemma ConvertsUnique(value: nat, r: nat, s: nat)
    requires Converts(value, r) && Converts(value, s)
    ensures r == s
  {
    MagnitudesIncrease();
    var input := value % F64_SIGN;
    if input <= F64_INFINITY {
      NearestEvenUnique(Mag16, F16_INFINITY, Mag64(input), r % F16_SIGN, s % F16_SIGN);
    }
  }

  /** The pattern is a number, infinity included, of either sign. */
  predicate IsNumber64(a: nat) { a < TWO_64 && a % F64_SIGN <= F64_INFINITY }

  predicate IsNumber16(h: nat) { h < 0x1_0000 && h % F16_SIGN <= F16_INFINITY }

  function Signed(isPositive: bool, magnitude: int): int {
    if isPositive then magnitude else -magnitude
  }

  /** The signed value of a pattern; the two zeros have the same. */
  function Value64(a: nat): int {
    Signed(a / F64_SIGN == 0, Mag64(a % F64_SIGN))
  }

  function Value16(h: nat): int {
    Signed(h / F16_SIGN == 0, Mag16(h % F16_SIGN))
  }

  /** Numbers become numbers, and everything else NaN. */
  lemma ConvertsKind(a: nat, r: nat)
    requires Converts(a, r)
    ensures IsNumber16(r) <==> IsNumber64(a)
  {}

  lemma MagnitudeOrder(h: nat, k: nat)
    requires h <= k
    ensures Mag16(h) <= Mag16(k)
  {
    MagnitudesIncrease();
    Increases(Mag16, h, k);
  }

  /** Conversion keeps the order of magnitudes. */
  lemma MagnitudesMonotone(v: nat, w: nat, r: nat, s: nat)
    requires v <= w && NearestEven(Mag16, F16_INFINITY, v, r) && NearestEven(Mag16, F16_INFINITY, w, s)
    ensures Mag16(r) <= Mag16(s)
  {
    MagnitudesIncrease();
    NearestEvenMonotone(Mag16, F16_INFINITY, v, w, r, s);
    MagnitudeOrder(r, s);
  }

  lemma ZeroIsNearestZero(r: nat)
    requires NearestEven(Mag16, F16_INFINITY, 0, r)
    ensures Mag16(r) == 0
  {
    MagnitudesIncrease();
    ShlPositive(1050);
    assert Mag16(0) == 0;
    NearestToItself(Mag16, F16_INFINITY, 0);
    NearestEvenUnique(Mag16, F16_INFINITY, 0, r, 0);
  }

  /** A larger double, of any sign, never becomes a smaller half-precision number. */
  lemma ConvertsMonotone(a: nat, b: nat, r: nat, s: nat)
    requires IsNumber64(a) && IsNumber64(b) && Value64(a) <= Value64(b)
    requires Converts(a, r) && Converts(b, s)
    ensures Value16(r) <= Value16(s)
  {
    var v, w := Mag64(a % F64_SIGN), Mag64(b % F64_SIGN);
    SignedMonotone(a / F64_SIGN == 0, b / F64_SIGN == 0, v, w, r % F16_SIGN, s % F16_SIGN);
  }

  lemma SignedMonotone(p: bool, q: bool, v: nat, w: nat, r: nat, s: nat)
    requires Signed(p, v) <= Signed(q, w)
    requires NearestEven(Mag16, F16_INFINITY, v, r) && NearestEven(Mag16, F16_INFINITY, w, s)
    ensures Signed(p, Mag16(r)) <= Signed(q, Mag16(s))
  {
    if p && q {
      MagnitudesMonotone(v, w, r, s);
    } else if !p && !q {
      MagnitudesMonotone(w, v, s, r);
    } else if p {
      ZeroIsNearestZero(r);
      ZeroIsNearestZero(s);
    }
  }

  /** A double of either sign that is exactly a half-precision number becomes that number. */
  lemma ConvertsExactly(a: nat, h: nat, r: nat)
    requires IsNumber64(a) && IsNumber16(h) && Converts(a, r)
    requires a / F64_SIGN == h / F16_SIGN && Value64(a) == Value16(h)
    ensures r == h
  {
    MagnitudesIncrease();
    var m := h % F16_SIGN;
    NearestToItself(Mag16, F16_INFINITY, m);
    NearestEvenUnique(Mag16, F16_INFINITY, Mag16(m), r % F16_SIGN, m);
  }

  /** Overflow starts, for either sign, exactly half an ulp above the largest finite number, at 65520. */
  lemma OverflowThreshold(a: nat, r: nat)
    requires IsNumber64(a) && Converts(a, r)
    ensures r % F16_SIGN == F16_INFINITY <==>
              2 * Mag64(a % F64_SIGN) >= Mag16(F16_INFINITY - 1) + Mag16(F16_INFINITY)
  {
    MagnitudesIncrease();
    NearestInfinity(Mag16, F16_INFINITY, Mag64(a % F64_SIGN), r % F16_SIGN);
  }

  // ----- Every half-precision number is a double -----

  /** The shift that turns a small number into a significand of 53 bits. */
  lemma {:induction false} Normalize(q: nat, n: nat) returns (j: nat)
    requires q < 2 * TWO_52 && Shl(q, n) >= TWO_52
    ensures j <= n && TWO_52 <= Shl(q, j) < 2 * TWO_52
    decreases n
  {
    if q >= TWO_52 {
      j := 0;
    } else {
      DoubleShl(q, n - 1);
      var i := Normalize(2 * q, n - 1);
      DoubleShl(q, i);
      j := i + 1;
    }
  }

  lemma DoubleShl(q: nat, n: nat)
    ensures Shl(2 * q, n) == Shl(q, n + 1)
  {
    ShlAdd(q, q, n);
  }

  lemma OneBy52(n: nat)
    requires n == 52
    ensures Shl(1, n) == TWO_52
  {
    var one, ten := 1, 10;
    ShlBy42(one, ten);
    assert n == ten + 42;
    ShlBy7(TWO_42, 0);
    ShlBy7(TWO_42, 3);
    var start := TWO_42;
    assert Shl(start, 1) == 2 * start;
    assert Shl(start, 2) == 4 * start;
    assert Shl(start, 3) == 8 * start;
  }

  /** A significand of few bits, scaled, is a double. */
  lemma ScaledIsDouble(q: nat, e: nat) returns (a: nat)
    requires q < 0x800 && 1050 <= e <= 1080
    ensures a <= F64_INFINITY && Mag64(a) == Shl(q, e)
  {
    if q == 0 {
      a := 0;
      ShlPositive(e);
    } else {
      var n := 52;
      OneBy52(n);
      ShlOrder(q, 1, n);
      var j := Normalize(q, n);
      var significand, k := Shl(q, j), e - j;
      a := Pattern(TWO_52, k, significand);
      PatternValue(k, significand);
      SignificandAndExponent(TWO_52, k, significand);
      ShlShl(q, j, k);
      assert k + j == e;
    }
  }

  /** Each half-precision magnitude is that of a double. */
  lemma HalfIsDouble(h: nat) returns (a: nat)
    requires h <= F16_INFINITY
    ensures a <= F64_INFINITY && Mag64(a) == Mag16(h)
  {
    var k, q := if h < 0x800 then 0 else h / 0x400 - 1, if h < 0x800 then h else h % 0x400 + 0x400;
    PatternValue(k, q);
    SignificandAndExponent(0x400, k, q);
    var base := 1050;
    ShlShl(q, k, base);
    assert Mag16(h) == Shl(q, base + k);
    a := ScaledIsDouble(q, base + k);
  }

  /** Every half-precision number, of either sign, is the conversion of a double with the same value. */
  lemma EveryHalfIsConverted(h: nat) returns (a: nat)
    requires IsNumber16(h)
    ensures IsNumber64(a) && a / F64_SIGN == h / F16_SIGN && Value64(a) == Value16(h)
    ensures forall r | Converts(a, r) :: r == h
  {
    var m := HalfIsDouble(h % F16_SIGN);
    a := h / F16_SIGN * F64_SIGN + m;
    assert a % F64_SIGN == m && a / F64_SIGN == h / F16_SIGN;
    forall r | Converts(a, r)
      ensures r == h
    {
      ConvertsExactly(a, h, r);
    }
  }
}
