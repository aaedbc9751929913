/** When an FP8 code is the nearest one to its value. */
module Fp8Nearest {
  import opened Basics
  import opened Division
  import opened Fp8
  import opened Fp8Laws

  ghost function Step(fmt: Format, j: int): real {
    match fmt case E4M3 => 1.0 + j as real / 8.0 case E5M2 => 1.0 + j as real / 4.0
  }

  /** Among the mantissas that are whole units, the rounded one is nearest. */
  lemma NearestUnit(fmt: Format, m: int, j: int)
    requires 0 <= m < HIDDEN && 0 <= j <= fmt.Top()
    ensures Apart(2 * fmt.Half() * Rounded(fmt, m), m) <= Apart(2 * fmt.Half() * j, m)
  {
    match fmt case E4M3 => case E5M2 =>
  }

  ghost function Apart(a: int, b: int): int {
    if a < b then b - a else a - b
  }

  /** Among the significands of a binade, both ends included, the rounded one is nearest. */
  lemma NearestStep(fmt: Format, f: F32, j: int)
    requires f.IsNormal() && 0 <= j <= fmt.Top()
    ensures Dist(Nearby(fmt, f), Significand(f)) <= Dist(Step(fmt, j), Significand(f))
  {
    NearestUnit(fmt, f.mant, j);
    InUnits(fmt, f.mant, Rounded(fmt, f.mant));
    InUnits(fmt, f.mant, j);
  }

  lemma InUnits(fmt: Format, m: int, j: int)
    ensures Dist(Step(fmt, j), 1.0 + m as real / 8388608.0) == Apart(2 * fmt.Half() * j, m) as real / 8388608.0
  {
    match fmt case E4M3 => case E5M2 =>
  }

  lemma DistScaled(a: real, b: real, k: int)
    ensures Dist(Ldexp(a, k), Ldexp(b, k)) == Ldexp(Dist(a, b), k)
  {
    Monotone(a, b, k);
    Monotone(b, a, k);
    Linear(a, b, k);
    Linear(b, a, k);
  }

  lemma NearestInBinade(fmt: Format, f: F32, j: int)
    requires f.IsNormal() && 0 < Shifted(fmt, f) < fmt.ExpMax() && 0 <= j <= fmt.Top()
    ensures Dist(CodeOf(fmt, f), Magnitude(f)) <= Dist(Ldexp(Step(fmt, j), f.exp - 127), Magnitude(f))
  {
    var k := f.exp - 127;
    NormalCode(fmt, f);
    InBinade(f);
    NearestStep(fmt, f, j);
    DistScaled(Nearby(fmt, f), Significand(f), k);
    DistScaled(Step(fmt, j), Significand(f), k);
    Monotone(Dist(Nearby(fmt, f), Significand(f)), Dist(Step(fmt, j), Significand(f)), k);
  }

  lemma NearestMagnitude(fmt: Format, f: F32, exp: int, mant: int)
    requires f.IsNormal() && 0 < Shifted(fmt, f) < fmt.ExpMax()
    requires 0 < exp && 0 <= mant < fmt.Top()
    ensures Dist(CodeOf(fmt, f), Magnitude(f)) <= Dist(CodeMagnitude(fmt, exp, mant), Magnitude(f))
  {
    var k, e := f.exp - 127, exp - fmt.Bias();
    InBinade(f);
    assert CodeMagnitude(fmt, exp, mant) == Ldexp(Step(fmt, mant), e);
    if e == k {
      NearestInBinade(fmt, f, mant);
    } else if e < k {
      NearestInBinade(fmt, f, 0);
      Monotone(Step(fmt, mant), 2.0, e);
      Doubled(1.0, e);
      Grows(1.0, e + 1, k);
    } else {
      NearestInBinade(fmt, f, fmt.Top());
      Monotone(1.0, Step(fmt, mant), e);
      Doubled(1.0, k);
      Grows(1.0, k + 1, e);
    }
  }

  /** The code fields of a normal code with the magnitude of a subnormal one. */
  function AsNormal(fmt: Format, k: int): (int, int) {
    match fmt
    case E4M3 => if k < 2 then (1, 0) else if k < 4 then (2, 4 * k - 8) else (3, 2 * k - 8)
    case E5M2 => if k < 2 then (1, 0) else (2, 2 * k - 4)
  }

  lemma SubnormalCode(fmt: Format, k: int)
    requires 0 < k < fmt.Top()
    ensures var (e, j) := AsNormal(fmt, k);
      && 0 < e < 4 && 0 <= j < fmt.Top() && j % 2 == 0
      && CodeMagnitude(fmt, 0, k) == CodeMagnitude(fmt, e, j)
  {
    var n, x := 1 - fmt.Bias(), k as real;
    var j := AsNormal(fmt, k).1;
    if k < 2 {
      assert x == 1.0;
    } else if k < 4 {
      Doubled(x / 2.0, n);
      assert Step(fmt, j) == x / 2.0;
    } else {
      Doubled(x / 2.0, n);
      Doubled(x / 4.0, n + 1);
      assert Step(fmt, j) == x / 4.0;
    }
  }

  /** A subnormal code is its field times the smallest normal code. */
  lemma SubnormalValue(fmt: Format, k: int)
    ensures CodeMagnitude(fmt, 0, k) == k as real * MinNormal(fmt)
  {
    Scale8(k as real);
  }

  /** Codes are ordered as their exponent fields, then as their mantissa fields. */
  lemma CodeMonotone(fmt: Format, e: int, m: int, e': int, m': int)
    requires 0 < e && 0 <= m < fmt.Top() && 0 <= m' < fmt.Top()
    requires e < e' || (e == e' && m < m')
    ensures CodeMagnitude(fmt, e, m) < CodeMagnitude(fmt, e', m')
  {
    var k, k' := e - fmt.Bias(), e' - fmt.Bias();
    if e == e' {
      Monotone(Step(fmt, m), Step(fmt, m'), k);
    } else {
      Monotone(Step(fmt, m), 2.0, k);
      Doubled(1.0, k);
      Grows(1.0, k + 1, k');
      Monotone(1.0, Step(fmt, m'), k');
    }
  }

  /** Every code dequantises to zero or to at least the smallest normal code. */
  lemma ZeroOrNormal(fmt: Format, exp: int, mant: int)
    requires exp >= 0 && 0 <= mant < fmt.Top()
    ensures CodeMagnitude(fmt, exp, mant) == 0.0 || CodeMagnitude(fmt, exp, mant) >= MinNormal(fmt)
  {
    Scale8(1.0);
    SubnormalValue(fmt, mant);
    if exp > 0 && (exp, mant) != (1, 0) {
      CodeMonotone(fmt, 1, 0, exp, mant);
    }
  }

  /** Values below are flushed to zero. */
  ghost function Zeroed(fmt: Format): real {
    match fmt case E4M3 => 31.0 / 16384.0 case E5M2 => 15.0 / 1048576.0
  }

  /** Halfway between the infinity code and the next one. */
  ghost function Saturated(fmt: Format): real {
    match fmt case E4M3 => 272.0 case E5M2 => 73728.0
  }

  /** The code magnitudes around the infinity code. */
  lemma AroundInfinity(fmt: Format, exp: int, mant: int)
    requires exp >= 0 && 0 <= mant < fmt.Top()
    ensures var c, gap := CodeMagnitude(fmt, exp, mant), Infinity(fmt) - Overflow(fmt);
      || c <= Overflow(fmt) - gap
      || c == Infinity(fmt)
      || c >= 2.0 * Saturated(fmt) - Infinity(fmt)
    ensures CodeMagnitude(fmt, fmt.ExpMax(), 1) == 2.0 * Saturated(fmt) - Infinity(fmt)
  {
    var top := fmt.ExpMax();
    Scale8(1.0);
    Scale8(Step(fmt, 1));
    var below := Step(fmt, fmt.Top() - 1);
    Scale8(below);
    Doubles(below, 7);
    Doubles(below, 15);
    if exp == 0 {
      SubnormalValue(fmt, mant);
    } else if exp < top - 1 || (exp == top - 1 && mant < fmt.Top() - 1) {
      CodeMonotone(fmt, exp, mant, top - 1, fmt.Top() - 1);
    } else if exp > top || (exp == top && mant > 1) {
      CodeMonotone(fmt, top, 1, exp, mant);
    }
  }

  /** Small values are flushed to zero, or get a code of more than twice their size. */
  lemma SmallCode(fmt: Format, f: F32)
    requires f.IsNormal() && Shifted(fmt, f) <= 0
    ensures Magnitude(f) < Zeroed(fmt) ==> CodeOf(fmt, f) == 0.0
    ensures Magnitude(f) >= Zeroed(fmt) ==> 2.0 * Magnitude(f) < CodeOf(fmt, f)
  {
    SmallMagnitude(fmt, f);
    SubnormalField(fmt, f);
    SubnormalValue(fmt, Fields(fmt, f).1);
    ZeroedExactly(fmt, f);
  }

  lemma ZeroedExactly(fmt: Format, f: F32)
    requires f.IsNormal()
    ensures Magnitude(f) >= Zeroed(fmt) <==> Shifted(fmt, f) >= match fmt case E4M3 => -2 case E5M2 => -1
  {
    Scale8(1.0);
    match fmt {
      case E4M3 =>
        assert Ldexp(1.0, -7) == Ldexp(1.0, -6) / 2.0 && Ldexp(1.0, -8) == Ldexp(1.0, -7) / 2.0;
        ReachesExactly(fmt, f, -9, 1.0 / 512.0);
      case E5M2 =>
        assert Ldexp(1.0, -15) == Ldexp(1.0, -14) / 2.0;
        ReachesExactly(fmt, f, -16, 1.0 / 65536.0);
    }
  }

  /** Whether no code magnitude is nearer to the float's. */
  ghost predicate BestCode(fmt: Format, f: F32)
    requires f.IsFinite()
  {
    forall e, m :: 0 <= e <= fmt.ExpMax() && 0 <= m < fmt.Top() ==>
      Dist(CodeOf(fmt, f), Magnitude(f)) <= Dist(CodeMagnitude(fmt, e, m), Magnitude(f))
  }

  lemma NormalIsBest(fmt: Format, f: F32)
    requires f.IsNormal() && 0 < Shifted(fmt, f) < fmt.ExpMax()
    ensures BestCode(fmt, f)
  {
    NormalWithin(fmt, f);
    InBinade(f);
    ZeroScaled(f.exp - 127);
    Monotone(0.0, 1.0, f.exp - 127);
    forall e, m | 0 <= e <= fmt.ExpMax() && 0 <= m < fmt.Top()
      ensures Dist(CodeOf(fmt, f), Magnitude(f)) <= Dist(CodeMagnitude(fmt, e, m), Magnitude(f))
    {
      if e > 0 {
        NearestMagnitude(fmt, f, e, m);
      } else if m > 0 {
        SubnormalCode(fmt, m);
        NearestMagnitude(fmt, f, AsNormal(fmt, m).0, AsNormal(fmt, m).1);
      } else {
        SubnormalValue(fmt, 0);
      }
    }
  }

  lemma LargeIsBestExactly(fmt: Format, f: F32)
    requires f.IsNormal() && Shifted(fmt, f) >= fmt.ExpMax()
    ensures BestCode(fmt, f) <==> Magnitude(f) <= Saturated(fmt)
  {
    LargeExactly(fmt, f);
    Scale8(1.0);
    AroundInfinity(fmt, 0, 0);
    forall e, m | 0 <= e <= fmt.ExpMax() && 0 <= m < fmt.Top() && Magnitude(f) <= Saturated(fmt)
      ensures Dist(CodeOf(fmt, f), Magnitude(f)) <= Dist(CodeMagnitude(fmt, e, m), Magnitude(f))
    {
      AroundInfinity(fmt, e, m);
    }
  }

  lemma SmallIsBestExactly(fmt: Format, f: F32)
    requires f.IsFinite() && (f.exp > 0 ==> Shifted(fmt, f) <= 0)
    ensures BestCode(fmt, f) <==> Magnitude(f) < Zeroed(fmt)
  {
    SubnormalValue(fmt, 0);
    if f.exp == 0 {
      Flushed(fmt, f);
      TinyIsZeroed(fmt, f);
    } else {
      SmallMagnitude(fmt, f);
      SmallCode(fmt, f);
    }
    forall e, m | 0 <= e <= fmt.ExpMax() && 0 <= m < fmt.Top() && Magnitude(f) < Zeroed(fmt)
      ensures Dist(CodeOf(fmt, f), Magnitude(f)) <= Dist(CodeMagnitude(fmt, e, m), Magnitude(f))
    {
      ZeroOrNormal(fmt, e, m);
    }
  }

  lemma TinyIsZeroed(fmt: Format, f: F32)
    requires f.IsFinite() && f.exp == 0
    ensures Magnitude(f) < Zeroed(fmt)
  {
    Monotone(f.mant as real, 8388608.0, -149);
    Shift23(1.0, -149);
    Scale8(1.0);
    Grows(1.0, -126, -17);
    assert Ldexp(1.0, -15) == Ldexp(1.0, -14) / 2.0 && Ldexp(1.0, -16) == Ldexp(1.0, -15) / 2.0;
  }

  /** Whether no code of either sign dequantises nearer to the value. */
  ghost predicate IsNearest(fmt: Format, f: F32)
    requires f.IsFinite()
  {
    forall q :: 0 <= q < 256 ==>
      Dist(Dequantize(fmt, Quantize(fmt, f)), Value(f)) <= Dist(Dequantize(fmt, q), Value(f))
  }

  /** Signs do not matter: the nearest code has the sign of the value. */
  lemma SignsDoNotMatter(fmt: Format, f: F32)
    requires f.IsFinite()
    ensures IsNearest(fmt, f) <==> BestCode(fmt, f)
  {
    OwnCode(fmt, f);
    if BestCode(fmt, f) {
      forall q | 0 <= q < 256
        ensures Dist(Dequantize(fmt, Quantize(fmt, f)), Value(f)) <= Dist(Dequantize(fmt, q), Value(f))
      {
        AnySign(fmt, f, q);
      }
    }
    if IsNearest(fmt, f) {
      forall e, m | 0 <= e <= fmt.ExpMax() && 0 <= m < fmt.Top()
        ensures Dist(CodeOf(fmt, f), Magnitude(f)) <= Dist(CodeMagnitude(fmt, e, m), Magnitude(f))
      {
        var q := SameSign(fmt, f, e, m);
      }
    }
  }

  lemma OwnCode(fmt: Format, f: F32)
    requires f.IsFinite()
    ensures Dist(Dequantize(fmt, Quantize(fmt, f)), Value(f)) == Dist(CodeOf(fmt, f), Magnitude(f))
  {
    Composed(fmt, f);
    NotNegative(fmt, f);
  }

  lemma SameSign(fmt: Format, f: F32, e: int, m: int) returns (q: int)
    requires f.IsFinite() && 0 <= e <= fmt.ExpMax() && 0 <= m < fmt.Top()
    ensures 0 <= q < 256 && Dist(Dequantize(fmt, q), Value(f)) == Dist(CodeMagnitude(fmt, e, m), Magnitude(f))
  {
    q := fmt.Pack(e, m) + if f.negative then 128 else 0;
    Unpacks(fmt, e, m, f.negative);
  }

  lemma AnySign(fmt: Format, f: F32, q: int)
    requires f.IsFinite() && 0 <= q < 256
    ensures 0 <= fmt.ExpField(q) <= fmt.ExpMax() && 0 <= fmt.MantField(q) < fmt.Top()
    ensures Dist(CodeMagnitude(fmt, fmt.ExpField(q), fmt.MantField(q)), Magnitude(f))
      <= Dist(Dequantize(fmt, q), Value(f))
  {
    NotNegative(fmt, f);
    FieldsInRange(fmt, q);
    ZeroOrNormal(fmt, fmt.ExpField(q), fmt.MantField(q));
  }

  lemma NotNegative(fmt: Format, f: F32)
    requires f.IsFinite()
    ensures Magnitude(f) >= 0.0 && CodeOf(fmt, f) >= 0.0
    ensures (Magnitude(f) == 0.0 <==> f.IsZero()) && (f.IsZero() ==> CodeOf(fmt, f) == 0.0)
  {
    ZeroOrNormal(fmt, Fields(fmt, f).0, Fields(fmt, f).1);
    if f.exp == 0 {
      Flushed(fmt, f);
    } else {
      InBinade(f);
      ZeroScaled(f.exp - 127);
      Monotone(0.0, 1.0, f.exp - 127);
    }
  }

  lemma FieldsInRange(fmt: Format, q: int)
    requires 0 <= q < 256
    ensures 0 <= fmt.ExpField(q) <= fmt.ExpMax() && 0 <= fmt.MantField(q) < fmt.Top()
  {
    match fmt case E4M3 => case E5M2 =>
  }

  /** The exact law, over every finite float and all 256 codes: the chosen code is the
      nearest one exactly for values that are flushed to zero and for values from Low up
      to halfway between the infinity code and the next. */
  lemma NearestExactly(fmt: Format, f: F32)
    requires f.IsFinite()
    ensures IsNearest(fmt, f) <==> Magnitude(f) < Zeroed(fmt) || Low(fmt) <= Magnitude(f) <= Saturated(fmt)
  {
    SignsDoNotMatter(fmt, f);
    if f.exp == 0 {
      SmallIsBestExactly(fmt, f);
      Flushed(fmt, f);
    } else if Shifted(fmt, f) <= 0 {
      SmallIsBestExactly(fmt, f);
      SmallMagnitude(fmt, f);
    } else if Shifted(fmt, f) < fmt.ExpMax() {
      NormalIsBest(fmt, f);
      NormalInRange(fmt, f);
      BelowInfinity(fmt, f);
    } else {
      LargeIsBestExactly(fmt, f);
      LargeExactly(fmt, f);
    }
  }

  lemma BelowInfinity(fmt: Format, f: F32)
    requires f.IsNormal() && Shifted(fmt, f) < fmt.ExpMax()
    ensures Magnitude(f) < Overflow(fmt)
  {
    Scale8(1.0);
    ReachesExactly(fmt, f, fmt.ExpMax() - fmt.Bias(), Infinity(fmt));
  }

  lemma TieRoundsToEven(fmt: Format, m: int)
    requires 0 <= m < HIDDEN && fmt.Lost(m) == fmt.Half()
    ensures Rounded(fmt, m) % 2 == 0
  {
  }

  lemma EvenCode(fmt: Format, exp: int, mant: int, negative: bool)
    requires mant % 2 == 0
    ensures (fmt.Pack(exp, mant) + if negative then 128 else 0) % 2 == 0
  {
    var half := (match fmt case E4M3 => 4 * exp case E5M2 => 2 * exp) + mant / 2 + if negative then 64 else 0;
    DivUnique(fmt.Pack(exp, mant) + if negative then 128 else 0, 2, half, 0);
  }

  /** Halfway between two codes the even one is chosen. */
  lemma TiesToEven(fmt: Format, f: F32)
    requires f.IsNormal() && 0 < Shifted(fmt, f) && fmt.Lost(f.mant) == fmt.Half()
    ensures Quantize(fmt, f) % 2 == 0
  {
    TieRoundsToEven(fmt, f.mant);
    EvenCode(fmt, Fields(fmt, f).0, Fields(fmt, f).1, f.negative);
  }
}
