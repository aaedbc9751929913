/** When FP8 codes keep the order of the values they stand for. */
module Fp8Order {
  import opened Fp8
  import opened Fp8Laws
  import opened Fp8Nearest

  // ---------- Order of the fields ----------

  /** Magnitudes of normal floats are ordered as their exponents, then as their mantissas. */
  lemma Lexicographic(f: F32, g: F32)
    requires f.IsNormal() && g.IsNormal() && Magnitude(f) <= Magnitude(g)
    ensures f.exp < g.exp || (f.exp == g.exp && f.mant <= g.mant)
  {
    InBinade(f);
    InBinade(g);
    if f.exp > g.exp {
      Grows(1.0, g.exp - 126, f.exp - 127);
    } else if f.exp == g.exp {
      Monotone(Significand(g), Significand(f), f.exp - 127);
    }
  }

  lemma RoundedMonotone(fmt: Format, m: int, n: int)
    requires 0 <= m <= n < HIDDEN
    ensures Rounded(fmt, m) <= Rounded(fmt, n)
  {
    match fmt case E4M3 => case E5M2 =>
  }

  /** Rounding keeps that order. */
  lemma RoundingKeepsOrder(fmt: Format, f: F32, g: F32)
    requires f.IsNormal() && g.IsNormal() && Magnitude(f) <= Magnitude(g)
    ensures Shifted(fmt, f) < Shifted(fmt, g) || (Shifted(fmt, f) == Shifted(fmt, g) && Mant(fmt, f) <= Mant(fmt, g))
  {
    Lexicographic(f, g);
    if f.exp == g.exp {
      RoundedMonotone(fmt, f.mant, g.mant);
    }
  }

  lemma LargeMonotone(fmt: Format, f: F32, g: F32)
    requires f.IsNormal() && g.IsNormal() && 0 < Shifted(fmt, f) && Magnitude(f) <= Magnitude(g)
    ensures CodeOf(fmt, f) <= CodeOf(fmt, g)
  {
    RoundingKeepsOrder(fmt, f, g);
    var (e, m) := Fields(fmt, f);
    var (e', m') := Fields(fmt, g);
    if (e, m) != (e', m') {
      CodeMonotone(fmt, e, m, e', m');
    }
  }

  lemma SmallMonotone(fmt: Format, f: F32, g: F32)
    requires f.IsNormal() && g.IsNormal() && Shifted(fmt, g) <= 0 && Magnitude(f) <= Magnitude(g)
    ensures CodeOf(fmt, f) <= CodeOf(fmt, g)
  {
    RoundingKeepsOrder(fmt, f, g);
    SubnormalField(fmt, f);
    SubnormalField(fmt, g);
    SubfieldMonotone(fmt, Shifted(fmt, f), Mant(fmt, f), Shifted(fmt, g), Mant(fmt, g));
    SubnormalValue(fmt, Fields(fmt, f).1);
    SubnormalValue(fmt, Fields(fmt, g).1);
  }

  lemma SubfieldMonotone(fmt: Format, x: int, m: int, x': int, m': int)
    requires 0 <= m < fmt.Top() && 0 <= m' < fmt.Top() && x' <= 0
    requires x < x' || (x == x' && m <= m')
    ensures 0 <= Subfield(fmt, x, m) <= Subfield(fmt, x', m') < fmt.Top()
  {
    match fmt case E4M3 => case E5M2 =>
  }

  // ---------- Small values against normal ones ----------

  /** The least value that rounds up to the code with an even mantissa field. */
  ghost function Midpoint(fmt: Format, e: int, j: int): real {
    var gap := HalfUnitError(fmt, 1.0);
    if j == 0 then Ldexp(2.0 - gap, e - 1 - fmt.Bias()) else Ldexp(Step(fmt, j) - gap, e - fmt.Bias())
  }

  lemma RoundsUpExactly(fmt: Format, f: F32, j: int)
    requires f.IsNormal() && 0 < j < fmt.Top() && j % 2 == 0
    ensures Rounded(fmt, f.mant) >= j <==> Significand(f) >= Step(fmt, j) - HalfUnitError(fmt, 1.0)
  {
    match fmt case E4M3 => case E5M2 =>
  }

  /** A rounded float is below a code exactly when the float is below that value. */
  lemma BelowExactly(fmt: Format, f: F32, e: int, j: int)
    requires f.IsNormal() && 0 <= j < fmt.Top() && j % 2 == 0
    ensures Shifted(fmt, f) < e || (Shifted(fmt, f) == e && Mant(fmt, f) < j) <==> Magnitude(f) < Midpoint(fmt, e, j)
  {
    var k, b := e - fmt.Bias(), f.exp - 127;
    InBinade(f);
    if j == 0 {
      ReachesExactly(fmt, f, k, Ldexp(1.0, k));
      MidpointOfCarry(fmt, k);
    } else {
      var x := Step(fmt, j) - HalfUnitError(fmt, 1.0);
      RoundsUpExactly(fmt, f, j);
      if b < k {
        Monotone(1.0, x, k);
        Grows(1.0, b + 1, k);
      } else if b == k {
        Monotone(Significand(f), x, k);
        Monotone(x, Significand(f), k);
      } else {
        Monotone(x, 2.0, k);
        Doubled(1.0, k);
        Grows(1.0, k + 1, b);
      }
    }
  }

  lemma MidpointOfCarry(fmt: Format, k: int)
    ensures Ldexp(2.0 - HalfUnitError(fmt, 1.0), k - 1) ==
      match fmt case E4M3 => 31.0 * Ldexp(1.0, k) / 32.0 case E5M2 => 15.0 * Ldexp(1.0, k) / 16.0
  {
    Doubles(1.0, k - 1);
    Doubled(1.0, k - 1);
    Linear(1.0, 0.0, k - 1);
    Linear(2.0, HalfUnitError(fmt, 1.0), k - 1);
  }

  /** The least value whose code reaches k times the smallest normal code. */
  ghost function Reach(fmt: Format, k: int): real {
    match fmt
    case E4M3 =>
      if k <= 0 then 0.0 else if k == 1 then 31.0 / 2048.0 else if k == 2 then 31.0 / 1024.0
      else if k == 3 then 23.0 / 512.0 else if k == 4 then 31.0 / 512.0 else (4 * k - 1) as real / 256.0
    case E5M2 =>
      if k <= 0 then 0.0 else if k == 1 then 15.0 / 262144.0 else if k == 2 then 15.0 / 131072.0 else 11.0 / 65536.0
  }

  lemma ReachIsMidpoint(fmt: Format, k: int)
    requires 0 < k < fmt.Top()
    ensures Midpoint(fmt, AsNormal(fmt, k).0, AsNormal(fmt, k).1) == Reach(fmt, k)
  {
    var (e, j) := AsNormal(fmt, k);
    var n := 1 - fmt.Bias();
    Scale8(1.0);
    if j == 0 {
      MidpointOfCarry(fmt, e - fmt.Bias());
      Doubles(1.0, n);
      Doubles(1.0, n + 1);
    } else {
      var x := Step(fmt, j) - HalfUnitError(fmt, 1.0);
      Scale8(x);
      Doubles(x, n);
      Doubles(x, n + 1);
    }
  }

  lemma ReachExactly(fmt: Format, f: F32, k: int)
    requires f.IsNormal() && 0 < Shifted(fmt, f) && 0 < k < fmt.Top()
    ensures CodeOf(fmt, f) < k as real * MinNormal(fmt) <==> Magnitude(f) < Reach(fmt, k)
  {
    var (e, j) := AsNormal(fmt, k);
    SubnormalCode(fmt, k);
    SubnormalValue(fmt, k);
    ReachIsMidpoint(fmt, k);
    BelowExactly(fmt, f, e, j);
    var (x, m) := Fields(fmt, f);
    if x < e || (x == e && m < j) {
      CodeMonotone(fmt, x, m, e, j);
    } else if (x, m) != (e, j) {
      CodeMonotone(fmt, e, j, x, m);
    }
  }

  // ---------- The laws ----------

  /** The divisor that dequantising leaves out for exponent field 0. */
  ghost function Share(fmt: Format, x: real): real {
    match fmt case E4M3 => x / 8.0 case E5M2 => x / 4.0
  }

  /** The smaller of two magnitudes is below Low and reaches the share of some code field
      whose reach the larger one, not below Low, does not attain. */
  ghost predicate Inverted(fmt: Format, small: real, large: real) {
    && small < Low(fmt) <= large
    && exists k :: 0 < k < fmt.Top() && Share(fmt, Reach(fmt, k)) <= small && large < Reach(fmt, k)
  }

  /** The field of a subnormal code reaches k exactly from the share of its reach. */
  lemma FieldExactly(fmt: Format, f: F32, k: int)
    requires f.IsNormal() && Shifted(fmt, f) <= 0 && 0 < k < fmt.Top()
    ensures Fields(fmt, f).1 >= k <==> Share(fmt, Reach(fmt, k)) <= Magnitude(f)
  {
    var (e, j) := AsNormal(fmt, k);
    SubnormalField(fmt, f);
    ReachIsMidpoint(fmt, k);
    MidpointShare(fmt, e, j);
    BelowExactly(fmt, f, e - Octave(fmt), j);
    FieldBelow(fmt, Shifted(fmt, f), Mant(fmt, f), k);
  }

  ghost function Octave(fmt: Format): int {
    match fmt case E4M3 => 3 case E5M2 => 2
  }

  lemma MidpointShare(fmt: Format, e: int, j: int)
    ensures Midpoint(fmt, e - Octave(fmt), j) == Share(fmt, Midpoint(fmt, e, j))
  {
    var gap := HalfUnitError(fmt, 1.0);
    var x := if j == 0 then 2.0 - gap else Step(fmt, j) - gap;
    var k := (if j == 0 then e - 1 else e) - fmt.Bias();
    Doubles(x, k - 1);
    Doubles(x, k - 2);
    Doubles(x, k - 3);
  }

  lemma FieldBelow(fmt: Format, x: int, m: int, k: int)
    requires x <= 0 && 0 <= m < fmt.Top() && 0 < k < fmt.Top()
    ensures var (e, j) := AsNormal(fmt, k);
      0 <= j < fmt.Top() && j % 2 == 0
      && (Subfield(fmt, x, m) < k <==> x < e - Octave(fmt) || (x == e - Octave(fmt) && m < j))
  {
    match fmt case E4M3 => case E5M2 =>
  }

  lemma LowExactly(fmt: Format, f: F32)
    requires f.IsNormal()
    ensures Magnitude(f) < Low(fmt) <==> Shifted(fmt, f) <= 0
  {
    Scale8(1.0);
    ReachesExactly(fmt, f, 1 - fmt.Bias(), MinNormal(fmt));
  }

  lemma TinyIsBelowNormal(f: F32, g: F32)
    requires f.IsFinite() && f.exp == 0 && g.IsNormal()
    ensures Magnitude(f) < Magnitude(g)
  {
    Monotone(f.mant as real, 8388608.0, -149);
    Shift23(1.0, -149);
    InBinade(g);
    Grows(1.0, -126, g.exp - 127);
  }

  lemma MagnitudeOrder(fmt: Format, f: F32, g: F32)
    requires f.IsFinite() && g.IsFinite() && Magnitude(f) <= Magnitude(g)
    ensures CodeOf(fmt, f) <= CodeOf(fmt, g) <==> !Inverted(fmt, Magnitude(f), Magnitude(g))
  {
    NotNegative(fmt, g);
    if f.exp == 0 {
      Flushed(fmt, f);
      TinyIsZeroed(fmt, f);
    } else if g.exp == 0 {
      TinyIsBelowNormal(g, f);
    } else {
      LowExactly(fmt, f);
      LowExactly(fmt, g);
      if Shifted(fmt, f) > 0 {
        LargeMonotone(fmt, f, g);
      } else if Shifted(fmt, g) <= 0 {
        SmallMonotone(fmt, f, g);
      } else {
        AcrossLow(fmt, f, g);
      }
    }
  }

  lemma AcrossLow(fmt: Format, f: F32, g: F32)
    requires f.IsNormal() && g.IsNormal() && Shifted(fmt, f) <= 0 < Shifted(fmt, g)
    ensures CodeOf(fmt, f) <= CodeOf(fmt, g) <==> !Inverted(fmt, Magnitude(f), Magnitude(g))
  {
    var k := Fields(fmt, f).1;
    SubnormalField(fmt, f);
    SubnormalValue(fmt, k);
    NotNegative(fmt, g);
    LowExactly(fmt, f);
    LowExactly(fmt, g);
    if k > 0 {
      ReachExactly(fmt, g, k);
      FieldExactly(fmt, f, k);
    }
    if Inverted(fmt, Magnitude(f), Magnitude(g)) {
      var i :| 0 < i < fmt.Top() && Share(fmt, Reach(fmt, i)) <= Magnitude(f) && Magnitude(g) < Reach(fmt, i);
      FieldExactly(fmt, f, i);
      ReachExactly(fmt, g, i);
    }
  }

  /** The exact law, over every pair of finite floats: quantising and dequantising keeps
      their order exactly when they have different signs or their magnitudes are not
      inverted. */
  lemma OrderExactly(fmt: Format, f: F32, g: F32)
    requires f.IsFinite() && g.IsFinite() && Value(f) <= Value(g)
    ensures Dequantize(fmt, Quantize(fmt, f)) <= Dequantize(fmt, Quantize(fmt, g)) <==>
      !(f.negative == g.negative &&
        if f.negative then Inverted(fmt, Magnitude(g), Magnitude(f)) else Inverted(fmt, Magnitude(f), Magnitude(g)))
  {
    Composed(fmt, f);
    Composed(fmt, g);
    NotNegative(fmt, f);
    NotNegative(fmt, g);
    if f.negative && g.negative {
      MagnitudeOrder(fmt, g, f);
    } else if !f.negative && !g.negative {
      MagnitudeOrder(fmt, f, g);
    }
  }

  /** So zero and all values from Low on, however large, keep their order. */
  lemma OrderKept(fmt: Format, f: F32, g: F32)
    requires f.IsFinite() && (f.IsZero() || Low(fmt) <= Magnitude(f))
    requires g.IsFinite() && (g.IsZero() || Low(fmt) <= Magnitude(g))
    requires Value(f) <= Value(g)
    ensures Dequantize(fmt, Quantize(fmt, f)) <= Dequantize(fmt, Quantize(fmt, g))
  {
    OrderExactly(fmt, f, g);
    NotNegative(fmt, f);
    NotNegative(fmt, g);
  }

  /** Half the smallest normal code gets a larger code than the smallest normal code. */
  lemma OrderLost(fmt: Format) returns (f: F32, g: F32)
    ensures f.IsFinite() && g.IsFinite() && Value(g) == MinNormal(fmt) == 2.0 * Value(f)
    ensures Dequantize(fmt, Quantize(fmt, f)) > Dequantize(fmt, Quantize(fmt, g))
  {
    var b := 127 - fmt.Bias();
    f, g := F32(false, b, 0), F32(false, b + 1, 0);
    InBinade(f);
    InBinade(g);
    Scale8(1.0);
    Doubles(1.0, -fmt.Bias());
    HalfIsInverted(fmt);
    OrderExactly(fmt, f, g);
  }

  lemma HalfIsInverted(fmt: Format)
    ensures Inverted(fmt, MinNormal(fmt) / 2.0, MinNormal(fmt))
  {
    var k := match fmt case E4M3 => 4 case E5M2 => 2;
    assert Share(fmt, Reach(fmt, k)) <= MinNormal(fmt) / 2.0 && MinNormal(fmt) < Reach(fmt, k);
  }
}
