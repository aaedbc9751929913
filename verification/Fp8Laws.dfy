/** How far FP8 codes are from the values they stand for. */
module Fp8Laws {
  import opened Basics
  import opened Division
  import opened Fp8

  // ---------- Scaling by powers of two ----------

  lemma Doubles(x: real, k: int)
    ensures Ldexp(x, k + 1) == 2.0 * Ldexp(x, k)
  {
  }

  lemma {:induction false} Doubled(x: real, k: int)
    ensures Ldexp(2.0 * x, k) == Ldexp(x, k + 1)
    decreases if k < 0 then -k else k
  {
    if k > 0 {
      Doubled(x, k - 1);
    } else if k < 0 {
      Doubled(x, k + 1);
      Doubles(x, k);
    }
  }

  lemma {:induction false} Monotone(a: real, b: real, k: int)
    ensures a <= b ==> Ldexp(a, k) <= Ldexp(b, k)
    ensures a < b ==> Ldexp(a, k) < Ldexp(b, k)
    decreases if k < 0 then -k else k
  {
    if k > 0 {
      Monotone(a, b, k - 1);
    } else if k < 0 {
      Monotone(a, b, k + 1);
    }
  }

  lemma {:induction false} ZeroScaled(k: int)
    ensures Ldexp(0.0, k) == 0.0
    decreases if k < 0 then -k else k
  {
    if k > 0 {
      ZeroScaled(k - 1);
    } else if k < 0 {
      ZeroScaled(k + 1);
    }
  }

  lemma {:induction false} Linear(a: real, b: real, k: int)
    ensures Ldexp(a - b, k) == Ldexp(a, k) - Ldexp(b, k)
    ensures Ldexp(a / 16.0, k) == Ldexp(a, k) / 16.0 && Ldexp(a / 8.0, k) == Ldexp(a, k) / 8.0
    decreases if k < 0 then -k else k
  {
    if k > 0 {
      Linear(a, b, k - 1);
    } else if k < 0 {
      Linear(a, b, k + 1);
    }
  }

  /** A larger exponent means at least twice the value. */
  lemma {:induction false} Grows(x: real, j: int, k: int)
    requires x >= 0.0 && j <= k
    ensures Ldexp(x, j) <= Ldexp(x, k) && (j < k ==> 2.0 * Ldexp(x, j) <= Ldexp(x, k))
    decreases k - j
  {
    ZeroScaled(j + 1);
    Monotone(0.0, x, j + 1);
    if j < k {
      Doubles(x, j);
      Grows(x, j + 1, k);
    }
  }

  lemma Shift4(x: real, k: int)
    ensures Ldexp(16.0 * x, k) == Ldexp(x, k + 4)
  {
    Doubled(x, k + 3);
    Doubled(2.0 * x, k + 2);
    Doubled(4.0 * x, k + 1);
    Doubled(8.0 * x, k);
  }

  lemma Shift23(x: real, k: int)
    ensures Ldexp(8388608.0 * x, k) == Ldexp(x, k + 23)
  {
    Shift4(x, k + 19);
    Shift4(16.0 * x, k + 15);
    Shift4(256.0 * x, k + 11);
    Shift4(4096.0 * x, k + 7);
    Shift4(65536.0 * x, k + 3);
    Doubled(1048576.0 * x, k + 2);
    Doubled(2097152.0 * x, k + 1);
    Doubled(4194304.0 * x, k);
  }

  // ---------- Normal floats and normal codes ----------

  /** The significand of a normal float, from one up to two. */
  ghost function Significand(f: F32): real {
    1.0 + f.mant as real / 8388608.0
  }

  lemma InBinade(f: F32)
    requires f.IsNormal()
    ensures Magnitude(f) == Ldexp(Significand(f), f.exp - 127)
    ensures Ldexp(1.0, f.exp - 127) <= Magnitude(f) < Ldexp(1.0, f.exp - 126)
    ensures 1.0 <= Significand(f) < 2.0
  {
    Shift23(Significand(f), f.exp - 150);
    assert 8388608.0 * Significand(f) == (HIDDEN + f.mant) as real;
    Monotone(1.0, Significand(f), f.exp - 127);
    Monotone(Significand(f), 2.0, f.exp - 127);
    Doubled(1.0, f.exp - 127);
  }

  /** The rounded significand. */
  ghost function Nearby(fmt: Format, f: F32): real
    requires f.IsF32()
  {
    var r := Rounded(fmt, f.mant) as real;
    match fmt case E4M3 => 1.0 + r / 8.0 case E5M2 => 1.0 + r / 4.0
  }

  ghost function CodeOf(fmt: Format, f: F32): real
    requires f.IsFinite()
  {
    CodeMagnitude(fmt, Fields(fmt, f).0, Fields(fmt, f).1)
  }

  /** Dequantising a quantised float gives back its sign and the magnitude of its code. */
  lemma Composed(fmt: Format, f: F32)
    requires f.IsFinite()
    ensures Dequantize(fmt, Quantize(fmt, f)) == if f.negative && !f.IsZero() then -CodeOf(fmt, f) else CodeOf(fmt, f)
  {
    var (x, m) := Fields(fmt, f);
    var negative := f.negative && !f.IsZero();
    assert Quantize(fmt, f) == fmt.Pack(x, m) + if negative then 128 else 0;
    Unpacks(fmt, x, m, negative);
  }

  lemma Unpacks(fmt: Format, exp: int, mant: int, negative: bool)
    requires 0 <= exp <= fmt.ExpMax() && 0 <= mant < fmt.Top()
    ensures var q := fmt.Pack(exp, mant) + if negative then 128 else 0;
      fmt.ExpField(q) == exp && fmt.MantField(q) == mant && (q / 128 == 1 <==> negative)
  {
    var low := fmt.Pack(exp, mant);
    var q := low + if negative then 128 else 0;
    DivUnique(q, 128, if negative then 1 else 0, low);
    DivUnique(low, fmt.Top(), exp, mant);
    match fmt {
      case E4M3 => DivUnique(q, 8, exp + if negative then 16 else 0, mant);
      case E5M2 => DivUnique(q, 4, exp + if negative then 32 else 0, mant);
    }
  }

  /** In the normal range the code is the rounded significand in the same binade. */
  lemma NormalCode(fmt: Format, f: F32)
    requires f.IsNormal() && 0 < Shifted(fmt, f) < fmt.ExpMax()
    ensures CodeOf(fmt, f) == Ldexp(Nearby(fmt, f), f.exp - 127)
  {
    Doubled(1.0, f.exp - 127);
  }

  // ---------- Exactly when the relative error is at most half a unit ----------

  /** Half a unit of relative error: 1/16 for E4M3, 1/8 for E5M2. */
  ghost function HalfUnitError(fmt: Format, mag: real): real {
    match fmt case E4M3 => mag / 16.0 case E5M2 => mag / 8.0
  }

  ghost predicate Within(fmt: Format, code: real, mag: real) {
    Dist(code, mag) <= HalfUnitError(fmt, mag)
  }

  /** The smallest normal code, 2^-6 or 2^-14. */
  ghost function MinNormal(fmt: Format): real {
    match fmt case E4M3 => 1.0 / 64.0 case E5M2 => 1.0 / 16384.0
  }

  /** The least value that rounds up to it, 31 * 2^-11 or 15 * 2^-18. */
  ghost function Low(fmt: Format): real {
    match fmt case E4M3 => 31.0 / 2048.0 case E5M2 => 15.0 / 262144.0
  }

  /** What the infinity code dequantises to, 2^8 or 2^16. */
  ghost function Infinity(fmt: Format): real {
    match fmt case E4M3 => 256.0 case E5M2 => 65536.0
  }

  /** The least value that rounds up to it, 248 or 61440. */
  ghost function Overflow(fmt: Format): real {
    match fmt case E4M3 => 248.0 case E5M2 => 61440.0
  }

  /** The greatest value within half a unit of it, 4096/15 or 2^19/7. */
  ghost function High(fmt: Format): real {
    match fmt case E4M3 => 4096.0 / 15.0 case E5M2 => 524288.0 / 7.0
  }

  lemma Scale8(x: real)
    ensures Ldexp(x, 8) == 256.0 * x && Ldexp(x, 16) == 65536.0 * x
    ensures Ldexp(x, -6) == x / 64.0 && Ldexp(x, -14) == x / 16384.0
  {
    Shift4(x, 0);
    Shift4(16.0 * x, 0);
    Shift4(x, 4);
    Shift4(256.0 * x, 0);
    Shift4(16.0 * x, 8);
    Shift4(x, 12);
    Shift4(4096.0 * x, 0);
    Shift4(256.0 * x, 4);
    Shift4(16.0 * x, 8);
    assert Ldexp(x, -1) == x / 2.0 && Ldexp(x, -2) == x / 4.0;
    Shift4(x / 64.0, -6);
    Shift4(x / 16384.0, -14);
    Shift4(x / 1024.0, -10);
    Shift4(x / 64.0, -6);
  }

  /** A float in the binade below a power of two carries exactly in its last half unit. */
  lemma CarriesExactly(fmt: Format, f: F32)
    requires f.IsNormal()
    ensures Rounded(fmt, f.mant) == fmt.Top() <==>
      Significand(f) >= match fmt case E4M3 => 31.0 / 16.0 case E5M2 => 15.0 / 8.0
  {
  }

  lemma NormalWithin(fmt: Format, f: F32)
    requires f.IsNormal() && 0 < Shifted(fmt, f) < fmt.ExpMax()
    ensures Within(fmt, CodeOf(fmt, f), Magnitude(f))
  {
    NormalCode(fmt, f);
    InBinade(f);
    NearbyWithin(fmt, f);
    WithinScaled(fmt, Nearby(fmt, f), Significand(f), f.exp - 127);
  }

  lemma NearbyWithin(fmt: Format, f: F32)
    requires f.IsNormal()
    ensures Within(fmt, Nearby(fmt, f), Significand(f))
  {
  }

  lemma WithinScaled(fmt: Format, a: real, b: real, k: int)
    requires Within(fmt, a, b)
    ensures Within(fmt, Ldexp(a, k), Ldexp(b, k))
  {
    Monotone(a, b, k);
    Linear(a, b, k);
    Linear(b, a, k);
    Monotone(a - b, HalfUnitError(fmt, b), k);
    Monotone(b - a, HalfUnitError(fmt, b), k);
  }

  lemma NormalInRange(fmt: Format, f: F32)
    requires f.IsNormal() && 0 < Shifted(fmt, f) < fmt.ExpMax()
    ensures Low(fmt) <= Magnitude(f) <= High(fmt)
  {
    InBinade(f);
    Scale8(1.0);
    ReachesExactly(fmt, f, 1 - fmt.Bias(), MinNormal(fmt));
    Grows(1.0, f.exp - 126, fmt.ExpMax() - fmt.Bias());
  }

  /** A float's rounded exponent reaches e exactly from the least value rounding up to 2^e. */
  lemma ReachesExactly(fmt: Format, f: F32, e: int, power: real)
    requires f.IsNormal() && power == Ldexp(1.0, e)
    ensures Shifted(fmt, f) - fmt.Bias() >= e <==>
      Magnitude(f) >= match fmt case E4M3 => 31.0 * power / 32.0 case E5M2 => 15.0 * power / 16.0
  {
    InBinade(f);
    CarriesExactly(fmt, f);
    ZeroScaled(e);
    Monotone(0.0, 1.0, e);
    if f.exp - 127 >= e {
      Grows(1.0, e, f.exp - 127);
    } else {
      Grows(1.0, f.exp - 126, e);
      if f.exp - 127 == e - 1 {
        CarryAt(fmt, Significand(f), e);
      }
    }
  }

  lemma CarryAt(fmt: Format, x: real, e: int)
    ensures x >= (match fmt case E4M3 => 31.0 / 16.0 case E5M2 => 15.0 / 8.0) <==>
      Ldexp(x, e - 1) >= match fmt case E4M3 => 31.0 * Ldexp(1.0, e) / 32.0 case E5M2 => 15.0 * Ldexp(1.0, e) / 16.0
  {
    var gap := HalfUnitError(fmt, 1.0);
    Doubles(1.0, e - 1);
    Doubled(1.0, e - 1);
    Linear(1.0, 0.0, e - 1);
    Linear(2.0, gap, e - 1);
    Monotone(2.0 - gap, x, e - 1);
    Monotone(x, 2.0 - gap, e - 1);
  }

  /** Values that become the infinity code. */
  lemma LargeExactly(fmt: Format, f: F32)
    requires f.IsNormal() && Shifted(fmt, f) >= fmt.ExpMax()
    ensures Overflow(fmt) <= Magnitude(f)
    ensures Within(fmt, CodeOf(fmt, f), Magnitude(f)) <==> Magnitude(f) <= High(fmt)
  {
    Scale8(1.0);
    ReachesExactly(fmt, f, fmt.ExpMax() - fmt.Bias(), Infinity(fmt));
    assert CodeOf(fmt, f) == Infinity(fmt);
  }

  /** Small values are below the value that rounds up to the smallest normal code, and
      below half of that code if their exponent is smaller still. */
  lemma SmallMagnitude(fmt: Format, f: F32)
    requires f.IsNormal() && Shifted(fmt, f) <= 0
    ensures 0.0 < Magnitude(f) < Low(fmt)
    ensures Shifted(fmt, f) < 0 ==> 2.0 * Magnitude(f) < MinNormal(fmt)
  {
    InBinade(f);
    ZeroScaled(f.exp - 127);
    Monotone(0.0, 1.0, f.exp - 127);
    Scale8(1.0);
    Doubles(1.0, -fmt.Bias());
    ReachesExactly(fmt, f, 1 - fmt.Bias(), MinNormal(fmt));
    ReachesExactly(fmt, f, -fmt.Bias(), MinNormal(fmt) / 2.0);
  }

  /** The mantissa field after rounding: a carry leaves zero. */
  ghost function Mant(fmt: Format, f: F32): (m: int)
    requires f.IsF32()
    ensures 0 <= m < fmt.Top()
  {
    if Rounded(fmt, f.mant) == fmt.Top() then 0 else Rounded(fmt, f.mant)
  }

  /** The subnormal field for a shifted exponent and a mantissa. */
  ghost function Subfield(fmt: Format, x: int, m: int): int {
    match fmt
    case E4M3 => if x == 0 then (8 + m) / 2 else if x == -1 then (8 + m) / 4 else if x == -2 then (8 + m) / 8 else 0
    case E5M2 => if x == 0 then (4 + m) / 2 else if x == -1 then (4 + m) / 4 else 0
  }

  lemma SubnormalField(fmt: Format, f: F32)
    requires f.IsNormal() && Shifted(fmt, f) <= 0
    ensures Fields(fmt, f) == (0, Subfield(fmt, Shifted(fmt, f), Mant(fmt, f)))
  {
    var x, a := Shifted(fmt, f), fmt.Top() + Mant(fmt, f);
    if fmt.ExpMin() <= x {
      Shifts(a, 1 - x);
    }
  }

  lemma Shifts(a: int, n: nat)
    requires 0 <= a < 16 && n > 0
    ensures ShiftRight(a, n) == if n == 1 then a / 2 else if n == 2 then a / 4 else if n == 3 then a / 8 else 0
  {
    assert ShiftRight(a, 1) == a / 2;
    if n >= 2 {
      assert ShiftRight(a, n) == ShiftRight(a / 2, n - 1) == ShiftRight(a / 2 / 2, n - 2);
    }
    if n >= 4 {
      assert ShiftRight(a, n) == ShiftRight(a / 2 / 2 / 2, n - 3) == ShiftRight(0, n - 4);
    }
  }

  /** Values below the normal range: their subnormal codes dequantise too large, or to
      zero. */
  lemma SmallFails(fmt: Format, f: F32)
    requires f.IsNormal() && Shifted(fmt, f) <= 0
    ensures Magnitude(f) < Low(fmt) && !Within(fmt, CodeOf(fmt, f), Magnitude(f))
  {
    SmallMagnitude(fmt, f);
    SubnormalField(fmt, f);
    Scale8(Fields(fmt, f).1 as real);
  }

  /** Subnormal floats are flushed to zero. */
  lemma Flushed(fmt: Format, f: F32)
    requires f.IsFinite() && f.exp == 0
    ensures CodeOf(fmt, f) == 0.0 && 0.0 <= Magnitude(f) < Low(fmt) && (Magnitude(f) == 0.0 <==> f.IsZero())
  {
    assert Fields(fmt, f) == (0, 0);
    ZeroScaled(-6);
    ZeroScaled(-14);
    ZeroScaled(-149);
    Monotone(0.0, f.mant as real, -149);
    Monotone(f.mant as real, 8388608.0, -149);
    Shift23(1.0, -149);
    Scale8(1.0);
    Grows(1.0, -126, -15);
    Doubles(1.0, -15);
  }

  /** The exact law, over every finite float: dequantising the quantised value is within
      half a unit of it exactly when it is zero or between Low and High. */
  lemma ErrorExactly(fmt: Format, f: F32)
    requires f.IsFinite()
    ensures Dist(Dequantize(fmt, Quantize(fmt, f)), Value(f)) <= HalfUnitError(fmt, Magnitude(f))
      <==> f.IsZero() || Low(fmt) <= Magnitude(f) <= High(fmt)
  {
    Composed(fmt, f);
    if f.exp == 0 {
      Flushed(fmt, f);
    } else if Shifted(fmt, f) >= fmt.ExpMax() {
      LargeExactly(fmt, f);
    } else if Shifted(fmt, f) > 0 {
      NormalWithin(fmt, f);
      NormalInRange(fmt, f);
    } else {
      SmallFails(fmt, f);
    }
  }
}
