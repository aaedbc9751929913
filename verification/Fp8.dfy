/** FP8 quantisation of 32-bit floats by bit manipulation. */
module Fp8 {
  import opened Division

  /** E4M3: 4 exponent and 3 mantissa bits. E5M2: 5 and 2. */
  datatype Format = E4M3 | E5M2 {
    function Bias(): int { match this case E4M3 => 7 case E5M2 => 15 }

    /** One above the largest exponent of a normal code. */
    function ExpMax(): int { match this case E4M3 => 15 case E5M2 => 31 }

    /** The smallest shifted exponent that is not flushed to zero. */
    function ExpMin(): int { match this case E4M3 => -7 case E5M2 => -1 }

    /** Two to the number of mantissa bits. */
    function Top(): int { match this case E4M3 => 8 case E5M2 => 4 }

    /** The float mantissa bits that are kept, and those that are rounded away. */
    function Kept(m: int): int { match this case E4M3 => m / 0x10_0000 case E5M2 => m / 0x20_0000 }
    function Lost(m: int): int { match this case E4M3 => m % 0x10_0000 case E5M2 => m % 0x20_0000 }

    /** Half of a unit of the kept mantissa. */
    function Half(): int { match this case E4M3 => 0x8_0000 case E5M2 => 0x10_0000 }

    function RoundBit(m: int): int { match this case E4M3 => m / 0x8_0000 % 2 case E5M2 => m / 0x10_0000 % 2 }
    function Sticky(m: int): bool { match this case E4M3 => m % 0x8_0000 != 0 case E5M2 => m % 0x10_0000 != 0 }

    /** The low seven bits of a code from its fields, and back. */
    function Pack(exp: int, mant: int): int { match this case E4M3 => 8 * exp + mant case E5M2 => 4 * exp + mant }
    function ExpField(q: int): int { match this case E4M3 => q % 128 / 8 case E5M2 => q % 128 / 4 }
    function MantField(q: int): int { match this case E4M3 => q % 8 case E5M2 => q % 4 }
  }

  const HIDDEN: int := 0x80_0000

  /** The fields of a 32-bit float. */
  datatype F32 = F32(negative: bool, exp: int, mant: int) {
    predicate IsF32() { 0 <= exp < 256 && 0 <= mant < HIDDEN }
    predicate IsFinite() { IsF32() && exp < 255 }
    predicate IsNan() { exp == 255 && mant != 0 }
    predicate IsZero() { exp == 0 && mant == 0 }
    predicate IsNormal() { IsF32() && 0 < exp < 255 }
  }

  // ---------- Values ----------

  /** x times two to the k. */
  ghost function Ldexp(x: real, k: int): real
    decreases if k < 0 then -k else k
  {
    if k == 0 then x else if k > 0 then 2.0 * Ldexp(x, k - 1) else Ldexp(x, k + 1) / 2.0
  }

  /** The magnitude of a finite float. */
  ghost function Magnitude(f: F32): real
    requires f.IsFinite()
  {
    if f.exp == 0 then Ldexp(f.mant as real, -149) else Ldexp((HIDDEN + f.mant) as real, f.exp - 150)
  }

  ghost function Value(f: F32): real
    requires f.IsFinite()
  {
    if f.negative then -Magnitude(f) else Magnitude(f)
  }

  /** The magnitude of the code with a given exponent and mantissa field. */
  ghost function CodeMagnitude(fmt: Format, exp: int, mant: int): real {
    match fmt
    case E4M3 => if exp == 0 then Ldexp(mant as real, -6) else Ldexp(1.0 + mant as real / 8.0, exp - 7)
    case E5M2 => if exp == 0 then Ldexp(mant as real, -14) else Ldexp(1.0 + mant as real / 4.0, exp - 15)
  }

  ghost function Dequantize(fmt: Format, q: int): real {
    var m := CodeMagnitude(fmt, fmt.ExpField(q), fmt.MantField(q));
    if q / 128 == 1 then -m else m
  }

  // ---------- Quantisation ----------

  /** Round to nearest, ties to even, of the float mantissa to the kept bits. */
  function Rounded(fmt: Format, m: int): (r: int)
    requires 0 <= m < HIDDEN
    ensures 0 <= r <= fmt.Top()
  {
    if fmt.Lost(m) > fmt.Half() || (fmt.Lost(m) == fmt.Half() && fmt.Kept(m) % 2 == 1) then fmt.Kept(m) + 1
    else fmt.Kept(m)
  }

  function ShiftRight(a: int, n: nat): (r: int)
    requires a >= 0
    ensures 0 <= r <= a
  {
    if n == 0 then a else ShiftRight(a / 2, n - 1)
  }

  /** The shifted exponent after rounding: a full mantissa carries into it. */
  function Shifted(fmt: Format, f: F32): int
    requires f.IsF32()
  {
    f.exp - 127 + fmt.Bias() + if Rounded(fmt, f.mant) == fmt.Top() then 1 else 0
  }

  /** The exponent and mantissa fields of the code: too large becomes the infinity
      code; too small is shifted into the subnormal field or flushed to zero. */
  function Fields(fmt: Format, f: F32): (r: (int, int))
    requires f.IsFinite()
    ensures 0 <= r.0 <= fmt.ExpMax() && 0 <= r.1 < fmt.Top()
  {
    var x, r := Shifted(fmt, f), Rounded(fmt, f.mant);
    var m := if r == fmt.Top() then 0 else r;
    if f.IsZero() then (0, 0)
    else if x >= fmt.ExpMax() then (fmt.ExpMax(), 0)
    else if x > 0 then (x, m)
    else if x < fmt.ExpMin() then (0, 0)
    else (0, ShiftRight(fmt.Top() + m, 1 - x) % fmt.Top())
  }

  function Quantize(fmt: Format, f: F32): (q: int)
    requires f.IsF32()
    ensures 0 <= q < 256
  {
    var s := if f.negative then 128 else 0;
    if f.IsNan() then 0x7F
    else if f.IsZero() then 0
    else if f.exp == 255 then s + fmt.Pack(fmt.ExpMax(), 0)
    else s + fmt.Pack(Fields(fmt, f).0, Fields(fmt, f).1)
  }

  /** The codes of values that are not finite numbers, and of both zeros. */
  lemma SpecialCodes(fmt: Format, f: F32)
    requires f.IsF32()
    ensures f.exp == 255 && f.mant != 0 ==> Quantize(fmt, f) == 0x7F
    ensures f.exp == 255 && f.mant == 0 ==>
      Quantize(fmt, f) == (if f.negative then 128 else 0) + (if fmt.E4M3? then 0x78 else 0x7C)
    ensures f.exp == 0 && f.mant == 0 ==> Quantize(fmt, f) == 0
  {
  }

  /** The round bit and the sticky bits decide as the remainder does. */
  lemma RoundBits(fmt: Format, m: int)
    requires 0 <= m < HIDDEN
    ensures fmt.RoundBit(m) == 1 <==> fmt.Lost(m) >= fmt.Half()
    ensures fmt.Sticky(m) <==> fmt.Lost(m) != 0 && fmt.Lost(m) != fmt.Half()
  {
    var up := if fmt.Lost(m) >= fmt.Half() then 1 else 0;
    DivUnique(m, fmt.Half(), 2 * fmt.Kept(m) + up, fmt.Lost(m) - up * fmt.Half());
  }

  /** The step-by-step computation on the bits, for either format. */
  method QuantizeBits(fmt: Format, f: F32) returns (q: int)
    requires f.IsF32()
    ensures q == Quantize(fmt, f)
  {
    if f.IsNan() {
      return 0x7F;
    }
    if f.IsZero() {
      return 0x00;
    }
    var sign := if f.negative then 128 else 0;
    if f.exp == 255 {
      return sign + fmt.Pack(fmt.ExpMax(), 0);
    }
    var fp8Exp := f.exp - 127 + fmt.Bias();
    var mant := fmt.Kept(f.mant);
    RoundBits(fmt, f.mant);
    if fmt.RoundBit(f.mant) == 1 && (fmt.Sticky(f.mant) || mant % 2 == 1) {
      mant := mant + 1;
      if mant == fmt.Top() {
        mant := 0;
        fp8Exp := fp8Exp + 1;
      }
    }
    assert fp8Exp == Shifted(fmt, f);
    if fp8Exp >= fmt.ExpMax() {
      return sign + fmt.Pack(fmt.ExpMax(), 0);
    } else if fp8Exp <= 0 {
      if fp8Exp < fmt.ExpMin() {
        return sign;
      }
      mant := ShiftRight(fmt.Top() + mant, 1 - fp8Exp) % fmt.Top();
      fp8Exp := 0;
    }
    q := sign + fmt.Pack(fp8Exp, mant);
  }
}
