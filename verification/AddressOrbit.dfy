/** Loops that step through addresses with 64-bit wrap-around: which addresses they visit,
    and when they end. */
module AddressOrbit {
  import opened Basics
  import opened Division

  /** The address after i steps. */
  function Orbit(start: u64, step: u64, i: nat): u64 {
    if i == 0 then start else (Orbit(start, step, i - 1) + step) % U64
  }

  /** The loop leaves the range after n rounds. */
  ghost predicate EndsAfter(start: u64, end: u64, step: u64, n: nat) {
    Orbit(start, step, n) >= end && forall i :: 0 <= i < n ==> Orbit(start, step, i) < end
  }

  ghost predicate Ends(start: u64, end: u64, step: u64) {
    exists n :: EndsAfter(start, end, step, n)
  }

  ghost function Rounds(start: u64, end: u64, step: u64): (n: nat)
    requires Ends(start, end, step)
    ensures EndsAfter(start, end, step, n)
  {
    var n :| EndsAfter(start, end, step, n); n
  }

  lemma RoundsAre(start: u64, end: u64, step: u64, n: nat)
    requires EndsAfter(start, end, step, n)
    ensures Rounds(start, end, step) == n
  {
  }

  /** The visited addresses, in order. */
  ghost function Visits(start: u64, end: u64, step: u64): (r: seq<u64>)
    requires Ends(start, end, step)
    ensures |r| == Rounds(start, end, step)
    ensures forall i :: 0 <= i < |r| ==> r[i] == Orbit(start, step, i) < end
  {
    seq(Rounds(start, end, step), i requires i >= 0 => Orbit(start, step, i))
  }

  // ---------- When the loop ends ----------

  /** The greatest power of two that divides a number. */
  function LowBit(x: nat): (g: nat)
    requires x > 0
    ensures g > 0
  {
    if x % 2 == 1 then 1 else 2 * LowBit(x / 2)
  }

  /** Whether the last address that the orbit can reach is outside the range. */
  predicate Returns(start: u64, end: u64, step: u64) {
    start >= end || (step > 0 && U64 - LowBit(step) + start % LowBit(step) >= end)
  }

  lemma {:induction false} LowBitDivides(x: nat, e: nat) returns (p: nat, h: nat)
    requires 0 < x < Pow2(e)
    ensures x == LowBit(x) * p && p % 2 == 1
    ensures Pow2(e) == LowBit(x) * h
  {
    if x % 2 == 1 {
      p, h := x, Pow2(e);
    } else {
      p, h := LowBitDivides(x / 2, e - 1);
      var g := LowBit(x / 2);
      Twice(g, p);
      Twice(g, h);
    }
  }

  /** An odd number has an inverse modulo every power of two. */
  lemma {:induction false} Inverse(p: nat, k: nat) returns (u: nat, c: nat)
    requires p % 2 == 1
    ensures u * p == 1 + c * Pow2(k)
  {
    if k == 0 {
      u, c := 1, p - 1;
    } else {
      u, c := Inverse(p, k - 1);
      u, c := LiftInverse(u, c, p, Pow2(k - 1));
    }
  }

  lemma LiftInverse(u: nat, c: nat, p: nat, q: nat) returns (u': nat, c': nat)
    requires p % 2 == 1 && u * p == 1 + c * q
    ensures u' * p == 1 + c' * (2 * q)
  {
    if c % 2 == 0 {
      HalfTwice(c, q);
      u', c' := u, c / 2;
    } else {
      LiftOdd(u, c, p, q);
      HalfTwice(c + p, q);
      u', c' := u + q, (c + p) / 2;
    }
  }

  lemma LiftOdd(u: nat, c: nat, p: nat, q: nat)
    requires u * p == 1 + c * q
    ensures (u + q) * p == 1 + (c + p) * q
  {
    Distribute(u, q, p);
    Distribute(c, p, q);
  }

  // Products, one step at a time.

  lemma Distribute(a: int, b: int, g: int)
    ensures (a + b) * g == a * g + b * g
  {
  }

  lemma Associate(a: int, b: int, g: int)
    ensures a * (g * b) == a * b * g
  {
  }

  lemma Twice(a: int, b: int)
    ensures (2 * a) * b == 2 * (a * b)
  {
  }

  lemma HalfTwice(c: int, q: int)
    requires c % 2 == 0
    ensures c * q == c / 2 * (2 * q)
  {
    Associate(c / 2, q, 2);
  }

  lemma Grows(a: int, b: int, g: nat)
    ensures a <= b ==> a * g <= b * g
  {
    if a <= b {
      Distribute(b - a, a, g);
      assert (b - a) * g >= 0;
    }
  }

  lemma Residue(x: int, g: nat, c: int)
    requires g > 0
    ensures (x + c * g) % g == x % g
  {
    Distribute(x / g, c, g);
    DivUnique(x + c * g, g, x / g + c, x % g);
  }

  lemma Pow64()
    ensures Pow2(64) == U64
  {
    Pow2Values();
    assert Pow2(32) == 0x1_0000_0000 by {
      assert Pow2(20) == 0x10_0000 && Pow2(24) == 0x100_0000 && Pow2(28) == 0x1000_0000;
    }
    assert Pow2(48) == 0x1_0000_0000_0000 by {
      assert Pow2(36) == 0x10_0000_0000 && Pow2(40) == 0x100_0000_0000 && Pow2(44) == 0x1000_0000_0000;
    }
    assert Pow2(52) == 0x10_0000_0000_0000 && Pow2(56) == 0x100_0000_0000_0000 && Pow2(60) == 0x1000_0000_0000_0000;
  }

  lemma {:induction false} OrbitClosed(start: u64, step: u64, i: nat)
    ensures Orbit(start, step, i) == (start + i * step) % U64
  {
    if i > 0 {
      OrbitClosed(start, step, i - 1);
      Distribute(i - 1, 1, step);
      ModSum(start + (i - 1) * step, step);
    }
  }

  lemma ModSum(y: int, s: int)
    ensures (y % U64 + s) % U64 == (y + s) % U64
  {
    Residue(y + s, U64, -(y / U64));
  }

  /** The orbit keeps its residue. */
  lemma OrbitResidue(start: u64, step: u64, g: nat, p: nat, h: nat, i: nat)
    requires g > 0 && step == g * p && U64 == g * h
    ensures Orbit(start, step, i) % g == start % g
  {
    OrbitClosed(start, step, i);
    var x, q := Orbit(start, step, i), (start + i * step) / U64;
    Associate(i, p, g);
    Associate(q, h, g);
    Distribute(i * p, -(q * h), g);
    assert x == start + (i * p - q * h) * g;
    Residue(start, g, i * p - q * h);
  }

  /** The last number below a multiple of g with a given residue. */
  lemma LastWith(x: nat, g: nat, h: nat)
    requires g > 0 && x < g * h
    ensures x / g < h && x <= g * h - g + x % g
  {
    var k := x / g;
    assert x == k * g + x % g;
    Grows(h, k, g);
    Grows(k, h - 1, g);
    Distribute(h, -1, g);
  }

  /** The number of times g, modulo 2^64, from one address to another. */
  lemma StepsBetween(start: u64, a: u64, g: nat, h: nat) returns (t: nat, q: int)
    requires g > 0 && U64 == g * h && a % g == start % g
    ensures start + t * g == a + q * U64
  {
    LastWith(start, g, h);
    var d := a / g - start / g;
    assert a == a / g * g + a % g && start == start / g * g + start % g;
    Distribute(a / g, -(start / g), g);
    assert start + d * g == a;
    if d >= 0 {
      t, q := d, 0;
    } else {
      LastWith(a, g, h);
      t, q := d + h, 1;
      Distribute(d, h, g);
    }
  }

  /** It reaches every address with it. */
  lemma OrbitReaches(start: u64, step: u64, g: nat, p: nat, h: nat, a: u64) returns (i: nat)
    requires g > 0 && step == g * p && U64 == g * h && p % 2 == 1 && a % g == start % g
    ensures Orbit(start, step, i) == a
  {
    Pow64();
    var u, c := Inverse(p, 64);
    var t, q := StepsBetween(start, a, g, h);
    i := u * t;
    assert i * step == t * g + t * g * c * U64 by {
      assert i * step == t * g * (u * p);
      assert t * g * (1 + c * U64) == t * g + t * g * c * U64;
    }
    Distribute(q, t * g * c, U64);
    OrbitClosed(start, step, i);
    DivUnique(start + i * step, U64, q + t * g * c, a);
  }

  ghost predicate InOrbit(start: u64, step: u64, a: u64) {
    exists i :: Orbit(start, step, i) == a
  }

  /** So the orbit is the addresses with the residue of the start, modulo the lowest bit of
      the step. */
  lemma OrbitExactly(start: u64, step: u64, a: u64)
    requires step > 0
    ensures InOrbit(start, step, a) <==> a % LowBit(step) == start % LowBit(step)
  {
    Pow64();
    var g := LowBit(step);
    var p, h := LowBitDivides(step, 64);
    if i :| Orbit(start, step, i) == a {
      OrbitResidue(start, step, g, p, h, i);
    }
    if a % g == start % g {
      var i := OrbitReaches(start, step, g, p, h, a);
    }
  }

  lemma {:induction false} FirstOutside(start: u64, end: u64, step: u64, n: nat)
    requires Orbit(start, step, n) >= end
    ensures Ends(start, end, step)
  {
    if forall i :: 0 <= i < n ==> Orbit(start, step, i) < end {
      assert EndsAfter(start, end, step, n);
    } else {
      var i :| 0 <= i < n && Orbit(start, step, i) >= end;
      FirstOutside(start, end, step, i);
    }
  }

  lemma {:induction false} StandsStill(start: u64, i: nat)
    ensures Orbit(start, 0, i) == start
  {
    if i > 0 {
      StandsStill(start, i - 1);
    }
  }

  /** The last address with a residue. */
  lemma LastAddress(start: u64, step: u64) returns (last: u64)
    requires step > 0
    ensures last == U64 - LowBit(step) + start % LowBit(step) && last % LowBit(step) == start % LowBit(step)
    ensures forall a: u64 :: a % LowBit(step) == start % LowBit(step) ==> a <= last
  {
    Pow64();
    var g := LowBit(step);
    var p, h := LowBitDivides(step, 64);
    forall a: u64 | a % g == start % g ensures a <= U64 - g + start % g {
      LastWith(a, g, h);
    }
    LastWith(start, g, h);
    last := U64 - g + start % g;
    Distribute(h, -1, g);
    DivUnique(last, g, h - 1, start % g);
  }

  /** The exact law: the loop ends if and only if the last address with the residue of the
      start, modulo the lowest bit of the step, is outside the range. */
  lemma ReturnsExactly(start: u64, end: u64, step: u64)
    ensures Ends(start, end, step) <==> Returns(start, end, step)
  {
    if start >= end {
      FirstOutside(start, end, step, 0);
    } else if step == 0 {
      if Ends(start, end, step) {
        StandsStill(start, Rounds(start, end, step));
      }
    } else {
      var last := LastAddress(start, step);
      if Ends(start, end, step) {
        var n := Rounds(start, end, step);
        OrbitExactly(start, step, Orbit(start, step, n));
        assert Orbit(start, step, n) % LowBit(step) == start % LowBit(step);
      }
      if last >= end {
        OrbitExactly(start, step, last);
        var i :| Orbit(start, step, i) == last;
        FirstOutside(start, end, step, i);
      }
    }
  }

  // ---------- What the loop visits ----------

  lemma {:induction false} SameFrom(start: u64, step: u64, i: nat, j: nat, k: nat)
    requires Orbit(start, step, i) == Orbit(start, step, j)
    ensures Orbit(start, step, i + k) == Orbit(start, step, j + k)
  {
    if k > 0 {
      SameFrom(start, step, i, j, k - 1);
    }
  }

  /** The loop stands at the address curr after i rounds. */
  ghost predicate OnOrbit(curr: u64, visits: seq<u64>, end: u64, i: nat) {
    i <= |visits| && (curr < end <==> i < |visits|) && (curr < end ==> curr == visits[i])
  }

  lemma OrbitStarts(start: u64, end: u64, step: u64)
    requires Ends(start, end, step)
    ensures OnOrbit(start, Visits(start, end, step), end, 0)
  {
    assert Orbit(start, step, 0) == start;
  }

  lemma OrbitOn(start: u64, end: u64, step: u64, curr: u64, i: nat)
    requires Ends(start, end, step) && curr < end && OnOrbit(curr, Visits(start, end, step), end, i)
    ensures OnOrbit((curr + step) % U64, Visits(start, end, step), end, i + 1)
  {
    assert Orbit(start, step, i + 1) == (curr + step) % U64;
  }

  /** A loop that ends visits no address twice. */
  lemma VisitsDistinct(start: u64, end: u64, step: u64)
    requires Ends(start, end, step)
    ensures Distinct(Visits(start, end, step))
  {
    var n := Rounds(start, end, step);
    forall i, j | 0 <= i < j < n ensures Orbit(start, step, i) != Orbit(start, step, j) {
      if Orbit(start, step, i) == Orbit(start, step, j) {
        SameFrom(start, step, i, j, n - j);
      }
    }
  }

  /** The first grid address at or after the end. */
  ghost function Stop(start: nat, end: nat, step: nat): nat
    requires start < end && step > 0
  {
    start + (end - start + step - 1) / step * step
  }

  lemma StraightAt(start: u64, end: u64, step: u64, i: nat, n: nat)
    requires start < end && step > 0 && Stop(start, end, step) < U64
    requires i <= n == (end - start + step - 1) / step
    ensures Orbit(start, step, i) == start + i * step && (start + i * step < end <==> i < n)
  {
    var x := end - start + step - 1;
    assert x == n * step + x % step;
    Grows(0, i, step);
    Grows(i, n, step);
    Grows(i, n - 1, step);
    Distribute(n, -1, step);
    OrbitClosed(start, step, i);
  }

  lemma StraightRounds(start: u64, end: u64, step: u64) returns (n: nat)
    requires start < end && step > 0 && Stop(start, end, step) < U64
    ensures Ends(start, end, step) && n == Rounds(start, end, step) == (end - start + step - 1) / step
    ensures forall i :: 0 <= i < n ==> Visits(start, end, step)[i] == start + i * step
  {
    n := (end - start + step - 1) / step;
    forall i | 0 <= i <= n
      ensures Orbit(start, step, i) == start + i * step && (Orbit(start, step, i) < end <==> i < n)
    {
      StraightAt(start, end, step, i, n);
    }
    assert EndsAfter(start, end, step, n);
    RoundsAre(start, end, step, n);
  }

  lemma GridIndex(start: nat, end: nat, step: nat, a: nat, n: nat) returns (i: nat)
    requires start <= a < end && step > 0 && (a - start) % step == 0 && start + n * step >= end
    ensures i < n && a == start + i * step
  {
    i := (a - start) / step;
    assert a - start == i * step;
    Grows(n, i, step);
  }

  lemma Ascending(start: nat, step: nat, i: nat, j: nat)
    requires step > 0 && i < j
    ensures start <= start + i * step < start + j * step && (i * step) % step == 0
  {
    Grows(0, i, step);
    Grows(i + 1, j, step);
    Distribute(i, 1, step);
    Residue(0, step, i);
  }

  /** Without wrap-around the visits are the grid addresses of the range, in order. */
  lemma VisitsStraight(start: u64, end: u64, step: u64, a: u64)
    requires start < end && step > 0 && Stop(start, end, step) < U64
    ensures Ends(start, end, step)
    ensures a in Visits(start, end, step) <==> start <= a < end && (a - start) % step == 0
    ensures forall i, j :: 0 <= i < j < |Visits(start, end, step)| ==>
      Visits(start, end, step)[i] < Visits(start, end, step)[j]
  {
    var n := StraightRounds(start, end, step);
    var v := Visits(start, end, step);
    if start <= a < end && (a - start) % step == 0 {
      StraightAt(start, end, step, n, n);
      var i := GridIndex(start, end, step, a, n);
      assert v[i] == a;
    }
    if a in v {
      var i :| 0 <= i < n && v[i] == a;
      Ascending(start, step, i, i + 1);
    }
    forall i, j | 0 <= i < j < n ensures v[i] < v[j] {
      Ascending(start, step, i, j);
    }
  }
}
