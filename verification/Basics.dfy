/** Notions that several models share. */
module Basics {

  type u16 = x: int | 0 <= x < 0x1_0000
  type u32 = x: int | 0 <= x < 0x1_0000_0000
  type u64 = x: int | 0 <= x < 0x1_0000_0000_0000_0000

  const U64: int := 0x1_0000_0000_0000_0000

  datatype Option<T> = None | Some(value: T)

  ghost predicate Distinct<T>(s: seq<T>) {
    forall i, j :: 0 <= i < j < |s| ==> s[i] != s[j]
  }

  /** The naturals below n. */
  ghost function Below(n: nat): (r: set<nat>)
    ensures forall i: nat :: i in r <==> i < n
  {
    if n == 0 then {} else Below(n - 1) + {n - 1}
  }

  lemma {:induction false} BelowSize(n: nat)
    ensures |Below(n)| == n
  {
    if n > 0 {
      BelowSize(n - 1);
    }
  }

  lemma Smaller<T>(a: set<T>, b: set<T>)
    requires a <= b
    ensures |a| <= |b|
  {
    assert b == a + (b - a);
  }

  ghost function Dist(x: real, y: real): real {
    if x < y then y - x else x - y
  }

  function Pow2(k: nat): (r: nat)
    ensures r > 0
  {
    if k == 0 then 1 else 2 * Pow2(k - 1)
  }

  lemma Pow2Values()
    ensures Pow2(1) == 2 && Pow2(4) == 16 && Pow2(15) == 0x8000 && Pow2(16) == 0x1_0000
  {
    assert Pow2(3) == 8;
    assert Pow2(5) == 32 && Pow2(7) == 128;
    assert Pow2(9) == 512 && Pow2(11) == 2048;
    assert Pow2(13) == 8192;
  }

  lemma {:induction false} Pow2Monotone(j: nat, k: nat)
    ensures j <= k ==> Pow2(j) <= Pow2(k)
    decreases k - j
  {
    if j < k {
      Pow2Monotone(j + 1, k);
    }
  }

  ghost predicate IsPow2(n: nat) {
    exists k :: n == Pow2(k)
  }
}
