/** The precision predictor: a memory-pressure state with hysteresis, a table of
    layer profiles, and the policy word chosen for each block. */
module Precision {
  import opened Basics

  // ---------- Memory-pressure hysteresis ----------

  datatype Pressure = Nominal | Elevated | Critical {
    function Rank(): nat {
      match this case Nominal => 0 case Elevated => 1 case Critical => 2
    }

    function Update(mu: real): Pressure {
      match this
      case Nominal => if mu >= 0.88 then Critical else if mu >= 0.78 then Elevated else Nominal
      case Elevated => if mu >= 0.88 then Critical else if mu < 0.70 then Nominal else Elevated
      case Critical => if mu < 0.82 then Elevated else Critical
    }
  }

  function After(s: Pressure, trace: seq<real>): Pressure {
    if trace == [] then s else After(s, trace[..|trace| - 1]).Update(trace[|trace| - 1])
  }

  /** Higher pressure from a state at least as high never leads to a lower state. */
  lemma {:induction false} AfterMonotone(s: Pressure, t: Pressure, low: seq<real>, high: seq<real>)
    requires s.Rank() <= t.Rank() && |low| == |high| && forall i :: 0 <= i < |low| ==> low[i] <= high[i]
    ensures After(s, low).Rank() <= After(t, high).Rank()
  {
    if low != [] {
      var n := |low| - 1;
      AfterMonotone(s, t, low[..n], high[..n]);
    }
  }

  /** From some reading at or above a threshold on, no reading is below a lower one. */
  ghost predicate RoseAt(trace: seq<real>, i: nat, up: real, down: real)
    requires i < |trace|
  {
    trace[i] >= up && forall j :: i < j < |trace| ==> trace[j] >= down
  }

  ghost predicate FellAt(s: Pressure, trace: seq<real>, i: nat)
    requires i < |trace|
  {
    trace[i] < 0.70 && After(s, trace[..i]) != Critical && forall j :: i < j < |trace| ==> trace[j] < 0.78
  }

  /** The levels over every trace. Critical: a reading of 0.88 was met and none below 0.82 since.
      Nominal: a reading below 0.70 was met outside Critical and none of 0.78 since. The start
      counts as such a reading for its own level. */
  lemma {:induction false} PressureExactly(s: Pressure, trace: seq<real>)
    ensures After(s, trace) == Critical <==>
      || (s == Critical && forall j :: 0 <= j < |trace| ==> trace[j] >= 0.82)
      || exists i :: 0 <= i < |trace| && RoseAt(trace, i, 0.88, 0.82)
    ensures After(s, trace) == Nominal <==>
      || (s == Nominal && forall j :: 0 <= j < |trace| ==> trace[j] < 0.78)
      || exists i :: 0 <= i < |trace| && FellAt(s, trace, i)
  {
    if trace != [] {
      var n := |trace| - 1;
      var before, mu := trace[..n], trace[n];
      PressureExactly(s, before);
      assert RoseAt(trace, n, 0.88, 0.82) <==> mu >= 0.88;
      assert FellAt(s, trace, n) <==> mu < 0.70 && After(s, before) != Critical;
      forall i | 0 <= i < n
        ensures RoseAt(trace, i, 0.88, 0.82) <==> RoseAt(before, i, 0.88, 0.82) && mu >= 0.82
        ensures FellAt(s, trace, i) <==> FellAt(s, before, i) && mu < 0.78
      {
        assert trace[..i] == before[..i];
        assert forall j :: 0 <= j < n ==> trace[j] == before[j];
      }
    }
  }

  // ---------- Anti-thrashing ----------

  datatype Move = Still | Up | Down

  function MoveOf(s: Pressure, t: Pressure): Move {
    if s.Rank() < t.Rank() then Up else if t.Rank() < s.Rank() then Down else Still
  }

  /** The number of changes of direction among the state changes of a run. */
  ghost function Reversals(s: Pressure, last: Move, trace: seq<real>): nat
    decreases |trace|
  {
    if trace == [] then 0
    else
      var s' := s.Update(trace[0]);
      var m := MoveOf(s, s');
      if m == Still then Reversals(s, last, trace[1..])
      else Reversals(s', m, trace[1..]) + if last != Still && last != m then 1 else 0
  }

  ghost function Variation(trace: seq<real>): real {
    if |trace| < 2 then 0.0 else Dist(trace[0], trace[1]) + Variation(trace[1..])
  }

  /** What the last change of state tells about the reading that caused it. */
  ghost predicate Caused(s: Pressure, last: Move, mu: real) {
    match last
    case Still => true
    case Up => s != Nominal && mu >= if s == Critical then 0.88 else 0.78
    case Down => s != Critical && mu < if s == Nominal then 0.70 else 0.82
  }

  /** Reversing takes a swing of more than 0.06 from the reading of the last change. */
  lemma Swing(s: Pressure, last: Move, c: real, mu: real)
    requires Caused(s, last, c)
    ensures var m := MoveOf(s, s.Update(mu));
      && (m != Still ==> Caused(s.Update(mu), m, mu))
      && (m != Still && last != Still && m != last ==> Dist(c, mu) > 0.06)
  {
  }

  lemma {:induction false} SwingsPay(s: Pressure, last: Move, c: real, spent: real, prev: real, rest: seq<real>)
    requires Caused(s, last, c) && spent >= Dist(c, prev)
    ensures 0.06 * Reversals(s, last, rest) as real <= spent + Variation([prev] + rest)
    decreases |rest|
  {
    if rest != [] {
      var mu, more := rest[0], rest[1..];
      var s' := s.Update(mu);
      var m := MoveOf(s, s');
      assert ([prev] + rest)[1..] == rest == [mu] + more;
      assert Variation([prev] + rest) == Dist(prev, mu) + Variation([mu] + more);
      Swing(s, last, c, mu);
      if m == Still {
        SwingsPay(s, last, c, spent + Dist(prev, mu), mu, more);
      } else {
        SwingsPay(s', m, mu, 0.0, mu, more);
      }
    }
  }

  /** The anti-thrashing bound: each reversal is paid for by more than 0.06 of total
      variation in the readings. */
  lemma AntiThrashing(s: Pressure, trace: seq<real>)
    ensures 0.06 * Reversals(s, Still, trace) as real <= Variation(trace)
  {
    if trace != [] {
      var s' := s.Update(trace[0]);
      var m := MoveOf(s, s');
      assert trace == [trace[0]] + trace[1..];
      SwingsPay(s', m, trace[0], 0.0, trace[0], trace[1..]);
      if m == Still {
        assert s' == s;
      }
    }
  }

  /** Readings that swing between 0.88 and just below 0.82. */
  ghost function Zigzag(n: nat, d: real, high: bool): seq<real> {
    [if high then 0.88 else 0.82 - d] + if n == 0 then [] else Zigzag(n - 1, d, !high)
  }

  /** The constant cannot be improved: any number of reversals can come arbitrarily
      close to 0.06 each. */
  lemma {:induction false} BoundIsSharp(n: nat, d: real, high: bool)
    requires 0.0 < d < 0.12
    ensures Reversals(if high then Elevated else Critical, if high then Down else Up, Zigzag(n, d, high)) == n + 1
    ensures Variation(Zigzag(n, d, high)) == n as real * (0.06 + d)
  {
    var z := Zigzag(n, d, high);
    if n == 0 {
      assert z[1..] == [];
    } else {
      BoundIsSharp(n - 1, d, !high);
      var y := Zigzag(n - 1, d, !high);
      assert z[1..] == y;
      assert Dist(z[0], z[1]) == 0.06 + d;
    }
  }

  lemma SharpFromStart(n: nat, d: real)
    requires 0.0 < d < 0.12
    ensures Reversals(Elevated, Still, Zigzag(n, d, true)) == n
    ensures Variation(Zigzag(n, d, true)) == n as real * (0.06 + d)
  {
    BoundIsSharp(n, d, true);
    var z := Zigzag(n, d, true);
    assert z[1..] == if n == 0 then [] else Zigzag(n - 1, d, false);
    if n > 0 {
      BoundIsSharp(n - 1, d, false);
    }
  }

  // ---------- Layer profiles ----------

  datatype Profile = Profile(baseBonus: nat, isCritical: bool, canPrune: bool)

  /** Unsigned subtraction, defined only where it does not underflow. */
  function USub(a: nat, b: nat): nat
    requires b <= a
  {
    a - b
  }

  function LayerProfile(total: nat, l: nat): Profile
    requires l < total
  {
    Profile(if l < 4 || l >= USub(total, 4) then 1 else 0,
            l < 2 || l >= USub(total, 2),
            l >= total / 4 && l <= 3 * total / 4)
  }

  function BuildLayerProfiles(total: nat): seq<Profile> {
    seq(total, l requires 0 <= l < total => LayerProfile(total, l))
  }

  /** The table by distance from the nearer end of the network: critical layers are
      the two outermost on either side and always carry the bonus of the outermost four. */
  lemma ProfileByDistance(total: nat, l: nat)
    requires l < total
    ensures var prof, edge := BuildLayerProfiles(total)[l], if l < total - 1 - l then l else total - 1 - l;
      && (prof.isCritical <==> edge < 2)
      && (prof.baseBonus == 1 <==> edge < 4) && prof.baseBonus <= 1
      && (prof.isCritical ==> prof.baseBonus == 1)
  {
  }

  /** No layer has both the bonus and the permission to prune exactly in networks of
      more than 16 layers. */
  lemma BonusApartFromPruning(total: nat)
    ensures (forall l :: 0 <= l < total ==>
               !(BuildLayerProfiles(total)[l].baseBonus == 1 && BuildLayerProfiles(total)[l].canPrune))
      <==> total == 0 || total > 16
  {
    if 0 < total <= 16 {
      var l := if total == 16 then 12 else total / 4;
      assert BuildLayerProfiles(total)[l].baseBonus == 1 && BuildLayerProfiles(total)[l].canPrune;
    }
  }

  // ---------- The policy word ----------

  datatype Level = Fp16 | Fp8 | Fp8Residual | Pruned {
    function Code(): bv32 {
      match this case Fp16 => 0 case Fp8 => 1 case Fp8Residual => 2 case Pruned => 3
    }

    /** The order of quality lost: 0 is lossless, 3 keeps only the critical heads. */
    function Loss(): nat {
      match this case Fp16 => 0 case Fp8Residual => 1 case Fp8 => 2 case Pruned => 3
    }
  }

  function FromCode(v: bv32): Level {
    if v == 0 then Fp16 else if v == 1 then Fp8 else if v == 2 then Fp8Residual else Pruned
  }

  datatype Policy = Policy(raw: bv32) {
    function Precision(): Level { FromCode(raw & 0x3) }
    function UseResidual(): bool { (raw >> 2) & 1 == 1 }
    function HeadMask(): bv32 { (raw >> 8) & 0xFF_FFFF }
  }

  function NewPolicy(p: Level, residual: bool, headMask: bv32): Policy {
    Policy(p.Code() | ((if residual then 1 else 0) << 2) | ((headMask & 0xFF_FFFF) << 8))
  }

  lemma PrecisionBits(p: bv32, r: bv32, m: bv32)
    requires p < 4 && r < 2 && m <= 0xFF_FFFF
    ensures (p | (r << 2) | (m << 8)) & 0x3 == p
  {
  }

  lemma ResidualBit(p: bv32, r: bv32, m: bv32)
    requires p < 4 && r < 2 && m <= 0xFF_FFFF
    ensures ((p | (r << 2) | (m << 8)) >> 2) & 1 == r
    ensures ((p | (r << 2) | (m << 8)) >> 3) & 0x1F == 0
  {
  }

  lemma MaskBits(p: bv32, r: bv32, m: bv32)
    requires p < 4 && r < 2 && m <= 0xFF_FFFF
    ensures ((p | (r << 2) | (m << 8)) >> 8) & 0xFF_FFFF == m
  {
  }

  lemma MaskSmall(m: bv32)
    ensures m & 0xFF_FFFF <= 0xFF_FFFF
  {
  }

  /** Packing loses nothing but the mask bits above 24, and leaves the reserved bits zero. */
  lemma Unpack(p: Level, residual: bool, headMask: bv32)
    ensures var w := NewPolicy(p, residual, headMask);
      && w.Precision() == p && w.UseResidual() == residual && w.HeadMask() == headMask & 0xFF_FFFF
      && (w.raw >> 3) & 0x1F == 0
  {
    var r: bv32, m := if residual then 1 else 0, headMask & 0xFF_FFFF;
    assert r < 2 && p.Code() < 4;
    MaskSmall(headMask);
    PrecisionBits(p.Code(), r, m);
    ResidualBit(p.Code(), r, m);
    MaskBits(p.Code(), r, m);
  }

  /** The two lowest bits hold the level: 0 for FP16, 1 for FP8, 2 with a residual, 3 pruned. */
  lemma LevelBits(p: Level, residual: bool, headMask: bv32)
    ensures NewPolicy(p, residual, headMask).raw & 0x3
      == match p case Fp16 => 0 case Fp8 => 1 case Fp8Residual => 2 case Pruned => 3
  {
    var r: bv32, m := if residual then 1 else 0, headMask & 0xFF_FFFF;
    assert r < 2 && p.Code() < 4;
    MaskSmall(headMask);
    PrecisionBits(p.Code(), r, m);
  }

  // ---------- The prediction ----------

  const FULL_HEAD_MASK: bv32 := 0xFF_FFFF

  /** Only pruning drops heads. */
  function ActiveMask(p: Level, headMask: bv32): bv32 {
    if p == Pruned then headMask & FULL_HEAD_MASK else FULL_HEAD_MASK
  }

  function PolicyFor(p: Level, headMask: bv32): Policy {
    NewPolicy(p, p == Fp8Residual, ActiveMask(p, headMask))
  }

  lemma PolicySays(p: Level, headMask: bv32)
    ensures var w := PolicyFor(p, headMask);
      w.Precision() == p && (w.UseResidual() <==> p == Fp8Residual) && w.HeadMask() == ActiveMask(p, headMask)
  {
    var m := ActiveMask(p, headMask);
    MaskFits(p, headMask);
    Unpack(p, p == Fp8Residual, m);
  }

  lemma MaskFits(p: Level, headMask: bv32)
    ensures ActiveMask(p, headMask) & FULL_HEAD_MASK == ActiveMask(p, headMask)
  {
  }

  type usize = u64

  /** The tokens from a start to the end of the sequence, with wrap-around for a start
      beyond the end. */
  function Trailing(seqLen: usize, start: usize): usize {
    if start <= seqLen then seqLen - start else seqLen - start + U64
  }

  datatype Predictor = Predictor(profiles: seq<Profile>, sinkWindow: usize, localWindow: usize) {
    predicate InWindow(start: usize, seqLen: usize) {
      start < sinkWindow || Trailing(seqLen, start) < localWindow
    }

    /** Outside the windows the layer is looked up. */
    ghost predicate Accepts(layer: nat, start: usize, seqLen: usize) {
      InWindow(start, seqLen) || layer < |profiles|
    }

    function Choose(layer: nat, start: usize, seqLen: usize, h: Pressure, retrieval: bool): Level
      requires Accepts(layer, start, seqLen)
    {
      if InWindow(start, seqLen) then Fp16
      else
        var prof := profiles[layer];
        if prof.isCritical then (if h == Critical then Fp8 else Fp16)
        else
          var score := prof.baseBonus + if retrieval then 2 else 0;
          if score >= 3 then (if h == Nominal then Fp16 else Fp8Residual)
          else if score == 0 && h == Critical && prof.canPrune then Pruned
          else Fp8
    }

    function Predict(layer: nat, start: usize, seqLen: usize, h: Pressure, headMask: bv32, retrieval: bool): Policy
      requires Accepts(layer, start, seqLen)
    {
      PolicyFor(Choose(layer, start, seqLen, h, retrieval), headMask)
    }

    ghost predicate AcceptsAll(layer: nat, starts: seq<usize>, seqLen: usize) {
      forall i :: 0 <= i < |starts| ==> Accepts(layer, starts[i], seqLen)
    }

    function PredictBatch(layer: nat, starts: seq<usize>, seqLen: usize, h: Pressure, masks: seq<bv32>,
                          flags: seq<bool>): seq<Policy>
      requires |starts| == |masks| == |flags| && AcceptsAll(layer, starts, seqLen)
    {
      seq(|starts|, i requires 0 <= i < |starts| => Predict(layer, starts[i], seqLen, h, masks[i], flags[i]))
    }
  }

  function NewPredictor(total: nat, sinkWindow: usize := 16, localWindow: usize := 64): Predictor {
    Predictor(BuildLayerProfiles(total), sinkWindow, localWindow)
  }

  /** Higher pressure never gives the same block a better precision. */
  lemma PredictMonotone(p: Predictor, layer: nat, start: usize, seqLen: usize, h: Pressure, h': Pressure,
                        mask: bv32, flag: bool)
    requires p.Accepts(layer, start, seqLen) && h.Rank() <= h'.Rank()
    ensures p.Predict(layer, start, seqLen, h, mask, flag).Precision().Loss()
      <= p.Predict(layer, start, seqLen, h', mask, flag).Precision().Loss()
  {
    PolicySays(p.Choose(layer, start, seqLen, h, flag), mask);
    PolicySays(p.Choose(layer, start, seqLen, h', flag), mask);
  }

  /** Run-level monotonicity: under pointwise higher pressure no block of a batch gets a
      better precision at any step. */
  lemma RunMonotone(p: Predictor, layer: nat, starts: seq<usize>, seqLen: usize, masks: seq<bv32>, flags: seq<bool>,
                    s: Pressure, t: Pressure, low: seq<real>, high: seq<real>, i: nat)
    requires |starts| == |masks| == |flags| && p.AcceptsAll(layer, starts, seqLen) && i < |starts|
    requires s.Rank() <= t.Rank() && |low| == |high| && forall j :: 0 <= j < |low| ==> low[j] <= high[j]
    ensures p.PredictBatch(layer, starts, seqLen, After(s, low), masks, flags)[i].Precision().Loss()
      <= p.PredictBatch(layer, starts, seqLen, After(t, high), masks, flags)[i].Precision().Loss()
  {
    AfterMonotone(s, t, low, high);
    PredictMonotone(p, layer, starts[i], seqLen, After(s, low), After(t, high), masks[i], flags[i]);
  }

  /** Heads are pruned exactly in the middle half of the network, away from the outer
      four layers and both token windows, under critical pressure and without a
      retrieval head; every other block keeps all heads. A start beyond the end of the
      sequence counts as far from it, by wrap-around. */
  lemma PrunedExactly(total: nat, sink: usize, local: usize, layer: nat, start: usize, seqLen: usize, h: Pressure,
                      mask: bv32, flag: bool)
    requires layer < total
    ensures var w := NewPredictor(total, sink, local).Predict(layer, start, seqLen, h, mask, flag);
      && (w.Precision() == Pruned <==>
            && sink <= start && start + local <= (if start <= seqLen then seqLen else seqLen + U64)
            && 4 <= layer && layer + 4 < total && total / 4 <= layer <= 3 * total / 4
            && h == Critical && !flag)
      && w.HeadMask() == (if w.Precision() == Pruned then mask & FULL_HEAD_MASK else FULL_HEAD_MASK)
      && (w.UseResidual() <==> w.Precision() == Fp8Residual)
  {
    PolicySays(NewPredictor(total, sink, local).Choose(layer, start, seqLen, h, flag), mask);
  }

  /** Sink and local tokens are lossless, in whatever layer and under whatever pressure. */
  lemma WindowsAreLossless(p: Predictor, layer: nat, start: usize, seqLen: usize, h: Pressure, mask: bv32, flag: bool)
    requires start < p.sinkWindow || (if start <= seqLen then seqLen else seqLen + U64) < start + p.localWindow
    ensures p.Accepts(layer, start, seqLen)
    ensures var w := p.Predict(layer, start, seqLen, h, mask, flag);
      w.Precision() == Fp16 && !w.UseResidual() && w.HeadMask() == 0xFF_FFFF
  {
    PolicySays(p.Choose(layer, start, seqLen, h, flag), mask);
  }

  /** The level of every block, by the token windows, the distance of the layer from the nearer
      end of the network, the pressure and the retrieval flag. */
  lemma LevelExactly(total: nat, sink: usize, local: usize, layer: nat, start: usize, seqLen: usize, h: Pressure,
                     mask: bv32, flag: bool)
    requires layer < total
    ensures var level := NewPredictor(total, sink, local).Predict(layer, start, seqLen, h, mask, flag).Precision();
      var inside := start < sink || (if start <= seqLen then seqLen else seqLen + U64) < start + local;
      var edge := if layer < total - 1 - layer then layer else total - 1 - layer;
      var middle := total / 4 <= layer <= 3 * total / 4;
      && (level == Fp16 <==> inside || (edge < 2 && h != Critical) || (2 <= edge < 4 && flag && h == Nominal))
      && (level == Fp8Residual <==> !inside && 2 <= edge < 4 && flag && h != Nominal)
      && (level == Pruned <==> !inside && edge >= 4 && middle && !flag && h == Critical)
      && (level == Fp8 <==>
            !inside && (if edge < 2 then h == Critical else if edge < 4 then !flag
                         else flag || h != Critical || !middle))
  {
    PolicySays(NewPredictor(total, sink, local).Choose(layer, start, seqLen, h, flag), mask);
    ProfileByDistance(total, layer);
  }

  /** A batch answers each block on its own, in order. */
  lemma BatchIsPointwise(p: Predictor, layer: nat, starts: seq<usize>, seqLen: usize, h: Pressure, masks: seq<bv32>,
                         flags: seq<bool>, i: nat)
    requires |starts| == |masks| == |flags| && p.AcceptsAll(layer, starts, seqLen) && i < |starts|
    ensures var b, w := p.PredictBatch(layer, starts, seqLen, h, masks, flags),
                        p.Predict(layer, starts[i], seqLen, h, masks[i], flags[i]);
      && |b| == |starts| && b[i].Precision() == w.Precision() && b[i].UseResidual() == w.UseResidual()
      && b[i].HeadMask() == w.HeadMask()
  {
  }

  /** The default windows are 16 and 64 tokens. */
  lemma DefaultWindows(total: nat)
    ensures NewPredictor(total) == NewPredictor(total, 16, 64)
    ensures NewPredictor(total).sinkWindow == 16 && NewPredictor(total).localWindow == 64
  {
  }
}
