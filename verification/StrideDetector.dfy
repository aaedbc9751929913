/** The stride detector: per process, the last address, the last stride and a
    confidence that grows with equal strides and decays over idle gaps. */
module StrideDetector {
  import opened Basics

  type Pid = nat

  /** 64-bit wrap-around, and the signed reading of a 64-bit word. */
  function Wrap(x: int): u64 { x % U64 }

  function Signed(x: u64): int {
    if x < U64 / 2 then x else x - U64
  }

  /** `next as i64 - prev as i64`, wrapping. */
  function Stride(prev: u64, next: u64): int {
    Signed(Wrap(next - prev))
  }

  lemma StrideZero(prev: u64, next: u64)
    ensures Stride(prev, next) == 0 <==> prev == next
    ensures Wrap(prev + Stride(prev, next)) == next
  {
  }

  datatype StrideState = StrideState(lastVaddr: u64, lastStride: int, confidence: nat)

  datatype Recommendation = Recommendation(pid: Pid, baseVaddr: u64, stride: int, count: nat)

  function Min(a: nat, b: nat): nat {
    if a < b then a else b
  }

  datatype Params = Params(minConfidence: nat, maxPrefetch: nat)

  /** One access of a process; idle says that the decay interval has passed. */
  function Advance(st: StrideState, vaddr: u64, idle: bool): StrideState {
    var confidence := if idle && st.confidence > 0 then st.confidence - 1 else st.confidence;
    var stride := Stride(st.lastVaddr, vaddr);
    if stride == 0 then st.(confidence := confidence)
    else if stride == st.lastStride then StrideState(vaddr, stride, confidence + 1)
    else StrideState(vaddr, stride, 1)
  }

  function Advise(p: Params, pid: Pid, before: StrideState, after: StrideState): Option<Recommendation> {
    if before.lastVaddr != after.lastVaddr && after.confidence >= p.minConfidence then
      Some(Recommendation(pid, Wrap(after.lastVaddr + after.lastStride), after.lastStride,
                          Min(2 * after.confidence, p.maxPrefetch)))
    else None
  }

  // ---------- The specification of one call ----------

  datatype Event = Access(pid: Pid, vaddr: u64, idle: bool) | Clear(pid: Pid)

  ghost function Before(state: map<Pid, StrideState>, pid: Pid, a: u64): StrideState {
    if pid in state then state[pid] else StrideState(a, 0, 0)
  }

  ghost function Next(state: map<Pid, StrideState>, e: Event): map<Pid, StrideState> {
    match e
    case Access(pid, a, idle) => state[pid := Advance(Before(state, pid, a), a, idle && pid in state)]
    case Clear(pid) => state - {pid}
  }

  ghost function Reply(p: Params, state: map<Pid, StrideState>, e: Event): Option<Recommendation> {
    match e
    case Access(pid, a, _) => Advise(p, pid, Before(state, pid, a), Next(state, e)[pid])
    case Clear(_) => None
  }

  class StrideDetector {
    const params: Params
    var state: map<Pid, StrideState>

    constructor (params: Params)
      ensures this.params == params && state == map[]
    {
      this.params := params;
      state := map[];
    }

    method ProcessEvent(pid: Pid, vaddr: u64, idle: bool) returns (r: Option<Recommendation>)
      modifies this
      ensures state == Next(old(state), Access(pid, vaddr, idle))
      ensures r == Reply(params, old(state), Access(pid, vaddr, idle))
    {
      var known := pid in state;
      if !known {
        state := state[pid := StrideState(vaddr, 0, 0)];
      }
      var st := state[pid];
      if idle && known {
        st := st.(confidence := if st.confidence > 0 then st.confidence - 1 else 0);
      }
      var stride := Stride(st.lastVaddr, vaddr);
      StrideZero(st.lastVaddr, vaddr);
      if stride == 0 {
        state := state[pid := st];
        return None;
      }
      if stride == st.lastStride {
        st := st.(confidence := st.confidence + 1);
      } else {
        st := st.(confidence := 1, lastStride := stride);
      }
      st := st.(lastVaddr := vaddr);
      state := state[pid := st];
      if st.confidence >= params.minConfidence {
        r := Some(Recommendation(pid, Wrap(vaddr + stride), stride, Min(st.confidence * 2, params.maxPrefetch)));
      } else {
        r := None;
      }
    }

    method ClearPid(pid: Pid)
      modifies this
      ensures state == Next(old(state), Clear(pid))
    {
      state := state - {pid};
    }
  }

  // ---------- Runs and histories ----------

  ghost function Run(events: seq<Event>): map<Pid, StrideState> {
    if events == [] then map[] else Next(Run(events[..|events| - 1]), events[|events| - 1])
  }

  /** The addresses of a process since it was last cleared, without repeats. */
  ghost function History(events: seq<Event>, pid: Pid): seq<u64> {
    if events == [] then []
    else
      var h, e := History(events[..|events| - 1], pid), events[|events| - 1];
      if e.pid != pid then h
      else match e
           case Clear(_) => []
           case Access(_, a, _) => if h != [] && h[|h| - 1] == a then h else h + [a]
  }

  ghost predicate Continues(a: u64, b: u64, c: u64) {
    Stride(a, b) == Stride(b, c)
  }

  /** The number of equal strides at the end of a history. */
  ghost function Trail(h: seq<u64>): nat {
    var n := |h|;
    if n < 2 then 0
    else if n >= 3 && Continues(h[n - 3], h[n - 2], h[n - 1]) then 1 + Trail(h[..n - 1])
    else 1
  }

  /** The detector's state follows the history: never more confident than the trail. */
  ghost predicate Follows(state: map<Pid, StrideState>, pid: Pid, h: seq<u64>) {
    && (pid in state <==> h != [])
    && (pid in state ==>
          && state[pid].lastVaddr == h[|h| - 1]
          && state[pid].lastStride == (if |h| < 2 then 0 else Stride(h[|h| - 2], h[|h| - 1]))
          && state[pid].confidence <= Trail(h)
          && (|h| >= 2 ==> h[|h| - 2] != h[|h| - 1]))
  }

  lemma {:induction false} AlwaysFollows(events: seq<Event>, pid: Pid)
    ensures Follows(Run(events), pid, History(events, pid))
  {
    if events != [] {
      var before, e := events[..|events| - 1], events[|events| - 1];
      AlwaysFollows(before, pid);
      if e.Access? && e.pid == pid {
        FollowsStep(Run(before), pid, History(before, pid), e.vaddr, e.idle);
      }
    }
  }

  lemma FollowsStep(state: map<Pid, StrideState>, pid: Pid, h: seq<u64>, a: u64, idle: bool)
    requires Follows(state, pid, h)
    ensures Follows(Next(state, Access(pid, a, idle)), pid, if h != [] && h[|h| - 1] == a then h else h + [a])
  {
    if h != [] {
      StrideZero(h[|h| - 1], a);
      if h[|h| - 1] != a {
        TrailGrows(h, a);
      }
      if |h| >= 2 {
        StrideZero(h[|h| - 2], h[|h| - 1]);
      }
    } else {
      StrideZero(a, a);
    }
  }

  lemma TrailGrows(h: seq<u64>, a: u64)
    requires h != []
    ensures Trail(h + [a]) ==
      if |h| >= 2 && Continues(h[|h| - 2], h[|h| - 1], a) then 1 + Trail(h) else 1
  {
    var n, h' := |h|, h + [a];
    assert h'[..n] == h && h'[n - 1] == h[n - 1] && h'[n] == a;
    if n >= 2 {
      assert h'[n - 2] == h[n - 2];
    }
  }

  /** The last strides of a history, as many as its trail, are all equal. */
  lemma {:induction false} TrailStrides(h: seq<u64>, i: nat)
    requires |h| - 1 - Trail(h) <= i < |h| - 1
    ensures Stride(h[i], h[i + 1]) == Stride(h[|h| - 2], h[|h| - 1])
  {
    if i < |h| - 2 {
      TrailStrides(h[..|h| - 1], i);
    }
  }

  /** The last n strides of a history are all the same. */
  ghost predicate Progression(h: seq<u64>, n: nat, stride: int)
    requires n < |h|
  {
    forall i :: |h| - 1 - n <= i < |h| - 1 ==> Stride(h[i], h[i + 1]) == stride
  }

  lemma TrailProgression(h: seq<u64>)
    requires |h| >= 2
    ensures Trail(h) < |h| && Progression(h, Trail(h), Stride(h[|h| - 2], h[|h| - 1]))
  {
    TrailLength(h);
    forall i | |h| - 1 - Trail(h) <= i < |h| - 1 ensures Stride(h[i], h[i + 1]) == Stride(h[|h| - 2], h[|h| - 1]) {
      TrailStrides(h, i);
    }
  }

  /** A recommendation is justified by a history that ends with its address: the last
      accesses, one more than the minimal confidence, are one stride apart, and the
      recommended base comes next. */
  ghost predicate Justified(p: Params, h: seq<u64>, r: Recommendation) {
    && |h| >= 2 && |h| > p.minConfidence
    && r.stride == Stride(h[|h| - 2], h[|h| - 1]) != 0
    && Progression(h, p.minConfidence, r.stride)
    && r.baseVaddr == Wrap(h[|h| - 1] + r.stride) && Stride(h[|h| - 1], r.baseVaddr) == r.stride
    && r.count <= 2 * Trail(h) && r.count <= p.maxPrefetch
  }

  lemma AdviseJustified(p: Params, pid: Pid, before: StrideState, state: map<Pid, StrideState>, h: seq<u64>)
    requires pid in state && Follows(state, pid, h) && Advise(p, pid, before, state[pid]).Some? && |h| >= 2
    ensures Justified(p, h, Advise(p, pid, before, state[pid]).value)
  {
    TrailProgression(h);
    StrideZero(h[|h| - 2], h[|h| - 1]);
    NextInStride(h[|h| - 2], h[|h| - 1]);
  }

  /** Going on by the last stride keeps the stride. */
  lemma NextInStride(a: u64, b: u64)
    ensures Stride(b, Wrap(b + Stride(a, b))) == Stride(a, b)
  {
    WrapStep(b, Stride(a, b));
  }

  /** Every recommendation, in every interleaving of processes, idle gaps and clears,
      is justified by the history of its process. */
  lemma Sound(p: Params, events: seq<Event>, pid: Pid, a: u64, idle: bool)
    ensures var e := Access(pid, a, idle);
      var r := Reply(p, Run(events), e);
      r.Some? ==> Justified(p, History(events + [e], pid), r.value)
  {
    var e := Access(pid, a, idle);
    OneMore(events, e);
    AlwaysFollows(events, pid);
    AlwaysFollows(events + [e], pid);
    StrideZero(a, a);
    if Reply(p, Run(events), e).Some? {
      AdviseJustified(p, pid, Before(Run(events), pid, a), Run(events + [e]), History(events + [e], pid));
    }
  }

  lemma OneMore(events: seq<Event>, e: Event)
    ensures Run(events + [e]) == Next(Run(events), e)
  {
    assert (events + [e])[..|events|] == events;
  }

  lemma {:induction false} TrailLength(h: seq<u64>)
    ensures Trail(h) < |h| || |h| == 0
  {
    if |h| >= 3 {
      TrailLength(h[..|h| - 1]);
    }
  }

  /** The addresses base + i * stride that a recommendation asks for go on with the
      progression: the first follows the last access, each next one the one before. */
  function PrefetchAddress(r: Recommendation, i: nat): u64 {
    Wrap(r.baseVaddr + i * r.stride)
  }

  lemma WrapStep(x: int, s: int)
    requires -(U64 / 2) <= s < U64 / 2
    ensures Stride(Wrap(x), Wrap(x + s)) == s && Wrap(Wrap(x) + s) == Wrap(x + s)
  {
  }

  lemma PrefetchContinues(r: Recommendation, i: nat)
    requires -(U64 / 2) <= r.stride < U64 / 2
    ensures PrefetchAddress(r, 0) == r.baseVaddr
    ensures Stride(PrefetchAddress(r, i), PrefetchAddress(r, i + 1)) == r.stride
  {
    var x := r.baseVaddr + i * r.stride;
    assert r.baseVaddr + (i + 1) * r.stride == x + r.stride;
    WrapStep(x, r.stride);
  }

  // ---------- When a recommendation is made ----------

  /** An access of a known process to another address than its last one. */
  ghost predicate Moves(h: seq<u64>, a: u64) {
    h != [] && h[|h| - 1] != a
  }

  /** The idle accesses of a process since its stride last changed. */
  ghost function Idles(events: seq<Event>, pid: Pid): nat {
    if events == [] then 0
    else
      var before, e := events[..|events| - 1], events[|events| - 1];
      if e.pid != pid then Idles(before, pid)
      else match e
           case Clear(_) => 0
           case Access(_, a, idle) =>
             var h := History(before, pid);
             if h == [] || (Moves(h, a) && Trail(h + [a]) == 1) then 0 else Idles(before, pid) + if idle then 1 else 0
  }

  /** No idle access of the process repeats its last address. */
  ghost predicate NoIdleRepeats(events: seq<Event>, pid: Pid) {
    events == [] ||
    var before, e := events[..|events| - 1], events[|events| - 1];
    NoIdleRepeats(before, pid) && (e.Access? && e.pid == pid && e.idle ==> Moves(History(before, pid), e.vaddr))
  }

  lemma BoundNext(state: map<Pid, StrideState>, pid: Pid, h: seq<u64>, a: u64, idle: bool, idles: nat)
    requires Follows(state, pid, h) && h != [] && Trail(h) <= state[pid].confidence + idles
    ensures var st, moves, idles' := Advance(state[pid], a, idle), Moves(h, a), idles + if idle then 1 else 0;
      Trail(if moves then h + [a] else h) <= st.confidence + if moves && Trail(h + [a]) == 1 then 0 else idles'
  {
    BoundStep(state, pid, h, a);
  }

  /** Each idle access costs at most one unit of confidence. */
  lemma {:induction false} ConfidenceBound(events: seq<Event>, pid: Pid)
    requires pid in Run(events)
    ensures Trail(History(events, pid)) <= Run(events)[pid].confidence + Idles(events, pid)
  {
    var before, e := events[..|events| - 1], events[|events| - 1];
    AlwaysFollows(before, pid);
    if pid in Run(before) {
      ConfidenceBound(before, pid);
      if e.Access? && e.pid == pid {
        BoundNext(Run(before), pid, History(before, pid), e.vaddr, e.idle, Idles(before, pid));
      }
    }
  }

  /** If none of them repeats an address, each costs exactly one. */
  lemma {:induction false} ConfidenceWithoutRepeats(events: seq<Event>, pid: Pid)
    requires pid in Run(events) && NoIdleRepeats(events, pid)
    ensures Trail(History(events, pid)) == Run(events)[pid].confidence + Idles(events, pid)
    ensures |History(events, pid)| >= 2 ==> Run(events)[pid].confidence > 0
  {
    var before, e := events[..|events| - 1], events[|events| - 1];
    AlwaysFollows(before, pid);
    if pid in Run(before) {
      ConfidenceWithoutRepeats(before, pid);
      if e.Access? && e.pid == pid {
        BoundStep(Run(before), pid, History(before, pid), e.vaddr);
      }
    } else {
      StrideZero(e.vaddr, e.vaddr);
    }
  }

  /** What a new address does to the stride and the trail. */
  lemma BoundStep(state: map<Pid, StrideState>, pid: Pid, h: seq<u64>, a: u64)
    requires Follows(state, pid, h) && h != []
    ensures Stride(state[pid].lastVaddr, a) == 0 <==> h[|h| - 1] == a
    ensures Moves(h, a) ==>
      Trail(h + [a]) == if Stride(state[pid].lastVaddr, a) == state[pid].lastStride then 1 + Trail(h) else 1
    ensures |h| < 2 ==> Trail(h) == 0
    ensures |h| >= 2 ==> Trail(h) >= 1
  {
    StrideZero(h[|h| - 1], a);
    TrailGrows(h, a);
  }

  /** In every run: a recommendation comes only for a move and a trail of the minimal
      confidence, and comes for every move whose trail also makes up for the idle
      accesses in it. */
  lemma Complete(p: Params, events: seq<Event>, pid: Pid, a: u64, idle: bool)
    ensures var now := events + [Access(pid, a, idle)];
      var h, r := History(events, pid), Reply(p, Run(events), Access(pid, a, idle));
      && (r.Some? ==> Moves(h, a) && Trail(History(now, pid)) >= p.minConfidence)
      && (Moves(h, a) && Trail(History(now, pid)) >= p.minConfidence + Idles(now, pid) ==> r.Some?)
  {
    ReplyByConfidence(p, events, pid, a, idle);
    AlwaysFollows(events + [Access(pid, a, idle)], pid);
    ConfidenceBound(events + [Access(pid, a, idle)], pid);
  }

  lemma ReplyByConfidence(p: Params, events: seq<Event>, pid: Pid, a: u64, idle: bool)
    ensures var now := events + [Access(pid, a, idle)];
      && pid in Run(now)
      && (Reply(p, Run(events), Access(pid, a, idle)).Some? <==>
            Moves(History(events, pid), a) && Run(now)[pid].confidence >= p.minConfidence)
  {
    OneMore(events, Access(pid, a, idle));
    AlwaysFollows(events, pid);
    StrideZero(Before(Run(events), pid, a).lastVaddr, a);
  }

  /** The event with which the current stride of a process began, or the process itself. */
  ghost function Since(events: seq<Event>, pid: Pid): nat {
    if events == [] then 0
    else
      var before, e := events[..|events| - 1], events[|events| - 1];
      if e.pid != pid then Since(before, pid)
      else match e
           case Clear(_) => |events|
           case Access(_, a, _) =>
             var h := History(before, pid);
             if h == [] || (Moves(h, a) && Trail(h + [a]) == 1) then |before| else Since(before, pid)
  }

  /** Whether the last event is a move of the process, and whether it is an idle access. */
  ghost function Up(events: seq<Event>, pid: Pid): int
    requires events != []
  {
    var e := events[|events| - 1];
    if e.Access? && e.pid == pid && Moves(History(events[..|events| - 1], pid), e.vaddr) then 1 else 0
  }

  ghost function Down(events: seq<Event>, pid: Pid): int
    requires events != []
  {
    var e := events[|events| - 1];
    if e.Access? && e.pid == pid && e.idle then 1 else 0
  }

  /** The moves of a process from event i on, less its idle accesses after event i. */
  ghost function Net(events: seq<Event>, pid: Pid, i: nat): int
    requires i < |events|
  {
    if i == |events| - 1 then Up(events, pid)
    else Net(events[..|events| - 1], pid, i) + Up(events, pid) - Down(events, pid)
  }

  /** From some event of the current stride on, the moves exceed the idle accesses by m. */
  ghost predicate Earned(events: seq<Event>, pid: Pid, m: int) {
    exists i :: Since(events, pid) <= i < |events| && Net(events, pid, i) >= m
  }

  /** What one event adds: the balance changes by the event, or starts anew with it. */
  lemma EarnedStep(events: seq<Event>, pid: Pid, m: int)
    requires events != [] && Since(events, pid) < |events|
    ensures var before := events[..|events| - 1];
      Earned(events, pid, m) <==>
        Up(events, pid) >= m
        || (Since(events, pid) < |before| && Since(events, pid) == Since(before, pid)
            && Earned(before, pid, m - Up(events, pid) + Down(events, pid)))
  {
    var before, m' := events[..|events| - 1], m - Up(events, pid) + Down(events, pid);
    if Earned(events, pid, m) {
      var i :| Since(events, pid) <= i < |events| && Net(events, pid, i) >= m;
      assert i < |before| ==> Net(before, pid, i) >= m';
    }
    if Up(events, pid) >= m {
      assert Net(events, pid, |before|) >= m;
    }
    if Since(events, pid) == Since(before, pid) && Earned(before, pid, m') {
      var i :| Since(before, pid) <= i < |before| && Net(before, pid, i) >= m';
      assert Net(events, pid, i) >= m;
    }
  }

  /** The exact law of the decaying confidence, over every run: it has reached m exactly
      when m was earned. */
  lemma {:induction false} ConfidenceExactly(events: seq<Event>, pid: Pid, m: int)
    requires pid in Run(events) && m > 0
    ensures Since(events, pid) < |events|
    ensures Run(events)[pid].confidence >= m <==> Earned(events, pid, m)
  {
    var before, e := events[..|events| - 1], events[|events| - 1];
    AlwaysFollows(before, pid);
    var m' := m - Up(events, pid) + Down(events, pid);
    if pid in Run(before) {
      ConfidenceExactly(before, pid, if m' > 0 then m' else 1);
      if e.pid == pid {
        BoundStep(Run(before), pid, History(before, pid), e.vaddr);
      }
    } else {
      StrideZero(e.vaddr, e.vaddr);
    }
    EarnedStep(events, pid, m);
  }

  /** So, in every run, a recommendation comes exactly for a move that has earned the
      minimal confidence. */
  lemma CompleteExactly(p: Params, events: seq<Event>, pid: Pid, a: u64, idle: bool)
    ensures var now := events + [Access(pid, a, idle)];
      Reply(p, Run(events), Access(pid, a, idle)).Some? <==>
        Moves(History(events, pid), a) && (p.minConfidence == 0 || Earned(now, pid, p.minConfidence))
  {
    ReplyByConfidence(p, events, pid, a, idle);
    if p.minConfidence > 0 {
      ConfidenceExactly(events + [Access(pid, a, idle)], pid, p.minConfidence);
    }
  }

  /** What a recommendation says: the process, the stride from its last address as a signed
      64-bit number, the address one stride further, and twice the earned confidence, cut at
      the maximum. */
  lemma AdviceExactly(p: Params, events: seq<Event>, pid: Pid, a: u64, idle: bool) returns (earned: nat)
    ensures forall m :: m > 0 ==> (earned >= m <==> Earned(events + [Access(pid, a, idle)], pid, m))
    ensures var h, r := History(events, pid), Reply(p, Run(events), Access(pid, a, idle));
      r.Some? ==>
        && h != [] && r.value.pid == pid
        && -0x8000_0000_0000_0000 <= r.value.stride < 0x8000_0000_0000_0000
        && (h[|h| - 1] + r.value.stride) % U64 == a && r.value.baseVaddr == (a + r.value.stride) % U64
        && r.value.count == if 2 * earned < p.maxPrefetch then 2 * earned else p.maxPrefetch
  {
    var now := events + [Access(pid, a, idle)];
    ReplyByConfidence(p, events, pid, a, idle);
    AlwaysFollows(events, pid);
    OneMore(events, Access(pid, a, idle));
    earned := Run(now)[pid].confidence;
    forall m | m > 0 ensures earned >= m <==> Earned(now, pid, m) {
      ConfidenceExactly(now, pid, m);
    }
    StrideZero(Before(Run(events), pid, a).lastVaddr, a);
  }

  // ---------- Processes do not influence one another ----------

  /** The accesses of a process since it was last cleared. */
  ghost function Own(events: seq<Event>, pid: Pid): seq<Event> {
    if events == [] then []
    else
      var own, e := Own(events[..|events| - 1], pid), events[|events| - 1];
      if e.pid != pid then own else if e.Clear? then [] else own + [e]
  }

  /** The state of a process, and so every answer it gets, depends on nothing but its
      own accesses since it was last cleared. */
  lemma {:induction false} Isolated(p: Params, events: seq<Event>, pid: Pid, a: u64, idle: bool)
    ensures pid in Run(events) <==> pid in Run(Own(events, pid))
    ensures pid in Run(events) ==> Run(events)[pid] == Run(Own(events, pid))[pid]
    ensures Reply(p, Run(events), Access(pid, a, idle)) == Reply(p, Run(Own(events, pid)), Access(pid, a, idle))
  {
    if events != [] {
      var before, e := events[..|events| - 1], events[|events| - 1];
      Isolated(p, before, pid, a, idle);
      if e.Access? && e.pid == pid {
        OneMore(Own(before, pid), e);
      }
    }
  }
}
