/** Who holds which staging slot: prefetch tasks and fault tasks interleave over the
    shared free queue and the shared map of prefetched pages. */
module SlotOwnership {
  import opened Basics
  import opened StagingPool

  type Task = nat

  /** What a task that holds a slot is doing with it. */
  datatype Work =
    | Prefetching(vaddr: nat)  // the remote read of a prefetch is in flight
    | MovingCached(vaddr: nat) // a fault took a prefetched slot and is moving it
    | Reading(vaddr: nat)      // the remote read of a fault is in flight
    | Moving(vaddr: nat)       // a fault is moving a freshly popped slot

  /** The pool, the prefetched pages, the slots in tasks' hands, and the slots that
      left the system for good. */
  datatype System = System(pool: Pool, prefetched: map<nat, nat>, holding: map<Task, nat>, doing: map<Task, Work>,
                           gone: set<nat>, exits: Exits)

  /** How the departed slots left: with a page that was moved, in a failed move of a
      prefetched slot, in a failed remote read, or replaced in the prefetch map. */
  datatype Exits = Exits(moves: nat, failedMoves: nat, failedReads: nat, replaced: nat) {
    function Total(): nat {
      moves + failedMoves + failedReads + replaced
    }
  }

  datatype Step =
    | StartPrefetch(t: Task, vaddr: nat)
    | EndPrefetch(t: Task, ok: bool)
    | TakeCached(t: Task, vaddr: nat)
    | MoveCached(t: Task, ok: bool)
    | StartFetch(t: Task, vaddr: nat)
    | EndFetch(t: Task, ok: bool)
    | StartLocal(t: Task, vaddr: nat)
    | EndMove(t: Task, ok: bool)

  function Init(numSlots: nat): System {
    System(FullPool(numSlots), map[], map[], map[], {}, Exits(0, 0, 0, 0))
  }

  // ---------- Slot movements ----------

  /** Popping a slot for a task that has none; an empty pool ends it. */
  function Pop(s: System, t: Task, w: Work): System {
    if t in s.holding || s.pool.free == [] then s
    else s.(pool := Popped(s.pool), holding := s.holding[t := s.pool.free[0]], doing := s.doing[t := w])
  }

  function Drop(s: System, t: Task): System {
    s.(holding := s.holding - {t}, doing := s.doing - {t})
  }

  /** Returning a task's slot to the queue; a slot that is not taken back is gone. */
  function Push(s: System, t: Task): System
    requires t in s.holding
  {
    var pool := Pushed(s.pool, s.holding[t]);
    Drop(s, t).(pool := pool, gone := if pool == s.pool then s.gone + {s.holding[t]} else s.gone)
  }

  /** The slot leaves for good. */
  function Lose(s: System, t: Task, exits: Exits): System
    requires t in s.holding
  {
    Drop(s, t).(gone := s.gone + {s.holding[t]}, exits := exits)
  }

  /** The slot leaves with the page it was moved to. */
  function Moved(s: System, t: Task): System
    requires t in s.holding
  {
    Lose(s, t, s.exits.(moves := s.exits.moves + 1))
  }

  /** Forgetting the slot stored for an address. */
  function Evict(s: System, a: nat): System {
    if a !in s.prefetched then s
    else s.(prefetched := s.prefetched - {a}, gone := s.gone + {s.prefetched[a]},
            exits := s.exits.(replaced := s.exits.replaced + 1))
  }

  /** Storing a prefetched slot; a slot already stored for the address is forgotten. */
  function Cache(s: System, t: Task, vaddr: nat): System
    requires t in s.holding
  {
    var s' := Evict(s, vaddr);
    Drop(s', t).(prefetched := s'.prefetched[vaddr := s.holding[t]])
  }

  function Next(s: System, step: Step): System {
    var t := step.t;
    match step
    case StartPrefetch(_, a) => Pop(s, t, Prefetching(a))
    case EndPrefetch(_, ok) =>
      if t in s.holding && t in s.doing && s.doing[t].Prefetching? then
        if ok then Cache(s, t, s.doing[t].vaddr) else Push(s, t)
      else s
    case TakeCached(_, a) =>
      if t in s.holding || a !in s.prefetched then s
      else s.(prefetched := s.prefetched - {a}, holding := s.holding[t := s.prefetched[a]],
              doing := s.doing[t := MovingCached(a)])
    case MoveCached(_, ok) =>
      if t in s.holding && t in s.doing && s.doing[t].MovingCached? then
        if ok then Moved(s, t) else Lose(s, t, s.exits.(failedMoves := s.exits.failedMoves + 1))
      else s
    case StartFetch(_, a) => Pop(s, t, Reading(a))
    case EndFetch(_, ok) =>
      if t in s.holding && t in s.doing && s.doing[t].Reading? then
        if ok then s.(doing := s.doing[t := Moving(s.doing[t].vaddr)])
        else Lose(s, t, s.exits.(failedReads := s.exits.failedReads + 1))
      else s
    case StartLocal(_, a) => Pop(s, t, Moving(a))
    case EndMove(_, ok) =>
      if t in s.holding && t in s.doing && s.doing[t].Moving? then
        if ok then Moved(s, t) else Push(s, t)
      else s
  }

  function Run(s: System, steps: seq<Step>): System {
    if steps == [] then s else Next(Run(s, steps[..|steps| - 1]), steps[|steps| - 1])
  }

  // ---------- The invariant ----------

  ghost predicate Injective(m: map<nat, nat>) {
    forall j, k :: j in m && k in m && m[j] == m[k] ==> j == k
  }

  ghost function Elements(s: seq<nat>): set<nat> {
    set x | x in s
  }

  ghost function Tally(b: bool): nat {
    if b then 1 else 0
  }

  /** In how many places a slot is. */
  ghost function Times(free: set<nat>, cached: set<nat>, held: set<nat>, gone: set<nat>, x: nat): nat {
    Tally(x in free) + Tally(x in cached) + Tally(x in held) + Tally(x in gone)
  }

  /** Every slot is in exactly one place, and nothing else is anywhere. */
  ghost predicate Partition(n: nat, free: set<nat>, cached: set<nat>, held: set<nat>, gone: set<nat>) {
    forall x: nat :: Times(free, cached, held, gone, x) == Tally(x < n)
  }

  /** Moving one slot to another place keeps the partition. */
  lemma Transfer(n: nat, free: set<nat>, cached: set<nat>, held: set<nat>, gone: set<nat>, x: nat)
    requires Partition(n, free, cached, held, gone)
    ensures Times(free, cached, held, gone, x) <= 1
    ensures x in free ==> Partition(n, free - {x}, cached, held + {x}, gone)
    ensures x in held ==> Partition(n, free + {x}, cached, held - {x}, gone)
    ensures x in held ==> Partition(n, free, cached, held - {x}, gone + {x})
    ensures x in held ==> Partition(n, free, cached + {x}, held - {x}, gone)
    ensures x in cached ==> Partition(n, free, cached - {x}, held + {x}, gone)
    ensures x in cached ==> Partition(n, free, cached - {x}, held, gone + {x})
  {
    assert Times(free, cached, held, gone, x) == Tally(x < n);
    forall y: nat
      ensures x in free ==> Times(free - {x}, cached, held + {x}, gone, y) == Tally(y < n)
      ensures x in held ==> Times(free + {x}, cached, held - {x}, gone, y) == Tally(y < n)
      ensures x in held ==> Times(free, cached, held - {x}, gone + {x}, y) == Tally(y < n)
      ensures x in held ==> Times(free, cached + {x}, held - {x}, gone, y) == Tally(y < n)
      ensures x in cached ==> Times(free, cached - {x}, held + {x}, gone, y) == Tally(y < n)
      ensures x in cached ==> Times(free, cached - {x}, held, gone + {x}, y) == Tally(y < n)
    {
      assert Times(free, cached, held, gone, y) == Tally(y < n);
    }
  }

  ghost predicate Places(s: System) {
    Partition(s.pool.numSlots, Elements(s.pool.free), s.prefetched.Values, s.holding.Values, s.gone)
  }

  ghost predicate Inv(s: System) {
    && Distinct(s.pool.free) && Injective(s.prefetched) && Injective(s.holding)
    && Places(s)
    && s.pool.active == s.pool.numSlots - |s.pool.free|
    && |s.gone| == s.exits.Total()
  }

  lemma AddValue(m: map<nat, nat>, k: nat, x: nat)
    requires Injective(m) && x !in m.Values && k !in m
    ensures Injective(m[k := x]) && m[k := x].Values == m.Values + {x}
  {
    var m' := m[k := x];
    assert m'[k] == x;
    assert forall j :: j in m ==> m'[j] == m[j] && m[j] in m.Values;
    forall y | y in m.Values + {x} ensures y in m'.Values {
      if y != x {
        var j :| j in m && m[j] == y;
        assert m'[j] == y;
      }
    }
  }

  lemma DropValue(m: map<nat, nat>, k: nat)
    requires Injective(m) && k in m
    ensures Injective(m - {k}) && (m - {k}).Values == m.Values - {m[k]} && m[k] in m.Values
  {
    var m' := m - {k};
    forall y | y in m.Values - {m[k]} ensures y in m'.Values {
      var j :| j in m && m[j] == y;
      assert j in m' && m'[j] == y;
    }
    assert m[k] !in m'.Values;
  }

  lemma DropFirst(free: seq<nat>)
    requires Distinct(free) && free != []
    ensures Distinct(free[1..]) && Elements(free[1..]) == Elements(free) - {free[0]} && free[0] in Elements(free)
  {
    assert free == [free[0]] + free[1..];
  }

  lemma AddLast(free: seq<nat>, x: nat)
    requires Distinct(free) && x !in Elements(free)
    ensures Distinct(free + [x]) && Elements(free + [x]) == Elements(free) + {x}
  {
  }

  lemma {:induction false} SizeOf(free: seq<nat>)
    requires Distinct(free)
    ensures |Elements(free)| == |free|
  {
    if free != [] {
      SizeOf(free[1..]);
      DropFirst(free);
    }
  }

  /** A slot in a task's hands is not in the queue, so the queue is not full. */
  lemma QueueHasRoom(s: System, t: Task)
    requires Inv(s) && t in s.holding
    ensures |s.pool.free| < s.pool.numSlots && s.holding[t] < s.pool.numSlots
  {
    DropValue(s.holding, t);
    var free, x := Elements(s.pool.free), s.holding[t];
    forall y: nat | y in free + {x} ensures y in Below(s.pool.numSlots) {
      assert Times(free, s.prefetched.Values, s.holding.Values, s.gone, y) == Tally(y < s.pool.numSlots);
    }
    assert Times(free, s.prefetched.Values, s.holding.Values, s.gone, x) == Tally(x < s.pool.numSlots);
    Smaller(free + {x}, Below(s.pool.numSlots));
    BelowSize(s.pool.numSlots);
    SizeOf(s.pool.free);
  }

  lemma PopKeeps(s: System, t: Task, w: Work)
    requires Inv(s)
    ensures Inv(Pop(s, t, w))
  {
    if t !in s.holding && s.pool.free != [] {
      DropFirst(s.pool.free);
      Transfer(s.pool.numSlots, Elements(s.pool.free), s.prefetched.Values, s.holding.Values, s.gone, s.pool.free[0]);
      AddValue(s.holding, t, s.pool.free[0]);
    }
  }

  lemma PushKeeps(s: System, t: Task)
    requires Inv(s) && t in s.holding
    ensures Inv(Push(s, t))
  {
    QueueHasRoom(s, t);
    DropValue(s.holding, t);
    Transfer(s.pool.numSlots, Elements(s.pool.free), s.prefetched.Values, s.holding.Values, s.gone, s.holding[t]);
    AddLast(s.pool.free, s.holding[t]);
  }

  lemma LoseKeeps(s: System, t: Task, exits: Exits)
    requires Inv(s) && t in s.holding && exits.Total() == s.exits.Total() + 1
    ensures Inv(Lose(s, t, exits))
  {
    DropValue(s.holding, t);
    Transfer(s.pool.numSlots, Elements(s.pool.free), s.prefetched.Values, s.holding.Values, s.gone, s.holding[t]);
    assert s.holding[t] !in s.gone;
  }

  lemma EvictKeeps(s: System, a: nat)
    requires Inv(s)
    ensures Inv(Evict(s, a)) && a !in Evict(s, a).prefetched
  {
    if a in s.prefetched {
      DropValue(s.prefetched, a);
      Transfer(s.pool.numSlots, Elements(s.pool.free), s.prefetched.Values, s.holding.Values, s.gone, s.prefetched[a]);
    }
  }

  lemma CacheNewKeeps(s: System, t: Task, a: nat)
    requires Inv(s) && t in s.holding && a !in s.prefetched
    ensures Inv(Cache(s, t, a))
  {
    DropValue(s.holding, t);
    Transfer(s.pool.numSlots, Elements(s.pool.free), s.prefetched.Values, s.holding.Values, s.gone, s.holding[t]);
    AddValue(s.prefetched, a, s.holding[t]);
  }

  lemma CacheKeeps(s: System, t: Task, a: nat)
    requires Inv(s) && t in s.holding
    ensures Inv(Cache(s, t, a))
  {
    EvictKeeps(s, a);
    CacheNewKeeps(Evict(s, a), t, a);
  }

  lemma TakeKeeps(s: System, t: Task, a: nat)
    requires Inv(s) && t !in s.holding && a in s.prefetched
    ensures Inv(Next(s, TakeCached(t, a)))
  {
    DropValue(s.prefetched, a);
    Transfer(s.pool.numSlots, Elements(s.pool.free), s.prefetched.Values, s.holding.Values, s.gone, s.prefetched[a]);
    AddValue(s.holding, t, s.prefetched[a]);
  }

  /** Every step of every task keeps each slot in exactly one place. */
  lemma StepKeeps(s: System, step: Step)
    requires Inv(s)
    ensures Inv(Next(s, step)) && Next(s, step).pool.numSlots == s.pool.numSlots
  {
    var t := step.t;
    match step
    case StartPrefetch(_, a) => PopKeeps(s, t, Prefetching(a));
    case EndPrefetch(_, ok) =>
      if t in s.holding && t in s.doing && s.doing[t].Prefetching? {
        if ok { CacheKeeps(s, t, s.doing[t].vaddr); } else { PushKeeps(s, t); }
      }
    case TakeCached(_, a) => if t !in s.holding && a in s.prefetched { TakeKeeps(s, t, a); }
    case MoveCached(_, ok) =>
      if t in s.holding {
        LoseKeeps(s, t, s.exits.(moves := s.exits.moves + 1));
        LoseKeeps(s, t, s.exits.(failedMoves := s.exits.failedMoves + 1));
      }
    case StartFetch(_, a) => PopKeeps(s, t, Reading(a));
    case EndFetch(_, ok) =>
      if t in s.holding { LoseKeeps(s, t, s.exits.(failedReads := s.exits.failedReads + 1)); }
    case StartLocal(_, a) => PopKeeps(s, t, Moving(a));
    case EndMove(_, ok) =>
      if t in s.holding {
        if ok { LoseKeeps(s, t, s.exits.(moves := s.exits.moves + 1)); } else { PushKeeps(s, t); }
      }
  }

  lemma InvInit(n: nat)
    ensures Inv(Init(n))
  {
    var s := Init(n);
    forall i ensures i in Elements(s.pool.free) <==> i in Below(n) {
      assert 0 <= i < n ==> s.pool.free[i] == i;
    }
    assert Elements(s.pool.free) == Below(n);
  }

  /** In every interleaving of prefetch and fault tasks each slot is in exactly one
      place, and the counter counts the slots that are not free. */
  lemma {:induction false} AlwaysPartitioned(n: nat, steps: seq<Step>)
    ensures Inv(Run(Init(n), steps)) && Run(Init(n), steps).pool.numSlots == n
  {
    if steps == [] {
      InvInit(n);
    } else {
      AlwaysPartitioned(n, steps[..|steps| - 1]);
      StepKeeps(Run(Init(n), steps[..|steps| - 1]), steps[|steps| - 1]);
    }
  }

  // ---------- Consequences ----------

  lemma {:induction false} CountValues(m: map<nat, nat>)
    requires Injective(m)
    ensures |m.Values| == |m|
    decreases |m|
  {
    if |m| == 0 {
      assert m == map[];
    } else {
      var k :| k in m;
      assert (m - {k}).Keys == m.Keys - {k};
      DropValue(m, k);
      CountValues(m - {k});
    }
  }

  /** Conservation: free, prefetched, held and departed slots add up to the pool. */
  lemma SlotsConserved(n: nat, steps: seq<Step>)
    ensures var s := Run(Init(n), steps);
      |s.pool.free| + |s.prefetched| + |s.holding| + |s.gone| == n && s.pool.active == n - |s.pool.free|
  {
    AlwaysPartitioned(n, steps);
    var s := Run(Init(n), steps);
    SizeOf(s.pool.free);
    CountValues(s.prefetched);
    CountValues(s.holding);
    PartitionSize(n, Elements(s.pool.free), s.prefetched.Values, s.holding.Values, s.gone);
  }

  lemma PartitionSize(n: nat, free: set<nat>, cached: set<nat>, held: set<nat>, gone: set<nat>)
    requires Partition(n, free, cached, held, gone)
    ensures |free| + |cached| + |held| + |gone| == n
  {
    forall x: nat
      ensures x in free + cached + held + gone <==> x in Below(n)
      ensures !(x in free && x in cached) && !(x in free + cached && x in held)
      ensures !(x in free + cached + held && x in gone)
    {
      assert Times(free, cached, held, gone, x) == Tally(x < n);
    }
    assert free + cached + held + gone == Below(n);
    BelowSize(n);
    assert |free + cached + held + gone| == |free| + |cached| + |held| + |gone|;
  }

  /** Slots that leave never come back: a pool of n slots serves, in its whole life, at
      most n page moves, less one for each failed move of a prefetched slot, each failed
      remote read and each replaced entry. */
  lemma MovesBounded(n: nat, steps: seq<Step>)
    ensures var s := Run(Init(n), steps);
      && |s.gone| == s.exits.moves + s.exits.failedMoves + s.exits.failedReads + s.exits.replaced
      && s.exits.moves <= n - s.exits.failedMoves - s.exits.failedReads - s.exits.replaced
  {
    AlwaysPartitioned(n, steps);
    SlotsConserved(n, steps);
  }

  /** The bound is reached: local faults alone use up any pool. */
  lemma {:induction false} MovesReached(n: nat, k: nat) returns (steps: seq<Step>)
    requires k <= n
    ensures var s := Run(Init(n), steps);
      s.exits.moves == k && s.holding == map[] && s.pool.free == Init(n).pool.free[k..]
  {
    if k == 0 {
      steps := [];
    } else {
      steps := MovesReached(n, k - 1);
      var s := Run(Init(n), steps);
      var start, end := StartLocal(k, 0), EndMove(k, true);
      assert (steps + [start])[..|steps|] == steps;
      assert (steps + [start] + [end])[..|steps| + 1] == steps + [start];
      assert s.pool.free[1..] == Init(n).pool.free[k..];
      assert s.holding[k := s.pool.free[0]] - {k} == map[];
      steps := steps + [start] + [end];
    }
  }

  /** Who may touch the memory of a slot: the task that holds it, or whoever takes the
      page prefetched for an address. */
  datatype Owner = Hand(t: Task) | Cached(vaddr: nat)

  ghost predicate Owns(s: System, o: Owner, x: nat) {
    match o
    case Hand(t) => t in s.holding && s.holding[t] == x
    case Cached(a) => a in s.prefetched && s.prefetched[a] == x
  }

  /** Different owners have different slots. */
  lemma OwnersDiffer(s: System, o: Owner, o': Owner, x: nat, x': nat)
    requires Inv(s) && Owns(s, o, x) && Owns(s, o', x') && o != o'
    ensures x != x'
  {
    if o.Hand? != o'.Hand? {
      assert Times(Elements(s.pool.free), s.prefetched.Values, s.holding.Values, s.gone, x)
        == Tally(x < s.pool.numSlots);
      assert x in s.prefetched.Values || x in s.holding.Values;
      assert x' in s.prefetched.Values || x' in s.holding.Values;
    }
  }

  /** The memory of slots in different hands, or prefetched for different addresses, or one
      in a hand and one prefetched, never overlaps. */
  lemma HandsApart(n: nat, steps: seq<Step>, base: nat, size: nat, o: Owner, o': Owner, x: nat, x': nat, a: nat)
    requires var s := Run(Init(n), steps); Owns(s, o, x) && Owns(s, o', x') && o != o'
    ensures !(base + x * size <= a < base + x * size + size && base + x' * size <= a < base + x' * size + size)
  {
    AlwaysPartitioned(n, steps);
    OwnersDiffer(Run(Init(n), steps), o, o', x, x');
    SlotsApart(base, size, x, x', a);
  }
}
