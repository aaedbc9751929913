/** For which page a staging slot was taken: the addresses in the system are those of the
    steps that took the slots, and every slot goes where the outcome of its use sends it. */
module SlotHistory {
  import opened Basics
  import opened SlotOwnership

  datatype Purpose = ForPrefetch | ForFetch | ForLocal

  /** What a slot was last popped for, and whether the remote read into it has ended well. */
  datatype Use = Use(purpose: Purpose, vaddr: nat, read: bool)

  /** The task gets the first free slot. */
  ghost predicate Takes(s: System, t: Task, x: nat) {
    t !in s.holding && s.pool.free != [] && s.pool.free[0] == x
  }

  ghost function UseNext(s: System, step: Step, x: nat, before: Option<Use>): Option<Use> {
    match step
    case StartPrefetch(t, a) => if Takes(s, t, x) then Some(Use(ForPrefetch, a, false)) else before
    case StartFetch(t, a) => if Takes(s, t, x) then Some(Use(ForFetch, a, false)) else before
    case StartLocal(t, a) => if Takes(s, t, x) then Some(Use(ForLocal, a, false)) else before
    case EndPrefetch(t, ok) => if ok then AfterRead(s, t, x, ForPrefetch, before) else before
    case EndFetch(t, ok) => if ok then AfterRead(s, t, x, ForFetch, before) else before
    case _ => before
  }

  ghost function AfterRead(s: System, t: Task, x: nat, purpose: Purpose, before: Option<Use>): Option<Use> {
    if Owns(s, Hand(t), x) && before.Some? && before.value.purpose == purpose
    then Some(before.value.(read := true)) else before
  }

  /** The last use of a slot in a run, told by its steps. */
  ghost function LastUse(n: nat, steps: seq<Step>, x: nat): Option<Use> {
    if steps == [] then None
    else
      var before := steps[..|steps| - 1];
      UseNext(Run(Init(n), before), steps[|steps| - 1], x, LastUse(n, before, x))
  }

  /** What a task is doing is what its slot was taken for. */
  ghost predicate Fits(w: Work, u: Option<Use>) {
    match w
    case Prefetching(a) => u == Some(Use(ForPrefetch, a, false))
    case MovingCached(a) => u == Some(Use(ForPrefetch, a, true))
    case Reading(a) => u == Some(Use(ForFetch, a, false))
    case Moving(a) => u == Some(Use(ForFetch, a, true)) || u == Some(Use(ForLocal, a, false))
  }

  ghost predicate Right(s: System, uses: nat -> Option<Use>) {
    && (forall a :: a in s.prefetched ==> uses(s.prefetched[a]) == Some(Use(ForPrefetch, a, true)))
    && s.doing.Keys == s.holding.Keys
    && (forall t :: t in s.holding ==> Fits(s.doing[t], uses(s.holding[t])))
  }

  /** A free slot is neither cached nor in a hand. */
  lemma FreeIsUnused(s: System, x: nat)
    requires Inv(s) && x in s.pool.free
    ensures forall a :: a in s.prefetched ==> s.prefetched[a] != x
    ensures forall t :: t in s.holding ==> s.holding[t] != x
  {
    assert Times(Elements(s.pool.free), s.prefetched.Values, s.holding.Values, s.gone, x) == Tally(x < s.pool.numSlots);
    forall a | a in s.prefetched ensures s.prefetched[a] != x {
      assert s.prefetched[a] in s.prefetched.Values;
    }
    forall t | t in s.holding ensures s.holding[t] != x {
      assert s.holding[t] in s.holding.Values;
    }
  }

  lemma PopRight(s: System, t: Task, w: Work, uses: nat -> Option<Use>, uses': nat -> Option<Use>)
    requires Inv(s) && Right(s, uses)
    requires forall x :: uses'(x) == uses(x) || (Takes(s, t, x) && Fits(w, uses'(x)))
    requires forall x :: Takes(s, t, x) ==> Fits(w, uses'(x))
    ensures Right(Pop(s, t, w), uses')
  {
    if t !in s.holding && s.pool.free != [] {
      FreeIsUnused(s, s.pool.free[0]);
    }
  }

  /** A slot in a hand is neither cached nor in another hand. */
  lemma HandIsAlone(s: System, t: Task)
    requires Inv(s) && t in s.holding
    ensures forall a :: a in s.prefetched ==> s.prefetched[a] != s.holding[t]
    ensures forall u :: u in s.holding && u != t ==> s.holding[u] != s.holding[t]
  {
    forall a | a in s.prefetched ensures s.prefetched[a] != s.holding[t] {
      OwnersDiffer(s, Cached(a), Hand(t), s.prefetched[a], s.holding[t]);
    }
  }

  lemma PrefetchRight(s: System, t: Task, ok: bool, uses: nat -> Option<Use>, uses': nat -> Option<Use>)
    requires Inv(s) && Right(s, uses) && forall x :: uses'(x) == UseNext(s, EndPrefetch(t, ok), x, uses(x))
    ensures Right(Next(s, EndPrefetch(t, ok)), uses')
  {
    if t in s.holding {
      HandIsAlone(s, t);
    }
  }

  lemma FetchRight(s: System, t: Task, ok: bool, uses: nat -> Option<Use>, uses': nat -> Option<Use>)
    requires Inv(s) && Right(s, uses) && forall x :: uses'(x) == UseNext(s, EndFetch(t, ok), x, uses(x))
    ensures Right(Next(s, EndFetch(t, ok)), uses')
  {
    if t in s.holding {
      HandIsAlone(s, t);
    }
  }

  lemma RightNext(s: System, step: Step, uses: nat -> Option<Use>, uses': nat -> Option<Use>)
    requires Inv(s) && Right(s, uses) && forall x :: uses'(x) == UseNext(s, step, x, uses(x))
    ensures Right(Next(s, step), uses')
  {
    match step
    case StartPrefetch(t, a) => PopRight(s, t, Prefetching(a), uses, uses');
    case StartFetch(t, a) => PopRight(s, t, Reading(a), uses, uses');
    case StartLocal(t, a) => PopRight(s, t, Moving(a), uses, uses');
    case EndPrefetch(t, ok) => PrefetchRight(s, t, ok, uses, uses');
    case EndFetch(t, ok) => FetchRight(s, t, ok, uses, uses');
    case _ =>
  }

  /** In every run a slot cached for an address was popped by a prefetch of this address whose
      read ended well, and a task holds a slot that was popped for the address it works on. */
  lemma {:induction false} SlotsServeTheirPages(n: nat, steps: seq<Step>)
    ensures Right(Run(Init(n), steps), (x: nat) => LastUse(n, steps, x))
  {
    if steps != [] {
      var before, step := steps[..|steps| - 1], steps[|steps| - 1];
      AlwaysPartitioned(n, before);
      SlotsServeTheirPages(n, before);
      RightNext(Run(Init(n), before), step, (x: nat) => LastUse(n, before, x), (x: nat) => LastUse(n, steps, x));
    }
  }

  lemma OneMore(n: nat, steps: seq<Step>, step: Step)
    ensures Run(Init(n), steps + [step]) == Next(Run(Init(n), steps), step)
  {
    assert (steps + [step])[..|steps|] == steps;
  }

  /** Who gets a slot: a start takes the first free one for a task without a slot, and a fault
      on a prefetched page the one cached for that page. */
  lemma SlotGiven(n: nat, steps: seq<Step>, step: Step)
    requires step.StartPrefetch? || step.StartFetch? || step.StartLocal? || step.TakeCached?
    ensures var s, s', t := Run(Init(n), steps), Run(Init(n), steps + [step]), step.t;
      if t in s.holding then s' == s
      else if step.TakeCached? then
        if step.vaddr !in s.prefetched then s' == s
        else s'.holding == s.holding[t := s.prefetched[step.vaddr]] && s'.prefetched == s.prefetched - {step.vaddr}
             && s'.pool == s.pool && s'.gone == s.gone && s'.exits == s.exits
      else
        if s.pool.free == [] then s' == s
        else s'.holding == s.holding[t := s.pool.free[0]] && s'.pool.free == s.pool.free[1..]
             && s'.prefetched == s.prefetched && s'.gone == s.gone && s'.exits == s.exits
  {
    OneMore(n, steps, step);
  }

  /** The steps that a task takes with its slot. */
  ghost predicate Applies(step: Step, u: Use) {
    match step
    case EndPrefetch(_, _) => u.purpose == ForPrefetch && !u.read
    case MoveCached(_, _) => u.purpose == ForPrefetch && u.read
    case EndFetch(_, _) => u.purpose == ForFetch && !u.read
    case EndMove(_, _) => u.purpose == ForLocal || (u.purpose == ForFetch && u.read)
    case _ => false
  }

  /** A task holds a slot whose last use is known. */
  ghost predicate Uses(n: nat, steps: seq<Step>, t: Task, x: nat, u: Use) {
    Owns(Run(Init(n), steps), Hand(t), x) && LastUse(n, steps, x) == Some(u)
  }

  lemma WorkFits(n: nat, steps: seq<Step>, t: Task, x: nat, u: Use)
    requires Uses(n, steps, t, x, u)
    ensures var s := Run(Init(n), steps); t in s.doing && Fits(s.doing[t], Some(u))
    ensures var s := Run(Init(n), steps); |s.pool.free| < s.pool.numSlots && x < s.pool.numSlots
  {
    SlotsServeTheirPages(n, steps);
    AlwaysPartitioned(n, steps);
    QueueHasRoom(Run(Init(n), steps), t);
  }

  /** Any other step of the task changes nothing. */
  lemma NothingElseHappens(n: nat, steps: seq<Step>, step: Step, x: nat, u: Use)
    requires Uses(n, steps, step.t, x, u) && !Applies(step, u)
    ensures Run(Init(n), steps + [step]) == Run(Init(n), steps)
  {
    OneMore(n, steps, step);
    WorkFits(n, steps, step.t, x, u);
  }

  /** A prefetch that was read is cached under its own address, and the slot it replaces
      there departs. */
  lemma PrefetchIsCached(n: nat, steps: seq<Step>, t: Task, x: nat, u: Use)
    requires Uses(n, steps, t, x, u) && u.purpose == ForPrefetch && !u.read
    ensures var s, s' := Run(Init(n), steps), Run(Init(n), steps + [EndPrefetch(t, true)]);
      && s'.prefetched == s.prefetched[u.vaddr := x] && s'.holding == s.holding - {t} && s'.pool == s.pool
      && if u.vaddr in s.prefetched
         then s'.gone == s.gone + {s.prefetched[u.vaddr]} && s'.exits == s.exits.(replaced := s.exits.replaced + 1)
         else s'.gone == s.gone && s'.exits == s.exits
  {
    OneMore(n, steps, EndPrefetch(t, true));
    WorkFits(n, steps, t, x, u);
  }

  /** A failed prefetch read and a failed move of a popped slot give the slot back, to the end
      of the queue. */
  lemma SlotReturns(n: nat, steps: seq<Step>, step: Step, x: nat, u: Use)
    requires Uses(n, steps, step.t, x, u) && Applies(step, u) && (step.EndPrefetch? || step.EndMove?) && !step.ok
    ensures var s, s' := Run(Init(n), steps), Run(Init(n), steps + [step]);
      && s'.pool.free == s.pool.free + [x] && s'.pool.active == s.pool.active - 1 && s'.holding == s.holding - {step.t}
      && s'.prefetched == s.prefetched && s'.gone == s.gone && s'.exits == s.exits
  {
    OneMore(n, steps, step);
    WorkFits(n, steps, step.t, x, u);
  }

  /** A successful move, a failed fetch read and a failed move of a cached slot let the slot
      depart, and each is counted as what it is. */
  lemma SlotDeparts(n: nat, steps: seq<Step>, step: Step, x: nat, u: Use)
    requires Uses(n, steps, step.t, x, u) && Applies(step, u)
    requires step.MoveCached? || (step.EndMove? && step.ok) || (step.EndFetch? && !step.ok)
    ensures var s, s' := Run(Init(n), steps), Run(Init(n), steps + [step]);
      && s'.gone == s.gone + {x} && s'.holding == s.holding - {step.t}
      && s'.pool == s.pool && s'.prefetched == s.prefetched
      && s'.exits == (if step.ok then s.exits.(moves := s.exits.moves + 1)
                      else if step.MoveCached? then s.exits.(failedMoves := s.exits.failedMoves + 1)
                      else s.exits.(failedReads := s.exits.failedReads + 1))
  {
    OneMore(n, steps, step);
    WorkFits(n, steps, step.t, x, u);
  }

  /** After a successful fetch read the task goes on to move the slot. */
  lemma FetchGoesOn(n: nat, steps: seq<Step>, t: Task, x: nat, u: Use)
    requires Uses(n, steps, t, x, u) && u.purpose == ForFetch && !u.read
    ensures var s, s' := Run(Init(n), steps), Run(Init(n), steps + [EndFetch(t, true)]);
      && Uses(n, steps + [EndFetch(t, true)], t, x, u.(read := true)) && s'.holding == s.holding
      && s'.pool == s.pool && s'.prefetched == s.prefetched && s'.gone == s.gone && s'.exits == s.exits
  {
    OneMore(n, steps, EndFetch(t, true));
    WorkFits(n, steps, t, x, u);
    assert (steps + [EndFetch(t, true)])[..|steps|] == steps;
  }
}
