/** The index under concurrent callers whose load check comes before the table lock. */
module LoadRace {
  import opened Basics
  import opened HashTable
  import opened HashIndex
  import opened InsertLoop

  /** The steps of concurrent callers: caller t makes the load check of its insert, or
      the rest of it under the lock; and other calls, which lock as a whole. */
  datatype Call =
    | Check(t: nat)
    | Commit(t: nat, key: KvBlockKey, value: IndexSlotValue)
    | Atomic(op: Op)

  /** The stored map, the callers between their check and their commit, and whether the
      table is strict, as long as no insert has dropped a key. */
  datatype Race = Race(m: map<KvBlockKey, IndexSlotValue>, passed: set<nat>, clean: bool) {
    /** What a step promises of the state and the answer. */
    ghost predicate Serves(hash: Hash, capacity: nat, c: Call, s': Race, reply: Reply)
      requires capacity > 0
    {
      && RaceStep(this, hash, capacity, c, s') && reply == ReplyTo(this, hash, capacity, c)
      && (LosesStored(this, hash, capacity, c) ==> c.key in s'.m && exists k :: k in m && k !in s'.m)
    }
  }

  ghost predicate IsCall(c: Call, callers: nat) {
    match c
    case Check(t) => t < callers
    case Commit(t, _, _) => t < callers
    case Atomic(op) => !op.InsertOp?
  }

  /** The step inserts a new key into a full table that is not large. */
  ghost predicate Overflows(s: Race, capacity: nat, c: Call) {
    c.Commit? && c.t in s.passed && Overfull(s.m, capacity, c.key)
  }

  /** A step that does not. */
  ghost function RaceNext(s: Race, hash: Hash, capacity: nat, c: Call): Race
    requires capacity > 0
  {
    match c
    case Check(t) => if 4 * |s.m| > 3 * capacity then s else s.(passed := s.passed + {t})
    case Commit(t, k, v) =>
      if t !in s.passed then s
      else s.(m := if Crowded(s.m, hash, capacity, k) then s.m else s.m[k := v], passed := s.passed - {t})
    case Atomic(op) => s.(m := MapStep(s.m, hash, capacity, op).0)
  }

  /** Any step. One that overflows drops some key, depending on the layout of the table. */
  ghost predicate RaceStep(s: Race, hash: Hash, capacity: nat, c: Call, s': Race)
    requires capacity > 0
  {
    if Overflows(s, capacity, c) then
      && s'.passed == s.passed - {c.t} && !s'.clean
      && exists k :: k in s.m[c.key := c.value] && s'.m == s.m[c.key := c.value] - {k}
    else
      s' == RaceNext(s, hash, capacity, c)
  }

  /** The step overflows and, in every strict table that stores the map, the key it drops is
      a stored one. */
  ghost predicate LosesStored(s: Race, hash: Hash, capacity: nat, c: Call) {
    && Overflows(s, capacity, c) && s.clean
    && forall t :: |t| == capacity && Whole(t, hash, s.m, capacity) && Strict(t) ==>
         Dropped(t, hash, c.key, c.value) in s.m
  }

  datatype Reply = Admitted(ok: bool) | Done(answer: Answer) | Ignored

  ghost function ReplyTo(s: Race, hash: Hash, capacity: nat, c: Call): Reply
    requires capacity > 0
  {
    match c
    case Check(t) => Admitted(4 * |s.m| <= 3 * capacity)
    case Commit(t, k, v) =>
      if t !in s.passed then Ignored
      else
        var fails := Overfull(s.m, capacity, k) || Crowded(s.m, hash, capacity, k);
        Done(Inserted(if fails then Err(CapacityExceeded(capacity)) else Ok(())))
    case Atomic(op) => Done(MapStep(s.m, hash, capacity, op).1)
  }

  /** A schedule with the states it goes through. */
  datatype Trace = Trace(calls: seq<Call>, states: seq<Race>) {
    ghost predicate StepAt(hash: Hash, capacity: nat, i: nat)
      requires capacity > 0 && i < |calls| && |states| == |calls| + 1
    {
      RaceStep(states[i], hash, capacity, calls[i], states[i + 1])
    }

    ghost predicate Runs(hash: Hash, capacity: nat)
      requires capacity > 0
    {
      |states| == |calls| + 1 && forall i :: 0 <= i < |calls| ==> StepAt(hash, capacity, i)
    }

    ghost predicate Answered(replies: seq<Reply>, hash: Hash, capacity: nat)
      requires capacity > 0
    {
      && Runs(hash, capacity) && |replies| == |calls|
      && forall i :: 0 <= i < |replies| ==> replies[i] == ReplyTo(states[i], hash, capacity, calls[i])
    }

    ghost function Last(): Race
      requires states != []
    {
      states[|states| - 1]
    }

    ghost function Then(c: Call, s: Race): Trace {
      Trace(calls + [c], states + [s])
    }
  }

  lemma ThenRuns(tr: Trace, hash: Hash, capacity: nat, c: Call, s: Race)
    requires capacity > 0 && tr.Runs(hash, capacity) && RaceStep(tr.Last(), hash, capacity, c, s)
    ensures tr.Then(c, s).Runs(hash, capacity) && tr.Then(c, s).Last() == s
  {
    forall i | 0 <= i <= |tr.calls| ensures tr.Then(c, s).StepAt(hash, capacity, i) {
      assert i < |tr.calls| ==> tr.StepAt(hash, capacity, i);
    }
  }

  // ---------- The overshoot ----------

  ghost predicate AllCalls(calls: seq<Call>, callers: nat) {
    forall c :: c in calls ==> IsCall(c, callers)
  }

  /** Keys stored and keys on their way exceed the load limit by at most the callers. */
  ghost predicate Bounded(s: Race, capacity: nat, callers: nat) {
    s.passed <= Below(callers) && 4 * (|s.m| + |s.passed|) <= 3 * capacity + 4 * callers
  }

  lemma BoundKept(s: Race, hash: Hash, capacity: nat, c: Call, s': Race, callers: nat)
    requires capacity > 0 && RaceStep(s, hash, capacity, c, s') && IsCall(c, callers) && Bounded(s, capacity, callers)
    ensures Bounded(s', capacity, callers)
  {
    match c
    case Check(t) =>
      Smaller(s.passed + {t}, Below(callers));
      BelowSize(callers);
    case Commit(t, k, v) =>
      AddedKey(s.m, k, v);
      if Overflows(s, capacity, c) {
        var gone :| gone in s.m[k := v] && s'.m == s.m[k := v] - {gone};
        OverContents(s.m, k, v, gone);
      }
    case Atomic(op) => KeyGone(s.m, hash, capacity, op);
  }

  lemma AddedKey(m: map<KvBlockKey, IndexSlotValue>, k: KvBlockKey, v: IndexSlotValue)
    ensures |m[k := v]| <= |m| + 1
  {
    assert m[k := v].Keys == m.Keys + {k};
  }

  lemma KeyGone(m: map<KvBlockKey, IndexSlotValue>, hash: Hash, capacity: nat, op: Op)
    requires capacity > 0 && !op.InsertOp?
    ensures |MapStep(m, hash, capacity, op).0| <= |m|
  {
    if op.RemoveOp? {
      assert (m - {op.key}).Keys == m.Keys - {op.key};
    }
  }

  lemma BoundedNext(tr: Trace, hash: Hash, capacity: nat, callers: nat, i: nat)
    requires capacity > 0 && tr.Runs(hash, capacity) && AllCalls(tr.calls, callers)
    requires i < |tr.calls| && Bounded(tr.states[i], capacity, callers)
    ensures Bounded(tr.states[i + 1], capacity, callers)
  {
    assert tr.StepAt(hash, capacity, i) && tr.calls[i] in tr.calls;
    BoundKept(tr.states[i], hash, capacity, tr.calls[i], tr.states[i + 1], callers);
  }

  /** However the steps of n callers interleave, the table holds at most n keys beyond the
      load limit. */
  lemma {:induction false} Overshoot(tr: Trace, hash: Hash, capacity: nat, callers: nat, i: nat)
    requires capacity > 0 && tr.Runs(hash, capacity) && AllCalls(tr.calls, callers)
    requires Bounded(tr.states[0], capacity, callers) && i <= |tr.calls|
    ensures Bounded(tr.states[i], capacity, callers)
  {
    if i > 0 {
      Overshoot(tr, hash, capacity, callers, i - 1);
      BoundedNext(tr, hash, capacity, callers, i - 1);
    }
  }

  lemma AnsweredNext(tr: Trace, replies: seq<Reply>, hash: Hash, capacity: nat, c: Call, s: Race, reply: Reply)
    requires capacity > 0 && tr.Answered(replies, hash, capacity) && tr.Last().Serves(hash, capacity, c, s, reply)
    ensures tr.Then(c, s).Answered(replies + [reply], hash, capacity)
    ensures tr.Then(c, s).Last() == s && tr.Then(c, s).states[0] == tr.states[0]
  {
    ThenRuns(tr, hash, capacity, c, s);
  }

  // ---------- Full runs ----------

  /** A schedule of some callers from the empty table. */
  ghost predicate Leads(tr: Trace, hash: Hash, capacity: nat, callers: nat)
    requires capacity > 0
  {
    tr.Runs(hash, capacity) && AllCalls(tr.calls, callers) && tr.states[0] == Race(map[], {}, true)
  }

  lemma ThenLeads(tr: Trace, hash: Hash, capacity: nat, callers: nat, c: Call, s: Race) returns (more: Trace)
    requires capacity > 0 && Leads(tr, hash, capacity, callers) && IsCall(c, callers)
    requires RaceStep(tr.Last(), hash, capacity, c, s)
    ensures Leads(more, hash, capacity, callers) && more.Last() == s
  {
    more := tr.Then(c, s);
    ThenRuns(tr, hash, capacity, c, s);
  }

  /** The first n of some keys, all with one value. */
  ghost function First(keys: seq<KvBlockKey>, n: nat, v: IndexSlotValue): map<KvBlockKey, IndexSlotValue>
    requires n <= |keys|
  {
    if n == 0 then map[] else First(keys, n - 1, v)[keys[n - 1] := v]
  }

  lemma {:induction false} FirstKeys(keys: seq<KvBlockKey>, n: nat, v: IndexSlotValue)
    requires n <= |keys| && Distinct(keys)
    ensures |First(keys, n, v)| == n
    ensures forall k :: k in First(keys, n, v) ==> exists i :: 0 <= i < n && keys[i] == k
  {
    if n > 0 {
      FirstKeys(keys, n - 1, v);
    }
  }

  /** The setting of a full run: some callers, one value, and as many keys as slots, each
      with a home of its own if the table is large. */
  datatype Scene = Scene(hash: Hash, capacity: nat, callers: nat, v: IndexSlotValue, keys: seq<KvBlockKey>) {
    ghost predicate Ok() {
      && 0 < callers <= capacity == |keys| && Distinct(keys)
      && (capacity >= 0x1_0000 ==> forall i :: 0 <= i < capacity ==> Home(hash, keys[i], capacity) == i)
    }

    /** A run stores the first n keys and leaves some callers between check and commit. */
    ghost predicate Stores(tr: Trace, n: nat, passed: set<nat>) {
      Ok() && n <= capacity && Leads(tr, hash, capacity, callers) && tr.Last() == Race(First(keys, n, v), passed, true)
    }
  }

  lemma NotCrowded(x: Scene, n: nat)
    requires x.Ok() && n < x.capacity
    ensures !Crowded(First(x.keys, n, x.v), x.hash, x.capacity, x.keys[n])
  {
    FirstKeys(x.keys, n, x.v);
  }

  lemma AfterCheck(x: Scene, tr: Trace, n: nat, passed: set<nat>, t: nat, passed': set<nat>) returns (more: Trace)
    requires x.Stores(tr, n, passed) && t < x.callers && 4 * n <= 3 * x.capacity && passed' == passed + {t}
    ensures x.Stores(more, n, passed')
  {
    FirstKeys(x.keys, n, x.v);
    more := ThenLeads(tr, x.hash, x.capacity, x.callers, Check(t), Race(First(x.keys, n, x.v), passed', true));
  }

  lemma AfterCommit(x: Scene, tr: Trace, n: nat, passed: set<nat>, t: nat, passed': set<nat>) returns (more: Trace)
    requires 0 < n <= x.capacity && x.Stores(tr, n - 1, passed)
    requires t < x.callers && t in passed && passed' == passed - {t}
    ensures x.Stores(more, n, passed')
  {
    NotCrowded(x, n - 1);
    FirstKeys(x.keys, n - 1, x.v);
    var c := Commit(t, x.keys[n - 1], x.v);
    more := ThenLeads(tr, x.hash, x.capacity, x.callers, c, Race(First(x.keys, n, x.v), passed', true));
  }
}
