/** Distributed locks: an owner and a list of waiting clients for each resource,
    seen as one first-come first-served queue. */
module LockQueue {
  import opened Basics

  type Pid = nat
  type Resource = nat

  datatype LockState = LockState(owner: Option<Pid>, waiting: seq<Pid>)

  datatype LockError = LockConflict(resource: Resource, pid: Pid) | LockNotHeld(resource: Resource, pid: Pid)

  datatype Result = Ok | Err(error: LockError)

  // ---------- The specification: one queue for each resource ----------

  datatype Op = Acquire(r: Resource, pid: Pid) | Release(r: Resource, pid: Pid)

  /** Acquiring joins the back of the queue once; releasing leaves from the front. */
  ghost function Next(q: seq<Pid>, op: Op): seq<Pid> {
    match op
    case Acquire(_, pid) => if pid in q then q else q + [pid]
    case Release(_, pid) => if q != [] && q[0] == pid then q[1..] else q
  }

  /** The holder is the front of the queue. */
  ghost predicate Succeeds(q: seq<Pid>, op: Op) {
    match op
    case Acquire(_, pid) => q == [] || q[0] == pid
    case Release(_, pid) => q != [] && q[0] == pid
  }

  ghost function Reply(q: seq<Pid>, op: Op): Result {
    if Succeeds(q, op) then Ok
    else
      match op
      case Acquire(r, pid) => Err(LockConflict(r, pid))
      case Release(r, pid) => Err(LockNotHeld(r, pid))
  }

  lemma StillDistinct(q: seq<Pid>, op: Op)
    requires Distinct(q)
    ensures Distinct(Next(q, op))
  {
  }

  // ---------- The lock table ----------

  ghost predicate Front(q: seq<Pid>, pid: Pid) {
    q != [] && q[0] == pid
  }

  ghost predicate WellFormed(s: LockState) {
    (s.owner.None? ==> s.waiting == []) && Distinct(QueueOf(s))
  }

  ghost function QueueOf(s: LockState): seq<Pid> {
    match s.owner case None => [] case Some(pid) => [pid] + s.waiting
  }

  ghost function QueueIn(locks: map<Resource, LockState>, r: Resource): seq<Pid> {
    if r in locks then QueueOf(locks[r]) else []
  }

  /** One call: it is answered from the queue it names, and only that queue moves. */
  ghost predicate Moves(locks: map<Resource, LockState>, op: Op, locks': map<Resource, LockState>, res: Result) {
    && res == Reply(QueueIn(locks, op.r), op)
    && forall r :: QueueIn(locks', r) == if op.r == r then Next(QueueIn(locks, r), op) else QueueIn(locks, r)
  }

  /** Whether it goes to the first waiter or to nobody, the rest of the queue stays. */
  lemma HandsOver(s: LockState)
    requires WellFormed(s) && s.owner.Some?
    ensures QueueOf(s)[1..] == s.waiting
    ensures s.waiting != [] ==>
      var s' := LockState(Some(s.waiting[0]), s.waiting[1..]); WellFormed(s') && QueueOf(s') == s.waiting
  {
    if s.waiting != [] {
      assert [s.waiting[0]] + s.waiting[1..] == s.waiting;
      StillDistinct(QueueOf(s), Release(0, s.owner.value));
    }
  }

  class LockTable {
    var locks: map<Resource, LockState>

    ghost predicate Valid()
      reads this
    {
      forall r :: r in locks ==> WellFormed(locks[r])
    }

    ghost function Queue(r: Resource): seq<Pid>
      reads this
    {
      QueueIn(locks, r)
    }

    constructor ()
      ensures Valid() && forall r :: Queue(r) == []
    {
      locks := map[];
    }

    method AcquireLock(r: Resource, pid: Pid) returns (res: Result)
      requires Valid()
      modifies this
      ensures Valid() && Moves(old(locks), Acquire(r, pid), locks, res)
      ensures res == if Front(Queue(r), pid) then Ok else Err(LockConflict(r, pid))
    {
      if r !in locks {
        locks := locks[r := LockState(None, [])];
      }
      StillDistinct(Queue(r), Acquire(r, pid));
      var lock := locks[r];
      match lock.owner {
        case None =>
          locks := locks[r := lock.(owner := Some(pid))];
          res := Ok;
        case Some(owner) =>
          if owner == pid {
            res := Ok;
          } else {
            if pid !in lock.waiting {
              locks := locks[r := lock.(waiting := lock.waiting + [pid])];
              assert [owner] + (lock.waiting + [pid]) == ([owner] + lock.waiting) + [pid];
            }
            res := Err(LockConflict(r, pid));
          }
      }
    }

    method ReleaseLock(r: Resource, pid: Pid) returns (res: Result)
      requires Valid()
      modifies this
      ensures Valid() && Moves(old(locks), Release(r, pid), locks, res)
      ensures res == if Front(old(Queue(r)), pid) then Ok else Err(LockNotHeld(r, pid))
    {
      if r !in locks || locks[r].owner != Some(pid) {
        return Err(LockNotHeld(r, pid));
      }
      var lock := locks[r];
      HandsOver(lock);
      if lock.waiting != [] {
        locks := locks[r := LockState(Some(lock.waiting[0]), lock.waiting[1..])];
      } else {
        locks := locks[r := lock.(owner := None)];
      }
      res := Ok;
    }

    method Apply(op: Op) returns (res: Result)
      requires Valid()
      modifies this
      ensures Valid() && Moves(old(locks), op, locks, res)
    {
      match op {
        case Acquire(r, pid) => res := AcquireLock(r, pid);
        case Release(r, pid) => res := ReleaseLock(r, pid);
      }
    }

    /** A run of calls leaves each resource with the queue that the run gives it,
        and answers each call from the queue that the call met. */
    method Serve(ops: seq<Op>) returns (results: seq<Result>)
      requires Valid()
      modifies this
      ensures Valid() && Served(old(locks), ops, locks, results)
    {
      results := [];
      for i := 0 to |ops|
        invariant Valid() && Served(old(locks), ops[..i], locks, results)
      {
        ghost var before := locks;
        var res := Apply(ops[i]);
        assert ops[..i + 1] == ops[..i] + [ops[i]];
        ServeOne(old(locks), ops[..i], before, results, ops[i], locks, res);
        results := results + [res];
      }
      assert ops[..|ops|] == ops;
    }
  }

  // ---------- Whole runs ----------

  /** The queue of one resource after a run of calls on all resources. */
  ghost function Run(r: Resource, q: seq<Pid>, ops: seq<Op>): seq<Pid> {
    if ops == [] then q
    else
      var before, op := Run(r, q, ops[..|ops| - 1]), ops[|ops| - 1];
      if op.r == r then Next(before, op) else before
  }

  /** The answers to a run of calls. */
  ghost function Replies(start: map<Resource, LockState>, ops: seq<Op>): seq<Result> {
    if ops == [] then []
    else
      var before, op := ops[..|ops| - 1], ops[|ops| - 1];
      Replies(start, before) + [Reply(Run(op.r, QueueIn(start, op.r), before), op)]
  }

  ghost predicate Served(start: map<Resource, LockState>, ops: seq<Op>, end: map<Resource, LockState>,
                         results: seq<Result>)
  {
    results == Replies(start, ops) && forall r :: QueueIn(end, r) == Run(r, QueueIn(start, r), ops)
  }

  lemma ServeOne(start: map<Resource, LockState>, ops: seq<Op>, mid: map<Resource, LockState>, results: seq<Result>,
                 op: Op, end: map<Resource, LockState>, res: Result)
    requires Served(start, ops, mid, results) && Moves(mid, op, end, res)
    ensures Served(start, ops + [op], end, results + [res])
  {
    assert (ops + [op])[..|ops|] == ops;
  }

  // ---------- What the answers mean ----------

  lemma {:induction false} RepliesAt(start: map<Resource, LockState>, ops: seq<Op>, i: nat)
    requires i < |ops|
    ensures |Replies(start, ops)| == |ops|
    ensures Replies(start, ops)[i] == Reply(Run(ops[i].r, QueueIn(start, ops[i].r), ops[..i]), ops[i])
  {
    var n := |ops| - 1;
    if n > 0 {
      RepliesAt(start, ops[..n], if i < n then i else 0);
    }
    if i < n {
      assert ops[..n][..i] == ops[..i];
    }
  }

  /** An acquire is answered Ok if and only if the client is then at the front of the queue, a
      release if and only if it was there before; every other call gets the error that names
      its resource and its client. */
  lemma AnsweredByFront(start: map<Resource, LockState>, ops: seq<Op>, end: map<Resource, LockState>,
                        results: seq<Result>, i: nat)
    requires Served(start, ops, end, results) && i < |ops|
    ensures |results| == |ops|
    ensures var r, pid, q := ops[i].r, ops[i].pid, QueueIn(start, ops[i].r);
      match ops[i]
      case Acquire(_, _) =>
        results[i] == if Front(Run(r, q, ops[..i + 1]), pid) then Ok else Err(LockConflict(r, pid))
      case Release(_, _) =>
        results[i] == if Front(Run(r, q, ops[..i]), pid) then Ok else Err(LockNotHeld(r, pid))
  {
    RepliesAt(start, ops, i);
    assert ops[..i + 1][..i] == ops[..i];
  }

  /** A client holds a resource from the call numbered i on: that acquire was answered Ok, and
      up to the call numbered k no release by the client was. */
  ghost predicate Holds(ops: seq<Op>, results: seq<Result>, i: nat, k: nat)
    requires k <= |ops| == |results|
  {
    && i < k && ops[i].Acquire? && results[i] == Ok
    && forall j :: i < j < k && ops[j] == Release(ops[i].r, ops[i].pid) ==> results[j] != Ok
  }

  lemma FrontStays(r: Resource, q: seq<Pid>, ops: seq<Op>, k: nat, pid: Pid)
    requires k < |ops| && Front(Run(r, q, ops[..k]), pid) && ops[k] != Release(r, pid)
    ensures Front(Run(r, q, ops[..k + 1]), pid)
  {
    assert ops[..k + 1][..k] == ops[..k];
  }

  lemma {:induction false} HolderIsFront(start: map<Resource, LockState>, ops: seq<Op>, end: map<Resource, LockState>,
                                         results: seq<Result>, i: nat, k: nat)
    requires Served(start, ops, end, results) && k <= |ops| == |results| && Holds(ops, results, i, k)
    ensures Front(Run(ops[i].r, QueueIn(start, ops[i].r), ops[..k]), ops[i].pid)
  {
    if k == i + 1 {
      AnsweredByFront(start, ops, end, results, i);
    } else {
      HolderIsFront(start, ops, end, results, i, k - 1);
      if ops[k - 1] == Release(ops[i].r, ops[i].pid) {
        AnsweredByFront(start, ops, end, results, k - 1);
      } else {
        FrontStays(ops[i].r, QueueIn(start, ops[i].r), ops, k - 1, ops[i].pid);
      }
    }
  }

  /** Mutual exclusion: while a client holds a resource, no acquire of it by another client is
      answered Ok. */
  lemma MutualExclusion(start: map<Resource, LockState>, ops: seq<Op>, end: map<Resource, LockState>,
                        results: seq<Result>, i: nat, k: nat)
    requires Served(start, ops, end, results) && k < |ops| == |results| && Holds(ops, results, i, k)
    requires ops[k].Acquire? && ops[k].r == ops[i].r && ops[k].pid != ops[i].pid
    ensures results[k] == Err(LockConflict(ops[k].r, ops[k].pid))
  {
    HolderIsFront(start, ops, end, results, i, k);
    AnsweredByFront(start, ops, end, results, k);
    assert ops[..k + 1][..k] == ops[..k];
  }

  // ---------- First come, first served ----------

  /** The clients that joined the queue of a resource during a run, in order. */
  ghost function Joined(r: Resource, q: seq<Pid>, ops: seq<Op>): seq<Pid> {
    if ops == [] then []
    else
      var before, op := ops[..|ops| - 1], ops[|ops| - 1];
      Joined(r, q, before) + if op.r == r && op.Acquire? && op.pid !in Run(r, q, before) then [op.pid] else []
  }

  /** The number of successful releases of a resource in a run. */
  ghost function Releases(r: Resource, q: seq<Pid>, ops: seq<Op>): nat {
    if ops == [] then 0
    else
      var before, op := ops[..|ops| - 1], ops[|ops| - 1];
      Releases(r, q, before) + if op.r == r && op.Release? && Succeeds(Run(r, q, before), op) then 1 else 0
  }

  /** The first-come first-served law: the queue is everyone who was in it or joined,
      without those who were served, and holds nobody twice. */
  lemma {:induction false} Fifo(r: Resource, q: seq<Pid>, ops: seq<Op>)
    requires Distinct(q)
    ensures Releases(r, q, ops) <= |q| + |Joined(r, q, ops)|
    ensures Run(r, q, ops) == (q + Joined(r, q, ops))[Releases(r, q, ops)..]
    ensures Distinct(Run(r, q, ops))
  {
    if ops == [] {
      assert (q + [])[0..] == q;
    } else {
      var before, op := ops[..|ops| - 1], ops[|ops| - 1];
      Fifo(r, q, before);
      StillDistinct(Run(r, q, before), op);
      FifoStep(q, Joined(r, q, before), Releases(r, q, before), op);
      assert Run(r, q, ops) == if op.r == r then Next(Run(r, q, before), op) else Run(r, q, before);
    }
  }

  lemma FifoStep(q: seq<Pid>, joined: seq<Pid>, n: nat, op: Op)
    requires n <= |q| + |joined|
    ensures var now := (q + joined)[n..];
      && (op.Acquire? && op.pid !in now ==> Next(now, op) == (q + (joined + [op.pid]))[n..])
      && (op.Release? && Succeeds(now, op) ==> n < |q| + |joined| && Next(now, op) == (q + joined)[n + 1..])
  {
  }

  /** A client waiting at index k is the owner after exactly k + 1 successful
      releases, whatever else happens, and waits before that. */
  lemma ServedInTurn(r: Resource, q: seq<Pid>, ops: seq<Op>, k: nat)
    requires Distinct(q) && k + 1 < |q|
    ensures Releases(r, q, ops) <= k + 1 ==>
      var i := k + 1 - Releases(r, q, ops); i < |Run(r, q, ops)| && Run(r, q, ops)[i] == q[k + 1]
    ensures Releases(r, q, ops) <= k ==> Run(r, q, ops)[0] != q[k + 1]
  {
    Fifo(r, q, ops);
  }

  /** No overtaking: until a queued client has been served, every owner is a client
      that stood before it, or the client itself. */
  lemma NoOvertaking(r: Resource, q: seq<Pid>, ops: seq<Op>, i: nat)
    requires Distinct(q) && i < |q| && Releases(r, q, ops) <= i
    ensures Run(r, q, ops) != [] && Run(r, q, ops)[0] in q[..i + 1]
  {
    Fifo(r, q, ops);
    assert Run(r, q, ops)[0] == q[..i + 1][Releases(r, q, ops)];
  }
}
