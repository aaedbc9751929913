/** The invalidation buffer's own operations, run in place on the ring memory. */
module InvalidationBuffer {
  import opened InvalidationRing

  datatype CasResult = Swapped(previous: nat) | Changed(current: nat)

  /** Compare and swap: the new word and the answer. */
  function Cas(word: nat, expected: nat, newVal: nat): (nat, CasResult) {
    if word == expected then (newVal, Swapped(expected)) else (word, Changed(word))
  }

  /** The decisions of a callback with a state of its own: the answer to a call may
      depend on all messages it was called with, the last one being the current. */
  type Callback = seq<Msg> -> bool

  ghost function Messages(queue: seq<Entry>): (r: seq<Msg>)
    ensures |r| == |queue|
  {
    seq(|queue|, i requires 0 <= i < |queue| => queue[i].Message())
  }

  ghost predicate Taken(queue: seq<Entry>, i: nat, accept: Callback)
    requires i < |queue|
  {
    queue[i].valid != 0 && accept(Messages(queue[..i + 1]))
  }

  /** Where a drain that has reached index i stops: at the first entry that is not valid
      or that the callback rejects. */
  ghost function Drainable(queue: seq<Entry>, accept: Callback, i: nat := 0): nat
    requires i <= |queue|
    decreases |queue| - i
  {
    if i == |queue| || !Taken(queue, i, accept) then i else Drainable(queue, accept, i + 1)
  }

  lemma {:induction false} DrainableIs(queue: seq<Entry>, accept: Callback, i: nat, n: nat)
    requires i <= n <= |queue| && forall j :: i <= j < n ==> Taken(queue, j, accept)
    requires n < |queue| ==> !Taken(queue, n, accept)
    ensures Drainable(queue, accept, i) == n
    decreases n - i
  {
    if i < n {
      DrainableIs(queue, accept, i + 1, n);
    }
  }

  /** A drain has handed over the first n entries. */
  ghost predicate Drained(queue: seq<Entry>, accept: Callback, n: nat, handed: seq<Msg>) {
    && n <= |queue| && handed == Messages(queue[..n])
    && forall i :: 0 <= i < n ==> Taken(queue, i, accept)
  }

  lemma DrainOne(queue: seq<Entry>, accept: Callback, n: nat, handed: seq<Msg>)
    requires Drained(queue, accept, n, handed) && n < |queue|
    ensures Taken(queue, n, accept) <==> queue[n].valid != 0 && accept(handed + [queue[n].Message()])
    ensures Taken(queue, n, accept) ==> Drained(queue, accept, n + 1, handed + [queue[n].Message()])
  {
    assert Messages(queue[..n + 1]) == handed + [queue[n].Message()];
  }

  /** The entries at positions head..tail, oldest first. */
  ghost function Window(slots: seq<Entry>, head: nat, tail: nat): (r: seq<Entry>)
    requires |slots| == N && head <= tail
    ensures |r| == tail - head
    ensures forall p :: head <= p < tail ==> r[p - head] == At(slots, p)
  {
    seq(tail - head, i requires 0 <= i < tail - head => At(slots, head + i))
  }

  lemma WindowPut(slots: seq<Entry>, head: nat, tail: nat, p: nat, e: Entry)
    requires |slots| == N && head <= tail <= head + N && head <= p < head + N && !(head <= p < tail)
    ensures Window(slots[p % N := e], head, tail) == Window(slots, head, tail)
  {
    forall q | head <= q < tail ensures At(slots[p % N := e], q) == At(slots, q) {
      SlotsDiffer(head, p, q);
    }
    var w, w' := Window(slots, head, tail), Window(slots[p % N := e], head, tail);
    assert forall i :: 0 <= i < |w| ==> w[i] == At(slots, head + i) && w'[i] == At(slots[p % N := e], head + i);
  }

  lemma WindowGrows(slots: seq<Entry>, head: nat, tail: nat)
    requires |slots| == N && head <= tail
    ensures Window(slots, head, tail + 1) == Window(slots, head, tail) + [At(slots, tail)]
  {
    var w, w' := Window(slots, head, tail), Window(slots, head, tail + 1);
    assert forall i :: 0 <= i < |w| ==> w[i] == At(slots, head + i) && w'[i] == At(slots, head + i);
  }

  ghost predicate Cleared(slots: seq<Entry>, lo: nat, hi: nat)
    requires |slots| == N
  {
    forall p :: lo <= p < hi ==> At(slots, p) == ZERO
  }

  /** The slots after the entries at positions lo..hi are cleared, one by one. */
  ghost function ClearRange(slots: seq<Entry>, lo: nat, hi: nat): (r: seq<Entry>)
    requires |slots| == N && lo <= hi
    ensures |r| == N
  {
    if lo == hi then slots else ClearRange(slots, lo, hi - 1)[(hi - 1) % N := ZERO]
  }

  lemma {:induction false} ClearedBehind(slots: seq<Entry>, lo: nat, hi: nat, p: nat)
    requires |slots| == N && lo <= hi <= p < lo + N
    ensures At(ClearRange(slots, lo, hi), p) == At(slots, p)
  {
    if lo < hi {
      ClearedBehind(slots, lo, hi - 1, p);
      SlotsDiffer(lo, hi - 1, p);
    }
  }

  lemma {:induction false} RangeIsCleared(slots: seq<Entry>, lo: nat, hi: nat)
    requires |slots| == N && lo <= hi <= lo + N
    ensures Cleared(ClearRange(slots, lo, hi), lo, hi)
  {
    if lo < hi {
      RangeIsCleared(slots, lo, hi - 1);
      forall p | lo <= p < hi - 1 ensures At(ClearRange(slots, lo, hi), p) == ZERO {
        SlotsDiffer(lo, p, hi - 1);
        assert At(ClearRange(slots, lo, hi - 1), p) == ZERO;
      }
    }
  }

  /** Clearing the oldest entries takes them off the window and leaves the rest. */
  lemma RestStays(slots: seq<Entry>, head: nat, idx: nat, tail: nat)
    requires |slots| == N && head <= idx <= tail <= head + N
    ensures Window(ClearRange(slots, head, idx), idx, tail) == Window(slots, head, tail)[idx - head..]
    ensures Cleared(ClearRange(slots, head, idx), head, idx)
  {
    RangeIsCleared(slots, head, idx);
    var w, w' := Window(slots, head, tail), Window(ClearRange(slots, head, idx), idx, tail);
    forall i | 0 <= i < |w'| ensures w'[i] == w[idx - head + i] {
      ClearedBehind(slots, head, idx, idx + i);
      assert w'[i] == At(ClearRange(slots, head, idx), idx + i);
      assert w[idx - head + i] == At(slots, head + (idx - head + i));
    }
  }

  class Buffer {
    var head: nat
    var tail: nat
    const entries: array<Entry>

    ghost predicate Ok()
      reads this
    {
      entries.Length == N && head <= tail <= head + N
    }

    /** The reserved entries, oldest first. */
    ghost function Queue(): seq<Entry>
      reads this, entries
      requires Ok()
    {
      Window(entries[..], head, tail)
    }

    constructor ()
      ensures Ok() && fresh(entries) && entries.Length == 1024 && Queue() == []
    {
      head, tail := 0, 0;
      entries := new Entry[N](_ => ZERO);
    }

    method AdvanceTailAtomic(expected: nat, newVal: nat) returns (r: CasResult)
      modifies this`tail
      ensures (tail, r) == Cas(old(tail), expected, newVal)
      ensures tail == if old(tail) == expected then newVal else old(tail)
      ensures r == if old(tail) == expected then Swapped(old(tail)) else Changed(old(tail))
    {
      if tail == expected {
        tail := newVal;
        r := Swapped(expected);
      } else {
        r := Changed(tail);
      }
    }

    method WriteEntry(m: Msg) returns (written: bool)
      requires Ok()
      modifies this`tail, entries
      ensures Ok() && written == (|old(Queue())| < 1024)
      ensures Queue() == if written then old(Queue()) + [Full(m)] else old(Queue())
    {
      if tail - head >= N {
        return false;
      }
      WindowPut(entries[..], head, tail, tail, Full(m));
      entries[tail % N] := Full(m);
      assert entries[..] == old(entries[..])[tail % N := Full(m)];
      WindowGrows(entries[..], head, tail);
      tail := tail + 1;
      return true;
    }

    /** Drains in order, clearing what it hands over, and publishes the new head. */
    method ProcessPending(accept: Callback) returns (processed: nat, handed: seq<Msg>)
      requires Ok()
      modifies this`head, entries
      ensures Ok() && processed == Drainable(old(Queue()), accept) == |handed|
      ensures head == old(head) + processed && tail == old(tail)
      ensures Queue() == old(Queue())[processed..]
      ensures handed == Messages(old(Queue())[..processed])
      ensures Cleared(entries[..], old(head), head) && entries[..] == ClearRange(old(entries[..]), old(head), head)
    {
      ghost var queue := Queue();
      var idx;
      idx, handed := TakeAll(accept);
      processed := idx - head;
      DrainableIs(queue, accept, 0, processed);
      RestStays(old(entries[..]), head, idx, tail);
      if processed > 0 {
        head := idx;
      }
    }

    /** The loop of a drain: up to the first entry that is not taken. */
    method TakeAll(accept: Callback) returns (idx: nat, handed: seq<Msg>)
      requires Ok()
      modifies entries
      ensures head <= idx <= tail && entries[..] == ClearRange(old(entries[..]), head, idx)
      ensures Drained(old(Queue()), accept, idx - head, handed)
      ensures idx < tail ==> !Taken(old(Queue()), idx - head, accept)
    {
      ghost var queue := Queue();
      handed := [];
      idx := head;
      while idx < tail
        invariant head <= idx <= tail && Drained(queue, accept, idx - head, handed)
        invariant entries[..] == ClearRange(old(entries[..]), head, idx)
      {
        var entry := entries[idx % N];
        ClearedBehind(old(entries[..]), head, idx, idx);
        assert At(entries[..], idx) == entry == queue[idx - head];
        DrainOne(queue, accept, idx - head, handed);
        if entry.valid == 0 || !accept(handed + [entry.Message()]) {
          break;
        }
        ClearEntry(idx);
        handed := handed + [entry.Message()];
        idx := idx + 1;
      }
    }

    method ClearEntry(idx: nat)
      requires entries.Length == N
      modifies entries
      ensures entries[..] == old(entries[..])[idx % N := ZERO]
    {
      entries[idx % N] := ZERO;
      assert entries[..] == old(entries[..])[idx % N := ZERO];
    }
  }

  // ---------- The operations as steps of the protocol ----------

  /** A writer that has passed the test for room takes the swap as its next step: it owns
      the position exactly when the swap succeeds. */
  lemma SwapIsReservation(plan: Plan, s: Ring, w: nat, m: Msg, t: nat, msg: Msg)
    requires |s.slots| == N && s.WriterState(w) == Checked(m, t)
    ensures var (tail, r), s' := Cas(s.tail, t, t + 1), Next(plan, s, WriterStep(w, msg));
      && s'.tail == tail && s'.head == s.head && s'.slots == s.slots && s'.poller == s.poller
      && s'.WriterState(w) == (if r.Swapped? then Writing(m, t, 0) else Resting)
      && s'.reserved == if r.Swapped? then s.reserved + [m] else s.reserved
  {
  }

  /** A writer that tests for room and writes its words at once, undisturbed: it reserves and
      fills the slot at the tail if fewer than 1024 entries are pending, as WriteEntry does, and
      otherwise changes no shared word. */
  lemma WriteIsWriterRun(s: Ring, w: nat, m: Msg)
    requires |s.slots| == N && s.WriterState(w) == Resting && s.head <= s.tail
    ensures var plan, e := Plan(0, 0, 0, 0, true), WriterStep(w, m);
      var s' := Next(plan, Next(plan, Next(plan, Next(plan, s, e), e), e), e);
      && s'.WriterState(w) == Resting && s'.head == s.head && s'.poller == s.poller && s'.accepted == s.accepted
      && if s.tail - s.head < 1024
         then && s'.tail == s.tail + 1 && s'.reserved == s.reserved + [m]
              && s'.slots == s.slots[s.tail % 1024 := Entry(1, m.vaddr, m.version, m.pageSize)]
         else s'.tail == s.tail && s'.slots == s.slots && s'.reserved == s.reserved
  {
  }

  ghost predicate OnlyPolls(steps: seq<Step>) {
    forall e :: e in steps ==> e.PollerStep?
  }

  /** A run in which only the poller moves. */
  ghost predicate Polls(plan: Plan, s: Ring, r: Ring)
    requires |s.slots| == N
  {
    exists steps :: OnlyPolls(steps) && r == Run(plan, s, steps)
  }

  lemma PollsOn(plan: Plan, s: Ring, r: Ring, accept: bool) returns (r': Ring)
    requires |s.slots| == N && |r.slots| == N && Polls(plan, s, r)
    ensures r' == PollerNext(r, accept) && |r'.slots| == N && Polls(plan, s, r')
  {
    var steps :| OnlyPolls(steps) && r == Run(plan, s, steps);
    RunOneMore(plan, s, steps, PollerStep(accept));
    r' := PollerNext(r, accept);
    assert OnlyPolls(steps + [PollerStep(accept)]);
  }

  /** The poller reads one entry. */
  lemma ReadsEntry(plan: Plan, s: Ring, r: Ring) returns (r': Ring)
    requires |s.slots| == N && |r.slots| == N && Polls(plan, s, r)
    requires r.poller.Scanning? && r.poller.idx < r.poller.limit
    ensures |r'.slots| == N && Polls(plan, s, r')
    ensures r' == r.(poller := Reading(r.poller.idx, r.poller.limit, 4, At(r.slots, r.poller.idx)))
  {
    var i, limit, f := r.poller.idx, r.poller.limit, At(r.slots, r.poller.idx);
    r' := PollsOn(plan, s, r, true);
    r' := PollsOn(plan, s, r', true);
    r' := PollsOn(plan, s, r', true);
    r' := PollsOn(plan, s, r', true);
    r' := PollsOn(plan, s, r', true);
    assert r'.poller.entry == f;
  }

  /** The poller accepts the entry it has read, clears it and goes on. */
  lemma TakesEntry(plan: Plan, s: Ring, r: Ring) returns (r': Ring)
    requires |s.slots| == N && |r.slots| == N && Polls(plan, s, r)
    requires r.poller.Reading? && r.poller.done == 4 && r.poller.entry.valid != 0
    ensures |r'.slots| == N && Polls(plan, s, r')
    ensures r' == r.(poller := Scanning(r.poller.idx + 1, r.poller.limit),
                     accepted := r.accepted + [r.poller.entry.Message()], slots := r.slots[r.poller.idx % N := ZERO])
  {
    var i := r.poller.idx;
    r' := PollsOn(plan, s, r, true);
    r' := PollsOn(plan, s, r', true);
    r' := PollsOn(plan, s, r', true);
    r' := PollsOn(plan, s, r', true);
    r' := PollsOn(plan, s, r', true);
    assert At(r'.slots, i) == ZERO;
    assert r'.slots == r.slots[i % N := ZERO];
    r' := PollsOn(plan, s, r', true);
  }

  /** The state in which a poll has taken its first n entries. */
  ghost function AfterTaking(s: Ring, n: nat): Ring
    requires |s.slots| == N && s.head + n <= s.tail
  {
    s.(slots := ClearRange(s.slots, s.head, s.head + n),
       accepted := s.accepted + Messages(Window(s.slots, s.head, s.tail)[..n]))
  }

  lemma AfterOneMore(s: Ring, n: nat)
    requires |s.slots| == N && 0 < n && s.head + n <= s.tail <= s.head + N
    ensures var q, e, p := AfterTaking(s, n - 1), Window(s.slots, s.head, s.tail)[n - 1], s.head + n - 1;
      && |q.slots| == N && At(q.slots, p) == e
      && AfterTaking(s, n) == q.(slots := q.slots[p % N := ZERO], accepted := q.accepted + [e.Message()])
  {
    var queue := Window(s.slots, s.head, s.tail);
    ClearedBehind(s.slots, s.head, s.head + n - 1, s.head + n - 1);
    assert At(s.slots, s.head + n - 1) == queue[s.head + n - 1 - s.head];
    assert Messages(queue[..n]) == Messages(queue[..n - 1]) + [queue[n - 1].Message()];
    assert s.accepted + Messages(queue[..n]) == s.accepted + Messages(queue[..n - 1]) + [queue[n - 1].Message()];
  }

  lemma {:induction false} TakesMany(plan: Plan, s: Ring, accept: Callback, n: nat) returns (r: Ring)
    requires |s.slots| == N && s.poller == Asleep && s.head + n <= s.tail <= s.head + N
    requires forall i :: 0 <= i < n ==> Taken(Window(s.slots, s.head, s.tail), i, accept)
    ensures |r.slots| == N && Polls(plan, s, r)
    ensures r == AfterTaking(s, n).(poller := Scanning(s.head + n, s.tail))
  {
    var queue := Window(s.slots, s.head, s.tail);
    if n == 0 {
      assert OnlyPolls([]) && s == Run(plan, s, []);
      r := PollsOn(plan, s, s, true);
      assert s.accepted + Messages(queue[..0]) == s.accepted;
    } else {
      r := TakesMany(plan, s, accept, n - 1);
      AfterOneMore(s, n);
      assert Taken(queue, n - 1, accept);
      r := ReadsEntry(plan, s, r);
      r := TakesEntry(plan, s, r);
    }
  }

  /** One call of the drain is an uninterrupted run of the protocol's poller, with the
      entries, the head and the accepted messages of the drain. */
  lemma DrainIsPollerRun(plan: Plan, s: Ring, accept: Callback) returns (r: Ring)
    requires |s.slots| == N && s.poller == Asleep && s.head <= s.tail <= s.head + N
    ensures Polls(plan, s, r)
    ensures var n := Drainable(Window(s.slots, s.head, s.tail), accept);
      s.head + n <= s.tail && r == AfterTaking(s, n).(head := s.head + n)
  {
    var queue := Window(s.slots, s.head, s.tail);
    var n := DrainStops(queue, accept);
    r := TakesMany(plan, s, accept, n);
    if s.head + n == s.tail {
      r := PollsOn(plan, s, r, true);
    } else {
      r := ReadsEntry(plan, s, r);
      r := PollsOn(plan, s, r, false);
    }
  }

  lemma DrainStops(queue: seq<Entry>, accept: Callback) returns (n: nat)
    ensures n == Drainable(queue, accept) <= |queue|
    ensures forall i :: 0 <= i < n ==> Taken(queue, i, accept)
  {
    n := 0;
    while n < |queue| && Taken(queue, n, accept)
      invariant n <= |queue| && forall i :: 0 <= i < n ==> Taken(queue, i, accept)
    {
      n := n + 1;
    }
    DrainableIs(queue, accept, 0, n);
  }
}
