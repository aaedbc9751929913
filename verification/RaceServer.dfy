/** The hash index serving the schedules of concurrent callers, on the table itself. */
module RaceServer {
  import opened HashIndex
  import opened HashTable
  import opened InsertLoop
  import opened LoadRace

  lemma DropServed(t: seq<Bucket>, hash: Hash, s: Race, c: Call, s': Race)
    requires |t| > 0 && Overflows(s, |t|, c) && Whole(t, hash, s.m, |s.m|) && (s.clean ==> Strict(t))
    requires var gone := Dropped(t, hash, c.key, c.value);
      gone in s.m[c.key := c.value] && s' == Race(s.m[c.key := c.value] - {gone}, s.passed - {c.t}, false)
    ensures s.Serves(hash, |t|, c, s', Done(Inserted(Err(CapacityExceeded(|t|)))))
  {
    var gone := Dropped(t, hash, c.key, c.value);
    if LosesStored(s, hash, |t|, c) {
      assert gone in s.m && gone !in s'.m;
    }
  }

  lemma CommitServed(t: seq<Bucket>, hash: Hash, s: Race, c: Call, t': seq<Bucket>,
                     m': map<KvBlockKey, IndexSlotValue>, r: Result<()>) returns (s': Race)
    requires c.Commit? && c.t in s.passed && Whole(t, hash, s.m, |s.m|) && (s.clean ==> Strict(t))
    requires LockedInsert(t, hash, s.m, c.key, c.value, t', m', r)
    ensures s'.m == m' && s'.passed == s.passed - {c.t} && (s'.clean ==> Strict(t'))
    ensures s.Serves(hash, |t|, c, s', Done(Inserted(r)))
  {
    if Overflows(s, |t|, c) {
      s' := Race(m', s.passed - {c.t}, false);
      DropServed(t, hash, s, c, s');
    } else {
      s' := Race(m', s.passed - {c.t}, s.clean);
    }
  }

  /** One step of a schedule on the table itself. */
  method Serve(index: ConcurrentHashIndex, c: Call, passed: set<nat>, ghost clean: bool)
      returns (passed': set<nat>, reply: Reply, ghost s': Race)
    requires index.Valid() && (clean ==> Strict(index.buckets[..]))
    modifies index`count, index`contents, index.buckets
    ensures index.Valid() && s'.m == index.contents && s'.passed == passed' && (s'.clean ==> Strict(index.buckets[..]))
    ensures Race(old(index.contents), passed, clean).Serves(index.hash, index.capacity, c, s', reply)
  {
    passed', reply := passed, Ignored;
    ghost var s, t := Race(index.contents, passed, clean), index.buckets[..];
    s' := s;
    match c {
      case Check(caller) =>
        var r := index.CheckCapacity();
        if r.Ok? {
          passed' := passed + {caller};
        }
        reply, s' := Admitted(r.Ok?), s.(passed := passed');
      case Commit(caller, k, v) =>
        if caller in passed {
          var r := index.InsertLocked(k, v);
          passed', reply := passed - {caller}, Done(Inserted(r));
          s' := CommitServed(t, index.hash, s, c, index.buckets[..], index.contents, r);
        }
      case Atomic(op) =>
        var a := index.Apply(op);
        reply, s' := Done(a), s.(m := index.contents);
    }
  }

  lemma OneMore<T>(s: seq<T>, i: nat)
    requires i < |s|
    ensures s[..i + 1] == s[..i] + [s[i]]
  {
  }

  /** Every schedule keeps the table sound, stores what the schedule says and answers
      accordingly. */
  method ServeAll(index: ConcurrentHashIndex, calls: seq<Call>)
      returns (passed: set<nat>, replies: seq<Reply>, ghost tr: Trace)
    requires index.Valid()
    modifies index`count, index`contents, index.buckets
    ensures index.Valid() && tr.calls == calls && tr.Answered(replies, index.hash, index.capacity)
    ensures tr.states[0] == Race(old(index.contents), {}, Strict(old(index.buckets[..])))
    ensures var s := tr.Last();
      s.m == index.contents && s.passed == passed && (s.clean ==> Strict(index.buckets[..]))
  {
    passed, replies := {}, [];
    ghost var s := Race(index.contents, {}, Strict(index.buckets[..]));
    ghost var start := s;
    tr := Trace([], [s]);
    for i := 0 to |calls|
      invariant index.Valid() && s.m == index.contents && s.passed == passed
      invariant s.clean ==> Strict(index.buckets[..])
      invariant tr.calls == calls[..i] && tr.Answered(replies, index.hash, index.capacity)
      invariant tr.states[0] == start && tr.Last() == s
    {
      var reply;
      ghost var s';
      passed, reply, s' := Serve(index, calls[i], passed, s.clean);
      AnsweredNext(tr, replies, index.hash, index.capacity, calls[i], s', reply);
      OneMore(calls, i);
      tr, replies, s := tr.Then(calls[i], s'), replies + [reply], s';
    }
  }
}
