/** What the answers of the hash index mean over whole runs, in terms of the calls alone. */
module IndexRuns {
  import opened Basics
  import opened HashTable
  import opened HashIndex
  import opened LoadRace

  // ---------- Runs of calls, one at a time ----------

  ghost function Stored(hash: Hash, capacity: nat, ops: seq<Op>): map<KvBlockKey, IndexSlotValue>
    requires capacity > 0
  {
    MapRun(map[], hash, capacity, ops).0
  }

  ghost function Answers(hash: Hash, capacity: nat, ops: seq<Op>): seq<Answer>
    requires capacity > 0
  {
    MapRun(map[], hash, capacity, ops).1
  }

  lemma OneMore(hash: Hash, capacity: nat, ops: seq<Op>)
    requires capacity > 0 && ops != []
    ensures var n := |ops| - 1;
      var step := MapStep(Stored(hash, capacity, ops[..n]), hash, capacity, ops[n]);
      && Stored(hash, capacity, ops) == step.0
      && Answers(hash, capacity, ops) == Answers(hash, capacity, ops[..n]) + [step.1]
  {
  }

  lemma {:induction false} AnswersLength(hash: Hash, capacity: nat, ops: seq<Op>)
    requires capacity > 0
    ensures |Answers(hash, capacity, ops)| == |ops|
  {
    if ops != [] {
      OneMore(hash, capacity, ops);
      AnswersLength(hash, capacity, ops[..|ops| - 1]);
    }
  }

  /** The value last stored for a key: by the last insert of it that was answered Ok, if no
      removal of it came after. */
  ghost function LastStored(ops: seq<Op>, answers: seq<Answer>, k: KvBlockKey): Option<IndexSlotValue>
    requires |ops| == |answers|
  {
    if ops == [] then None
    else
      var n := |ops| - 1;
      match ops[n]
      case InsertOp(k', v) =>
        if k' == k && answers[n] == Inserted(Ok(())) then Some(v) else LastStored(ops[..n], answers[..n], k)
      case RemoveOp(k') => if k' == k then None else LastStored(ops[..n], answers[..n], k)
      case _ => LastStored(ops[..n], answers[..n], k)
  }

  /** The keys stored after a run, and their values, are the last stored ones. */
  lemma {:induction false} StoredIsLast(hash: Hash, capacity: nat, ops: seq<Op>, k: KvBlockKey)
    requires capacity > 0
    ensures |Answers(hash, capacity, ops)| == |ops|
    ensures var m := Stored(hash, capacity, ops);
      LastStored(ops, Answers(hash, capacity, ops), k) == if k in m then Some(m[k]) else None
  {
    if ops != [] {
      var n := |ops| - 1;
      StoredIsLast(hash, capacity, ops[..n], k);
      var answers := Answers(hash, capacity, ops);
      assert answers[..n] == Answers(hash, capacity, ops[..n]);
    }
  }

  lemma {:induction false} AnswersAt(hash: Hash, capacity: nat, ops: seq<Op>, i: nat)
    requires capacity > 0 && i < |ops|
    ensures |Answers(hash, capacity, ops)| == |ops|
    ensures Answers(hash, capacity, ops)[i] == MapStep(Stored(hash, capacity, ops[..i]), hash, capacity, ops[i]).1
  {
    var n := |ops| - 1;
    OneMore(hash, capacity, ops);
    AnswersLength(hash, capacity, ops[..n]);
    if i < n {
      AnswersAt(hash, capacity, ops[..n], i);
      assert ops[..n][..i] == ops[..i];
    }
  }

  /** No run of calls fills the table beyond three quarters and one key. */
  lemma {:induction false} LoadBound(hash: Hash, capacity: nat, ops: seq<Op>)
    requires capacity > 0
    ensures 4 * |Stored(hash, capacity, ops)| <= 3 * capacity + 4
  {
    if ops != [] {
      var before, op := ops[..|ops| - 1], ops[|ops| - 1];
      LoadBound(hash, capacity, before);
      var m := Stored(hash, capacity, before);
      if op.InsertOp? {
        AddedKey(m, op.key, op.value);
      } else {
        KeyGone(m, hash, capacity, op);
      }
    }
  }

  /** What every call of a run is answered. An insert fails if and only if more than three
      quarters of the slots are taken or, in a table of 65536 slots or more, another stored key
      has the same home; lookups and removals answer with the last stored value. */
  lemma AnsweredByHistory(hash: Hash, capacity: nat, ops: seq<Op>, i: nat)
    requires capacity > 0 && i < |ops|
    ensures |Answers(hash, capacity, ops)| == |ops| && |Answers(hash, capacity, ops[..i])| == i
    ensures var m, a := Stored(hash, capacity, ops[..i]), Answers(hash, capacity, ops)[i];
      match ops[i]
      case InsertOp(k, _) =>
        var full := 4 * |m| > 3 * capacity;
        var taken := capacity >= 0x1_0000
          && exists k' :: k' in m && k' != k && hash(k') % capacity == hash(k) % capacity;
        a == Inserted(if full || taken then Err(CapacityExceeded(capacity)) else Ok(()))
      case GetOp(k) =>
        var last := LastStored(ops[..i], Answers(hash, capacity, ops[..i]), k);
        a == Got(if last.Some? then Ok(last.value) else Err(KeyNotFound(k)))
      case RemoveOp(k) =>
        var last := LastStored(ops[..i], Answers(hash, capacity, ops[..i]), k);
        a == Removed(if last.Some? then Ok(last.value) else Err(KeyNotFound(k)))
      case LenOp => a == Length(|m|)
  {
    AnswersAt(hash, capacity, ops, i);
    match ops[i] {
      case InsertOp(k, _) =>
        SameHomes(Stored(hash, capacity, ops[..i]), hash, capacity, k);
        StoredIsLast(hash, capacity, ops[..i], k);
      case GetOp(k) => StoredIsLast(hash, capacity, ops[..i], k);
      case RemoveOp(k) => StoredIsLast(hash, capacity, ops[..i], k);
      case LenOp => StoredIsLast(hash, capacity, ops[..i], EMPTY.key);
    }
  }

  lemma SameHomes(m: map<KvBlockKey, IndexSlotValue>, hash: Hash, capacity: nat, k: KvBlockKey)
    requires capacity > 0
    ensures SharesHome(m, hash, capacity, k)
      <==> exists k' :: k' in m && k' != k && hash(k') % capacity == hash(k) % capacity
  {
  }

  // ---------- A whole insert is a check and a commit ----------

  /** One caller alone: its check fails exactly when the insert fails on the load, and
      otherwise its commit leaves the map and the answer of the insert. */
  lemma InsertIsCheckThenCommit(s: Race, hash: Hash, capacity: nat, t: nat, k: KvBlockKey, v: IndexSlotValue, s': Race,
                                s'': Race)
    requires capacity > 0 && RaceStep(s, hash, capacity, Check(t), s')
    requires RaceStep(s', hash, capacity, Commit(t, k, v), s'') && t !in s.passed
    ensures var (m, a) := MapStep(s.m, hash, capacity, InsertOp(k, v));
      && m == s''.m && s''.passed == s.passed
      && (ReplyTo(s, hash, capacity, Check(t)) == Admitted(false) ==> a == Inserted(Err(CapacityExceeded(capacity))))
      && (ReplyTo(s, hash, capacity, Check(t)) == Admitted(true) ==>
            ReplyTo(s', hash, capacity, Commit(t, k, v)) == Done(a))
      && ReplyTo(s, hash, capacity, Check(t)).Admitted?
  {
  }
}
