/** The Robin Hood hash index: a fixed table, updated in place by displacement on
    insert and by backward shift on remove. */
module HashIndex {
  import opened Basics
  import opened FullTable
  import opened HashTable
  import opened InsertLoop

  datatype HashIndexError = KeyNotFound(key: KvBlockKey) | CapacityExceeded(capacity: nat)

  datatype Result<T> = Ok(value: T) | Err(error: HashIndexError)

  /** The smallest power of two, from 2^k on, that is at least n. */
  function NextPowerOfTwo(n: nat, k: nat := 0): (r: nat)
    ensures exists j :: j >= k && r == Pow2(j)
    ensures r >= n && (r == Pow2(k) || r < 2 * n)
    decreases n - Pow2(k)
  {
    if n <= Pow2(k) then Pow2(k) else NextPowerOfTwo(n, k + 1)
  }

  /** `capacity as u16`: the bound that the probe loops compare distances with. */
  function ProbeLimit(capacity: nat): (r: u16) {
    capacity % 0x1_0000
  }

  /** The cast keeps a table size up to 32768 and turns every larger one into 0. */
  lemma {:induction false} ProbeLimitOfPow2(k: nat)
    ensures k < 16 ==> ProbeLimit(Pow2(k)) == Pow2(k) <= 0x8000
    ensures k >= 16 ==> ProbeLimit(Pow2(k)) == 0 && Pow2(k) >= 0x1_0000
  {
    if k > 16 {
      ProbeLimitOfPow2(k - 1);
    } else {
      Pow2Values();
      Pow2Monotone(k, 15);
    }
  }

  /** The backward shift has come to slot prev, whose entry was at distance q. */
  ghost predicate Closing(t0: seq<Bucket>, t: seq<Bucket>, hash: Hash, m: map<KvBlockKey, IndexSlotValue>, prev: nat,
                          q: nat)
  {
    && |t| == |t0| > 1 && prev < |t|
    && Gap(t[prev := EMPTY], hash, prev, q) && Represents(t[prev := EMPTY], m)
    && (AllHome(t0) ==> AllHome(t[prev := EMPTY]))
  }

  lemma ClosingStarts(t: seq<Bucket>, hash: Hash, m: map<KvBlockKey, IndexSlotValue>, idx: nat)
    requires Table(t, hash) && Represents(t, m) && idx < |t| && t[idx].occupied
    ensures Closing(t, t, hash, m - {t[idx].key}, idx, t[idx].dist)
  {
    OpenGap(t, hash, idx);
    OpenGapContents(t, m, idx);
  }

  lemma ClosingEnds(t0: seq<Bucket>, t: seq<Bucket>, hash: Hash, m: map<KvBlockKey, IndexSlotValue>, prev: nat, q: nat)
    requires Closing(t0, t, hash, m, prev, q) && Stops(t[Next(prev, |t|)])
    ensures var u := t[prev := EMPTY]; Table(u, hash) && Strict(u) && Represents(u, m) && (AllHome(t0) ==> AllHome(u))
  {
    var u := t[prev := EMPTY];
    CloseGap(u, hash, prev, q);
    EmptyIsStrict(u, hash, prev);
  }

  lemma ClosingOn(t0: seq<Bucket>, t: seq<Bucket>, hash: Hash, m: map<KvBlockKey, IndexSlotValue>, prev: nat, q: nat,
                  t': seq<Bucket>)
    requires Closing(t0, t, hash, m, prev, q) && !Stops(t[Next(prev, |t|)])
    requires |t'| == |t| && t'[Next(prev, |t|) := EMPTY] == Shift(t[prev := EMPTY], prev)
    ensures Closing(t0, t', hash, m, Next(prev, |t|), t[Next(prev, |t|)].dist)
    ensures Total(t'[Next(prev, |t|) := EMPTY]) < Total(t[prev := EMPTY])
  {
    var u := t[prev := EMPTY];
    MoveGap(u, hash, prev, q);
    ShiftContents(u, m, prev);
    ShiftTotal(u, prev);
  }

  lemma RemoveKey<K, V>(m: map<K, V>, k: K)
    requires k in m
    ensures |m - {k}| == |m| - 1
  {
    assert (m - {k}).Keys == m.Keys - {k};
  }

  /** The pairs of the occupied buckets, in slot order. */
  ghost function Pairs(t: seq<Bucket>): seq<(KvBlockKey, IndexSlotValue)> {
    if t == [] then []
    else
      var last := t[|t| - 1];
      Pairs(t[..|t| - 1]) + if last.occupied then [(last.key, last.value)] else []
  }

  /** They list the map the table stands for, each pair once. */
  lemma {:induction false} PairsOfTable(t: seq<Bucket>, m: map<KvBlockKey, IndexSlotValue>,
                                        p: (KvBlockKey, IndexSlotValue))
    requires UniqueKeys(t) && Represents(t, m)
    ensures |Pairs(t)| == |m|
    ensures p in Pairs(t) <==> p.0 in m && m[p.0] == p.1
  {
    if t == [] {
    } else {
      var n := |t| - 1;
      var rest := if t[n].occupied then m - {t[n].key} else m;
      PrefixContents(t, m, rest);
      PairsOfTable(t[..n], rest, p);
      if t[n].occupied {
        RemoveKey(m, t[n].key);
      }
    }
  }

  lemma PrefixContents(t: seq<Bucket>, m: map<KvBlockKey, IndexSlotValue>, m': map<KvBlockKey, IndexSlotValue>)
    requires |t| > 0 && UniqueKeys(t) && Represents(t, m)
    requires m' == if t[|t| - 1].occupied then m - {t[|t| - 1].key} else m
    ensures UniqueKeys(t[..|t| - 1]) && Represents(t[..|t| - 1], m')
  {
    var u := t[..|t| - 1];
    forall k | k in m' ensures Occurs(u, k) {
      assert Occurs(t, k);
      var i :| 0 <= i < |t| && t[i].occupied && t[i].key == k;
      assert u[i] == t[i];
    }
  }

  // ---------- The specification: a plain map that refuses some inserts ----------

  /** When an insert is refused: the load check fails or, in a table too large for
      the distance bound, another key with the same home is stored. */
  ghost predicate Refuses(m: map<KvBlockKey, IndexSlotValue>, hash: Hash, capacity: nat, key: KvBlockKey)
    requires capacity > 0
  {
    4 * |m| > 3 * capacity || Crowded(m, hash, capacity, key)
  }

  ghost predicate Crowded(m: map<KvBlockKey, IndexSlotValue>, hash: Hash, capacity: nat, key: KvBlockKey)
    requires capacity > 0
  {
    capacity >= 0x1_0000 && SharesHome(m, hash, capacity, key)
  }

  ghost predicate SharesHome(m: map<KvBlockKey, IndexSlotValue>, hash: Hash, capacity: nat, key: KvBlockKey)
    requires capacity > 0
  {
    exists k :: k in m && k != key && Home(hash, k, capacity) == Home(hash, key, capacity)
  }

  /** With every entry at home, what the home slot shows is what the map says. */
  lemma HomeTaken(t: seq<Bucket>, hash: Hash, m: map<KvBlockKey, IndexSlotValue>, key: KvBlockKey)
    requires Table(t, hash) && Represents(t, m) && AllHome(t)
    ensures ForeignAtHome(t, hash, key) <==> SharesHome(m, hash, |t|, key)
  {
    var b := t[Home(hash, key, |t|)];
    assert b.occupied ==> Home(hash, b.key, |t|) == Home(hash, key, |t|) && b.key in m;
    if SharesHome(m, hash, |t|, key) {
      var k :| k in m && k != key && Home(hash, k, |t|) == Home(hash, key, |t|);
      assert Occurs(t, k);
    }
  }

  /** A new key in a full table that is not large. */
  ghost predicate Overfull(m: map<KvBlockKey, IndexSlotValue>, capacity: nat, key: KvBlockKey) {
    |m| == capacity < 0x1_0000 && key !in m
  }

  lemma {:induction false} PairsFit(t: seq<Bucket>)
    ensures |Pairs(t)| <= |t| && (|Pairs(t)| == |t| ==> AllTaken(t))
  {
    if t != [] {
      PairsFit(t[..|t| - 1]);
      assert t == t[..|t| - 1] + [t[|t| - 1]];
    }
  }

  /** A table stores at most one key for each slot, and one for each only if all are taken. */
  lemma KeysFit(t: seq<Bucket>, m: map<KvBlockKey, IndexSlotValue>)
    requires UniqueKeys(t) && Represents(t, m)
    ensures |m| <= |t| && (|m| == |t| ==> AllTaken(t))
  {
    PairsOfTable(t, m, (EMPTY.key, EMPTY.value));
    PairsFit(t);
  }

  lemma ModeOf(t: seq<Bucket>, hash: Hash, m: map<KvBlockKey, IndexSlotValue>, key: KvBlockKey) returns (mode: Mode)
    requires Table(t, hash) && Represents(t, m)
    ensures Starts(mode, t, hash, key) && (mode.Over? <==> Overfull(m, |t|, key))
    ensures mode.Still? ==> Occurs(t, key) || |t| >= 0x1_0000
  {
    KeysFit(t, m);
    if |m| < |t| {
      var e := HasEmptySlot(t, m);
      mode := Room(e);
    } else if key in m || |t| >= 0x1_0000 {
      mode := Still;
    } else {
      mode := Over;
    }
  }

  lemma OverContents(m: map<KvBlockKey, IndexSlotValue>, key: KvBlockKey, value: IndexSlotValue, gone: KvBlockKey)
    requires key !in m && gone in m[key := value]
    ensures |m[key := value] - {gone}| == |m|
  {
    assert m[key := value].Keys == m.Keys + {key};
    RemoveKey(m[key := value], gone);
  }

  datatype Op =
    | InsertOp(key: KvBlockKey, value: IndexSlotValue)
    | GetOp(key: KvBlockKey)
    | RemoveOp(key: KvBlockKey)
    | LenOp

  datatype Answer =
    | Inserted(r: Result<()>)
    | Got(value: Result<IndexSlotValue>)
    | Removed(gone: Result<IndexSlotValue>)
    | Length(n: nat)

  ghost function MapStep(m: map<KvBlockKey, IndexSlotValue>, hash: Hash, capacity: nat, op: Op)
      : (map<KvBlockKey, IndexSlotValue>, Answer)
    requires capacity > 0
  {
    match op
    case InsertOp(k, v) =>
      if Refuses(m, hash, capacity, k) then (m, Inserted(Err(CapacityExceeded(capacity))))
      else (m[k := v], Inserted(Ok(())))
    case GetOp(k) => (m, Got(Lookup(m, k)))
    case RemoveOp(k) => (m - {k}, Removed(Lookup(m, k)))
    case LenOp => (m, Length(|m|))
  }

  ghost function Lookup(m: map<KvBlockKey, IndexSlotValue>, k: KvBlockKey): Result<IndexSlotValue> {
    if k in m then Ok(m[k]) else Err(KeyNotFound(k))
  }

  ghost function MapRun(m: map<KvBlockKey, IndexSlotValue>, hash: Hash, capacity: nat, ops: seq<Op>)
      : (map<KvBlockKey, IndexSlotValue>, seq<Answer>)
    requires capacity > 0
  {
    if ops == [] then (m, [])
    else
      var (before, answers) := MapRun(m, hash, capacity, ops[..|ops| - 1]);
      var (after, a) := MapStep(before, hash, capacity, ops[|ops| - 1]);
      (after, answers + [a])
  }

  lemma MapRunNext(m: map<KvBlockKey, IndexSlotValue>, hash: Hash, capacity: nat, ops: seq<Op>, i: nat)
    requires capacity > 0 && i < |ops|
    ensures
      var (before, answers) := MapRun(m, hash, capacity, ops[..i]);
      var (after, a) := MapStep(before, hash, capacity, ops[i]);
      MapRun(m, hash, capacity, ops[..i + 1]) == (after, answers + [a])
  {
    assert ops[..i + 1][..i] == ops[..i];
  }

  /** What a search says about the map. */
  lemma Searched(t: seq<Bucket>, m: map<KvBlockKey, IndexSlotValue>, key: KvBlockKey, found: bool, idx: nat)
    requires Represents(t, m)
    requires if found then idx < |t| && t[idx].occupied && t[idx].key == key else !Occurs(t, key)
    ensures Lookup(m, key) == if found then Ok(t[idx].value) else Err(KeyNotFound(key))
    ensures if found then |m - {key}| == |m| - 1 else m - {key} == m
  {
    if found {
      RemoveKey(m, key);
    }
  }

  /** The locked part of an insert. It fails for a crowded key, with nothing changed, and for
      a new key in a full table that is not large: then one of the capacity + 1 keys is
      dropped, as Spin says. Otherwise it stores the pair. The table stays sound. */
  ghost predicate LockedInsert(t: seq<Bucket>, hash: Hash, m: map<KvBlockKey, IndexSlotValue>, key: KvBlockKey,
                               value: IndexSlotValue, t': seq<Bucket>, m': map<KvBlockKey, IndexSlotValue>,
                               r: Result<()>)
    requires |t| > 0
  {
    && |t'| == |t| && Whole(t', hash, m', |m'|)
    && if Overfull(m, |t|, key) then
         && r == Err(CapacityExceeded(|t|))
         && DropsTo(t, hash, key, value, t', m[key := value])
         && m' == m[key := value] - {Dropped(t, hash, key, value)}
       else
         && (Strict(t) ==> Strict(t'))
         && if Crowded(m, hash, |t|, key) then
              r == Err(CapacityExceeded(|t|)) && t' == t && m' == m
            else
              r == Ok(()) && m' == m[key := value]
  }

  lemma AfterPlace(j: Job, m: map<KvBlockKey, IndexSlotValue>, t: seq<Bucket>, placed: bool, added: bool)
    requires Whole(j.t0, j.hash, m, |m|) && j.n == |m| && j.goal == m[j.key := j.value] && j.Leaves(t, placed, added)
    requires j.limit == 0 <==> |j.t0| >= 0x1_0000
    requires j.mode.Over? <==> Overfull(m, |j.t0|, j.key)
    ensures placed ==> !Crowded(m, j.hash, |t|, j.key) && !j.mode.Over?
    ensures placed ==> Whole(t, j.hash, j.goal, if added then |m| + 1 else |m|) && (Strict(j.t0) ==> Strict(t))
    ensures !placed && !j.mode.Over? ==> Crowded(m, j.hash, |t|, j.key) && t == j.t0
    ensures j.mode.Over? ==> Whole(t, j.hash, j.goal - {Dropped(j.t0, j.hash, j.key, j.value)}, |m|)
  {
    if |t| >= 0x1_0000 {
      HomeTaken(j.t0, j.hash, m, j.key);
    }
    if placed {
      KeysFit(t, j.goal);
    }
    if j.mode.Over? {
      OverContents(m, j.key, j.value, Dropped(j.t0, j.hash, j.key, j.value));
    }
  }

  /** A round past another key leads on in the loop, with a falling rank, or to its end. */
  ghost predicate Onward(j: Job, t: seq<Bucket>, c: Hold, idx: nat, t': seq<Bucket>, c': Hold, idx': nat,
                        m': map<KvBlockKey, IndexSlotValue>)
  {
    if c'.dist > j.limit then j.Leaves(t', false, false)
    else j.Loop(t', c', idx', m') && Falls(j.mode, t, c, idx, t', c', idx')
  }

  lemma Goes(j: Job, t: seq<Bucket>, c: Hold, idx: nat, m: map<KvBlockKey, IndexSlotValue>)
      returns (c': Hold, m': map<KvBlockKey, IndexSlotValue>)
    requires j.Loop(t, c, idx, m) && t[idx].occupied && t[idx].key != c.key
    ensures c.dist < 0xFFFF && c' == PassHold(t, c, idx).(dist := PassHold(t, c, idx).dist + 1)
    ensures Onward(j, t, c, idx, PassTable(t, c, idx), c', Next(idx, |t|), m')
  {
    m' := LoopOn(j, t, c, idx, m);
    c' := PassHold(t, c, idx).(dist := PassHold(t, c, idx).dist + 1);
  }

  lemma InsertStep(m: map<KvBlockKey, IndexSlotValue>, hash: Hash, capacity: nat, key: KvBlockKey,
                   value: IndexSlotValue, m': map<KvBlockKey, IndexSlotValue>, r: Result<()>)
    requires capacity > 0 && m' == if r.Ok? then m[key := value] else m
    requires r == if Refuses(m, hash, capacity, key) then Err(CapacityExceeded(capacity)) else Ok(())
    ensures (m', Inserted(r)) == MapStep(m, hash, capacity, InsertOp(key, value))
  {
  }

  lemma RemoveStep(m: map<KvBlockKey, IndexSlotValue>, hash: Hash, capacity: nat, key: KvBlockKey,
                   m': map<KvBlockKey, IndexSlotValue>, r: Result<IndexSlotValue>)
    requires capacity > 0 && m' == m - {key} && r == Lookup(m, key)
    ensures (m', Removed(r)) == MapStep(m, hash, capacity, RemoveOp(key))
  {
  }

  class ConcurrentHashIndex {
    const hash: Hash
    const capacity: nat
    const buckets: array<Bucket>
    var count: nat
    ghost var contents: map<KvBlockKey, IndexSlotValue>

    ghost predicate Valid()
      reads this, buckets
    {
      buckets.Length == capacity && Whole(buckets[..], hash, contents, count)
    }

    constructor (hash: Hash, requested: nat)
      ensures Valid() && fresh(buckets) && Strict(buckets[..])
      ensures this.hash == hash && contents == map[] && count == 0
      ensures capacity >= 16 && capacity >= requested && (requested >= 16 ==> capacity < 2 * requested)
    {
      this.hash := hash;
      var cap := NextPowerOfTwo(requested);
      if cap < 16 {
        cap := 16;
        assert Pow2(4) == 16;
      }
      capacity := cap;
      buckets := new Bucket[cap](_ => EMPTY);
      count := 0;
      contents := map[];
      new;
      assert forall i :: 0 <= i < capacity ==> OrderedAt(buckets[..], i);
    }

    method CheckCapacity() returns (r: Result<()>)
      requires Valid()
      ensures r == if 4 * |contents| > 3 * capacity then Err(CapacityExceeded(capacity)) else Ok(())
    {
      r := if 4 * count > 3 * capacity then Err(CapacityExceeded(capacity)) else Ok(());
    }

    method Insert(key: KvBlockKey, value: IndexSlotValue) returns (r: Result<()>)
      requires Valid()
      modifies this`count, this`contents, buckets
      ensures Valid()
      ensures r == if Refuses(old(contents), hash, capacity, key) then Err(CapacityExceeded(capacity)) else Ok(())
      ensures capacity < 0x1_0000 ==> (r.Err? <==> 4 * |old(contents)| > 3 * capacity)
      ensures r.Err? ==> buckets[..] == old(buckets[..]) && contents == old(contents) && count == old(count)
      ensures r.Ok? ==> contents == old(contents)[key := value]
      ensures Strict(old(buckets[..])) ==> Strict(buckets[..])
    {
      r := CheckCapacity();
      if r.Ok? {
        r := InsertLocked(key, value);
      }
    }

    /** The part of an insert that runs under the table lock, after the load check. */
    method InsertLocked(key: KvBlockKey, value: IndexSlotValue) returns (r: Result<()>)
      requires Valid()
      modifies this`count, this`contents, buckets
      ensures Valid() && LockedInsert(old(buckets[..]), hash, old(contents), key, value, buckets[..], contents, r)
    {
      ghost var t0, m, goal := buckets[..], contents, contents[key := value];
      ghost var mode := ModeOf(t0, hash, m, key);
      ghost var k :| capacity == Pow2(k);
      ProbeLimitOfPow2(k);
      ghost var j := Job(mode, ProbeLimit(capacity), t0, hash, key, value, |m|, goal);
      var placed, added := Place(key, value, ProbeLimit(capacity), j, m);
      AfterPlace(j, m, buckets[..], placed, added);
      if !placed {
        contents := if mode.Over? then goal - {Dropped(t0, hash, key, value)} else m;
        return Err(CapacityExceeded(capacity));
      }
      contents := goal;
      if added {
        count := count + 1;
      }
      return Ok(());
    }

    /** One round of the insert loop past an occupied slot. */
    method PassSlot(idx: nat, key: KvBlockKey, value: IndexSlotValue, dist: u16)
        returns (idx': nat, key': KvBlockKey, value': IndexSlotValue, dist': u16)
      requires idx < buckets.Length == capacity && dist < 0xFFFF
      modifies buckets
      ensures buckets[..] == PassTable(old(buckets[..]), Hold(key, value, dist), idx)
      ensures idx' == Next(idx, capacity)
      ensures var c := PassHold(old(buckets[..]), Hold(key, value, dist), idx);
        (key', value', dist') == (c.key, c.value, c.dist + 1)
    {
      key', value', dist' := key, value, dist;
      if buckets[idx].dist < dist {
        key', value', dist' := buckets[idx].key, buckets[idx].value, buckets[idx].dist;
        buckets[idx] := Bucket(key, value, true, dist);
      }
      assert buckets[..] == PassTable(old(buckets[..]), Hold(key, value, dist), idx);
      idx', dist' := Next(idx, capacity), dist' + 1;
    }

    /** The ends of the loop: at an empty slot, and at the key's own slot. */
    method Fill(idx: nat, key: KvBlockKey, value: IndexSlotValue, dist: u16, ghost j: Job,
                ghost m: map<KvBlockKey, IndexSlotValue>)
      requires j.Loop(buckets[..], Hold(key, value, dist), idx, m) && !buckets[idx].occupied
      modifies buckets
      ensures j.Leaves(buckets[..], true, true)
    {
      LoopEmpty(j, buckets[..], Hold(key, value, dist), idx, m);
      buckets[idx] := Bucket(key, value, true, dist);
      assert buckets[..] == old(buckets[..])[idx := Bucket(key, value, true, dist)];
    }

    method Update(idx: nat, value: IndexSlotValue, ghost c: Hold, ghost j: Job,
                  ghost m: map<KvBlockKey, IndexSlotValue>)
      requires j.Loop(buckets[..], c, idx, m) && c.value == value
      requires buckets[idx].occupied && buckets[idx].key == c.key
      modifies buckets
      ensures j.Leaves(buckets[..], true, false)
    {
      LoopKnown(j, buckets[..], c, idx, m);
      buckets[idx] := buckets[idx].(value := value);
      assert buckets[..] == old(buckets[..])[idx := old(buckets[idx]).(value := value)];
    }

    /** A round past another key: on to the next slot, unless that passes the bound. */
    method PassOn(idx: nat, key: KvBlockKey, value: IndexSlotValue, dist: u16, limit: u16, ghost j: Job,
                  ghost m: map<KvBlockKey, IndexSlotValue>)
        returns (idx': nat, key': KvBlockKey, value': IndexSlotValue, dist': u16,
                 ghost m': map<KvBlockKey, IndexSlotValue>)
      requires buckets.Length == capacity && j.limit == limit && j.Loop(buckets[..], Hold(key, value, dist), idx, m)
      requires buckets[idx].occupied && buckets[idx].key != key
      modifies buckets
      ensures Onward(j, old(buckets[..]), Hold(key, value, dist), idx, buckets[..], Hold(key', value', dist'), idx', m')
    {
      ghost var c';
      c', m' := Goes(j, buckets[..], Hold(key, value, dist), idx, m);
      idx', key', value', dist' := PassSlot(idx, key, value, dist);
      assert Hold(key', value', dist') == c';
    }

    /** The probe loop of an insert, run in place. */
    method Place(key: KvBlockKey, value: IndexSlotValue, limit: u16, ghost j: Job,
                 ghost m0: map<KvBlockKey, IndexSlotValue>) returns (placed: bool, added: bool)
      requires buckets.Length == capacity && j.key == key && j.value == value && j.limit == limit
      requires j.t0 == buckets[..] && j.hash == hash && j.Posed() && Lacks(j.t0, m0, j.n, key, value, j.goal)
      modifies buckets
      ensures j.Leaves(buckets[..], placed, added)
    {
      var currKey, currVal, currDist: u16 := key, value, 0;
      var idx := Home(hash, key, capacity);
      ghost var m := m0;
      LoopStarts(j, m);
      while true
        invariant j.Loop(buckets[..], Hold(currKey, currVal, currDist), idx, m)
        decreases FirstRank(j.mode, buckets[..]), SecondRank(j.mode, buckets[..], Hold(currKey, currVal, currDist), idx)
      {
        if !buckets[idx].occupied {
          Fill(idx, currKey, currVal, currDist, j, m);
          return true, true;
        }
        if buckets[idx].key == currKey {
          Update(idx, currVal, Hold(currKey, currVal, currDist), j, m);
          return true, false;
        }
        idx, currKey, currVal, currDist, m := PassOn(idx, currKey, currVal, currDist, limit, j, m);
        if currDist > limit {
          return false, false;
        }
      }
    }

    method Get(key: KvBlockKey) returns (r: Result<IndexSlotValue>)
      requires Valid()
      ensures r == Lookup(contents, key)
    {
      ghost var k :| capacity == Pow2(k);
      ProbeLimitOfPow2(k);
      var idx := Home(hash, key, capacity);
      var dist: u16 := 0;
      while true
        invariant Seeking(buckets[..], hash, key, dist, idx)
        decreases capacity + 1 - dist
      {
        if !buckets[idx].occupied || dist > buckets[idx].dist {
          SeekFails(buckets[..], hash, key, dist, idx);
          return Err(KeyNotFound(key));
        }
        if buckets[idx].key == key {
          return Ok(buckets[idx].value);
        }
        SeekOn(buckets[..], hash, key, dist, idx);
        idx := Next(idx, capacity);
        dist := dist + 1;
        if dist > ProbeLimit(capacity) {
          assert key in contents ==> Occurs(buckets[..], key);
          return Err(KeyNotFound(key));
        }
      }
    }

    method Remove(key: KvBlockKey) returns (r: Result<IndexSlotValue>)
      requires Valid()
      modifies this`count, this`contents, buckets
      ensures Valid()
      ensures contents == old(contents) - {key}
      ensures r == Lookup(old(contents), key)
      ensures r.Err? ==> buckets[..] == old(buckets[..])
      ensures Strict(old(buckets[..])) ==> Strict(buckets[..])
    {
      ghost var k :| capacity == Pow2(k);
      ProbeLimitOfPow2(k);
      var found, idx := Search(key);
      Searched(buckets[..], contents, key, found, idx);
      if !found {
        return Err(KeyNotFound(key));
      }
      r := Ok(buckets[idx].value);
      TakeOut(idx, key);
    }

    method TakeOut(idx: nat, ghost key: KvBlockKey)
      requires Valid() && idx < capacity && buckets[idx].occupied && buckets[idx].key == key
      modifies this`count, this`contents, buckets
      ensures Valid() && Strict(buckets[..]) && contents == old(contents) - {key}
    {
      Searched(buckets[..], contents, key, true, idx);
      CloseUp(idx, key);
      contents := contents - {key};
      count := count - 1;
    }

    /** The probe loop of a remove. It has no distance bound of its own; the distances in
        the table end it. */
    method Search(key: KvBlockKey) returns (found: bool, idx: nat)
      requires buckets.Length == capacity && Table(buckets[..], hash)
      requires capacity < 0xFFFF || AllHome(buckets[..])
      ensures found ==> idx < capacity && buckets[idx].occupied && buckets[idx].key == key
      ensures !found ==> !Occurs(buckets[..], key)
    {
      idx := Home(hash, key, capacity);
      var dist: u16 := 0;
      while true
        invariant Seeking(buckets[..], hash, key, dist, idx)
        decreases capacity + 1 - dist
      {
        if !buckets[idx].occupied || dist > buckets[idx].dist {
          SeekFails(buckets[..], hash, key, dist, idx);
          return false, idx;
        }
        if buckets[idx].key == key {
          return true, idx;
        }
        SeekOn(buckets[..], hash, key, dist, idx);
        idx := Next(idx, capacity);
        dist := dist + 1;
      }
    }

    /** Backward-shift deletion of the entry at a slot: the entries behind it move
        one slot back until one is at home or an empty slot follows. In a full table they may
        go around more than once. */
    method CloseUp(idx: nat, ghost key: KvBlockKey)
      requires Table(buckets[..], hash) && Represents(buckets[..], contents)
      requires buckets.Length == capacity && idx < capacity && buckets[idx].occupied && buckets[idx].key == key
      modifies buckets
      ensures Table(buckets[..], hash) && Strict(buckets[..]) && Represents(buckets[..], contents - {key})
      ensures old(AllHome(buckets[..])) ==> AllHome(buckets[..])
    {
      ghost var t0, m, q := buckets[..], contents - {key}, buckets[idx].dist;
      ClosingStarts(t0, hash, contents, idx);
      var prev := idx;
      var curr := Next(idx, capacity);
      while true
        invariant prev < capacity && curr == Next(prev, capacity)
        invariant Closing(t0, buckets[..], hash, m, prev, q)
        decreases Total(buckets[..][prev := EMPTY])
      {
        ghost var t := buckets[..];
        if !buckets[curr].occupied || buckets[curr].dist == 0 {
          ClosingEnds(t0, t, hash, m, prev, q);
          buckets[prev] := EMPTY;
          assert buckets[..] == t[prev := EMPTY];
          break;
        }
        MoveBack(prev, curr);
        ClosingOn(t0, t, hash, m, prev, q, buckets[..]);
        q := t[curr].dist;
        prev := curr;
        curr := Next(curr, capacity);
      }
    }

    /** One shift: the bucket at curr, one step closer to home, is copied to prev. */
    method MoveBack(prev: nat, curr: nat)
      requires buckets.Length > 1 && prev < buckets.Length && curr == Next(prev, buckets.Length)
      requires buckets[curr].dist > 0
      modifies buckets
      ensures buckets[..][curr := EMPTY] == Shift(old(buckets[..])[prev := EMPTY], prev)
      ensures forall i :: 0 <= i < buckets.Length && i != prev && i != curr ==> buckets[i] == old(buckets[i])
    {
      buckets[curr] := buckets[curr].(dist := buckets[curr].dist - 1);
      buckets[prev] := buckets[curr];
      assert buckets[..][curr := EMPTY] == Shift(old(buckets[..])[prev := EMPTY], prev);
    }

    /** Every stored pair, once each. */
    method Iter() returns (pairs: seq<(KvBlockKey, IndexSlotValue)>)
      requires Valid()
      ensures |pairs| == count
      ensures forall p :: p in pairs <==> p.0 in contents && contents[p.0] == p.1
    {
      pairs := [];
      for i := 0 to capacity
        invariant pairs == Pairs(buckets[..i])
      {
        assert buckets[..i + 1] == buckets[..i] + [buckets[i]];
        if buckets[i].occupied {
          pairs := pairs + [(buckets[i].key, buckets[i].value)];
        }
      }
      assert buckets[..capacity] == buckets[..];
      forall p ensures p in pairs <==> p.0 in contents && contents[p.0] == p.1 {
        PairsOfTable(buckets[..], contents, p);
      }
      PairsOfTable(buckets[..], contents, (EMPTY.key, EMPTY.value));
    }

    /** One call of a run, answered as the plain map answers it. */
    method Apply(op: Op) returns (a: Answer)
      requires Valid()
      modifies this`count, this`contents, buckets
      ensures Valid()
      ensures (contents, a) == MapStep(old(contents), hash, capacity, op)
      ensures Strict(old(buckets[..])) ==> Strict(buckets[..])
    {
      ghost var m := contents;
      match op {
        case InsertOp(k, v) =>
          var r := Insert(k, v);
          a := Inserted(r);
          InsertStep(m, hash, capacity, k, v, contents, r);
        case GetOp(k) => var r := Get(k); a := Got(r);
        case RemoveOp(k) =>
          var r := Remove(k);
          a := Removed(r);
          RemoveStep(m, hash, capacity, k, contents, r);
        case LenOp => a := Length(count);
      }
    }

    /** A whole run of calls answers as the plain map does. */
    method Run(ops: seq<Op>) returns (answers: seq<Answer>)
      requires Valid()
      modifies this`count, this`contents, buckets
      ensures Valid()
      ensures (contents, answers) == MapRun(old(contents), hash, capacity, ops)
    {
      answers := [];
      for i := 0 to |ops|
        invariant Valid()
        invariant (contents, answers) == MapRun(old(contents), hash, capacity, ops[..i])
      {
        var a := Apply(ops[i]);
        answers := answers + [a];
        MapRunNext(old(contents), hash, capacity, ops, i);
      }
      assert ops[..|ops|] == ops;
    }
  }
}
