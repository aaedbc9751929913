/** The loop of an insert, at the level of values: what it carries, what a round keeps and
    how it ends, in a table with an empty slot as well as in a full one. */
module InsertLoop {
  import opened Basics
  import opened FullTable
  import opened HashTable

  ghost predicate AllHome(t: seq<Bucket>) {
    forall i :: 0 <= i < |t| && t[i].occupied ==> t[i].dist == 0
  }

  /** A sound table that stores a map of a given size. */
  ghost predicate Whole(t: seq<Bucket>, hash: Hash, m: map<KvBlockKey, IndexSlotValue>, count: nat) {
    && |t| >= 16 && IsPow2(|t|)
    && Table(t, hash) && Represents(t, m)
    && count == |m| <= |t|
    && (|t| >= 0x1_0000 ==> AllHome(t))
  }

  /** The table stands for a map of n keys that lacks just one pair. */
  ghost predicate Lacks(t: seq<Bucket>, m: map<KvBlockKey, IndexSlotValue>, n: nat, key: KvBlockKey,
                        value: IndexSlotValue, goal: map<KvBlockKey, IndexSlotValue>)
  {
    Represents(t, m) && |m| == n && m[key := value] == goal
  }

  ghost predicate ForeignAtHome(t: seq<Bucket>, hash: Hash, key: KvBlockKey)
    requires |t| > 0
  {
    var b := t[Home(hash, key, |t|)];
    b.occupied && b.key != key
  }

  /** How an insert goes: there is an empty slot; or the table is not rearranged, because it
      stores the key or the loop stops at once; or every slot is taken by other keys. */
  datatype Mode = Room(e: nat) | Still | Over

  ghost predicate Carrying(mode: Mode, t: seq<Bucket>, hash: Hash, c: Hold, idx: nat) {
    match mode
    case Room(e) => Probing(t, hash, e, c.key, c.dist, idx)
    case Still => Seeking(t, hash, c.key, c.dist, idx) && (Occurs(t, c.key) || (AllTaken(t) && c.dist == 0))
    case Over => Spinning(t, hash, c, idx)
  }

  /** The exchange leaves the map to be completed as it was. */
  lemma PassContents(t: seq<Bucket>, c: Hold, idx: nat, m: map<KvBlockKey, IndexSlotValue>, n: nat,
                     goal: map<KvBlockKey, IndexSlotValue>) returns (m': map<KvBlockKey, IndexSlotValue>)
    requires UniqueKeys(t) && idx < |t| && t[idx].occupied && Lacks(t, m, n, c.key, c.value, goal)
    requires t[idx].dist < c.dist ==> !Occurs(t, c.key)
    ensures var c' := PassHold(t, c, idx); Lacks(PassTable(t, c, idx), m', n, c'.key, c'.value, goal)
  {
    m' := m;
    if t[idx].dist < c.dist {
      m' := DisplaceContents(t, m, Bucket(c.key, c.value, true, c.dist), idx);
    }
  }

  lemma PassRoom(t: seq<Bucket>, hash: Hash, e: nat, c: Hold, idx: nat)
    requires Probing(t, hash, e, c.key, c.dist, idx) && t[idx].occupied && t[idx].key != c.key
    ensures t[idx].dist < c.dist ==> !Occurs(t, c.key)
    ensures var c' := PassHold(t, c, idx);
      c'.dist + 1 < |t| && Probing(PassTable(t, c, idx), hash, e, c'.key, c'.dist + 1, Next(idx, |t|))
    ensures Cyc(Next(idx, |t|), e, |t|) < Cyc(idx, e, |t|)
  {
    var t', c' := PassTable(t, c, idx), PassHold(t, c, idx);
    if t[idx].dist < c.dist {
      Displace(t, hash, e, Bucket(c.key, c.value, true, c.dist), idx);
    }
    ProbeOn(t', hash, e, c'.key, c'.dist, idx);
  }

  lemma PassStill(t: seq<Bucket>, hash: Hash, c: Hold, idx: nat)
    requires Carrying(Still, t, hash, c, idx) && t[idx].occupied && t[idx].key != c.key
    ensures t[idx].dist >= c.dist && c.dist < |t| && Seeking(t, hash, c.key, c.dist + 1, Next(idx, |t|))
  {
    if t[idx].dist < c.dist {
      SeekFails(t, hash, c.key, c.dist, idx);
    }
    SeekOn(t, hash, c.key, c.dist, idx);
  }

  /** The first rank falls when a full table is rearranged, the second in all other rounds. */
  ghost function FirstRank(mode: Mode, t: seq<Bucket>): nat {
    if mode.Over? then Slack(t, |t|) else 0
  }

  ghost function SecondRank(mode: Mode, t: seq<Bucket>, c: Hold, idx: nat): int {
    match mode
    case Room(e) => if idx < |t| && e < |t| then Cyc(idx, e, |t|) else 0
    case Still => |t| - c.dist
    case Over => |t| - c.dist
  }

  ghost predicate Falls(mode: Mode, t: seq<Bucket>, c: Hold, idx: nat, t': seq<Bucket>, c': Hold, idx': nat) {
    || FirstRank(mode, t') < FirstRank(mode, t)
    || (FirstRank(mode, t') == FirstRank(mode, t)
        && 0 <= SecondRank(mode, t', c', idx') < SecondRank(mode, t, c, idx))
  }

  /** One round of the loop, in every mode. It may be the last one. */
  ghost predicate Passes(mode: Mode, t: seq<Bucket>, hash: Hash, c: Hold, idx: nat, m': map<KvBlockKey, IndexSlotValue>,
                         n: nat, goal: map<KvBlockKey, IndexSlotValue>)
    requires idx < |t|
  {
    var t', c' := PassTable(t, c, idx), PassHold(t, c, idx);
    && Lacks(t', m', n, c'.key, c'.value, goal) && c'.dist <= |t|
    && (mode.Still? ==> t' == t && c' == c)
    && (!mode.Over? ==> c'.dist < |t|)
    && (c'.dist + 1 <= |t| < 0x1_0000 && (mode.Still? ==> Occurs(t, c.key)) ==>
          var on := c'.(dist := c'.dist + 1);
          Carrying(mode, t', hash, on, Next(idx, |t|)) && Falls(mode, t, c, idx, t', on, Next(idx, |t|)))
  }

  lemma PassInRoom(t: seq<Bucket>, hash: Hash, e: nat, c: Hold, idx: nat, m: map<KvBlockKey, IndexSlotValue>, n: nat,
                   goal: map<KvBlockKey, IndexSlotValue>) returns (m': map<KvBlockKey, IndexSlotValue>)
    requires idx < |t| && Carrying(Room(e), t, hash, c, idx) && Lacks(t, m, n, c.key, c.value, goal)
    requires t[idx].occupied && t[idx].key != c.key
    ensures Passes(Room(e), t, hash, c, idx, m', n, goal)
  {
    PassRoom(t, hash, e, c, idx);
    m' := PassContents(t, c, idx, m, n, goal);
  }

  lemma PassInStill(t: seq<Bucket>, hash: Hash, c: Hold, idx: nat, m: map<KvBlockKey, IndexSlotValue>, n: nat,
                    goal: map<KvBlockKey, IndexSlotValue>)
    requires idx < |t| && Carrying(Still, t, hash, c, idx) && Lacks(t, m, n, c.key, c.value, goal)
    requires t[idx].occupied && t[idx].key != c.key
    ensures Passes(Still, t, hash, c, idx, m, n, goal)
  {
    PassStill(t, hash, c, idx);
  }

  lemma PassInOver(t: seq<Bucket>, hash: Hash, c: Hold, idx: nat, m: map<KvBlockKey, IndexSlotValue>, n: nat,
                   goal: map<KvBlockKey, IndexSlotValue>) returns (m': map<KvBlockKey, IndexSlotValue>)
    requires idx < |t| && Carrying(Over, t, hash, c, idx) && Lacks(t, m, n, c.key, c.value, goal)
    ensures Passes(Over, t, hash, c, idx, m', n, goal)
  {
    SpinPass(t, hash, c, idx);
    m' := PassContents(t, c, idx, m, n, goal);
  }

  // ---------- How an insert ends ----------

  ghost predicate Starts(mode: Mode, t: seq<Bucket>, hash: Hash, key: KvBlockKey)
    requires |t| > 0
  {
    match mode
    case Room(e) => e < |t| && !t[e].occupied
    case Still => Occurs(t, key) || AllTaken(t)
    case Over => |t| < 0x1_0000 && AllTaken(t) && !Occurs(t, key)
  }

  /** An insert of a new key into a full table sets out. */
  ghost predicate SetsOut(t: seq<Bucket>, hash: Hash, key: KvBlockKey, value: IndexSlotValue) {
    |t| > 0 && Spinning(t, hash, Hold(key, value, 0), Home(hash, key, |t|))
  }

  /** What an insert of a new key into a full table drops. */
  ghost function Dropped(t: seq<Bucket>, hash: Hash, key: KvBlockKey, value: IndexSlotValue): KvBlockKey {
    if SetsOut(t, hash, key, value) then Spin(t, hash, Hold(key, value, 0), Home(hash, key, |t|)).1.key else key
  }

  /** Such an insert leaves the table of all other pairs. */
  ghost predicate DropsTo(t: seq<Bucket>, hash: Hash, key: KvBlockKey, value: IndexSlotValue, t': seq<Bucket>,
                          goal: map<KvBlockKey, IndexSlotValue>)
  {
    && SetsOut(t, hash, key, value) && t' == Spin(t, hash, Hold(key, value, 0), Home(hash, key, |t|)).0
    && Table(t', hash) && Dropped(t, hash, key, value) in goal
    && Represents(t', goal - {Dropped(t, hash, key, value)})
  }

  /** The loop is on the way of Spin. */
  ghost predicate SameSpin(mode: Mode, t0: seq<Bucket>, hash: Hash, key: KvBlockKey, value: IndexSlotValue,
                           t: seq<Bucket>, c: Hold, idx: nat)
  {
    mode.Over? ==>
      && SetsOut(t0, hash, key, value) && Spinning(t, hash, c, idx)
      && Spin(t0, hash, Hold(key, value, 0), Home(hash, key, |t0|)) == Spin(t, hash, c, idx)
  }

  lemma SpinOn(mode: Mode, t0: seq<Bucket>, hash: Hash, key: KvBlockKey, value: IndexSlotValue, t: seq<Bucket>, c: Hold,
               idx: nat)
    requires SameSpin(mode, t0, hash, key, value, t, c, idx) && idx < |t|
    ensures var t', c' := PassTable(t, c, idx), PassHold(t, c, idx);
      c'.dist < |t| < 0x1_0000 ==>
        SameSpin(mode, t0, hash, key, value, t', c'.(dist := c'.dist + 1), Next(idx, |t|))
  {
    if mode.Over? {
      SpinPass(t, hash, c, idx);
    }
  }

  lemma SpinEnds(t0: seq<Bucket>, hash: Hash, key: KvBlockKey, value: IndexSlotValue, t: seq<Bucket>, c: Hold,
                 idx: nat, m': map<KvBlockKey, IndexSlotValue>, n: nat, goal: map<KvBlockKey, IndexSlotValue>)
    requires SameSpin(Over, t0, hash, key, value, t, c, idx) && idx < |t| && PassHold(t, c, idx).dist == |t|
    requires var c' := PassHold(t, c, idx); Lacks(PassTable(t, c, idx), m', n, c'.key, c'.value, goal)
    ensures DropsTo(t0, hash, key, value, PassTable(t, c, idx), goal)
  {
    SpinPass(t, hash, c, idx);
    var k := PassHold(t, c, idx).key;
    assert k !in m';
    assert goal - {k} == m';
  }

  lemma EndsEmpty(mode: Mode, t: seq<Bucket>, hash: Hash, c: Hold, idx: nat, m: map<KvBlockKey, IndexSlotValue>, n: nat,
                  goal: map<KvBlockKey, IndexSlotValue>)
    requires Carrying(mode, t, hash, c, idx) && Lacks(t, m, n, c.key, c.value, goal) && !t[idx].occupied
    ensures mode.Room?
    ensures var t' := t[idx := Bucket(c.key, c.value, true, c.dist)];
      Table(t', hash) && Strict(t') && Represents(t', goal) && |goal| == n + 1
  {
    match mode
    case Room(e) => Settle(t, hash, m, e, Bucket(c.key, c.value, true, c.dist), idx);
    case Still => SeekFails(t, hash, c.key, c.dist, idx);
    case Over =>
  }

  lemma EndsKnown(mode: Mode, t: seq<Bucket>, hash: Hash, c: Hold, idx: nat, m: map<KvBlockKey, IndexSlotValue>, n: nat,
                  goal: map<KvBlockKey, IndexSlotValue>)
    requires Carrying(mode, t, hash, c, idx) && Lacks(t, m, n, c.key, c.value, goal)
    requires t[idx].occupied && t[idx].key == c.key
    ensures !mode.Over? && PlacedAt(hash, c.key, t[idx].dist, idx, |t|)
    ensures var t' := t[idx := t[idx].(value := c.value)];
      && Table(t', hash) && Represents(t', goal) && |goal| == n
      && (mode.Room? || Strict(t) ==> Strict(t'))
  {
    assert Occurs(t, c.key);
    SetValue(t, hash, m, idx, c.value);
    if mode.Room? {
      EmptyIsStrict(t, hash, mode.e);
    }
  }

  // ---------- Rounds ----------

  /** An insert: its distance bound, the table it met, what it stores and what it should
      lead to. */
  datatype Job = Job(mode: Mode, limit: u16, t0: seq<Bucket>, hash: Hash, key: KvBlockKey, value: IndexSlotValue,
                     n: nat, goal: map<KvBlockKey, IndexSlotValue>)
  {
    ghost predicate Posed() {
      && Table(t0, hash) && Starts(mode, t0, hash, key)
      && ((limit == |t0| < 0xFFFF && (mode.Still? ==> Occurs(t0, key))) || (limit == 0 && |t0| >= 0x1_0000))
    }

    /** The loop invariant. */
    ghost predicate Loop(t: seq<Bucket>, c: Hold, idx: nat, m: map<KvBlockKey, IndexSlotValue>) {
      && Posed() && |t| == |t0| && idx < |t| && c.dist <= limit
      && Carrying(mode, t, hash, c, idx) && Lacks(t, m, n, c.key, c.value, goal)
      && SameSpin(mode, t0, hash, key, value, t, c, idx)
      && (mode.Still? || c.dist == 0 ==> t == t0 && c.key == key && c.value == value)
      && (c.dist == 0 ==> idx == Home(hash, key, |t|))
    }

    /** The outcome. */
    ghost predicate Leaves(t: seq<Bucket>, placed: bool, added: bool) {
      && |t| == |t0| > 0
      && (!placed <==> (limit == 0 && ForeignAtHome(t0, hash, key)) || mode.Over?)
      && (!placed && limit == 0 ==> t == t0)
      && (placed ==> Table(t, hash) && Represents(t, goal) && |goal| == if added then n + 1 else n)
      && (placed && Strict(t0) ==> Strict(t))
      && (placed && limit == 0 ==> t == t0[Home(hash, key, |t0|) := Bucket(key, value, true, 0)])
      && (mode.Over? ==> DropsTo(t0, hash, key, value, t, goal))
    }
  }

  lemma LoopStarts(j: Job, m: map<KvBlockKey, IndexSlotValue>)
    requires j.Posed() && Lacks(j.t0, m, j.n, j.key, j.value, j.goal)
    ensures j.Loop(j.t0, Hold(j.key, j.value, 0), Home(j.hash, j.key, |j.t0|), m)
  {
  }

  lemma LoopEmpty(j: Job, t: seq<Bucket>, c: Hold, idx: nat, m: map<KvBlockKey, IndexSlotValue>)
    requires j.Loop(t, c, idx, m) && !t[idx].occupied
    ensures j.Leaves(t[idx := Bucket(c.key, c.value, true, c.dist)], true, true)
  {
    EndsEmpty(j.mode, t, j.hash, c, idx, m, j.n, j.goal);
  }

  lemma LoopKnown(j: Job, t: seq<Bucket>, c: Hold, idx: nat, m: map<KvBlockKey, IndexSlotValue>)
    requires j.Loop(t, c, idx, m) && t[idx].occupied && t[idx].key == c.key
    ensures j.Leaves(t[idx := t[idx].(value := c.value)], true, false)
  {
    EndsKnown(j.mode, t, j.hash, c, idx, m, j.n, j.goal);
  }

  /** A round that does not end the insert falls in rank; one that passes the bound fails it. */
  lemma LoopOn(j: Job, t: seq<Bucket>, c: Hold, idx: nat, m: map<KvBlockKey, IndexSlotValue>)
      returns (m': map<KvBlockKey, IndexSlotValue>)
    requires j.Loop(t, c, idx, m) && t[idx].occupied && t[idx].key != c.key
    ensures c.dist < 0xFFFF
    ensures var t', c', i' := PassTable(t, c, idx), PassHold(t, c, idx), Next(idx, |t|);
      if c'.dist + 1 > j.limit then j.Leaves(t', false, false)
      else var on := c'.(dist := c'.dist + 1); j.Loop(t', on, i', m') && Falls(j.mode, t, c, idx, t', on, i')
  {
    m' := m;
    match j.mode {
      case Room(e) => m' := PassInRoom(t, j.hash, e, c, idx, m, j.n, j.goal);
      case Still => PassInStill(t, j.hash, c, idx, m, j.n, j.goal);
      case Over => m' := PassInOver(t, j.hash, c, idx, m, j.n, j.goal);
    }
    if j.limit > 0 {
      LoopBounded(j, t, c, idx, m, m');
    }
  }

  lemma LoopBounded(j: Job, t: seq<Bucket>, c: Hold, idx: nat, m: map<KvBlockKey, IndexSlotValue>,
                    m': map<KvBlockKey, IndexSlotValue>)
    requires j.limit > 0 && j.Loop(t, c, idx, m) && Passes(j.mode, t, j.hash, c, idx, m', j.n, j.goal)
    ensures var t', c', i' := PassTable(t, c, idx), PassHold(t, c, idx), Next(idx, |t|);
      if c'.dist + 1 > j.limit then j.Leaves(t', false, false)
      else var on := c'.(dist := c'.dist + 1); j.Loop(t', on, i', m') && Falls(j.mode, t, c, idx, t', on, i')
  {
    SpinOn(j.mode, j.t0, j.hash, j.key, j.value, t, c, idx);
    if PassHold(t, c, idx).dist == |t| {
      SpinEnds(j.t0, j.hash, j.key, j.value, t, c, idx, m', j.n, j.goal);
    }
  }
}
