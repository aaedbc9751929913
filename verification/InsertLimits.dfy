/** Where inserts into the hash index meet their limits: colliding homes in large
    tables, and callers that pass the load check together. */
module InsertLimits {
  import opened Basics
  import opened HashTable
  import opened HashIndex
  import opened LoadRace
  import opened InsertLoop
  import opened FullTable

  // ---------- Keys with one home ----------

  function Key(i: u64): KvBlockKey {
    KvBlockKey(0, i)
  }

  /** The first n keys. */
  ghost function Keys(n: nat): (r: set<KvBlockKey>)
    requires n <= U64
    ensures forall k :: k in r ==> k.blockId < n
  {
    if n == 0 then {} else Keys(n - 1) + {Key(n - 1)}
  }

  lemma {:induction false} KeysSize(n: nat)
    requires n <= U64
    ensures |Keys(n)| == n
  {
    if n > 0 {
      KeysSize(n - 1);
    }
  }

  ghost function WithHome(keys: set<KvBlockKey>, hash: Hash, capacity: nat, h: nat): set<KvBlockKey>
    requires capacity > 0
  {
    set k | k in keys && Home(hash, k, capacity) == h
  }

  /** More than n keys for each home: some home has more than n. */
  lemma {:induction false} Pigeonhole(keys: set<KvBlockKey>, hash: Hash, capacity: nat, homes: nat, n: nat)
      returns (h: nat)
    requires capacity > 0 && |keys| > homes * n && forall k :: k in keys ==> Home(hash, k, capacity) < homes
    ensures |WithHome(keys, hash, capacity, h)| > n
  {
    var k :| k in keys;
    assert homes > 0;
    var here := WithHome(keys, hash, capacity, homes - 1);
    if |here| > n {
      h := homes - 1;
    } else {
      var rest := keys - here;
      assert keys == here + rest;
      assert homes * n == (homes - 1) * n + n;
      h := Pigeonhole(rest, hash, capacity, homes - 1, n);
      Smaller(WithHome(rest, hash, capacity, h), WithHome(keys, hash, capacity, h));
    }
  }

  lemma {:induction false} Enumerate<T>(s: set<T>, n: nat) returns (r: seq<T>)
    requires n <= |s|
    ensures |r| == n && Distinct(r) && forall x :: x in r ==> x in s
  {
    if n == 0 {
      r := [];
    } else {
      var x :| x in s;
      r := Enumerate(s - {x}, n - 1);
      r := r + [x];
    }
  }

  /** Whatever the hash, there are n + 1 keys with one home. */
  lemma SameHome(hash: Hash, capacity: nat, n: nat) returns (h: nat, keys: seq<KvBlockKey>)
    requires 0 < capacity && capacity * n < U64
    ensures |keys| == n + 1 && Distinct(keys) && forall k :: k in keys ==> Home(hash, k, capacity) == h
  {
    KeysSize(capacity * n + 1);
    h := Pigeonhole(Keys(capacity * n + 1), hash, capacity, capacity, n);
    keys := Enumerate(WithHome(Keys(capacity * n + 1), hash, capacity, h), n + 1);
  }

  /** So every large table, with whatever hash, refuses some key although it stores only
      one other, and no table of up to 65535 slots does. */
  lemma SecondInsertRefused(hash: Hash, capacity: nat, v: IndexSlotValue)
    requires 16 <= capacity < U64
    ensures (exists k, k' :: k != k' && Refuses(map[k := v], hash, capacity, k')) <==> capacity >= 0x1_0000
  {
    if capacity >= 0x1_0000 {
      var h, keys := SameHome(hash, capacity, 1);
      var k, k' := keys[0], keys[1];
      var m := map[k := v];
      assert k in m;
      assert SharesHome(m, hash, capacity, k');
      assert k != k' && Refuses(map[k := v], hash, capacity, k');
    }
  }

  // ---------- The bound on callers is exact ----------

  ghost predicate IsHome(hash: Hash, capacity: nat, h: nat)
    requires capacity > 0
  {
    exists k :: Home(hash, k, capacity) == h
  }

  /** Every slot is the home of some key. */
  ghost predicate Onto(hash: Hash, capacity: nat)
    requires capacity > 0
  {
    forall h :: 0 <= h < capacity ==> IsHome(hash, capacity, h)
  }

  ghost function KeyAt(hash: Hash, capacity: nat, h: nat): (k: KvBlockKey)
    requires capacity > 0 && IsHome(hash, capacity, h)
    ensures Home(hash, k, capacity) == h
  {
    var k :| Home(hash, k, capacity) == h; k
  }

  lemma SetScene(hash: Hash, capacity: nat, callers: nat) returns (x: Scene)
    requires 0 < callers <= capacity && Fillable(hash, capacity)
    ensures x.Ok() && x.hash == hash && x.capacity == capacity && x.callers == callers
  {
    var keys := if capacity < 0x1_0000 then seq(capacity, i requires 0 <= i < capacity => Key(i))
                else seq(capacity, i requires 0 <= i < capacity => KeyAt(hash, capacity, i));
    assert capacity >= 0x1_0000 ==> forall i :: 0 <= i < capacity ==> Home(hash, keys[i], capacity) == i;
    x := Scene(hash, capacity, callers, EMPTY.value, keys);
  }

  /** One caller alone fills the table up to the load limit. */
  lemma {:induction false} FillUp(x: Scene, k: nat) returns (tr: Trace)
    requires x.Ok() && 4 * k <= 3 * x.capacity
    ensures x.Stores(tr, k, {})
  {
    if k == 0 {
      tr := Trace([], [Race(map[], {}, true)]);
    } else {
      tr := FillUp(x, k - 1);
      tr := AfterCheck(x, tr, k - 1, {}, 0, {0});
      tr := AfterCommit(x, tr, k, {0}, 0, {});
    }
  }

  /** At the limit any number of callers pass the check. */
  lemma {:induction false} PassAll(x: Scene, k: nat, n: nat) returns (tr: Trace)
    requires x.Ok() && 4 * k <= 3 * x.capacity && n <= x.callers
    ensures x.Stores(tr, k, Below(n))
  {
    if n == 0 {
      tr := FillUp(x, k);
    } else {
      tr := PassAll(x, k, n - 1);
      tr := AfterCheck(x, tr, k, Below(n - 1), n - 1, Below(n));
    }
  }

  /** And then each of them stores a key. */
  lemma {:induction false} CommitAll(x: Scene, k: nat, j: nat, n: nat) returns (tr: Trace)
    requires x.Ok() && 4 * k <= 3 * x.capacity && j <= x.callers && n == k + j <= x.capacity
    ensures x.Stores(tr, n, From(j, x.callers))
  {
    if j == 0 {
      tr := PassAll(x, n, x.callers);
      FromZero(x.callers);
    } else {
      tr := CommitAll(x, k, j - 1, n - 1);
      tr := CommitNext(x, tr, j, n);
    }
  }

  lemma CommitNext(x: Scene, tr: Trace, j: nat, n: nat) returns (more: Trace)
    requires 0 < j <= x.callers && 0 < n <= x.capacity && x.Stores(tr, n - 1, From(j - 1, x.callers))
    ensures x.Stores(more, n, From(j, x.callers))
  {
    FromNext(j - 1, x.callers);
    more := AfterCommit(x, tr, n, From(j - 1, x.callers), j - 1, From(j, x.callers));
  }

  lemma FromZero(n: nat)
    ensures From(0, n) == Below(n)
  {
  }

  ghost function From(j: nat, n: nat): set<nat> {
    Below(n) - Below(j)
  }

  lemma FromNext(j: nat, n: nat)
    requires j < n
    ensures j in From(j, n) && From(j + 1, n) == From(j, n) - {j}
  {
  }

  lemma MoreCallers(tr: Trace, hash: Hash, capacity: nat, few: nat, many: nat)
    requires capacity > 0 && few <= many && Leads(tr, hash, capacity, few)
    ensures Leads(tr, hash, capacity, many)
  {
    forall c | c in tr.calls ensures IsCall(c, many) {
      assert IsCall(c, few);
    }
  }

  /** A quarter of the capacity's callers fill the table, and one more finds it full. */
  lemma FillsUp(x: Scene, extra: nat) returns (tr: Trace)
    requires x.Ok() && IsPow2(x.capacity) && x.capacity >= 16 && x.callers == x.capacity / 4 + extra
    ensures x.Stores(tr, x.capacity, From(x.capacity / 4, x.callers))
  {
    var n := x.capacity / 4;
    QuarterOfPow2(x.capacity);
    tr := CommitAll(x, 3 * n, n, 4 * n);
  }

  lemma QuarterOfPow2(n: nat)
    requires IsPow2(n) && n >= 16
    ensures n == 4 * (n / 4)
  {
    var k: nat :| n == Pow2(k);
    Pow2Monotone(k, 1);
    assert Pow2(1) == 2;
    var q := Pow2(k - 2);
    assert Pow2(k - 1) == 2 * q;
  }

  // ---------- Large tables ----------

  /** The stored keys have different homes. */
  ghost predicate HomesApart(keys: set<KvBlockKey>, hash: Hash, capacity: nat)
    requires capacity > 0
  {
    forall k, k' :: k in keys && k' in keys && k != k' ==> Home(hash, k, capacity) != Home(hash, k', capacity)
  }

  lemma {:induction false} HomesStayApart(tr: Trace, hash: Hash, capacity: nat, callers: nat, i: nat)
    requires capacity >= 0x1_0000 && Leads(tr, hash, capacity, callers) && i <= |tr.calls|
    ensures HomesApart(tr.states[i].m.Keys, hash, capacity)
  {
    if i > 0 {
      HomesStayApart(tr, hash, capacity, callers, i - 1);
      assert tr.StepAt(hash, capacity, i - 1) && tr.calls[i - 1] in tr.calls;
    }
  }

  ghost function HomesOf(keys: set<KvBlockKey>, hash: Hash, capacity: nat): set<nat>
    requires capacity > 0
  {
    set k | k in keys :: Home(hash, k, capacity)
  }

  lemma {:induction false} HomesCount(keys: set<KvBlockKey>, hash: Hash, capacity: nat)
    requires capacity > 0 && HomesApart(keys, hash, capacity)
    ensures |HomesOf(keys, hash, capacity)| == |keys|
  {
    if keys != {} {
      var k :| k in keys;
      HomesCount(keys - {k}, hash, capacity);
      assert HomesOf(keys, hash, capacity) == HomesOf(keys - {k}, hash, capacity) + {Home(hash, k, capacity)};
    }
  }

  lemma HomesMiss(keys: set<KvBlockKey>, hash: Hash, capacity: nat, h: nat)
    requires h < capacity && !IsHome(hash, capacity, h)
    ensures |HomesOf(keys, hash, capacity)| < capacity
  {
    var homes := HomesOf(keys, hash, capacity);
    assert h !in homes;
    Smaller(homes + {h}, Below(capacity));
    BelowSize(capacity);
  }

  /** A large table in which some slot is nobody's home is never full. */
  lemma NeverFull(tr: Trace, hash: Hash, capacity: nat, callers: nat)
    requires capacity >= 0x1_0000 && !Onto(hash, capacity) && Leads(tr, hash, capacity, callers)
    ensures |tr.Last().m| < capacity
  {
    HomesStayApart(tr, hash, capacity, callers, |tr.calls|);
    HomesCount(tr.Last().m.Keys, hash, capacity);
    var h :| 0 <= h < capacity && !IsHome(hash, capacity, h);
    HomesMiss(tr.Last().m.Keys, hash, capacity, h);
  }

  // ---------- How many callers leave room ----------

  /** The keys can take all slots. */
  ghost predicate Fillable(hash: Hash, capacity: nat)
    requires capacity > 0
  {
    capacity < 0x1_0000 || Onto(hash, capacity)
  }

  /** The table is never full. */
  ghost predicate Roomy(hash: Hash, capacity: nat, callers: nat)
    requires capacity > 0
  {
    forall tr :: Leads(tr, hash, capacity, callers) ==> |tr.Last().m| < capacity
  }

  /** Exactly fewer than a quarter of the capacity's callers leave an empty slot in every
      interleaving, unless the keys cannot fill the table. */
  lemma RoomExactly(hash: Hash, capacity: nat, callers: nat)
    requires 16 <= capacity && IsPow2(capacity)
    ensures Roomy(hash, capacity, callers) <==> 4 * callers < capacity || !Fillable(hash, capacity)
  {
    forall tr | Leads(tr, hash, capacity, callers)
      ensures 4 * callers < capacity || !Fillable(hash, capacity) ==> |tr.Last().m| < capacity
    {
      Overshoot(tr, hash, capacity, callers, |tr.calls|);
      if !Fillable(hash, capacity) {
        NeverFull(tr, hash, capacity, callers);
      }
    }
    QuarterOfPow2(capacity);
    if 4 * callers >= capacity && Fillable(hash, capacity) {
      var x := SetScene(hash, capacity, capacity / 4);
      var tr := FillsUp(x, 0);
      FirstKeys(x.keys, capacity, x.v);
      MoreCallers(tr, hash, capacity, capacity / 4, callers);
    }
  }

  // ---------- A caller that finds the table full ----------

  /** Whatever it inserts, one of the capacity + 1 keys is lost, and the table stays sound. */
  lemma LosesOne(t: seq<Bucket>, hash: Hash, m: map<KvBlockKey, IndexSlotValue>, key: KvBlockKey, v: IndexSlotValue,
                 t': seq<Bucket>, m': map<KvBlockKey, IndexSlotValue>, r: Result<()>)
    requires Whole(t, hash, m, |m|) && Overfull(m, |t|, key)
    requires LockedInsert(t, hash, m, key, v, t', m', r)
    ensures r == Err(CapacityExceeded(|t|)) && |m'| == |m|
    ensures exists k :: k in m[key := v] && m' == m[key := v] - {k}
  {
    var gone := Dropped(t, hash, key, v);
    assert gone in m[key := v];
    OverContents(m, key, v, gone);
  }

  /** A strict table of keys with one home drops the stored key of that slot for a new key
      with this home. */
  lemma DropsOfOneHome(t: seq<Bucket>, hash: Hash, m: map<KvBlockKey, IndexSlotValue>, h: nat, key: KvBlockKey,
                       v: IndexSlotValue)
    requires Whole(t, hash, m, |t|) && Strict(t) && Overfull(m, |t|, key)
    requires Home(hash, key, |t|) == h && forall k :: k in m ==> Home(hash, k, |t|) == h
    ensures Dropped(t, hash, key, v) in m
  {
    KeysFit(t, m);
    assert SetsOut(t, hash, key, v);
    DropsStored(t, hash, Hold(key, v, 0), h);
  }

  lemma {:induction false} SquareFits(n: nat)
    requires n < 0x1_0000
    ensures n * n <= 0x1_0000 * n < U64
  {
    if n > 0 {
      SquareFits(n - 1);
      assert n * n == (n - 1) * (n - 1) + 2 * n - 1;
    }
  }

  /** Whatever the hash, one caller more than a quarter of the capacity reaches an insert that
      fails, stores its key and removes a stored one. */
  lemma StoredKeyLost(hash: Hash, capacity: nat) returns (tr: Trace, c: Call)
    requires 16 <= capacity < 0x1_0000 && IsPow2(capacity)
    ensures Leads(tr, hash, capacity, capacity / 4 + 1) && IsCall(c, capacity / 4 + 1)
    ensures LosesStored(tr.Last(), hash, capacity, c)
  {
    SquareFits(capacity);
    var h, keys := SameHome(hash, capacity, capacity);
    var n := capacity / 4;
    var x := Scene(hash, capacity, n + 1, EMPTY.value, keys[..capacity]);
    tr := FillsUp(x, 1);
    c := Commit(n, keys[capacity], x.v);
    FirstKeys(x.keys, capacity, x.v);
    FromNext(n, n + 1);
    var m := tr.Last().m;
    forall t | |t| == capacity && Whole(t, hash, m, capacity) && Strict(t)
      ensures Dropped(t, hash, c.key, c.value) in m
    {
      DropsOfOneHome(t, hash, m, h, c.key, c.value);
    }
  }

  /** No insert drops a key. */
  ghost predicate Lossless(hash: Hash, capacity: nat, callers: nat)
    requires capacity > 0
  {
    forall tr, c :: Leads(tr, hash, capacity, callers) && IsCall(c, callers) ==> !Overflows(tr.Last(), capacity, c)
  }

  /** No insert has to drop a stored key. */
  ghost predicate KeepsStored(hash: Hash, capacity: nat, callers: nat)
    requires capacity > 0
  {
    forall tr, c :: Leads(tr, hash, capacity, callers) && IsCall(c, callers) ==>
      !LosesStored(tr.Last(), hash, capacity, c)
  }

  /** Exactly at most a quarter of the capacity's callers lose no key in any interleaving,
      unless the table is large; and as soon as a key can be lost, a stored one can. */
  lemma LossExactly(hash: Hash, capacity: nat, callers: nat)
    requires 16 <= capacity && IsPow2(capacity)
    ensures Lossless(hash, capacity, callers) <==> 4 * callers <= capacity || capacity >= 0x1_0000
    ensures KeepsStored(hash, capacity, callers) <==> 4 * callers <= capacity || capacity >= 0x1_0000
  {
    if 4 * callers <= capacity || capacity >= 0x1_0000 {
      forall tr, c | Leads(tr, hash, capacity, callers) && IsCall(c, callers)
        ensures !Overflows(tr.Last(), capacity, c)
      {
        Overshoot(tr, hash, capacity, callers, |tr.calls|);
        if c.Commit? && c.t in tr.Last().passed {
          Smaller({c.t}, tr.Last().passed);
        }
      }
    } else {
      QuarterOfPow2(capacity);
      var tr, c := StoredKeyLost(hash, capacity);
      MoreCallers(tr, hash, capacity, capacity / 4 + 1, callers);
      assert IsCall(c, callers);
    }
  }
}
