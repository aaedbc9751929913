/** The table behind the Robin Hood index: a cyclic sequence of buckets, the
    placement invariant every operation keeps, and what that invariant implies. */
module HashTable {
  import opened Basics

  datatype KvBlockKey = KvBlockKey(namespaceId: u64, blockId: u64)

  datatype IndexSlotValue = IndexSlotValue(tierId: int, blockOffset: u64, payloadLen: u32)

  datatype Bucket = Bucket(key: KvBlockKey, value: IndexSlotValue, occupied: bool, dist: u16)

  const EMPTY := Bucket(KvBlockKey(0, 0), IndexSlotValue(0, 0, 0), false, 0)

  type Hash = KvBlockKey -> nat

  // ---------- Positions on a ring of n slots ----------

  function Next(i: nat, n: nat): (r: nat)
    requires i < n
    ensures r < n
  {
    if i + 1 == n then 0 else i + 1
  }

  /** The slot k steps before i. */
  function Back(i: nat, k: nat, n: nat): (r: nat)
    requires i < n && k < n
    ensures r < n
  {
    if k <= i then i - k else i - k + n
  }

  /** The number of steps forward from one slot to another. */
  function Cyc(from: nat, to: nat, n: nat): (r: nat)
    requires from < n && to < n
    ensures r < n
  {
    if from <= to then to - from else to - from + n
  }

  /** The slot where the probe sequence of a key starts: `hash & mask` for a
      power-of-two table. */
  function Home(hash: Hash, k: KvBlockKey, n: nat): (r: nat)
    requires n > 0
    ensures r < n
  {
    hash(k) % n
  }

  /** Where on the ring d steps lead, if they go around less than twice. */
  function Turn(d: nat, n: nat): int {
    if d < n then d else d - n
  }

  // ---------- The invariant ----------

  /** An entry d steps from its home, which may be once around the table. */
  ghost predicate PlacedAt(hash: Hash, k: KvBlockKey, d: nat, i: nat, n: nat)
    requires i < n
  {
    d <= n && Turn(d, n) == Cyc(Home(hash, k, n), i, n)
  }

  /** Every stored distance is the cyclic distance from the key's home, except that an entry
      at home may count a whole turn. */
  ghost predicate WellPlaced(t: seq<Bucket>, hash: Hash) {
    forall i :: 0 <= i < |t| && t[i].occupied ==> PlacedAt(hash, t[i].key, t[i].dist, i, |t|)
  }

  /** No entry does. */
  ghost predicate Strict(t: seq<Bucket>) {
    forall i :: 0 <= i < |t| && t[i].occupied ==> t[i].dist < |t|
  }

  ghost predicate UniqueKeys(t: seq<Bucket>) {
    forall i, j :: 0 <= i < |t| && 0 <= j < |t| && t[i].occupied && t[j].occupied && t[i].key == t[j].key ==> i == j
  }

  /** Robin Hood order at one slot: an entry away from home follows an entry that
      is at most one step less displaced. */
  ghost predicate OrderedAt(t: seq<Bucket>, i: nat)
    requires i < |t| && |t| > 1
  {
    t[i].occupied && t[i].dist > 0 ==>
      var p := Back(i, 1, |t|);
      t[p].occupied && t[p].dist >= t[i].dist - 1
  }

  ghost predicate Table(t: seq<Bucket>, hash: Hash) {
    && |t| > 1
    && WellPlaced(t, hash)
    && UniqueKeys(t)
    && forall i :: 0 <= i < |t| ==> OrderedAt(t, i)
  }

  ghost predicate Occurs(t: seq<Bucket>, k: KvBlockKey) {
    exists i :: 0 <= i < |t| && t[i].occupied && t[i].key == k
  }

  /** The table stores exactly the pairs of the map. */
  ghost predicate Represents(t: seq<Bucket>, m: map<KvBlockKey, IndexSlotValue>) {
    && (forall i :: 0 <= i < |t| && t[i].occupied ==> t[i].key in m && m[t[i].key] == t[i].value)
    && (forall k :: k in m ==> Occurs(t, k))
  }

  // ---------- What the invariant implies ----------

  /** Walking back from an entry, every slot down to its home is occupied, and
      distances fall by at most one per step. */
  lemma {:induction false} Chain(t: seq<Bucket>, hash: Hash, i: nat, k: nat)
    requires Table(t, hash) && i < |t| && t[i].occupied && k <= t[i].dist && k < |t|
    ensures t[Back(i, k, |t|)].occupied && t[Back(i, k, |t|)].dist >= t[i].dist - k
  {
    if k > 0 {
      Chain(t, hash, i, k - 1);
      assert OrderedAt(t, Back(i, k - 1, |t|));
    }
  }

  /** The slots a probe visits before the key's own slot all hold entries at least
      as displaced as the probe: the early exit of a lookup never skips the key. */
  lemma Reach(t: seq<Bucket>, hash: Hash, j: nat, idx: nat)
    requires Table(t, hash) && j < |t| && t[j].occupied && idx < |t|
    requires Cyc(Home(hash, t[j].key, |t|), idx, |t|) <= Cyc(Home(hash, t[j].key, |t|), j, |t|)
    ensures t[idx].occupied && t[idx].dist >= Cyc(Home(hash, t[j].key, |t|), idx, |t|)
  {
    Chain(t, hash, j, Cyc(idx, j, |t|));
  }

  /** An empty slot is never between an entry's home and the entry, so no entry counts a
      whole turn. */
  lemma EmptyIsAhead(t: seq<Bucket>, hash: Hash, i: nat, e: nat)
    requires Table(t, hash) && i < |t| && e < |t| && t[i].occupied && !t[e].occupied
    ensures t[i].dist < |t| && t[i].dist + Cyc(i, e, |t|) == Cyc(Home(hash, t[i].key, |t|), e, |t|)
  {
    if Cyc(e, i, |t|) <= t[i].dist {
      Chain(t, hash, i, Cyc(e, i, |t|));
    }
  }

  lemma EmptyIsStrict(t: seq<Bucket>, hash: Hash, e: nat)
    requires Table(t, hash) && e < |t| && !t[e].occupied
    ensures Strict(t)
  {
    forall i | 0 <= i < |t| && t[i].occupied ensures t[i].dist < |t| {
      EmptyIsAhead(t, hash, i, e);
    }
  }

  /** A map of fewer keys than slots leaves a slot empty. */
  lemma HasEmptySlot(t: seq<Bucket>, m: map<KvBlockKey, IndexSlotValue>) returns (e: nat)
    requires UniqueKeys(t) && Represents(t, m) && |m| < |t|
    ensures e < |t| && !t[e].occupied
  {
    e := 0;
    while e < |t| && t[e].occupied
      invariant e <= |t|
      invariant forall i :: 0 <= i < e ==> t[i].occupied
    {
      e := e + 1;
    }
    if e == |t| {
      KeysOfSlots(t, m);
    }
  }

  lemma {:induction false} KeysOfSlots(t: seq<Bucket>, m: map<KvBlockKey, IndexSlotValue>)
    requires UniqueKeys(t) && forall i :: 0 <= i < |t| ==> t[i].occupied && t[i].key in m
    ensures |m| >= |t|
  {
    if |t| > 0 {
      var n := |t| - 1;
      var k := t[n].key;
      assert forall i :: 0 <= i < n ==> t[..n][i] == t[i];
      KeysOfSlots(t[..n], m - {k});
      assert m.Keys == (m - {k}).Keys + {k};
    }
  }

  // ---------- Writing one bucket ----------

  /** Writing an entry into a slot at its own distance keeps the table sound if
      the slot was empty, held the same key, or held a richer entry (one closer to
      its home). */
  lemma Write(t: seq<Bucket>, hash: Hash, i: nat, b: Bucket)
    requires Table(t, hash) && i < |t| && b.occupied
    requires !Occurs(t, b.key) || (t[i].occupied && t[i].key == b.key)
    requires PlacedAt(hash, b.key, b.dist, i, |t|)
    requires t[i].occupied ==> b.dist >= t[i].dist
    requires OrderedAt(t[i := b], i)
    ensures Table(t[i := b], hash)
  {
    var u := t[i := b];
    forall j | 0 <= j < |u| ensures OrderedAt(u, j) {
      StillOrdered(t, i, b, j);
    }
  }

  lemma StillOrdered(t: seq<Bucket>, i: nat, b: Bucket, j: nat)
    requires i < |t| && j < |t| && |t| > 1 && OrderedAt(t, j)
    requires t[i].occupied ==> b.dist >= t[i].dist
    requires b.occupied && OrderedAt(t[i := b], i)
    ensures OrderedAt(t[i := b], j)
  {
  }

  /** The map after the write: the new pair is added, and the key that held the
      slot, if it was another key, is gone. */
  lemma WriteContents(t: seq<Bucket>, m: map<KvBlockKey, IndexSlotValue>, i: nat, b: Bucket)
    requires UniqueKeys(t) && Represents(t, m) && i < |t| && b.occupied
    requires !Occurs(t, b.key) || (t[i].occupied && t[i].key == b.key)
    ensures Represents(t[i := b], (if t[i].occupied then m - {t[i].key} else m)[b.key := b.value])
  {
    var u := t[i := b];
    var m' := (if t[i].occupied then m - {t[i].key} else m)[b.key := b.value];
    assert u[i] == b;
    forall k | k in m' ensures Occurs(u, k) {
      if k != b.key {
        var j :| 0 <= j < |t| && t[j].occupied && t[j].key == k;
        assert u[j] == t[j];
      }
    }
  }

  // ---------- Probing ----------

  /** A search for key k stands at slot idx after d steps and has not passed the key. It
      may have gone once around the table, and one step further. */
  ghost predicate Seeking(t: seq<Bucket>, hash: Hash, k: KvBlockKey, d: nat, idx: nat) {
    && Table(t, hash)
    && idx < |t| && d <= |t| + 1
    && Cyc(Home(hash, k, |t|), idx, |t|) == Turn(d, |t|)
    && (forall j :: 0 <= j < |t| && t[j].occupied && t[j].key == k ==> d <= Cyc(Home(hash, k, |t|), j, |t|))
  }

  /** Meeting an empty slot or a richer entry proves the key absent. */
  lemma SeekFails(t: seq<Bucket>, hash: Hash, k: KvBlockKey, d: nat, idx: nat)
    requires Seeking(t, hash, k, d, idx)
    requires !t[idx].occupied || t[idx].dist < d
    ensures !Occurs(t, k)
  {
    if Occurs(t, k) {
      var j :| 0 <= j < |t| && t[j].occupied && t[j].key == k;
      Reach(t, hash, j, idx);
    }
  }

  /** Otherwise the search moves on. */
  lemma SeekOn(t: seq<Bucket>, hash: Hash, k: KvBlockKey, d: nat, idx: nat)
    requires Seeking(t, hash, k, d, idx)
    requires t[idx].occupied && t[idx].key != k && t[idx].dist >= d
    ensures d <= |t| && Seeking(t, hash, k, d + 1, Next(idx, |t|))
  {
  }

  /** The search of an insert, in a table with an empty slot e: it has not passed that slot
      either, and the slot behind it is at least d - 1 from home. */
  ghost predicate Probing(t: seq<Bucket>, hash: Hash, e: nat, k: KvBlockKey, d: nat, idx: nat) {
    && Seeking(t, hash, k, d, idx)
    && d < |t| && e < |t| && !t[e].occupied
    && d + Cyc(idx, e, |t|) == Cyc(Home(hash, k, |t|), e, |t|)
    && (d > 0 ==> t[Back(idx, 1, |t|)].occupied && t[Back(idx, 1, |t|)].dist >= d - 1)
  }

  /** Such a search comes one slot closer to the empty slot. */
  lemma ProbeOn(t: seq<Bucket>, hash: Hash, e: nat, k: KvBlockKey, d: nat, idx: nat)
    requires Probing(t, hash, e, k, d, idx)
    requires t[idx].occupied && t[idx].key != k && t[idx].dist >= d
    ensures d + 1 < |t| && Probing(t, hash, e, k, d + 1, Next(idx, |t|))
    ensures Cyc(Next(idx, |t|), e, |t|) < Cyc(idx, e, |t|)
  {
    SeekOn(t, hash, k, d, idx);
  }

  /** Displacement: the carried entry takes the slot of a richer one, and the probe
      continues for the displaced key. */
  lemma Displace(t: seq<Bucket>, hash: Hash, e: nat, b: Bucket, idx: nat)
    requires Probing(t, hash, e, b.key, b.dist, idx)
    requires b.occupied && t[idx].occupied && t[idx].dist < b.dist
    ensures !Occurs(t, b.key)
    ensures Probing(t[idx := b], hash, e, t[idx].key, t[idx].dist, idx)
  {
    SeekFails(t, hash, b.key, b.dist, idx);
    Write(t, hash, idx, b);
    EmptyIsAhead(t, hash, idx, e);
    if t[idx].dist > 0 {
      DisplacedBehind(t, hash, idx, b);
    }
  }

  lemma DisplacedBehind(t: seq<Bucket>, hash: Hash, i: nat, b: Bucket)
    requires Table(t, hash) && i < |t| && t[i].occupied
    requires t[i].dist > 0
    ensures t[i := b][Back(i, 1, |t|)].occupied && t[i := b][Back(i, 1, |t|)].dist >= t[i].dist - 1
  {
    assert OrderedAt(t, i);
  }

  /** No pair is lost by a displacement: with the displaced pair still carried, the
      map is what it was with the new pair carried. */
  lemma DisplaceContents(t: seq<Bucket>, m: map<KvBlockKey, IndexSlotValue>, b: Bucket, i: nat)
      returns (m': map<KvBlockKey, IndexSlotValue>)
    requires UniqueKeys(t) && Represents(t, m) && i < |t| && t[i].occupied
    requires b.occupied && !Occurs(t, b.key)
    ensures Represents(t[i := b], m') && |m'| == |m|
    ensures m'[t[i].key := t[i].value] == m[b.key := b.value]
  {
    WriteContents(t, m, i, b);
    m' := (m - {t[i].key})[b.key := b.value];
    ExchangeKey(m, t[i].key, b.key, b.value);
  }

  lemma ExchangeKey<K, V>(m: map<K, V>, gone: K, k: K, v: V)
    requires gone in m && k !in m
    ensures |(m - {gone})[k := v]| == |m|
    ensures (m - {gone})[k := v][gone := m[gone]] == m[k := v]
  {
    assert (m - {gone})[k := v].Keys == m.Keys - {gone} + {k};
  }

  /** An insert ends at an empty slot. */
  lemma Settle(t: seq<Bucket>, hash: Hash, m: map<KvBlockKey, IndexSlotValue>, e: nat, b: Bucket, idx: nat)
    requires Probing(t, hash, e, b.key, b.dist, idx) && Represents(t, m) && b.occupied && !t[idx].occupied
    ensures Table(t[idx := b], hash) && Strict(t[idx := b]) && Represents(t[idx := b], m[b.key := b.value])
    ensures |m[b.key := b.value]| == |m| + 1
  {
    SeekFails(t, hash, b.key, b.dist, idx);
    assert b.key !in m;
    Write(t, hash, idx, b);
    WriteContents(t, m, idx, b);
    EmptyIsStrict(t, hash, idx);
  }

  /** Or it finds the key and changes its value only. */
  lemma SetValue(t: seq<Bucket>, hash: Hash, m: map<KvBlockKey, IndexSlotValue>, i: nat, v: IndexSlotValue)
    requires Table(t, hash) && Represents(t, m) && i < |t| && t[i].occupied
    ensures Table(t[i := t[i].(value := v)], hash) && Represents(t[i := t[i].(value := v)], m[t[i].key := v])
    ensures |m[t[i].key := v]| == |m|
  {
    var k, b := t[i].key, t[i].(value := v);
    assert OrderedAt(t, i);
    Write(t, hash, i, b);
    WriteContents(t, m, i, b);
    assert (m - {k})[k := v] == m[k := v];
    assert m[k := v].Keys == m.Keys;
  }

  // ---------- Backward-shift deletion ----------

  /** A table with a gap at p, left by an entry at distance q: everything holds
      except that the entry after the gap may be away from home. */
  ghost predicate Gap(t: seq<Bucket>, hash: Hash, p: nat, q: nat) {
    && |t| > 1 && p < |t| && !t[p].occupied
    && WellPlaced(t, hash)
    && UniqueKeys(t)
    && (forall i :: 0 <= i < |t| && i != Next(p, |t|) ==> OrderedAt(t, i))
    && (q > 0 ==> t[Back(p, 1, |t|)].occupied && t[Back(p, 1, |t|)].dist >= q - 1)
    && (t[Next(p, |t|)].occupied ==> t[Next(p, |t|)].dist <= q + 1)
  }

  /** A slot where a backward shift stops: empty, or with an entry at home. */
  ghost predicate Stops(b: Bucket) {
    !b.occupied || b.dist == 0
  }

  /** The sum of all distances. A shift lowers it, so that every shift ends. */
  ghost function Total(t: seq<Bucket>): nat {
    if t == [] then 0 else Total(t[..|t| - 1]) + t[|t| - 1].dist
  }

  lemma {:induction false} TotalAt(t: seq<Bucket>, i: nat, b: Bucket)
    requires i < |t|
    ensures Total(t[i := b]) == Total(t) - t[i].dist + b.dist
  {
    var last := |t| - 1;
    if i == last {
      assert t[i := b][..last] == t[..last];
    } else {
      TotalAt(t[..last], i, b);
      assert t[i := b][..last] == t[..last][i := b];
    }
  }

  /** Taking an entry out opens a gap. */
  lemma OpenGap(t: seq<Bucket>, hash: Hash, i: nat)
    requires Table(t, hash) && i < |t| && t[i].occupied
    ensures Gap(t[i := EMPTY], hash, i, t[i].dist)
  {
    var u := t[i := EMPTY];
    assert OrderedAt(t, i) && OrderedAt(t, Next(i, |t|));
    forall j | 0 <= j < |t| && j != Next(i, |t|) ensures OrderedAt(u, j) {
      assert OrderedAt(t, j);
    }
  }

  lemma OpenGapContents(t: seq<Bucket>, m: map<KvBlockKey, IndexSlotValue>, i: nat)
    requires UniqueKeys(t) && Represents(t, m) && i < |t| && t[i].occupied
    ensures Represents(t[i := EMPTY], m - {t[i].key})
  {
    var u := t[i := EMPTY];
    forall k | k in m - {t[i].key} ensures Occurs(u, k) {
      var j :| 0 <= j < |t| && t[j].occupied && t[j].key == k;
      assert u[j] == t[j];
    }
  }

  /** The table after moving the entry behind the gap one slot back. */
  ghost function Shift(t: seq<Bucket>, p: nat): (u: seq<Bucket>)
    requires |t| > 1 && p < |t| && t[Next(p, |t|)].dist > 0
    ensures |u| == |t|
    ensures u[p] == t[Next(p, |t|)].(dist := t[Next(p, |t|)].dist - 1) && u[Next(p, |t|)] == EMPTY
    ensures forall j :: 0 <= j < |t| && j != p && j != Next(p, |t|) ==> u[j] == t[j]
  {
    var c := Next(p, |t|);
    t[p := t[c].(dist := t[c].dist - 1)][c := EMPTY]
  }

  lemma ShiftTotal(t: seq<Bucket>, p: nat)
    requires |t| > 1 && p < |t| && t[Next(p, |t|)].dist > 0 && t[p].dist == 0
    ensures Total(Shift(t, p)) < Total(t)
  {
    var c := Next(p, |t|);
    var b := t[c].(dist := t[c].dist - 1);
    TotalAt(t, p, b);
    TotalAt(t[p := b], c, EMPTY);
  }

  /** Shifting keeps distances true and keys distinct. */
  lemma ShiftPlaced(t: seq<Bucket>, hash: Hash, p: nat)
    requires |t| > 1 && p < |t| && WellPlaced(t, hash) && UniqueKeys(t)
    requires t[Next(p, |t|)].occupied && t[Next(p, |t|)].dist > 0 && !t[p].occupied
    ensures WellPlaced(Shift(t, p), hash) && UniqueKeys(Shift(t, p))
  {
  }

  /** Shifting keeps the map. */
  lemma ShiftContents(t: seq<Bucket>, m: map<KvBlockKey, IndexSlotValue>, p: nat)
    requires |t| > 1 && p < |t| && Represents(t, m) && !t[p].occupied
    requires t[Next(p, |t|)].occupied && t[Next(p, |t|)].dist > 0
    ensures Represents(Shift(t, p), m)
  {
    var c := Next(p, |t|);
    var u := Shift(t, p);
    forall k | k in m ensures Occurs(u, k) {
      var j :| 0 <= j < |t| && t[j].occupied && t[j].key == k;
      if j == c {
        assert u[p].key == k;
      } else {
        assert u[j] == t[j];
      }
    }
  }

  /** Shifting keeps Robin Hood order away from the new gap. */
  lemma ShiftOrdered(t: seq<Bucket>, hash: Hash, p: nat, q: nat, j: nat)
    requires Gap(t, hash, p, q) && j < |t|
    requires t[Next(p, |t|)].occupied && t[Next(p, |t|)].dist > 0
    requires j != Next(Next(p, |t|), |t|)
    ensures OrderedAt(Shift(t, p), j)
  {
    var u := Shift(t, p);
    if j != p && j != Next(p, |t|) {
      assert OrderedAt(t, j);
    }
  }

  /** So shifting moves the gap one slot on. */
  lemma MoveGap(t: seq<Bucket>, hash: Hash, p: nat, q: nat)
    requires Gap(t, hash, p, q)
    requires t[Next(p, |t|)].occupied && t[Next(p, |t|)].dist > 0
    ensures Gap(Shift(t, p), hash, Next(p, |t|), t[Next(p, |t|)].dist)
  {
    var c := Next(p, |t|);
    var u := Shift(t, p);
    ShiftPlaced(t, hash, p);
    forall j | 0 <= j < |u| && j != Next(c, |t|) ensures OrderedAt(u, j) {
      ShiftOrdered(t, hash, p, q, j);
    }
    if Next(c, |t|) != p {
      assert OrderedAt(t, Next(c, |t|));
    }
  }

  /** The gap may stay once the entry behind it, if any, is at home. */
  lemma CloseGap(t: seq<Bucket>, hash: Hash, p: nat, q: nat)
    requires Gap(t, hash, p, q)
    requires Stops(t[Next(p, |t|)])
    ensures Table(t, hash)
  {
  }
}
