/** An insert into a table without an empty slot: entries displace one another until the
    distance bound is passed, and the one carried then is dropped. */
module FullTable {
  import opened Basics
  import opened HashTable

  /** What an insert carries. */
  datatype Hold = Hold(key: KvBlockKey, value: IndexSlotValue, dist: u16)

  ghost predicate AllTaken(t: seq<Bucket>) {
    forall i :: 0 <= i < |t| ==> t[i].occupied
  }

  /** Every slot is taken, by keys other than the carried one, which is as far from its home
      as it says and follows an entry at most one step less displaced. */
  ghost predicate Spinning(t: seq<Bucket>, hash: Hash, c: Hold, idx: nat) {
    && |t| < 0x1_0000 && Table(t, hash) && AllTaken(t) && !Occurs(t, c.key)
    && idx < |t| && PlacedAt(hash, c.key, c.dist, idx, |t|)
    && (c.dist > 0 ==> t[Back(idx, 1, |t|)].dist >= c.dist - 1)
  }

  /** How far all distances together are below the bound. */
  ghost function Slack(t: seq<Bucket>, n: nat): nat {
    if t == [] then 0
    else
      var d := t[|t| - 1].dist;
      Slack(t[..|t| - 1], n) + if d <= n then n - d else 0
  }

  lemma {:induction false} SlackDrops(t: seq<Bucket>, i: nat, b: Bucket, n: nat)
    requires i < |t| && t[i].dist < b.dist <= n
    ensures Slack(t[i := b], n) < Slack(t, n)
  {
    var last := |t| - 1;
    if i == last {
      assert t[i := b][..last] == t[..last];
    } else {
      SlackDrops(t[..last], i, b, n);
      assert t[i := b][..last] == t[..last][i := b];
    }
  }

  /** Passing an occupied slot: a less displaced entry is exchanged for the carried one. */
  function PassTable(t: seq<Bucket>, c: Hold, idx: nat): seq<Bucket>
    requires idx < |t|
  {
    if t[idx].dist < c.dist then t[idx := Bucket(c.key, c.value, true, c.dist)] else t
  }

  function PassHold(t: seq<Bucket>, c: Hold, idx: nat): Hold
    requires idx < |t|
  {
    if t[idx].dist < c.dist then Hold(t[idx].key, t[idx].value, t[idx].dist) else c
  }

  /** The exchange keeps the table sound and lowers the slack. */
  lemma SpinSwap(t: seq<Bucket>, hash: Hash, c: Hold, idx: nat)
    requires Spinning(t, hash, c, idx) && t[idx].dist < c.dist
    ensures Spinning(PassTable(t, c, idx), hash, PassHold(t, c, idx), idx)
    ensures Slack(PassTable(t, c, idx), |t|) < Slack(t, |t|)
  {
    var b := Bucket(c.key, c.value, true, c.dist);
    Write(t, hash, idx, b);
    SlackDrops(t, idx, b, |t|);
    assert OrderedAt(t, idx);
  }

  /** Past its slot the spinning goes on, until a whole turn has been made. */
  lemma SpinPass(t: seq<Bucket>, hash: Hash, c: Hold, idx: nat)
    requires Spinning(t, hash, c, idx)
    ensures var t', c' := PassTable(t, c, idx), PassHold(t, c, idx);
      && |t'| == |t| && Table(t', hash) && AllTaken(t') && !Occurs(t', c'.key) && c'.dist <= |t|
      && (c'.dist < |t| ==> Spinning(t', hash, c'.(dist := c'.dist + 1), Next(idx, |t|)))
      && ((t' == t && c' == c) || Slack(t', |t|) < Slack(t, |t|))
  {
    if t[idx].dist < c.dist {
      SpinSwap(t, hash, c, idx);
    }
  }

  /** The table at the end, and what is dropped. */
  ghost function Spin(t: seq<Bucket>, hash: Hash, c: Hold, idx: nat): (seq<Bucket>, Hold)
    requires Spinning(t, hash, c, idx)
    decreases Slack(t, |t|), |t| - c.dist
  {
    SpinPass(t, hash, c, idx);
    var t', c' := PassTable(t, c, idx), PassHold(t, c, idx);
    if c'.dist < |t| then Spin(t', hash, c'.(dist := c'.dist + 1), Next(idx, |t|)) else (t', c')
  }

  /** All other entries are at least as far from slot h as their slots are. */
  ghost predicate FarFrom(t: seq<Bucket>, h: nat) {
    h < |t| && forall i :: 0 <= i < |t| && i != h ==> t[i].dist >= Cyc(h, i, |t|)
  }

  /** Past such entries, a carried entry goes once around. */
  lemma {:induction false} Glide(t: seq<Bucket>, hash: Hash, c: Hold, idx: nat, h: nat)
    requires Spinning(t, hash, c, idx) && FarFrom(t, h) && Home(hash, c.key, |t|) == h && 0 < c.dist < |t|
    ensures Spinning(t, hash, c.(dist := |t|), h)
    ensures Spin(t, hash, c, idx) == Spin(t, hash, c.(dist := |t|), h)
    decreases |t| - c.dist
  {
    SpinPass(t, hash, c, idx);
    if c.dist + 1 < |t| {
      Glide(t, hash, c.(dist := c.dist + 1), Next(idx, |t|), h);
    }
  }

  lemma OneTurn(t: seq<Bucket>, hash: Hash, c: Hold, h: nat)
    requires Spinning(t, hash, c, h) && FarFrom(t, h) && c.dist == 0
    ensures Spinning(t, hash, c.(dist := |t|), h)
    ensures Spin(t, hash, c, h) == Spin(t, hash, c.(dist := |t|), h)
  {
    SpinPass(t, hash, c, h);
    Glide(t, hash, c.(dist := 1), Next(h, |t|), h);
  }

  /** Back at its home, the carried entry takes the slot of one that has not moved, which
      then sets out in its place. */
  lemma TakesHome(t: seq<Bucket>, hash: Hash, c: Hold, h: nat)
    requires Spinning(t, hash, c, h) && c.dist == |t| && t[h].dist == 0
    ensures var u, d := PassTable(t, c, h), PassHold(t, c, h);
      Spinning(u, hash, d, h) && Spin(t, hash, c, h) == Spin(u, hash, d, h)
  {
    SpinSwap(t, hash, c, h);
  }

  /** If all keys have one home, a strict full table drops the entry of that slot and keeps
      the new one. */
  lemma DropsStored(t: seq<Bucket>, hash: Hash, c: Hold, h: nat)
    requires Spinning(t, hash, c, h) && c.dist == 0 && Strict(t)
    requires forall i :: 0 <= i < |t| ==> Home(hash, t[i].key, |t|) == h
    ensures Spin(t, hash, c, h)
      == (t[h := Bucket(c.key, c.value, true, |t|)], Hold(t[h].key, t[h].value, |t|))
  {
    forall i | 0 <= i < |t| ensures t[i].dist == Cyc(h, i, |t|) {
      assert PlacedAt(hash, t[i].key, t[i].dist, i, |t|);
    }
    OneTurn(t, hash, c, h);
    var full := c.(dist := |t|);
    TakesHome(t, hash, full, h);
    OneTurn(PassTable(t, full, h), hash, PassHold(t, full, h), h);
  }
}
