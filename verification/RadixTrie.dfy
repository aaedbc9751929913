/** The 4-level, 16-bit radix tree over 64-bit addresses: its nodes, the places they have,
    and what a well-formed tree is. */
module RadixTrie {
  import opened Basics

  datatype RadixLeafValue = RadixLeafValue(blockKey: nat, frameOffset: nat, flags: nat)

  class Branch {
    var children: map<u16, Node>

    constructor ()
      ensures children == map[]
    {
      children := map[];
    }
  }

  datatype Node = Sub(branch: Branch) | Leaf(value: RadixLeafValue)

  // ---------- Addresses ----------

  /** `vaddr >> (64 - 16 * level)`: the part of an address above a level. */
  function Prefix(a: u64, level: nat): (r: u64)
    requires level <= 4
    decreases 4 - level
  {
    if level == 4 then a else Prefix(a, level + 1) / 0x1_0000
  }

  /** `(vaddr >> ((3 - level) * 16)) & 0xFFFF` */
  function ExtractChunk(a: u64, level: nat): u16
    requires level < 4
  {
    Prefix(a, level + 1) % 0x1_0000
  }

  lemma PrefixOfRoot(a: u64)
    ensures Prefix(a, 0) == 0
  {
    assert Prefix(a, 3) == a / 0x1_0000;
    assert Prefix(a, 2) == a / 0x1_0000_0000;
    assert Prefix(a, 1) == a / 0x1_0000_0000_0000;
  }

  /** The chunks of two addresses agree exactly when the addresses do. */
  lemma {:induction false} ChunksDetermine(a: u64, b: u64, level: nat)
    requires level <= 4
    requires forall l :: 0 <= l < level ==> ExtractChunk(a, l) == ExtractChunk(b, l)
    ensures Prefix(a, level) == Prefix(b, level)
    ensures level == 4 ==> a == b
  {
    if level == 0 {
      PrefixOfRoot(a);
      PrefixOfRoot(b);
    } else {
      ChunksDetermine(a, b, level - 1);
      assert ExtractChunk(a, level - 1) == ExtractChunk(b, level - 1);
    }
  }

  /** They are its base-65536 digits, the highest first. */
  lemma ChunksCompose(a: u64)
    ensures a == 0x1_0000_0000_0000 * ExtractChunk(a, 0) + 0x1_0000_0000 * ExtractChunk(a, 1)
                 + 0x1_0000 * ExtractChunk(a, 2) + ExtractChunk(a, 3)
  {
    PrefixOfRoot(a);
    assert forall l :: 0 <= l < 4 ==> Prefix(a, l + 1) == 0x1_0000 * Prefix(a, l) + ExtractChunk(a, l);
    assert Prefix(a, 1) == ExtractChunk(a, 0);
    assert Prefix(a, 2) == 0x1_0000 * Prefix(a, 1) + ExtractChunk(a, 1);
    assert Prefix(a, 3) == 0x1_0000 * Prefix(a, 2) + ExtractChunk(a, 2);
  }

  /** Where a branch stands: its level and the address bits above it. */
  datatype Place = Place(level: nat, prefix: nat)

  function Under(p: Place, c: u16): Place {
    Place(p.level + 1, 0x1_0000 * p.prefix + c)
  }

  lemma UnderInjective(p: Place, c: u16, q: Place, d: u16)
    ensures Under(p, c) == Under(q, d) ==> p == q && c == d
  {
  }

  function PlaceOf(a: u64, level: nat): Place
    requires level <= 4
  {
    Place(level, Prefix(a, level))
  }

  /** A place and the next chunk make the next place on an address's path. */
  lemma PlaceStep(a: u64, level: nat)
    requires level < 4
    ensures PlaceOf(a, level + 1) == Under(PlaceOf(a, level), ExtractChunk(a, level))
  {
  }

  // ---------- The trie, as a map from places to children ----------

  type Kids = map<Place, map<u16, Node>>

  function Hang(kids: Kids, p: Place, c: u16, n: Node): Kids
    requires p in kids
  {
    var siblings: map<u16, Node> := kids[p];
    var siblings': map<u16, Node> := siblings[c := n];
    kids[p := siblings']
  }

  /** A child is a branch of the next level or, at the last level, a leaf of the map. */
  ghost predicate ChildOk(index: map<Place, Branch>, kids: Kids, m: map<u64, RadixLeafValue>, p: Place, c: u16) {
    p in kids && c in kids[p] ==>
      var child := kids[p][c];
      if p.level < 3 then child.Sub? && Under(p, c) in index && index[Under(p, c)] == child.branch
      else
        var a := Under(p, c).prefix;
        child.Leaf? && a < U64 && a in m && m[a] == child.value
  }

  /** A branch other than the root hangs under its parent's chunk. */
  ghost predicate ParentOk(kids: Kids, p: Place) {
    p in kids && p.level > 0 ==>
      var q := Place(p.level - 1, p.prefix / 0x1_0000);
      q in kids && (p.prefix % 0x1_0000) in kids[q]
  }

  ghost predicate LeafOk(kids: Kids, a: u64) {
    PlaceOf(a, 3) in kids && ExtractChunk(a, 3) in kids[PlaceOf(a, 3)]
  }

  ghost predicate Trie(index: map<Place, Branch>, kids: Kids, m: map<u64, RadixLeafValue>) {
    && kids.Keys == index.Keys && Place(0, 0) in index
    && (forall p :: p in index ==> p.level <= 3)
    && (forall p, q :: p in index && q in index && index[p] == index[q] ==> p == q)
    && (forall p, c {:trigger ChildOk(index, kids, m, p, c)} :: ChildOk(index, kids, m, p, c))
    && (forall p {:trigger ParentOk(kids, p)} :: ParentOk(kids, p))
    && (forall a {:trigger LeafOk(kids, a)} :: a in m ==> LeafOk(kids, a))
  }

  /** Every branch on the way down to a mapped address exists. */
  lemma {:induction false} OnPath(index: map<Place, Branch>, kids: Kids, m: map<u64, RadixLeafValue>,
                                  a: u64, level: nat)
    requires Trie(index, kids, m) && level < 4 && a in m
    ensures PlaceOf(a, level) in kids && ExtractChunk(a, level) in kids[PlaceOf(a, level)]
    decreases 3 - level
  {
    if level == 3 {
      assert LeafOk(kids, a);
    } else {
      OnPath(index, kids, m, a, level + 1);
      assert ParentOk(kids, PlaceOf(a, level + 1));
      PlaceStep(a, level);
    }
  }

  /** Hanging an empty branch under a free chunk keeps the trie and its map. */
  lemma AddBranch(index: map<Place, Branch>, kids: Kids, m: map<u64, RadixLeafValue>, p: Place, c: u16, b: Branch)
    requires Trie(index, kids, m) && p in index && p.level < 3 && c !in kids[p] && b !in index.Values
    ensures Under(p, c) !in index
    ensures Trie(index[Under(p, c) := b], Hang(kids, p, c, Sub(b))[Under(p, c) := map[]], m)
  {
    var q := Under(p, c);
    assert ParentOk(kids, q);
    var index', kids' := index[q := b], Hang(kids, p, c, Sub(b))[q := map[]];
    forall x, d ensures ChildOk(index', kids', m, x, d) {
      assert ChildOk(index, kids, m, x, d);
    }
    forall x ensures ParentOk(kids', x) {
      assert ParentOk(kids, x);
    }
    forall a | a in m ensures LeafOk(kids', a) {
      assert LeafOk(kids, a);
    }
  }

  /** Writing a leaf changes the map at that address only. */
  lemma PutLeaf(index: map<Place, Branch>, kids: Kids, m: map<u64, RadixLeafValue>, a: u64, v: RadixLeafValue)
    requires Trie(index, kids, m) && PlaceOf(a, 3) in index
    ensures var p, c := PlaceOf(a, 3), ExtractChunk(a, 3);
      && Trie(index, Hang(kids, p, c, Leaf(v)), m[a := v])
      && |m[a := v]| == if c in kids[p] then |m| else |m| + 1
  {
    var p, c := PlaceOf(a, 3), ExtractChunk(a, 3);
    var kids', m' := Hang(kids, p, c, Leaf(v)), m[a := v];
    LeafCounts(index, kids, m, a, v);
    forall x, d ensures ChildOk(index, kids', m', x, d) {
      LeafAmongOthers(index, kids, m, a, v, x, d);
    }
    forall x ensures ParentOk(kids', x) {
      assert ParentOk(kids, x);
    }
    forall b | b in m' ensures LeafOk(kids', b) {
      assert b != a ==> LeafOk(kids, b);
    }
  }

  lemma LeafCounts(index: map<Place, Branch>, kids: Kids, m: map<u64, RadixLeafValue>, a: u64, v: RadixLeafValue)
    requires Trie(index, kids, m) && PlaceOf(a, 3) in index
    ensures |m[a := v]| == if ExtractChunk(a, 3) in kids[PlaceOf(a, 3)] then |m| else |m| + 1
  {
    PlaceStep(a, 3);
    assert ChildOk(index, kids, m, PlaceOf(a, 3), ExtractChunk(a, 3));
    if a in m {
      OnPath(index, kids, m, a, 3);
      assert m[a := v].Keys == m.Keys;
    }
  }

  /** The other children stand for other places, so they are as before. */
  lemma LeafAmongOthers(index: map<Place, Branch>, kids: Kids, m: map<u64, RadixLeafValue>, a: u64,
                        v: RadixLeafValue, x: Place, d: u16)
    requires Trie(index, kids, m) && PlaceOf(a, 3) in index
    ensures ChildOk(index, Hang(kids, PlaceOf(a, 3), ExtractChunk(a, 3), Leaf(v)), m[a := v], x, d)
  {
    PlaceStep(a, 3);
    assert ChildOk(index, kids, m, x, d);
    UnderInjective(x, d, PlaceOf(a, 3), ExtractChunk(a, 3));
  }
}
