/** The radix tree's operations, on linked branch nodes updated in place. */
module RadixTree {
  import opened AddressOrbit
  import opened Basics
  import opened RadixTrie

  datatype RadixTreeError = AddressUnmapped(vaddr: u64)

  datatype Result<T> = Ok(value: T) | Err(error: RadixTreeError)

  class ConcurrentRadixTree {
    const root: Branch
    var entryCount: nat
    ghost var contents: map<u64, RadixLeafValue>
    ghost var index: map<Place, Branch>
    ghost var nodes: set<Branch>
    ghost var kids: Kids

    /** The heap of nodes is what the ghost fields say, and these make a trie. */
    ghost predicate Valid()
      reads this, nodes
    {
      && (forall p :: p in index ==> index[p] in nodes && p in kids && index[p].children == kids[p])
      && Trie(index, kids, contents)
      && index[Place(0, 0)] == root
      && entryCount == |contents|
    }

    constructor ()
      ensures Valid() && fresh(nodes) && contents == map[]
    {
      root := new Branch();
      entryCount := 0;
      contents := map[];
      new;
      index := map[Place(0, 0) := root];
      kids := map[Place(0, 0) := map[]];
      nodes := {root};
    }

    method Lookup(vaddr: u64) returns (r: Result<RadixLeafValue>)
      requires Valid()
      ensures r == if vaddr in contents then Ok(contents[vaddr]) else Err(AddressUnmapped(vaddr))
    {
      var current := Sub(root);
      PrefixOfRoot(vaddr);
      for level := 0 to 4
        invariant level < 4 ==> PlaceOf(vaddr, level) in index && current == Sub(index[PlaceOf(vaddr, level)])
        invariant level == 4 ==> vaddr in contents && current == Leaf(contents[vaddr])
      {
        ghost var p := PlaceOf(vaddr, level);
        PlaceStep(vaddr, level);
        var chunk := ExtractChunk(vaddr, level);
        if chunk !in current.branch.children {
          if vaddr in contents {
            OnPath(index, kids, contents, vaddr, level);
          }
          return Err(AddressUnmapped(vaddr));
        }
        assert ChildOk(index, kids, contents, p, chunk);
        current := current.branch.children[chunk];
      }
      r := Ok(current.value);
    }

    method Insert(vaddr: u64, value: RadixLeafValue) returns (r: Result<()>)
      requires Valid()
      modifies this, nodes
      ensures Valid() && r == Ok(())
      ensures contents == old(contents)[vaddr := value]
      ensures old(nodes) <= nodes && fresh(nodes - old(nodes))
    {
      var current := root;
      PrefixOfRoot(vaddr);
      for level := 0 to 4
        invariant Valid() && contents == old(contents)
        invariant old(nodes) <= nodes && fresh(nodes - old(nodes))
        invariant level < 4 && PlaceOf(vaddr, level) in index && current == index[PlaceOf(vaddr, level)]
      {
        var chunk := ExtractChunk(vaddr, level);
        PlaceStep(vaddr, level);
        if level == 3 {
          SetLeaf(current, chunk, value, vaddr);
          return Ok(());
        }
        current := EnsureChild(current, chunk, PlaceOf(vaddr, level));
      }
    }

    /** The intermediate levels: the child branch, created if it is missing. */
    method EnsureChild(current: Branch, chunk: u16, ghost p: Place) returns (child: Branch)
      requires Valid() && p.level < 3 && p in index && current == index[p]
      modifies this`index, this`kids, this`nodes, current
      ensures Valid() && old(nodes) <= nodes && fresh(nodes - old(nodes))
      ensures Under(p, chunk) in index && child == index[Under(p, chunk)]
    {
      if chunk in current.children {
        assert ChildOk(index, kids, contents, p, chunk);
        child := current.children[chunk].branch;
      } else {
        child := AddChild(current, chunk, p);
      }
    }

    method AddChild(current: Branch, chunk: u16, ghost p: Place) returns (made: Branch)
      requires Valid() && p.level < 3 && p in index && current == index[p] && chunk !in current.children
      modifies this`index, this`kids, this`nodes, current
      ensures Valid() && old(nodes) <= nodes && fresh(nodes - old(nodes))
      ensures Under(p, chunk) in index && made == index[Under(p, chunk)]
    {
      made := new Branch();
      AddBranch(index, kids, contents, p, chunk, made);
      current.children := current.children[chunk := Sub(made)];
      nodes := nodes + {made};
      kids := Hang(kids, p, chunk, Sub(made))[Under(p, chunk) := map[]];
      index := index[Under(p, chunk) := made];
    }

    /** The last level: insert or replace the leaf, counting only new addresses. */
    method SetLeaf(current: Branch, chunk: u16, value: RadixLeafValue, ghost vaddr: u64)
      requires Valid() && PlaceOf(vaddr, 3) in index && current == index[PlaceOf(vaddr, 3)]
      requires chunk == ExtractChunk(vaddr, 3)
      modifies this`contents, this`kids, this`entryCount, current
      ensures Valid() && contents == old(contents)[vaddr := value]
    {
      PutLeaf(index, kids, contents, vaddr, value);
      if chunk !in current.children {
        entryCount := entryCount + 1;
      }
      current.children := current.children[chunk := Leaf(value)];
      kids := Hang(kids, PlaceOf(vaddr, 3), chunk, Leaf(value));
      contents := contents[vaddr := value];
    }

    /** What is mapped at start, start + step, ..., with wrap-around, up to the first of
        these addresses at or beyond the end. None stands for a call that never returns. */
    method LookupRange(start: u64, end: u64, step: u64) returns (r: Option<seq<(u64, RadixLeafValue)>>)
      requires Valid()
      ensures r.Some? <==> Ends(start, end, step)
      ensures r.Some? ==> r.value == Found(contents, Visits(start, end, step))
    {
      ReturnsExactly(start, end, step);
      if !Returns(start, end, step) {
        return None;
      }
      ghost var visits, i := Visits(start, end, step), 0;
      var results: seq<(u64, RadixLeafValue)> := [];
      var curr: u64 := start;
      OrbitStarts(start, end, step);
      while curr < end
        invariant OnOrbit(curr, visits, end, i)
        invariant i < |visits| || visits[..i] == visits
        invariant results == Found(contents, visits[..i])
        decreases |visits| - i
      {
        OrbitOn(start, end, step, curr, i);
        FoundNext(contents, visits, i);
        var found := Lookup(curr);
        if found.Ok? {
          results := results + [(curr, found.value)];
        }
        curr := (curr + step) % U64;
        i := i + 1;
      }
      r := Some(results);
    }
  }

  /** The mapped ones of some addresses, in order, with their values. */
  ghost function Found(m: map<u64, RadixLeafValue>, visits: seq<u64>): seq<(u64, RadixLeafValue)> {
    if visits == [] then []
    else
      var a := visits[|visits| - 1];
      Found(m, visits[..|visits| - 1]) + if a in m then [(a, m[a])] else []
  }

  lemma FoundNext(m: map<u64, RadixLeafValue>, visits: seq<u64>, i: nat)
    requires i < |visits|
    ensures Found(m, visits[..i + 1])
      == Found(m, visits[..i]) + if visits[i] in m then [(visits[i], m[visits[i]])] else []
  {
    assert visits[..i + 1][..i] == visits[..i];
  }

  /** They are listed if and only if they are visited and mapped, in the order of the visits. */
  lemma {:induction false} FoundMembers(m: map<u64, RadixLeafValue>, visits: seq<u64>, p: (u64, RadixLeafValue))
    ensures p in Found(m, visits) <==> p.0 in visits && p.0 in m && m[p.0] == p.1
    ensures (forall i, j :: 0 <= i < j < |visits| ==> visits[i] < visits[j]) ==>
      forall i, j :: 0 <= i < j < |Found(m, visits)| ==> Found(m, visits)[i].0 < Found(m, visits)[j].0
  {
    if visits != [] {
      var n := |visits| - 1;
      var before, a := visits[..n], visits[n];
      FoundMembers(m, before, p);
      assert visits == before + [a];
      if forall i, j :: 0 <= i < j < |visits| ==> visits[i] < visits[j] {
        forall i | 0 <= i < |Found(m, before)| ensures Found(m, before)[i].0 < a {
          FoundMembers(m, before, Found(m, before)[i]);
        }
      }
    }
  }

  /** A range that stays below the end of the address space lists, in ascending order,
      exactly the mapped addresses at multiples of the step. */
  lemma RangeStraight(m: map<u64, RadixLeafValue>, start: u64, end: u64, step: u64, p: (u64, RadixLeafValue))
    requires start < end && step > 0 && Stop(start, end, step) < U64
    ensures Ends(start, end, step)
    ensures var r := Found(m, Visits(start, end, step));
      && (p in r <==> start <= p.0 < end && (p.0 - start) % step == 0 && p.0 in m && m[p.0] == p.1)
      && forall i, j :: 0 <= i < j < |r| ==> r[i].0 < r[j].0
  {
    VisitsStraight(start, end, step, p.0);
    FoundMembers(m, Visits(start, end, step), p);
  }
}
