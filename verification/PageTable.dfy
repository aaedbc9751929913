/** The control plane's page table: regions, and one coherence entry for each page
    base of a live region. */
module PageTable {
  import opened AddressOrbit
  import opened Basics
  import opened Division

  type NodeId = nat
  type RegionId = nat

  datatype Coherence = Invalid | SharedRead | ExclusiveWrite | InFlight

  datatype Region = Region(id: RegionId, mainVaddr: u64, size: u64, stagingPageSize: u64) {
    function PageSize(): (r: u64)
      ensures r >= 4096
    {
      if stagingPageSize < 4096 then 4096 else stagingPageSize
    }

    function End(): u64 {
      (mainVaddr + size) % U64
    }

    /** Whether the loop over the region ends. */
    ghost predicate Finite() {
      Ends(mainVaddr, End(), PageSize())
    }

    /** The address that the loop visits in round i. */
    ghost function At(i: nat): u64 {
      Orbit(mainVaddr, PageSize(), i)
    }

    /** All addresses that it visits, if it ends. */
    ghost function Pages(): seq<u64>
      requires Finite()
    {
      Visits(mainVaddr, End(), PageSize())
    }

    /** The region lies below the end of the address space, with its last page. */
    ghost predicate Fits() {
      size > 0 && mainVaddr + size < U64 && Stop(mainVaddr, mainVaddr + size, PageSize()) < U64
    }

    ghost function Bases(): set<u64> {
      if Finite() then set a | a in Pages() else {}
    }
  }

  /** The bases of a region that fits are the starts of its pages. */
  lemma BasesOfFitting(d: Region, a: u64)
    requires d.Fits()
    ensures d.Finite()
    ensures a in d.Bases() <==> d.mainVaddr <= a < d.mainVaddr + d.size && (a - d.mainVaddr) % d.PageSize() == 0
  {
    VisitsStraight(d.mainVaddr, d.End(), d.PageSize(), a);
  }

  lemma StartIsBase(d: Region)
    requires d.Fits()
    ensures d.mainVaddr in d.Bases()
  {
    DivUnique(0, d.PageSize(), 0, 0);
    BasesOfFitting(d, d.mainVaddr);
  }

  /** A loop that does not end visits exactly the addresses with the residue of the start
      modulo the lowest bit of the page size, and all of them are below the end. */
  lemma EndlessPages(d: Region, a: u64)
    requires !d.Finite()
    ensures InOrbit(d.mainVaddr, d.PageSize(), a) <==> a % LowBit(d.PageSize()) == d.mainVaddr % LowBit(d.PageSize())
    ensures InOrbit(d.mainVaddr, d.PageSize(), a) ==> a < d.End()
  {
    OrbitExactly(d.mainVaddr, d.PageSize(), a);
    if InOrbit(d.mainVaddr, d.PageSize(), a) {
      var i :| Orbit(d.mainVaddr, d.PageSize(), i) == a;
      StaysInside(d, i);
    }
  }

  lemma StaysInside(d: Region, i: nat)
    requires !d.Finite()
    ensures d.At(i) < d.End()
  {
    if d.At(i) >= d.End() {
      FirstOutside(d.mainVaddr, d.End(), d.PageSize(), i);
    }
  }

  datatype PageEntry = PageEntry(vaddr: nat, pageSize: nat, state: Coherence, owner: NodeId, holders: seq<NodeId>,
                                 version: nat, metadata: seq<int>)

  datatype PlaneError = RegionAlreadyExists(id: RegionId) | RegionNotFound(id: RegionId)

  /** Endless stands for a call that never returns. */
  datatype Result = Ok | Err(error: PlaneError) | Endless

  function NewEntry(a: nat, pageSize: nat, owner: NodeId, metadata: seq<int>): PageEntry {
    PageEntry(a, pageSize, Invalid, owner, [], 0, metadata)
  }

  function Remove(holders: seq<NodeId>, n: NodeId): (r: seq<NodeId>)
    ensures forall x :: x in r <==> x in holders && x != n
  {
    if holders == [] then []
    else Remove(holders[..|holders| - 1], n) + if holders[|holders| - 1] == n then [] else [holders[|holders| - 1]]
  }

  // ---------- The specification of one call ----------

  /** A round is one of a registration whose loop does not end. */
  datatype Event =
    | Register(region: Region, metadata: seq<int>)
    | Round(region: Region, metadata: seq<int>, i: nat)
    | Deregister(id: RegionId)
    | Update(vaddr: nat, state: Coherence, owner: NodeId)
    | AddReader(vaddr: nat, node: NodeId)
    | RemoveReader(vaddr: nat, node: NodeId)

  datatype Plane = Plane(node: NodeId, regions: map<RegionId, Region>, pages: map<nat, PageEntry>)

  ghost function Updated(e: PageEntry, state: Coherence, owner: NodeId): PageEntry {
    if state.ExclusiveWrite? then e.(state := state, owner := owner, version := e.version + 1, holders := [])
    else e.(state := state, owner := owner)
  }

  ghost function WithReader(e: PageEntry, n: NodeId): PageEntry {
    if n in e.holders then e else e.(holders := e.holders + [n])
  }

  /** Fresh entries for some pages. */
  ghost function Entries(pages: seq<u64>, pageSize: nat, node: NodeId, metadata: seq<int>): map<nat, PageEntry> {
    map a | a in pages :: NewEntry(a, pageSize, node, metadata)
  }

  /** A registration that does not end is not one step but a step for each round. */
  ghost function Next(s: Plane, e: Event): Plane {
    match e
    case Register(d, metadata) =>
      if d.id in s.regions || !d.Finite() then s
      else s.(regions := s.regions[d.id := d], pages := s.pages + Entries(d.Pages(), d.PageSize(), s.node, metadata))
    case Round(d, metadata, i) =>
      if d.Finite() then s else s.(pages := s.pages[d.At(i) := NewEntry(d.At(i), d.PageSize(), s.node, metadata)])
    case Deregister(id) =>
      if id !in s.regions then s
      else s.(regions := s.regions - {id}, pages := s.pages - s.regions[id].Bases())
    case Update(a, state, owner) =>
      if a !in s.pages then s else s.(pages := s.pages[a := Updated(s.pages[a], state, owner)])
    case AddReader(a, n) =>
      if a !in s.pages then s else s.(pages := s.pages[a := WithReader(s.pages[a], n)])
    case RemoveReader(a, n) =>
      if a !in s.pages then s
      else s.(pages := s.pages[a := s.pages[a].(holders := Remove(s.pages[a].holders, n))])
  }

  /** The first rounds of a registration. */
  ghost function AfterRounds(s: Plane, d: Region, metadata: seq<int>, n: nat): Plane {
    if n == 0 then s else Next(AfterRounds(s, d, metadata, n - 1), Round(d, metadata, n - 1))
  }

  lemma EnterOne(pages: map<nat, PageEntry>, visits: seq<u64>, i: nat, pageSize: nat, node: NodeId, metadata: seq<int>)
    requires i < |visits|
    ensures pages + Entries(visits[..i + 1], pageSize, node, metadata)
      == (pages + Entries(visits[..i], pageSize, node, metadata))
           [visits[i] := NewEntry(visits[i], pageSize, node, metadata)]
  {
    assert visits[..i + 1] == visits[..i] + [visits[i]];
  }

  ghost function Without(pages: map<nat, PageEntry>, visits: seq<u64>): map<nat, PageEntry> {
    pages - set a | a in visits
  }

  lemma ClearOne(pages: map<nat, PageEntry>, visits: seq<u64>, i: nat)
    requires i < |visits|
    ensures Without(pages, visits[..i + 1]) == Without(pages, visits[..i]) - {visits[i]}
  {
    assert visits[..i + 1] == visits[..i] + [visits[i]];
  }

  class ControlPlane {
    const localNode: NodeId
    var regions: map<RegionId, Region>
    var pageStates: map<nat, PageEntry>

    ghost function State(): Plane
      reads this
    {
      Plane(localNode, regions, pageStates)
    }

    /** Only regions whose loop ends are stored. */
    ghost predicate Valid()
      reads this
    {
      forall id :: id in regions ==> regions[id].Finite()
    }

    constructor (node: NodeId)
      ensures Valid() && State() == Plane(node, map[], map[])
    {
      localNode := node;
      regions := map[];
      pageStates := map[];
    }

    /** A registration that does not end is observed after some rounds. */
    method RegisterRegion(d: Region, metadata: seq<int>, rounds: nat) returns (res: Result)
      requires Valid()
      modifies this
      ensures Valid()
      ensures res == if d.id in old(regions) then Err(RegionAlreadyExists(d.id)) else if d.Finite() then Ok else Endless
      ensures State() == if res.Endless? then AfterRounds(old(State()), d, metadata, rounds)
                         else Next(old(State()), Register(d, metadata))
    {
      if d.id in regions {
        return Err(RegionAlreadyExists(d.id));
      }
      ReturnsExactly(d.mainVaddr, d.End(), d.PageSize());
      if !Returns(d.mainVaddr, d.End(), d.PageSize()) {
        EnterRounds(d, metadata, rounds);
        return Endless;
      }
      EnterPages(d, metadata);
      regions := regions[d.id := d];
      res := Ok;
    }

    /** The first rounds of a registration loop that does not end. */
    method EnterRounds(d: Region, metadata: seq<int>, rounds: nat)
      requires !d.Finite()
      modifies this`pageStates
      ensures State() == AfterRounds(old(State()), d, metadata, rounds)
    {
      var curr: u64 := d.mainVaddr;
      for i := 0 to rounds
        invariant curr == d.At(i) && State() == AfterRounds(old(State()), d, metadata, i)
      {
        StaysInside(d, i);
        assert curr < d.End();
        pageStates := pageStates[curr := NewEntry(curr, d.PageSize(), localNode, metadata)];
        curr := (curr + d.PageSize()) % U64;
      }
    }

    /** The registration loop. */
    method EnterPages(d: Region, metadata: seq<int>)
      requires d.Finite()
      modifies this`pageStates
      ensures pageStates == old(pageStates) + Entries(d.Pages(), d.PageSize(), localNode, metadata)
    {
      ghost var visits, i := d.Pages(), 0;
      var curr: u64 := d.mainVaddr;
      OrbitStarts(d.mainVaddr, d.End(), d.PageSize());
      while curr < d.End()
        invariant OnOrbit(curr, visits, d.End(), i)
        invariant i < |visits| || visits[..i] == visits
        invariant pageStates == old(pageStates) + Entries(visits[..i], d.PageSize(), localNode, metadata)
        decreases |visits| - i
      {
        OrbitOn(d.mainVaddr, d.End(), d.PageSize(), curr, i);
        EnterOne(old(pageStates), visits, i, d.PageSize(), localNode, metadata);
        pageStates := pageStates[curr := NewEntry(curr, d.PageSize(), localNode, metadata)];
        curr := (curr + d.PageSize()) % U64;
        i := i + 1;
      }
    }

    method DeregisterRegion(id: RegionId) returns (res: Result)
      requires Valid()
      modifies this
      ensures Valid() && State() == Next(old(State()), Deregister(id))
      ensures res == if id in old(regions) then Ok else Err(RegionNotFound(id))
    {
      if id !in regions {
        return Err(RegionNotFound(id));
      }
      var d := regions[id];
      regions := regions - {id};
      ClearPages(d);
      res := Ok;
    }

    /** The removal loop. */
    method ClearPages(d: Region)
      requires d.Finite()
      modifies this`pageStates
      ensures pageStates == old(pageStates) - d.Bases()
    {
      ghost var visits, i := d.Pages(), 0;
      var curr: u64 := d.mainVaddr;
      OrbitStarts(d.mainVaddr, d.End(), d.PageSize());
      while curr < d.End()
        invariant OnOrbit(curr, visits, d.End(), i)
        invariant i < |visits| || visits[..i] == visits
        invariant pageStates == Without(old(pageStates), visits[..i])
        decreases |visits| - i
      {
        OrbitOn(d.mainVaddr, d.End(), d.PageSize(), curr, i);
        ClearOne(old(pageStates), visits, i);
        pageStates := pageStates - {curr};
        curr := (curr + d.PageSize()) % U64;
        i := i + 1;
      }
    }

    method UpdatePageState(a: nat, state: Coherence, owner: NodeId) returns (known: bool)
      modifies this
      ensures State() == Next(old(State()), Update(a, state, owner)) && known == (a in old(pageStates))
      ensures known ==> a in pageStates && pageStates[a].state == state && pageStates[a].owner == owner
    {
      if a !in pageStates {
        return false;
      }
      var entry := pageStates[a].(state := state, owner := owner);
      if state == ExclusiveWrite {
        entry := entry.(version := entry.version + 1, holders := []);
      }
      pageStates := pageStates[a := entry];
      known := true;
    }

    method AddReaderNode(a: nat, n: NodeId) returns (known: bool)
      modifies this
      ensures State() == Next(old(State()), AddReader(a, n)) && known == (a in old(pageStates))
    {
      if a !in pageStates {
        return false;
      }
      if n !in pageStates[a].holders {
        pageStates := pageStates[a := pageStates[a].(holders := pageStates[a].holders + [n])];
      }
      known := true;
    }

    method RemoveReaderNode(a: nat, n: NodeId) returns (known: bool)
      modifies this
      ensures State() == Next(old(State()), RemoveReader(a, n)) && known == (a in old(pageStates))
    {
      if a !in pageStates {
        return false;
      }
      pageStates := pageStates[a := pageStates[a].(holders := Remove(pageStates[a].holders, n))];
      known := true;
    }
  }
}
