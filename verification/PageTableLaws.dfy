/** What every run of control-plane calls keeps, and exactly when. */
module PageTableLaws {
  import opened Basics
  import opened AddressOrbit
  import opened PageTable

  ghost function Run(node: NodeId, events: seq<Event>): Plane {
    if events == [] then Plane(node, map[], map[])
    else Next(Run(node, events[..|events| - 1]), events[|events| - 1])
  }

  // ---------- The table covers the live regions ----------

  ghost predicate Live(regions: map<RegionId, Region>, a: nat) {
    exists id :: id in regions && a in regions[id].Bases()
  }

  /** The entries are exactly those of the live regions' page bases. */
  ghost predicate Covers(s: Plane) {
    forall a :: a in s.pages <==> Live(s.regions, a)
  }

  /** A region shares no page base with the other live regions. */
  ghost predicate Apart(s: Plane, id: RegionId)
    requires id in s.regions
  {
    forall a :: a in s.regions[id].Bases() ==> !Live(s.regions - {id}, a)
  }

  /** A removed region shares no base with the other live regions, and a registration that
      does not end only enters pages that live regions have. */
  ghost predicate Tidy(s: Plane, e: Event) {
    && (e.Deregister? && e.id in s.regions ==> Apart(s, e.id))
    && (e.Round? && !e.region.Finite() ==> Live(s.regions, e.region.At(e.i)))
  }

  lemma LiveWith(regions: map<RegionId, Region>, d: Region, a: nat)
    requires d.id !in regions
    ensures Live(regions[d.id := d], a) <==> Live(regions, a) || a in d.Bases()
  {
    var regions' := regions[d.id := d];
    if Live(regions, a) {
      var id :| id in regions && a in regions[id].Bases();
      assert id in regions' && a in regions'[id].Bases();
    }
    assert d.id in regions' && regions'[d.id] == d;
  }

  lemma LiveWithout(regions: map<RegionId, Region>, id: RegionId, a: nat)
    requires id in regions
    ensures Live(regions, a) <==> Live(regions - {id}, a) || a in regions[id].Bases()
  {
    if Live(regions, a) && a !in regions[id].Bases() {
      var other :| other in regions && a in regions[other].Bases();
      assert other in regions - {id};
    }
    if Live(regions - {id}, a) {
      var other :| other in regions - {id} && a in regions[other].Bases();
      assert other in regions;
    }
  }

  /** Every call keeps the cover, except that removing a region keeps it exactly when
      the region shares no base with another, as shared entries go with the first owner, and
      a registration that does not end keeps it exactly while it enters no new page. */
  lemma CoverKeptExactly(s: Plane, e: Event)
    requires Covers(s)
    ensures Covers(Next(s, e)) <==> Tidy(s, e)
  {
    var s' := Next(s, e);
    if e.Register? && e.region.id !in s.regions && e.region.Finite() {
      forall a ensures a in s'.pages <==> Live(s'.regions, a) {
        LiveWith(s.regions, e.region, a);
      }
    } else if e.Deregister? && e.id in s.regions {
      forall a ensures a in s'.pages <==> Live(s.regions - {e.id}, a) && a !in s.regions[e.id].Bases() {
        LiveWithout(s.regions, e.id, a);
      }
      if Covers(s') {
        forall a | a in s.regions[e.id].Bases() ensures !Live(s.regions - {e.id}, a) {
          assert a !in s'.pages;
        }
      }
    }
  }

  ghost predicate CoversAt(node: NodeId, events: seq<Event>, n: nat)
    requires n <= |events|
  {
    Covers(Run(node, events[..n]))
  }

  ghost predicate TidyAt(node: NodeId, events: seq<Event>, n: nat)
    requires n < |events|
  {
    Tidy(Run(node, events[..n]), events[n])
  }

  lemma CoverStep(node: NodeId, events: seq<Event>, n: nat)
    requires n < |events| && CoversAt(node, events, n)
    ensures CoversAt(node, events, n + 1) <==> TidyAt(node, events, n)
  {
    assert events[..n + 1][..n] == events[..n];
    CoverKeptExactly(Run(node, events[..n]), events[n]);
  }

  lemma {:induction false} TidyCovers(node: NodeId, events: seq<Event>, n: nat)
    requires n <= |events| && forall m :: 0 <= m < n ==> TidyAt(node, events, m)
    ensures CoversAt(node, events, n)
  {
    if n > 0 {
      TidyCovers(node, events, n - 1);
      CoverStep(node, events, n - 1);
    }
  }

  /** Over whole runs: the table covers the live regions at every moment exactly when
      every step along the run is tidy. */
  lemma CoverExactly(node: NodeId, events: seq<Event>)
    ensures (forall n :: 0 <= n <= |events| ==> CoversAt(node, events, n))
      <==> (forall n :: 0 <= n < |events| ==> TidyAt(node, events, n))
  {
    if forall n :: 0 <= n < |events| ==> TidyAt(node, events, n) {
      forall n | 0 <= n <= |events| ensures CoversAt(node, events, n) {
        TidyCovers(node, events, n);
      }
    }
    if forall n :: 0 <= n <= |events| ==> CoversAt(node, events, n) {
      forall n | 0 <= n < |events| ensures TidyAt(node, events, n) {
        assert CoversAt(node, events, n) && CoversAt(node, events, n + 1);
        CoverStep(node, events, n);
      }
    }
  }

  /** Two regions that share a base: removing the first takes the entry from the second. */
  lemma SharedBaseLost(node: NodeId, d: Region, d': Region, a: u64, metadata: seq<int>)
    requires d.id != d'.id && a in d.Bases() && a in d'.Bases()
    ensures !Covers(Run(node, [Register(d, metadata), Register(d', metadata), Deregister(d.id)]))
  {
    var e1, e2, e3 := Register(d, metadata), Register(d', metadata), Deregister(d.id);
    var s1 := RunStep(node, [], e1);
    var s2 := RunStep(node, [e1], e2);
    var s3 := RunStep(node, [e1, e2], e3);
    assert [] + [e1] == [e1] && [e1] + [e2] == [e1, e2] && [e1, e2] + [e3] == [e1, e2, e3];
    assert s1.regions == map[d.id := d];
    assert s2.regions == map[d.id := d, d'.id := d'];
    assert s3.regions[d'.id] == d' && a !in s3.pages;
    assert Live(s3.regions, a);
  }

  lemma RunStep(node: NodeId, events: seq<Event>, e: Event) returns (s: Plane)
    ensures s == Run(node, events + [e]) == Next(Run(node, events), e)
  {
    s := Run(node, events + [e]);
    assert (events + [e])[..|events|] == events;
  }

  /** Such regions exist: two that start at the same address. */
  lemma CoverCanFail(node: NodeId) returns (d: Region, d': Region)
    ensures d.Fits() && d'.Fits()
    ensures !Covers(Run(node, [Register(d, []), Register(d', []), Deregister(d.id)]))
  {
    d, d' := Region(0, 4096, 4096, 4096), Region(1, 4096, 4096, 4096);
    assert Stop(4096, 8192, 4096) == 8192;
    StartIsBase(d);
    StartIsBase(d');
    SharedBaseLost(node, d, d', 4096, []);
  }

  // ---------- Versions and readers ----------

  /** The registration of a new region resets the entry of its bases, at once or in rounds. */
  ghost predicate Resets(s: Plane, e: Event, a: nat) {
    || (e.Register? && e.region.id !in s.regions && a in e.region.Bases())
    || (e.Round? && !e.region.Finite() && e.region.At(e.i) == a)
  }

  /** What any other event does to the entry of a page. */
  ghost function Touched(p: PageEntry, e: Event, a: nat): PageEntry {
    match e
    case Update(b, state, owner) => if b == a then Updated(p, state, owner) else p
    case AddReader(b, n) => if b == a then WithReader(p, n) else p
    case RemoveReader(b, n) => if b == a then p.(holders := Remove(p.holders, n)) else p
    case _ => p
  }

  lemma EntryStep(s: Plane, e: Event, a: nat)
    requires a in Next(s, e).pages && !Resets(s, e, a)
    ensures a in s.pages && Next(s, e).pages[a] == Touched(s.pages[a], e, a)
  {
  }

  /** How often a page was taken for exclusive writing since it was last registered. */
  ghost function Writes(node: NodeId, events: seq<Event>, a: nat): nat {
    if events == [] then 0
    else
      var before, e := events[..|events| - 1], events[|events| - 1];
      if Resets(Run(node, before), e, a) then 0
      else Writes(node, before, a) + if e.Update? && e.vaddr == a && e.state == ExclusiveWrite then 1 else 0
  }

  /** Whether the last event about a page and a node made the node a reader. */
  ghost predicate Reads(node: NodeId, events: seq<Event>, a: nat, n: NodeId) {
    if events == [] then false
    else
      var before, e := events[..|events| - 1], events[|events| - 1];
      if Resets(Run(node, before), e, a) || (e.Update? && e.vaddr == a && e.state == ExclusiveWrite)
         || e == RemoveReader(a, n) then false
      else e == AddReader(a, n) || Reads(node, before, a, n)
  }

  lemma {:induction false} VersionCountsWrites(node: NodeId, events: seq<Event>, a: nat)
    requires a in Run(node, events).pages
    ensures Run(node, events).pages[a].version == Writes(node, events, a)
  {
    var before, e := events[..|events| - 1], events[|events| - 1];
    if !Resets(Run(node, before), e, a) {
      EntryStep(Run(node, before), e, a);
      VersionCountsWrites(node, before, a);
    }
  }

  lemma {:induction false} HoldersAreReaders(node: NodeId, events: seq<Event>, a: nat, n: NodeId)
    requires a in Run(node, events).pages
    ensures n in Run(node, events).pages[a].holders <==> Reads(node, events, a, n)
  {
    var before, e := events[..|events| - 1], events[|events| - 1];
    if !Resets(Run(node, before), e, a) {
      EntryStep(Run(node, before), e, a);
      HoldersAreReaders(node, before, a, n);
    }
  }

  lemma {:induction false} RemoveDistinct(holders: seq<NodeId>, n: NodeId)
    requires Distinct(holders)
    ensures Distinct(Remove(holders, n))
  {
    if holders != [] {
      var last := |holders| - 1;
      RemoveDistinct(holders[..last], n);
      assert holders[last] !in holders[..last];
    }
  }

  /** No page ever lists a reader twice. */
  lemma {:induction false} HoldersDistinct(node: NodeId, events: seq<Event>, a: nat)
    requires a in Run(node, events).pages
    ensures Distinct(Run(node, events).pages[a].holders)
  {
    var before, e := events[..|events| - 1], events[|events| - 1];
    if !Resets(Run(node, before), e, a) {
      EntryStep(Run(node, before), e, a);
      HoldersDistinct(node, before, a);
      if e.RemoveReader? {
        RemoveDistinct(Run(node, before).pages[a].holders, e.node);
      }
    }
  }

  /** When a node became a reader of a page. */
  ghost function ReaderSince(node: NodeId, events: seq<Event>, a: nat, n: NodeId): nat {
    if events == [] then 0
    else
      var before, e := events[..|events| - 1], events[|events| - 1];
      if e == AddReader(a, n) && !Reads(node, before, a, n) then |before| else ReaderSince(node, before, a, n)
  }

  ghost predicate Sorted(holders: seq<NodeId>, since: NodeId -> nat) {
    forall i, j :: 0 <= i < j < |holders| ==> since(holders[i]) < since(holders[j])
  }

  lemma {:induction false} RemoveSorted(holders: seq<NodeId>, n: NodeId, since: NodeId -> nat)
    requires Sorted(holders, since)
    ensures Sorted(Remove(holders, n), since)
  {
    if holders != [] {
      var last := |holders| - 1;
      RemoveSorted(holders[..last], n, since);
      forall x | x in Remove(holders[..last], n) ensures since(x) < since(holders[last]) {
        assert x in holders[..last];
      }
    }
  }

  lemma TouchedSorted(p: PageEntry, e: Event, a: nat, since: NodeId -> nat, now: nat)
    requires Sorted(p.holders, since) && forall n :: n in p.holders ==> since(n) < now
    requires e.AddReader? && e.vaddr == a && e.node !in p.holders ==> since(e.node) == now
    ensures Sorted(Touched(p, e, a).holders, since)
    ensures forall n :: n in Touched(p, e, a).holders ==> since(n) <= now
  {
    if e.RemoveReader? {
      RemoveSorted(p.holders, e.node, since);
    }
  }

  lemma SinceKept(node: NodeId, events: seq<Event>, a: nat, n: NodeId)
    requires events != [] && a in Run(node, events[..|events| - 1]).pages
    ensures var before, e := events[..|events| - 1], events[|events| - 1];
      ReaderSince(node, events, a, n)
      == if e == AddReader(a, n) && n !in Run(node, before).pages[a].holders then |before|
         else ReaderSince(node, before, a, n)
  {
    HoldersAreReaders(node, events[..|events| - 1], a, n);
  }

  /** The readers of a page are listed in the order in which they came. */
  lemma {:induction false} HoldersInOrder(node: NodeId, events: seq<Event>, a: nat)
    requires a in Run(node, events).pages
    ensures Sorted(Run(node, events).pages[a].holders, n => ReaderSince(node, events, a, n))
    ensures forall n :: n in Run(node, events).pages[a].holders ==> ReaderSince(node, events, a, n) < |events|
  {
    var before, e := events[..|events| - 1], events[|events| - 1];
    if !Resets(Run(node, before), e, a) {
      EntryStep(Run(node, before), e, a);
      HoldersInOrder(node, before, a);
      forall n {
        SinceKept(node, events, a, n);
      }
      TouchedSorted(Run(node, before).pages[a], e, a, n => ReaderSince(node, events, a, n), |before|);
    }
  }

  // ---------- Everything else in an entry ----------

  /** The last update of a page since it was last registered. */
  ghost function LastUpdate(node: NodeId, events: seq<Event>, a: nat): Option<(Coherence, NodeId)> {
    if events == [] then None
    else
      var before, e := events[..|events| - 1], events[|events| - 1];
      if Resets(Run(node, before), e, a) then None
      else if e.Update? && e.vaddr == a then Some((e.state, e.owner))
      else LastUpdate(node, before, a)
  }

  /** The region and the metadata with which a page was last registered. */
  ghost function LastRegistration(node: NodeId, events: seq<Event>, a: nat): Option<(Region, seq<int>)> {
    if events == [] then None
    else
      var before, e := events[..|events| - 1], events[|events| - 1];
      if Resets(Run(node, before), e, a) then Some((e.region, e.metadata)) else LastRegistration(node, before, a)
  }

  /** In every run the state and the owner of a page are those of its last update since it was
      registered, or Invalid and the local node; the rest comes from its registration. */
  lemma {:induction false} EntryTellsHistory(node: NodeId, events: seq<Event>, a: nat)
    requires a in Run(node, events).pages
    ensures var p, u, r := Run(node, events).pages[a], LastUpdate(node, events, a), LastRegistration(node, events, a);
      && (p.state, p.owner) == (if u.Some? then u.value else (Invalid, node))
      && p.vaddr == a && r.Some? && p.metadata == r.value.1
      && p.pageSize == if r.value.0.stagingPageSize < 4096 then 4096 else r.value.0.stagingPageSize
  {
    var before, e := events[..|events| - 1], events[|events| - 1];
    NodeStays(node, before);
    if !Resets(Run(node, before), e, a) {
      EntryStep(Run(node, before), e, a);
      EntryTellsHistory(node, before, a);
    }
  }

  lemma {:induction false} NodeStays(node: NodeId, events: seq<Event>)
    ensures Run(node, events).node == node
  {
    if events != [] {
      NodeStays(node, events[..|events| - 1]);
    }
  }

  /** The region registered under an identifier: the first one that returned since the
      identifier was last free. */
  ghost function Registered(events: seq<Event>, id: RegionId): Option<Region> {
    if events == [] then None
    else
      var before, e := Registered(events[..|events| - 1], id), events[|events| - 1];
      if e == Deregister(id) then None
      else if e.Register? && e.region.id == id && e.region.Finite() && before.None? then Some(e.region)
      else before
  }

  lemma {:induction false} RegionsAreRegistered(node: NodeId, events: seq<Event>, id: RegionId)
    ensures var regions := Run(node, events).regions;
      Registered(events, id) == if id in regions then Some(regions[id]) else None
  {
    if events != [] {
      RegionsAreRegistered(node, events[..|events| - 1], id);
    }
  }
}
