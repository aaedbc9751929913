/** The staging pool: a bounded queue of free slot indices over one mapping. */
module StagingPool {
  import opened Basics

  datatype Slot = Slot(idx: nat, vaddr: nat, size: nat)

  datatype PoolError = PoolExhausted(capacity: nat) | InvalidSlotIndex(idx: nat, maxSlots: nat) | MmapFailed(errno: int)

  /** What the system answers to the request for a mapping; the address may be zero. */
  datatype Mapping = Mapped(base: nat) | Failed(errno: int)

  datatype Result<T> = Ok(value: T) | Err(error: PoolError)

  /** The queue of free slots and the counter of the others. */
  datatype Pool = Pool(numSlots: nat, free: seq<nat>, active: int)

  function FullPool(numSlots: nat): Pool {
    Pool(numSlots, seq(numSlots, i => i), 0)
  }

  function Popped(p: Pool): Pool {
    if p.free == [] then p else p.(free := p.free[1..], active := p.active + 1)
  }

  /** A full queue takes no slot back. */
  function Pushed(p: Pool, idx: nat): Pool {
    if idx < p.numSlots && |p.free| < p.numSlots then p.(free := p.free + [idx], active := p.active - 1) else p
  }

  /** Distinct slots of one pool never share an address. */
  lemma SlotsApart(base: nat, size: nat, i: nat, j: nat, a: nat)
    requires i != j
    ensures !(base + i * size <= a < base + i * size + size && base + j * size <= a < base + j * size + size)
  {
    assert i < j ==> (i + 1) * size <= j * size;
    assert j < i ==> (j + 1) * size <= i * size;
  }

  // ---------- First in, first out ----------

  datatype Act = Take | GiveBack(idx: nat)

  ghost function PoolRun(p: Pool, acts: seq<Act>): Pool {
    if acts == [] then p
    else
      var before, act := PoolRun(p, acts[..|acts| - 1]), acts[|acts| - 1];
      match act case Take => Popped(before) case GiveBack(idx) => Pushed(before, idx)
  }

  /** The slots that a run hands out, in order. */
  ghost function HandedOut(p: Pool, acts: seq<Act>): seq<nat> {
    if acts == [] then []
    else
      var before := acts[..|acts| - 1];
      var free := PoolRun(p, before).free;
      HandedOut(p, before) + if acts[|acts| - 1].Take? && free != [] then [free[0]] else []
  }

  /** The slots that it takes back, in order: existing ones that meet a queue with room. */
  ghost function TakenBack(p: Pool, acts: seq<Act>): seq<nat> {
    if acts == [] then []
    else
      var before, act := acts[..|acts| - 1], acts[|acts| - 1];
      TakenBack(p, before)
      + if act.GiveBack? && act.idx < p.numSlots && |PoolRun(p, before).free| < p.numSlots then [act.idx] else []
  }

  /** The queue law: what was handed out, followed by what is free, is what was free at first,
      followed by what was taken back. The counter counts the difference. */
  lemma {:induction false} FirstInFirstOut(p: Pool, acts: seq<Act>)
    ensures HandedOut(p, acts) + PoolRun(p, acts).free == p.free + TakenBack(p, acts)
    ensures PoolRun(p, acts).numSlots == p.numSlots
    ensures PoolRun(p, acts).active == p.active + |HandedOut(p, acts)| - |TakenBack(p, acts)|
  {
    if acts != [] {
      var before, act := acts[..|acts| - 1], acts[|acts| - 1];
      FirstInFirstOut(p, before);
      var out, free, back := HandedOut(p, before), PoolRun(p, before).free, TakenBack(p, before);
      assert out + [] == out && back + [] == back;
      if act.Take? {
        assert free != [] ==> out + [free[0]] + free[1..] == out + free;
      } else {
        assert out + (free + [act.idx]) == out + free + [act.idx];
        assert p.free + (back + [act.idx]) == p.free + back + [act.idx];
      }
    }
  }

  class StagingMemoryPool {
    const base: nat
    const slotSize: nat
    const numSlots: nat
    var free: seq<nat>
    var active: int

    ghost function State(): Pool
      reads this
    {
      Pool(numSlots, free, active)
    }

    /** Every free slot exists and is free once, and the counter counts the others. */
    ghost predicate Sound()
      reads this
    {
      Distinct(free) && (forall i :: i in free ==> i < numSlots) && |free| <= numSlots && active == numSlots - |free|
    }

    constructor (base: nat, numSlots: nat, slotSize: nat)
      ensures Sound() && this.base == base && this.numSlots == numSlots && this.slotSize == slotSize
      ensures State() == FullPool(numSlots)
    {
      this.base, this.numSlots, this.slotSize := base, numSlots, slotSize;
      free := seq(numSlots, i => i);
      active := 0;
    }

    method PopSlot() returns (r: Result<Slot>)
      modifies this
      ensures State() == Popped(old(State()))
      ensures r == if old(free) == [] then Err(PoolExhausted(numSlots))
                   else Ok(Slot(old(free)[0], base + old(free)[0] * slotSize, slotSize))
      ensures old(Sound()) ==> Sound()
    {
      if free == [] {
        return Err(PoolExhausted(numSlots));
      }
      var idx := free[0];
      assert forall i :: i in free[1..] ==> i in free;
      free := free[1..];
      active := active + 1;
      r := Ok(Slot(idx, base + idx * slotSize, slotSize));
    }

    /** Returning a slot to a sound pool keeps it sound exactly when the slot is not
        free already, unless the index is refused or the queue is full. */
    method PushSlot(idx: nat) returns (r: Result<()>)
      modifies this
      ensures State() == Pushed(old(State()), idx)
      ensures r == if idx >= numSlots then Err(InvalidSlotIndex(idx, numSlots)) else Ok(())
      ensures old(Sound()) ==> (Sound() <==> idx >= numSlots || |old(free)| == numSlots || idx !in old(free))
    {
      if idx >= numSlots {
        return Err(InvalidSlotIndex(idx, numSlots));
      }
      if |free| < numSlots {
        free := free + [idx];
        active := active - 1;
        ghost var n := |free| - 1;
        assert free[n] == idx && free[..n] == old(free);
        if idx in old(free) {
          ghost var i :| 0 <= i < n && old(free)[i] == idx;
          assert free[i] == free[n];
        }
      }
      r := Ok(());
    }

    /** As many slots as asked for, or all that are left, all different. */
    method PopSlotsBatch(count: nat) returns (slots: seq<Slot>)
      modifies this
      ensures |slots| == if count <= |old(free)| then count else |old(free)|
      ensures free == old(free)[|slots|..] && active == old(active) + |slots|
      ensures forall i :: 0 <= i < |slots| ==>
        slots[i] == Slot(old(free)[i], base + old(free)[i] * slotSize, slotSize)
    {
      slots := [];
      var i := 0;
      while i < count
        invariant i <= count && |slots| == i <= |old(free)|
        invariant free == old(free)[i..] && active == old(active) + i
        invariant forall k :: 0 <= k < i ==> slots[k] == Slot(old(free)[k], base + old(free)[k] * slotSize, slotSize)
      {
        var r := PopSlot();
        if r.Err? {
          break;
        }
        slots := slots + [r.value];
        i := i + 1;
      }
    }
  }

  /** Opening a pool over a fresh mapping. */
  method OpenPool(mapping: Mapping, numSlots: nat, slotSize: nat) returns (r: Result<StagingMemoryPool>)
    ensures numSlots == 0 ==> r == Err(PoolExhausted(0))
    ensures numSlots > 0 && (slotSize == 0 || slotSize % 4096 != 0) ==> r == Err(InvalidSlotIndex(0, 0))
    ensures numSlots > 0 && slotSize > 0 && slotSize % 4096 == 0 ==>
      match mapping
      case Failed(errno) => r == Err(MmapFailed(errno))
      case Mapped(base) =>
        if base == 0 then r == Err(MmapFailed(0))
        else && r.Ok? && fresh(r.value) && r.value.Sound()
             && r.value.base == base && r.value.slotSize == slotSize && r.value.State() == FullPool(numSlots)
             && |r.value.free| == numSlots && r.value.active == 0
             && forall i :: 0 <= i < numSlots ==> r.value.free[i] == i
  {
    if numSlots == 0 {
      return Err(PoolExhausted(0));
    }
    if slotSize == 0 || slotSize % 4096 != 0 {
      return Err(InvalidSlotIndex(0, 0));
    }
    if mapping.Failed? {
      return Err(MmapFailed(mapping.errno));
    }
    if mapping.base == 0 {
      return Err(MmapFailed(0));
    }
    var pool := new StagingMemoryPool(mapping.base, numSlots, slotSize);
    return Ok(pool);
  }
}
