/** The invalidation ring as a protocol: many writers reserve a position with a
    compare-and-swap on the tail and then write their entry in one or more stages,
    while one poller reads, hands over, clears and advances the head. Every memory
    access is a step of its own, and steps interleave freely. */
module InvalidationRing {

  const N: nat := 1024

  datatype Msg = Msg(vaddr: nat, version: nat, pageSize: nat)

  datatype Field = Valid | Vaddr | Version | PageSize

  datatype Entry = Entry(valid: nat, vaddr: nat, version: nat, pageSize: nat) {
    function Get(f: Field): nat {
      match f case Valid => valid case Vaddr => vaddr case Version => version case PageSize => pageSize
    }

    function Set(f: Field, x: nat): Entry {
      match f
      case Valid => this.(valid := x)
      case Vaddr => this.(vaddr := x)
      case Version => this.(version := x)
      case PageSize => this.(pageSize := x)
    }

    function Message(): Msg {
      Msg(vaddr, version, pageSize)
    }
  }

  const ZERO := Entry(0, 0, 0, 0)

  /** The order in which the poller reads and clears the words of an entry. */
  function FieldAt(k: nat): Field
    requires k < 4
  {
    if k == 0 then Valid else if k == 1 then Vaddr else if k == 2 then Version else PageSize
  }

  function Full(m: Msg): Entry {
    Entry(1, m.vaddr, m.version, m.pageSize)
  }

  /** How writers behave: in which stage of a publication each word is written, and
      whether they test for room before they reserve. All words in one stage is an atomic
      publication; one word in each of four stages is a word-by-word one. */
  datatype Plan = Plan(valid: nat, vaddr: nat, version: nat, pageSize: nat, roomTest: bool) {
    function Stage(f: Field): nat {
      match f case Valid => valid case Vaddr => vaddr case Version => version case PageSize => pageSize
    }

    function Last(): (r: nat)
      ensures forall f :: Stage(f) <= r
      ensures exists f :: Stage(f) == r
    {
      var a := if valid < vaddr then Vaddr else Valid;
      var b := if version < pageSize then PageSize else Version;
      var c := if Stage(a) < Stage(b) then b else a;
      assert forall f :: Stage(f) <= Stage(c);
      Stage(c)
    }
  }

  /** An entry after one stage of the publication of m. */
  function Stamp(plan: Plan, e: Entry, m: Msg, stage: nat): Entry {
    Entry(if plan.valid == stage then 1 else e.valid, if plan.vaddr == stage then m.vaddr else e.vaddr,
          if plan.version == stage then m.version else e.version,
          if plan.pageSize == stage then m.pageSize else e.pageSize)
  }

  datatype Writer =
    | Resting
    | SawTail(msg: Msg, tail: nat)
    | Checked(msg: Msg, tail: nat)
    | Writing(msg: Msg, pos: nat, done: nat)

  datatype Poller =
    | Asleep
    | Scanning(idx: nat, limit: nat)
    | Reading(idx: nat, limit: nat, done: nat, entry: Entry)
    | Clearing(idx: nat, limit: nat, done: nat)

  function At(slots: seq<Entry>, p: nat): Entry
    requires |slots| == N
  {
    slots[p % N]
  }

  function StateOf(writers: map<nat, Writer>, w: nat): Writer {
    if w in writers then writers[w] else Resting
  }

  /** The shared words, the local states, and the two histories: the message of each
      reservation and the messages the callback accepted. */
  datatype Ring = Ring(head: nat, tail: nat, slots: seq<Entry>, writers: map<nat, Writer>, poller: Poller,
                       reserved: seq<Msg>, accepted: seq<Msg>)
  {
    function WriterState(w: nat): Writer {
      StateOf(writers, w)
    }

    function With(w: nat, s: Writer): Ring {
      this.(writers := writers[w := s])
    }

    function Slot(p: nat): Entry
      requires |slots| == N
    {
      At(slots, p)
    }

    function Put(p: nat, e: Entry): Ring
      requires |slots| == N
    {
      this.(slots := slots[p % N := e])
    }
  }

  function Init(): Ring {
    Ring(0, 0, seq(N, _ => ZERO), map[], Asleep, [], [])
  }

  /** One step of one participant; accept is the callback's answer. */
  datatype Step = WriterStep(w: nat, msg: Msg) | PollerStep(accept: bool)

  /** The fullness test reads the head after the tail; a head beyond the tail read makes
      the unsigned difference huge, so it counts as full. */
  predicate PassesTest(plan: Plan, s: Ring, t: nat) {
    !plan.roomTest || (s.head <= t && t - s.head < N)
  }

  function WriterNext(plan: Plan, s: Ring, w: nat, msg: Msg): Ring
    requires |s.slots| == N
  {
    match s.WriterState(w)
    case Resting => s.With(w, SawTail(msg, s.tail))
    case SawTail(m, t) =>
      if PassesTest(plan, s, t) then s.With(w, Checked(m, t)) else s.With(w, Resting)
    case Checked(m, t) =>
      if s.tail == t then s.With(w, Writing(m, t, 0)).(tail := t + 1, reserved := s.reserved + [m])
      else s.With(w, Resting)
    case Writing(m, p, k) =>
      s.Put(p, Stamp(plan, s.Slot(p), m, k)).With(w, if k >= plan.Last() then Resting else Writing(m, p, k + 1))
  }

  function PollerNext(s: Ring, accept: bool): Ring
    requires |s.slots| == N
  {
    match s.poller
    case Asleep => s.(poller := Scanning(s.head, s.tail))
    case Scanning(i, limit) =>
      if i < limit then s.(poller := Reading(i, limit, 0, ZERO)) else s.(head := i, poller := Asleep)
    case Reading(i, limit, k, e) =>
      if k < 4 then s.(poller := Reading(i, limit, k + 1, e.Set(FieldAt(k), s.Slot(i).Get(FieldAt(k)))))
      else if e.valid != 0 && accept then
        s.(poller := Clearing(i, limit, 0), accepted := s.accepted + [e.Message()])
      else s.(head := i, poller := Asleep)
    case Clearing(i, limit, k) =>
      if k < 4 then s.Put(i, s.Slot(i).Set(FieldAt(k), 0)).(poller := Clearing(i, limit, k + 1))
      else s.(poller := Scanning(i + 1, limit))
  }

  function Next(plan: Plan, s: Ring, step: Step): (r: Ring)
    requires |s.slots| == N
    ensures |r.slots| == N
  {
    match step
    case WriterStep(w, msg) => WriterNext(plan, s, w, msg)
    case PollerStep(accept) => PollerNext(s, accept)
  }

  function Run(plan: Plan, s: Ring, steps: seq<Step>): (r: Ring)
    requires |s.slots| == N
    ensures |r.slots| == N
    decreases |steps|
  {
    if steps == [] then s else Run(plan, Next(plan, s, steps[0]), steps[1..])
  }

  // ---------- Safety ----------

  /** The ring never holds more than N reservations, and the accepted messages are a
      prefix of the reserved ones: in reservation order, each once, each intact. */
  ghost predicate Safe(s: Ring) {
    s.head <= s.tail <= s.head + N && s.accepted <= s.reserved
  }

  /** The first position whose message has not been accepted. */
  function Cursor(s: Ring): nat {
    match s.poller
    case Asleep => s.head
    case Scanning(i, _) => i
    case Reading(i, _, _, _) => i
    case Clearing(i, _, _) => i + 1
  }

  ghost predicate IsWriting(writers: map<nat, Writer>, w: nat, p: nat) {
    StateOf(writers, w).Writing? && StateOf(writers, w).pos == p
  }

  ghost predicate BeingWritten(writers: map<nat, Writer>, p: nat) {
    exists w :: IsWriting(writers, w, p)
  }

  /** No word is written after the valid word. */
  ghost predicate ValidLast(plan: Plan) {
    forall f :: plan.Stage(f) <= plan.valid
  }

  /** Writers publish with the valid word last and only after the test for room. */
  ghost predicate Careful(plan: Plan) {
    ValidLast(plan) && plan.roomTest
  }

  ghost predicate Counts(s: Ring) {
    && s.head <= Cursor(s) <= s.tail <= s.head + N
    && |s.reserved| == s.tail && s.accepted == s.reserved[..Cursor(s)]
  }

  /** A writer that passed the fullness test has room; one that is writing owns its
      position and has not yet written the valid word. */
  ghost predicate WriterOk(plan: Plan, s: Ring, st: Writer)
    requires |s.slots| == N
  {
    match st
    case Resting => true
    case SawTail(_, _) => true
    case Checked(_, t) => t < s.head + N
    case Writing(m, p, k) =>
      && Cursor(s) <= p < |s.reserved| && m == s.reserved[p]
      && At(s.slots, p).valid == 0
      && k <= plan.Last()
      && forall f :: plan.Stage(f) < k ==> At(s.slots, p).Get(f) == Full(m).Get(f)
  }

  /** A non-zero valid word that was read belongs to a published entry, and so do the
      words read after it. */
  ghost predicate PollerOk(s: Ring)
    requires |s.slots| == N
  {
    match s.poller
    case Asleep => true
    case Scanning(i, limit) => s.head <= i <= limit <= s.tail
    case Clearing(i, limit, k) => s.head <= i < limit <= s.tail && k <= 4
    case Reading(i, limit, k, e) =>
      && s.head <= i < limit <= s.tail && k <= 4
      && (k > 0 && e.valid != 0 ==>
            && i < |s.reserved| && At(s.slots, i) == Full(s.reserved[i])
            && forall j :: 0 <= j < k ==> e.Get(FieldAt(j)) == Full(s.reserved[i]).Get(FieldAt(j)))
  }

  /** Reserved and not accepted: published, or still being written by its writer. */
  ghost predicate Pending(slots: seq<Entry>, writers: map<nat, Writer>, reserved: seq<Msg>, cursor: nat)
    requires |slots| == N
  {
    forall p :: cursor <= p < |reserved| ==> At(slots, p) == Full(reserved[p]) || BeingWritten(writers, p)
  }

  /** Every other slot of the window is free, except one that is about to be cleared. */
  ghost predicate Free(slots: seq<Entry>, head: nat, cursor: nat, tail: nat, dirty: bool)
    requires |slots| == N
  {
    forall p :: head <= p < head + N && !(cursor <= p < tail) && !(dirty && p + 1 == cursor) ==> At(slots, p).valid == 0
  }

  ghost predicate Dirty(s: Ring) {
    s.poller.Clearing? && s.poller.done == 0
  }

  ghost predicate OneWriter(writers: map<nat, Writer>) {
    forall v, w, p :: IsWriting(writers, v, p) && IsWriting(writers, w, p) ==> v == w
  }

  ghost predicate Inv(plan: Plan, s: Ring) {
    && Careful(plan) && |s.slots| == N
    && Counts(s) && PollerOk(s) && OneWriter(s.writers)
    && Pending(s.slots, s.writers, s.reserved, Cursor(s))
    && Free(s.slots, s.head, Cursor(s), s.tail, Dirty(s))
    && forall w :: WriterOk(plan, s, StateOf(s.writers, w))
  }

  lemma InvInit(plan: Plan)
    requires Careful(plan)
    ensures Inv(plan, Init())
  {
  }

  /** Positions of one window use different slots. */
  lemma SlotsDiffer(h: nat, p: nat, q: nat)
    requires h <= p < h + N && h <= q < h + N && p != q
    ensures p % N != q % N
  {
  }

  lemma PendingWith(slots: seq<Entry>, writers: map<nat, Writer>, reserved: seq<Msg>, cursor: nat, w: nat, st: Writer)
    requires |slots| == N && Pending(slots, writers, reserved, cursor)
    requires !StateOf(writers, w).Writing?
    ensures Pending(slots, writers[w := st], reserved, cursor)
  {
    forall p | cursor <= p < |reserved| ensures At(slots, p) == Full(reserved[p]) || BeingWritten(writers[w := st], p) {
      if BeingWritten(writers, p) {
        var v :| IsWriting(writers, v, p);
        assert IsWriting(writers[w := st], v, p);
      }
    }
  }

  lemma OneWriterWith(writers: map<nat, Writer>, w: nat, st: Writer)
    requires OneWriter(writers)
    requires st.Writing? ==> forall v :: IsWriting(writers, v, st.pos) ==> v == w
    ensures OneWriter(writers[w := st])
  {
    var writers' := writers[w := st];
    forall v, u, p | IsWriting(writers', v, p) && IsWriting(writers', u, p) ensures v == u {
      assert v != w ==> IsWriting(writers, v, p);
      assert u != w ==> IsWriting(writers, u, p);
    }
  }

  /** Reading the tail, the fullness test and a failed reservation change no shared word. */
  lemma LocalKeeps(plan: Plan, s: Ring, w: nat, st: Writer)
    requires Inv(plan, s) && !s.WriterState(w).Writing? && !st.Writing? && WriterOk(plan, s, st)
    ensures Inv(plan, s.With(w, st))
  {
    var s' := s.With(w, st);
    PendingWith(s.slots, s.writers, s.reserved, Cursor(s), w, st);
    forall v ensures WriterOk(plan, s', StateOf(s'.writers, v)) {
      assert WriterOk(plan, s, StateOf(s.writers, v));
    }
    OneWriterWith(s.writers, w, st);
  }

  /** Reserving: the position was free, and the window has room for it. */
  lemma ReserveKeeps(plan: Plan, s: Ring, w: nat, m: Msg, t: nat)
    requires Inv(plan, s) && s.WriterState(w) == Checked(m, t) && s.tail == t
    ensures Inv(plan, WriterNext(plan, s, w, m))
  {
    var s' := WriterNext(plan, s, w, m);
    var c := Cursor(s);
    assert At(s.slots, t).valid == 0 && WriterOk(plan, s, StateOf(s.writers, w));
    PendingWith(s.slots, s.writers, s.reserved, c, w, Writing(m, t, 0));
    assert IsWriting(s'.writers, w, t);
    assert Pending(s.slots, s'.writers, s'.reserved, c);
    forall v ensures WriterOk(plan, s', StateOf(s'.writers, v)) {
      assert WriterOk(plan, s, StateOf(s.writers, v));
    }
    OneWriterWith(s.writers, w, Writing(m, t, 0));
  }

  /** Writing one word of the own entry leaves every other position of the window. */
  lemma PutOther(s: Ring, p: nat, q: nat, e: Entry)
    requires |s.slots| == N && s.head <= p < s.head + N && s.head <= q < s.head + N && p != q
    ensures At(s.Put(p, e).slots, q) == At(s.slots, q)
  {
    SlotsDiffer(s.head, p, q);
  }

  /** After the last stage the entry is complete. */
  lemma LastStage(plan: Plan, e: Entry, m: Msg)
    requires forall f :: plan.Stage(f) < plan.Last() ==> e.Get(f) == Full(m).Get(f)
    ensures Stamp(plan, e, m, plan.Last()) == Full(m)
  {
    assert plan.Stage(Valid) <= plan.Last() && plan.Stage(Vaddr) <= plan.Last();
    assert plan.Stage(Version) <= plan.Last() && plan.Stage(PageSize) <= plan.Last();
    assert plan.Stage(Valid) < plan.Last() ==> e.Get(Valid) == 1;
    assert plan.Stage(Vaddr) < plan.Last() ==> e.Get(Vaddr) == m.vaddr;
    assert plan.Stage(Version) < plan.Last() ==> e.Get(Version) == m.version;
    assert plan.Stage(PageSize) < plan.Last() ==> e.Get(PageSize) == m.pageSize;
  }

  /** Each stage adds its words. */
  lemma StampAdds(plan: Plan, e: Entry, m: Msg, k: nat, f: Field)
    ensures Stamp(plan, e, m, k).Get(f) == if plan.Stage(f) == k then Full(m).Get(f) else e.Get(f)
  {
  }

  lemma WriteKeepsWriters(plan: Plan, s: Ring, w: nat, m: Msg, p: nat, k: nat, v: nat)
    requires Inv(plan, s) && s.WriterState(w) == Writing(m, p, k)
    ensures WriterOk(plan, WriterNext(plan, s, w, m), StateOf(WriterNext(plan, s, w, m).writers, v))
  {
    var s' := WriterNext(plan, s, w, m);
    assert WriterOk(plan, s, StateOf(s.writers, w)) && WriterOk(plan, s, StateOf(s.writers, v));
    assert IsWriting(s.writers, w, p);
    if v != w && StateOf(s.writers, v).Writing? {
      var q := StateOf(s.writers, v).pos;
      assert IsWriting(s.writers, v, q);
      PutOther(s, p, q, At(s'.slots, p));
    } else if v == w {
      forall f ensures At(s'.slots, p).Get(f) == if plan.Stage(f) == k then Full(m).Get(f) else At(s.slots, p).Get(f) {
        StampAdds(plan, At(s.slots, p), m, k, f);
      }
    }
  }

  lemma WriteKeepsPending(plan: Plan, s: Ring, w: nat, m: Msg, p: nat, k: nat)
    requires Inv(plan, s) && s.WriterState(w) == Writing(m, p, k)
    ensures var s' := WriterNext(plan, s, w, m); Pending(s'.slots, s'.writers, s'.reserved, Cursor(s'))
  {
    var s' := WriterNext(plan, s, w, m);
    assert WriterOk(plan, s, StateOf(s.writers, w));
    assert IsWriting(s.writers, w, p);
    forall q | Cursor(s) <= q < |s.reserved|
      ensures At(s'.slots, q) == Full(s.reserved[q]) || BeingWritten(s'.writers, q)
    {
      if q != p {
        PutOther(s, p, q, At(s'.slots, p));
        if BeingWritten(s.writers, q) {
          var v :| IsWriting(s.writers, v, q);
          assert IsWriting(s'.writers, v, q);
        }
      } else if k == plan.Last() {
        LastStage(plan, At(s.slots, p), m);
      } else {
        assert IsWriting(s'.writers, w, p);
      }
    }
  }

  lemma WriteKeeps(plan: Plan, s: Ring, w: nat, m: Msg, p: nat, k: nat)
    requires Inv(plan, s) && s.WriterState(w) == Writing(m, p, k)
    ensures Inv(plan, WriterNext(plan, s, w, m))
  {
    var s' := WriterNext(plan, s, w, m);
    assert WriterOk(plan, s, StateOf(s.writers, w));
    WriteKeepsPending(plan, s, w, m, p, k);
    forall v ensures WriterOk(plan, s', StateOf(s'.writers, v)) {
      WriteKeepsWriters(plan, s, w, m, p, k, v);
    }
    assert IsWriting(s.writers, w, p);
    OneWriterWith(s.writers, w, if k >= plan.Last() then Resting else Writing(m, p, k + 1));
    forall q | s.head <= q < s.head + N && q != p ensures At(s'.slots, q) == At(s.slots, q) {
      PutOther(s, p, q, At(s'.slots, p));
    }
  }

  // ---------- The poller's steps ----------

  lemma ReadKeeps(plan: Plan, s: Ring, accept: bool)
    requires Inv(plan, s) && s.poller.Reading? && s.poller.done < 4
    ensures Inv(plan, PollerNext(s, accept))
  {
    var s' := PollerNext(s, accept);
    var i := s.poller.idx;
    if BeingWritten(s.writers, i) {
      var w :| IsWriting(s.writers, w, i);
      assert WriterOk(plan, s, StateOf(s.writers, w));
    }
    assert PollerOk(s');
    forall v ensures WriterOk(plan, s', StateOf(s'.writers, v)) {
      assert WriterOk(plan, s, StateOf(s.writers, v));
    }
  }

  lemma AcceptKeeps(plan: Plan, s: Ring)
    requires Inv(plan, s) && s.poller.Reading? && s.poller.done == 4 && s.poller.entry.valid != 0
    ensures Inv(plan, PollerNext(s, true))
  {
    var s' := PollerNext(s, true);
    var i, e := s.poller.idx, s.poller.entry;
    assert e.Get(FieldAt(1)) == s.reserved[i].vaddr && e.Get(FieldAt(2)) == s.reserved[i].version
        && e.Get(FieldAt(3)) == s.reserved[i].pageSize;
    assert e.Message() == s.reserved[i];
    forall v ensures WriterOk(plan, s', StateOf(s'.writers, v)) {
      assert WriterOk(plan, s, StateOf(s.writers, v));
    }
  }

  lemma ClearKeeps(plan: Plan, s: Ring, accept: bool)
    requires Inv(plan, s) && s.poller.Clearing? && s.poller.done < 4
    ensures Inv(plan, PollerNext(s, accept))
  {
    var s' := PollerNext(s, accept);
    var i := s.poller.idx;
    forall q | s.head <= q < s.head + N && q != i ensures At(s'.slots, q) == At(s.slots, q) {
      PutOther(s, i, q, At(s'.slots, i));
    }
    forall v ensures WriterOk(plan, s', StateOf(s'.writers, v)) {
      assert WriterOk(plan, s, StateOf(s.writers, v));
    }
  }

  /** Publishing the new head: the slots behind it are free for reuse. */
  lemma AdvanceKeeps(plan: Plan, s: Ring)
    requires Inv(plan, s) && (s.poller.Scanning? || s.poller.Reading?)
    ensures Inv(plan, s.(head := Cursor(s), poller := Asleep))
  {
    var c := Cursor(s);
    var s' := s.(head := c, poller := Asleep);
    forall p | c <= p < c + N && !(c <= p < s.tail) ensures At(s.slots, p).valid == 0 {
      if p >= s.head + N {
        assert At(s.slots, p - N).valid == 0;
      }
    }
    forall v ensures WriterOk(plan, s', StateOf(s'.writers, v)) {
      assert WriterOk(plan, s, StateOf(s.writers, v));
    }
  }

  /** Moving on without touching a shared word. */
  lemma MoveKeeps(plan: Plan, s: Ring, poller: Poller)
    requires Inv(plan, s) && PollerOk(s.(poller := poller))
    requires Cursor(s.(poller := poller)) == Cursor(s) && !Dirty(s) && !Dirty(s.(poller := poller))
    ensures Inv(plan, s.(poller := poller))
  {
    var s' := s.(poller := poller);
    forall v ensures WriterOk(plan, s', StateOf(s'.writers, v)) {
      assert WriterOk(plan, s, StateOf(s.writers, v));
    }
  }

  /** Every step of every participant keeps the invariant. */
  lemma StepKeeps(plan: Plan, s: Ring, step: Step)
    requires Inv(plan, s)
    ensures Inv(plan, Next(plan, s, step))
  {
    match step
    case WriterStep(w, msg) =>
      match s.WriterState(w) {
        case Resting => LocalKeeps(plan, s, w, SawTail(msg, s.tail));
        case SawTail(m, t) =>
          LocalKeeps(plan, s, w, if PassesTest(plan, s, t) then Checked(m, t) else Resting);
        case Checked(m, t) =>
          if s.tail == t { ReserveKeeps(plan, s, w, m, t); } else { LocalKeeps(plan, s, w, Resting); }
        case Writing(m, p, k) => WriteKeeps(plan, s, w, m, p, k);
      }
    case PollerStep(accept) =>
      match s.poller {
        case Asleep => MoveKeeps(plan, s, Scanning(s.head, s.tail));
        case Scanning(i, limit) =>
          if i < limit { MoveKeeps(plan, s, Reading(i, limit, 0, ZERO)); } else { AdvanceKeeps(plan, s); }
        case Reading(i, limit, k, e) =>
          if k < 4 { ReadKeeps(plan, s, accept); }
          else if e.valid != 0 && accept { AcceptKeeps(plan, s); }
          else { AdvanceKeeps(plan, s); }
        case Clearing(i, limit, k) =>
          if k < 4 { ClearKeeps(plan, s, accept); } else { MoveKeeps(plan, s, Scanning(i + 1, limit)); }
      }
  }

  lemma {:induction false} RunKeeps(plan: Plan, s: Ring, steps: seq<Step>)
    requires Inv(plan, s)
    ensures Inv(plan, Run(plan, s, steps))
    decreases |steps|
  {
    if steps != [] {
      StepKeeps(plan, s, steps[0]);
      RunKeeps(plan, Next(plan, s, steps[0]), steps[1..]);
    }
  }

  // ---------- All runs ----------

  ghost predicate Reachable(plan: Plan, s: Ring)
  {
    exists steps :: s == Run(plan, Init(), steps)
  }

  lemma {:induction false} RunOneMore(plan: Plan, s: Ring, steps: seq<Step>, step: Step)
    requires |s.slots| == N
    ensures Run(plan, s, steps + [step]) == Next(plan, Run(plan, s, steps), step)
    decreases |steps|
  {
    if steps == [] {
      assert ([] + [step])[1..] == [];
    } else {
      RunOneMore(plan, Next(plan, s, steps[0]), steps[1..], step);
      assert (steps + [step])[1..] == steps[1..] + [step];
    }
  }

  lemma ReachNext(plan: Plan, s: Ring, step: Step)
    requires |s.slots| == N && Reachable(plan, s)
    ensures Reachable(plan, Next(plan, s, step))
  {
    var steps :| s == Run(plan, Init(), steps);
    RunOneMore(plan, Init(), steps, step);
  }

  const ONES := Msg(1, 1, 1)
  const TWOS := Msg(2, 2, 2)

  /** Nothing has been polled, n positions are reserved and none is written. */
  ghost predicate Fresh(plan: Plan, s: Ring, n: nat) {
    && Reachable(plan, s) && |s.slots| == N && (forall i :: 0 <= i < N ==> s.slots[i] == ZERO)
    && s.head == 0 && s.tail == |s.reserved| == n && s.poller == Asleep && s.accepted == []
    && (forall i :: 0 <= i < n ==> s.reserved[i] == ONES)
    && forall w :: w >= n ==> StateOf(s.writers, w) == Resting
  }

  /** One writer reserves the next position. */
  lemma ReserveNext(plan: Plan, s: Ring, n: nat, m: Msg) returns (r: Ring)
    requires Fresh(plan, s, n) && (plan.roomTest ==> n < N)
    ensures r == s.With(n, Writing(m, n, 0)).(tail := n + 1, reserved := s.reserved + [m])
    ensures Reachable(plan, r)
  {
    var step := WriterStep(n, m);
    ReachNext(plan, s, step);
    r := Next(plan, s, step);
    assert r.WriterState(n) == SawTail(m, n);
    ReachNext(plan, r, step);
    r := Next(plan, r, step);
    assert r.WriterState(n) == Checked(m, n);
    ReachNext(plan, r, step);
    r := Next(plan, r, step);
    assert s.writers[n := SawTail(m, n)][n := Checked(m, n)][n := Writing(m, n, 0)] == s.writers[n := Writing(m, n, 0)];
  }

  lemma {:induction false} ReserveAll(plan: Plan, n: nat) returns (s: Ring)
    requires plan.roomTest ==> n <= N
    ensures Fresh(plan, s, n)
  {
    if n == 0 {
      s := Init();
      assert s == Run(plan, Init(), []);
    } else {
      var before := ReserveAll(plan, n - 1);
      s := ReserveNext(plan, before, n - 1, ONES);
      forall w | w >= n ensures StateOf(s.writers, w) == Resting {
        assert StateOf(before.writers, w) == Resting;
      }
    }
  }

  /** A writer writes its stages below a bound into an empty slot. */
  lemma WriteStages(plan: Plan, s: Ring, w: nat, m: Msg, p: nat, bound: nat) returns (r: Ring)
    requires |s.slots| == N && Reachable(plan, s) && s.WriterState(w) == Writing(m, p, 0)
    requires At(s.slots, p) == ZERO && bound <= plan.Last() + 1
    ensures |r.slots| == N && Reachable(plan, r)
    ensures r.head == s.head && r.tail == s.tail && r.poller == s.poller
    ensures r.reserved == s.reserved && r.accepted == s.accepted
    ensures forall f :: At(r.slots, p).Get(f) == if plan.Stage(f) < bound then Full(m).Get(f) else 0
  {
    r := s;
    var step, k := WriterStep(w, m), 0;
    while k < bound
      invariant 0 <= k <= bound && |r.slots| == N && Reachable(plan, r)
      invariant k <= plan.Last() ==> r.WriterState(w) == Writing(m, p, k)
      invariant r.head == s.head && r.tail == s.tail && r.poller == s.poller
      invariant r.reserved == s.reserved && r.accepted == s.accepted
      invariant forall f :: At(r.slots, p).Get(f) == if plan.Stage(f) < k then Full(m).Get(f) else 0
    {
      forall f ensures Stamp(plan, At(r.slots, p), m, k).Get(f) == if plan.Stage(f) < k + 1 then Full(m).Get(f) else 0 {
        StampAdds(plan, At(r.slots, p), m, k, f);
      }
      ReachNext(plan, r, step);
      r := Next(plan, r, step);
      k := k + 1;
    }
  }

  /** A poll of one entry hands over whatever its slot holds, if the valid word is set. */
  lemma PollOnce(plan: Plan, s: Ring) returns (r: Ring)
    requires |s.slots| == N && Reachable(plan, s)
    requires s.poller == Asleep && s.head < s.tail && At(s.slots, s.head).valid != 0
    ensures Reachable(plan, r)
    ensures r.reserved == s.reserved && r.accepted == s.accepted + [At(s.slots, s.head).Message()]
  {
    r := s;
    var step := PollerStep(true);
    ReachNext(plan, r, step);
    r := Next(plan, r, step);
    ReachNext(plan, r, step);
    r := Next(plan, r, step);
    var k := 0;
    while k < 4
      invariant 0 <= k <= 4 && |r.slots| == N && Reachable(plan, r)
      invariant r.poller.Reading? && r.poller.done == k && r.poller.idx == s.head
      invariant forall j :: 0 <= j < k ==> r.poller.entry.Get(FieldAt(j)) == At(s.slots, s.head).Get(FieldAt(j))
      invariant r.slots == s.slots && r.reserved == s.reserved && r.accepted == s.accepted
    {
      ReachNext(plan, r, step);
      r := Next(plan, r, step);
      k := k + 1;
    }
    assert r.poller.entry == At(s.slots, s.head) by {
      var e, f := r.poller.entry, At(s.slots, s.head);
      assert e.Get(FieldAt(0)) == f.valid && e.Get(FieldAt(1)) == f.vaddr;
      assert e.Get(FieldAt(2)) == f.version && e.Get(FieldAt(3)) == f.pageSize;
    }
    ReachNext(plan, r, step);
    r := Next(plan, r, step);
  }

  /** A valid word before the last word lets the poller accept a message nobody sent. */
  lemma TornAccepted(plan: Plan) returns (r: Ring)
    requires !ValidLast(plan)
    ensures Reachable(plan, r) && !(r.accepted <= r.reserved)
  {
    var s := ReserveAll(plan, 0);
    s := ReserveNext(plan, s, 0, ONES);
    s := WriteStages(plan, s, 0, ONES, 0, plan.valid + 1);
    assert At(s.slots, 0).Get(Valid) == 1;
    Torn(plan, At(s.slots, 0));
    r := PollOnce(plan, s);
    assert r.accepted[0] != r.reserved[0];
  }

  /** Without the test for room, the reservation after a full ring overwrites the oldest
      slot, and its message is accepted in place of the oldest one. */
  lemma OverrunAccepted(plan: Plan) returns (r: Ring)
    requires !plan.roomTest
    ensures Reachable(plan, r) && !(r.accepted <= r.reserved)
  {
    var s := ReserveAll(plan, N);
    assert s.reserved[0] == ONES;
    s := ReserveNext(plan, s, N, TWOS);
    assert At(s.slots, N) == ZERO;
    s := WriteStages(plan, s, N, TWOS, N, plan.Last() + 1);
    assert At(s.slots, N).Get(Valid) == 1 && At(s.slots, N).Get(Vaddr) == 2;
    r := PollOnce(plan, s);
    assert r.accepted[0] != r.reserved[0];
  }

  /** The ring is safe in every run exactly when writers write no word after the valid
      word and test for room; and otherwise some run accepts a message out of place. */
  lemma SafeExactly(plan: Plan)
    ensures (forall s :: Reachable(plan, s) ==> Safe(s)) <==> Careful(plan)
    ensures (forall s :: Reachable(plan, s) ==> s.accepted <= s.reserved) <==> Careful(plan)
  {
    if Careful(plan) {
      forall s | Reachable(plan, s) ensures Safe(s) {
        var steps :| s == Run(plan, Init(), steps);
        InvInit(plan);
        RunKeeps(plan, Init(), steps);
      }
    } else if !ValidLast(plan) {
      var r := TornAccepted(plan);
      assert !Safe(r);
    } else {
      var r := OverrunAccepted(plan);
      assert !Safe(r);
    }
  }

  lemma Torn(plan: Plan, e: Entry)
    requires !ValidLast(plan) && forall f :: e.Get(f) == if plan.Stage(f) <= plan.valid then 1 else 0
    ensures e.Message() != ONES
  {
    var f :| plan.Stage(f) > plan.valid;
    assert e.Get(f) == 0;
  }

  /** With the test for room, publishing in one step is safe and writing the valid word
      first is not; without it, not even publishing in one step is safe. */
  lemma SafePlans()
    ensures forall s :: Reachable(Plan(0, 0, 0, 0, true), s) ==> Safe(s)
    ensures exists s :: Reachable(Plan(0, 1, 2, 3, true), s) && !Safe(s)
    ensures exists s :: Reachable(Plan(0, 0, 0, 0, false), s) && !Safe(s)
  {
    SafeExactly(Plan(0, 0, 0, 0, true));
    SafeExactly(Plan(0, 1, 2, 3, true));
    SafeExactly(Plan(0, 0, 0, 0, false));
    assert Plan(0, 1, 2, 3, true).Stage(Vaddr) > Plan(0, 1, 2, 3, true).valid;
  }

  /** In a safe ring no unconsumed message is lost or overwritten: until its turn it
      is in its slot, or its own writer has still to publish it. */
  lemma NoneOverwritten(plan: Plan, steps: seq<Step>, p: nat)
    requires Careful(plan)
    ensures var s := Run(plan, Init(), steps);
      |s.accepted| <= p < s.tail && p < |s.reserved| ==>
        || At(s.slots, p) == Full(s.reserved[p])
        || exists w :: s.WriterState(w).Writing? && s.WriterState(w).pos == p && s.WriterState(w).msg == s.reserved[p]
  {
    InvInit(plan);
    RunKeeps(plan, Init(), steps);
    var s := Run(plan, Init(), steps);
    if |s.accepted| <= p < s.tail && BeingWritten(s.writers, p) {
      var w :| IsWriting(s.writers, w, p);
      assert WriterOk(plan, s, s.WriterState(w));
    }
  }
}
