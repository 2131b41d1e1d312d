/** Crash safety of the undo journal: whatever the interleaving, the evictions and the crash point,
    recovery leaves exactly the effects of the committed transactions. */
module JournalSafety {
  import opened JournalRing
  import opened JournalCleaner
  import opened JournalMachine
  import opened JournalInvariant
  import opened JournalCleaning
  import opened JournalMemory
  import opened UndoRecovery

  ghost predicate Inv(s: State) {
    LogInv(s) && MemInv(s)
  }

  // ---- Every step keeps the invariant ------------------------------------------------------------

  lemma LogStepMemory(s: State, step: Step)
    requires Inv(s) && Enabled(s, step)
    requires step.EvictByte? || step.Write? || step.FlushData? || step.UndoAll? || step.FlushUndo?
    ensures LogInv(Apply(s, step))
  {
    hide AllSlots, AllKept, FencedKept, ZoneZeroed, ZonePersisted, AllPlaced, CleanerOk, Ordered, HeaderOk, MemOk;
    match step
    case EvictByte(a) =>
    case Write(k, a, v) =>
    case FlushData(k) => StatusLog(s, k, Flushed(false));
    case UndoAll(k) => StatusLog(s, k, Undone);
    case FlushUndo(k) =>
      assert TxShape(s.txs[k], k, |s.cur.ring.slots|);
      StatusLog(s, k, Flushed(true));
  }

  lemma PublishedShape(t: Tx, k: nat, n: nat, t': Tx, e: Entry)
    requires TxShape(t, k, n) && Appends(t, t', e) && e.tid == k
    requires (e.isStart <==> |t.log| == 0) && (e.Fin() || e.data != []) && (t'.Ended() || |t'.log| < t'.size)
    requires (t'.status == t.status == Running && !e.Fin()) || (t.fenced == |t.log| && t'.status.Closing? && e.Fin())
    ensures TxShape(t', k, n)
  {
    forall j | 0 <= j < |t'.log| ensures EntryShape(t', k, j) {
      assert j < |t.log| ==> EntryShape(t, k, j);
    }
  }

  lemma FlushedShape(s: State, step: Step)
    requires Shape(s) && (step.Publish? || step.Close?) && Enabled(s, step)
    ensures step.Close? ==> s.txs[step.k].fenced == |s.txs[step.k].log|
    ensures s.txs[step.k].gen != 0
  {
    assert TxShape(s.txs[step.k], step.k, |s.cur.ring.slots|);
  }

  lemma LogStepEntry(s: State, step: Step)
    requires Inv(s) && Enabled(s, step)
    requires step.Publish? || step.Close?
    ensures LogInv(Apply(s, step))
  {
    hide LogInv, MemInv, TxShape;
    InvShape(s);
    var s' := Apply(s, step);
    var t := s.txs[step.k];
    var t' := s'.txs[step.k];
    var e := t'.log[|t.log|];
    assert TxShape(t, step.k, |s.cur.ring.slots|);
    FlushedShape(s, step);
    PublishedShape(t, step.k, |s.cur.ring.slots|, t', e);
    AppendLog(s, step.k, t', e);
    CommittedIsNoLog(s'.(committed := s.committed), s'.committed);
  }

  lemma CommittedIsNoLog(s: State, committed: Memory)
    requires LogInv(s) && committed.Keys == s.committed.Keys
    ensures LogInv(s.(committed := committed))
  {
    hide AllSlots, AllKept, FencedKept, ZoneZeroed, ZonePersisted, AllPlaced, CleanerOk, Ordered, HeaderOk, TxShape;
  }

  lemma LogStep(s: State, step: Step)
    requires Inv(s) && Enabled(s, step)
    ensures LogInv(Apply(s, step))
  {
    hide AllSlots, AllKept, FencedKept, ZoneZeroed, ZonePersisted, AllPlaced, CleanerOk, Ordered, HeaderOk, MemOk,
      InZone, PersistZone;
    match step
    case EvictByte(a) => LogStepMemory(s, step);
    case EvictSlot(i) => PersistSlotsLog(s, i, i + 1);
    case EvictHeader => EvictHeaderLog(s);
    case Wrap(req) => WrapLog(s, req);
    case Reserve(req) => ReserveLog(s, req);
    case Scribble(k, e) => ScribbleLog(s, k, e);
    case Publish(k, addr, len) => LogStepEntry(s, step);
    case Fence(k, header) => FenceLogUpTo(s, k, 0, header, s.txs[k].status);
    case Write(k, a, v) => LogStepMemory(s, step);
    case FlushData(k) => LogStepMemory(s, step);
    case UndoAll(k) => LogStepMemory(s, step);
    case FlushUndo(k) => LogStepMemory(s, step);
    case Close(k) => LogStepEntry(s, step);
    case CloseFence(k, header) =>
      assert TxShape(s.txs[k], k, |s.cur.ring.slots|);
      FenceLogUpTo(s, k, |s.txs[k].log| - 1, header, Done);
    case CleanBegin => CleanBeginLog(s);
    case CleanSkip => CleanSkipLog(s);
    case CleanTake => CleanTakeLog(s);
    case CleanZero => CleanZeroLog(s);
    case CleanDone => CleanDoneLog(s);
  }

  /** The slots of an open transaction hold its entries. */
  lemma OpenSlots(s: State, k: nat, j: nat)
    requires LogInv(s) && k < |s.txs| && !s.txs[k].Ended() && j < |s.txs[k].log|
    ensures s.txs[k].start + j < |s.cur.ring.slots|
    ensures s.cur.ring.slots[s.txs[k].start + j] == s.txs[k].log[j] && s.txs[k].log[j].gen == s.txs[k].gen
  {
    var t := s.txs[k];
    var i := t.start + j;
    assert TxShape(t, k, |s.cur.ring.slots|);
    assert EntryShape(t, k, j);
    OpenAhead(s, k, i);
    assert Kept(s.cur.hdr, s.cleaner, t, k, |t.log|, s.cur.ring);
    assert SlotOk(s.cur.hdr, s.txs, s.cur.ring.slots[i], s.cur.ring.own[i], i);
  }

  lemma OpenSlotsAll(s: State, k: nat)
    requires LogInv(s) && k < |s.txs| && !s.txs[k].Ended()
    ensures s.txs[k].start + |s.txs[k].log| <= |s.cur.ring.slots|
    ensures forall j :: 0 <= j < |s.txs[k].log| ==>
      s.cur.ring.slots[s.txs[k].start + j] == s.txs[k].log[j] && s.txs[k].log[j].gen == s.txs[k].gen
  {
    assert TxShape(s.txs[k], k, |s.cur.ring.slots|);
    hide LogInv;
    forall j | 0 <= j < |s.txs[k].log|
      ensures s.cur.ring.slots[s.txs[k].start + j] == s.txs[k].log[j] && s.txs[k].log[j].gen == s.txs[k].gen
    {
      OpenSlots(s, k, j);
    }
  }

  lemma OwnerRemembers(s: State, k: nat)
    requires MemInv(s) && k < |s.txs| && !s.txs[k].status.Done?
    ensures Remembers(s.txs[k])
  {
    assert TxBytesOk(s.cur.mem, s.per.mem, s.committed, s.txs[k]);
  }

  lemma InvShape(s: State)
    requires LogInv(s)
    ensures Shape(s)
  {
  }

  /** s' differs from s in the cached bytes that t logged: they have their first saved values. */
  ghost predicate RolledBack(s: State, s': State, t: Tx) {
    && s'.cur.mem.Keys == s.cur.mem.Keys
    && forall a :: a in s.cur.mem ==> s'.cur.mem[a] == if a in t.before then t.before[a] else s.cur.mem[a]
  }

  /** Abort's in-place undo restores exactly the bytes the transaction logged. */
  lemma AbortRestores(s: State, k: nat)
    requires Inv(s) && Enabled(s, UndoAll(k))
    ensures RolledBack(s, Apply(s, UndoAll(k)), s.txs[k])
  {
    hide LogInv, MemInv, Remembers;
    InvShape(s);
    OpenSlotsAll(s, k);
    OwnerRemembers(s, k);
    forall a | a in s.cur.mem
      ensures Apply(s, UndoAll(k)).cur.mem[a] == if a in s.txs[k].before then s.txs[k].before[a] else s.cur.mem[a]
    {
      UndoRestores(s.cur.mem, s.cur.ring.slots, s.txs[k].start, s.txs[k], a);
    }
  }

  lemma UndoneStage(s: State, s': State, k: nat)
    requires MemInv(s) && k < |s.txs| && s.txs[k].status.Running? && RolledBack(s, s', s.txs[k])
    requires s.txs[k].fenced <= |s.txs[k].log|
    ensures ChangesWithin(s.cur.mem, s.per.mem, s.committed, s'.cur.mem, s.per.mem, s.committed, s.txs[k])
    ensures forall a :: a in s.txs[k].before && a in s'.cur.mem ==>
      StageValues(s.txs[k], Undone, a, s'.cur.mem[a], s.per.mem[a], s.committed[a])
  {
    hide Disjoint, AgreeWhereFree, Remembers;
    var t := s.txs[k];
    assert TxBytesOk(s.cur.mem, s.per.mem, s.committed, t);
    forall a | a in t.before && a in s'.cur.mem
      ensures StageValues(t, Undone, a, s'.cur.mem[a], s.per.mem[a], s.committed[a])
    {
      assert StageOk(t, a, s.cur.mem[a], s.per.mem[a], s.committed[a]);
    }
  }

  lemma UndoAllMem(s: State, k: nat)
    requires Inv(s) && Enabled(s, UndoAll(k))
    ensures MemInv(Apply(s, UndoAll(k)))
  {
    hide LogInv, MemOk, RolledBack, ChangesWithin, StageValues, TxShape;
    InvShape(s);
    var s' := Apply(s, UndoAll(k));
    AbortRestores(s, k);
    UndoneStage(s, s', k);
    StatusMem(s.cur.mem, s.per.mem, s.committed, s'.cur.mem, s.per.mem, s.committed, s.txs, k, Undone);
  }

  lemma FlushMem(s: State, step: Step)
    requires Inv(s) && (step.FlushData? || step.FlushUndo?) && Enabled(s, step)
    ensures MemInv(Apply(s, step))
  {
    var t := s.txs[step.k];
    var s' := Apply(s, step);
    var st := s'.txs[step.k].status;
    assert TxShape(t, step.k, |s.cur.ring.slots|);
    hide LogInv, Disjoint, AgreeWhereFree;
    assert TxBytesOk(s.cur.mem, s.per.mem, s.committed, t);
    forall a | a in t.before && a in s'.per.mem
      ensures StageValues(t, st, a, s.cur.mem[a], s'.per.mem[a], s.committed[a])
    {
      assert StageOk(t, a, s.cur.mem[a], s.per.mem[a], s.committed[a]);
    }
    hide MemOk, TxBytesOk;
    StatusMem(s.cur.mem, s.per.mem, s.committed, s.cur.mem, s'.per.mem, s.committed, s.txs, step.k, st);
  }

  lemma CloseMem(s: State, k: nat)
    requires Inv(s) && Enabled(s, Close(k))
    ensures MemInv(Apply(s, Close(k)))
  {
    var t := s.txs[k];
    var s' := Apply(s, Close(k));
    var st := Closing(t.status.aborted);
    assert TxShape(t, k, |s.cur.ring.slots|);
    hide LogInv, Disjoint, AgreeWhereFree;
    assert TxBytesOk(s.cur.mem, s.per.mem, s.committed, t);
    forall a | a in t.before && a in s.cur.mem
      ensures StageValues(t, st, a, s.cur.mem[a], s.per.mem[a], s'.committed[a])
    {
      assert StageOk(t, a, s.cur.mem[a], s.per.mem[a], s.committed[a]);
    }
    hide TxBytesOk, MemOk;
    StatusMem(s.cur.mem, s.per.mem, s.committed, s.cur.mem, s.per.mem, s'.committed, s.txs, k, st);
    var t1 := t.(status := st);
    var txs1 := s.txs[k := t1];
    EndEntryMem(s.cur.mem, s.per.mem, s'.committed, txs1, k, s'.txs[k].log[|t.log|]);
    assert txs1[k := t1.(log := t1.log + [s'.txs[k].log[|t.log|]])] == s'.txs;
  }

  lemma MemStep(s: State, step: Step)
    requires Inv(s) && Enabled(s, step)
    ensures MemInv(Apply(s, step))
  {
    hide AllSlots, AllKept, FencedKept, ZoneZeroed, ZonePersisted, AllPlaced, CleanerOk, Ordered, HeaderOk, MemOk,
      InZone, PersistZone;
    match step
    case EvictByte(a) => EvictByteMem(s.cur.mem, s.per.mem, s.committed, s.txs, a);
    case Reserve(req) => ReserveMem(s.cur.mem, s.per.mem, s.committed, s.txs, Apply(s, step).txs[|s.txs|]);
    case Publish(k, addr, len) => PublishStepMem(s, k, addr, len);
    case Fence(k, header) =>
      FenceMem(s.cur.mem, s.per.mem, s.committed, s.txs, k);
    case Write(k, a, v) =>
      assert TxShape(s.txs[k], k, |s.cur.ring.slots|);
      WriteMem(s.cur.mem, s.per.mem, s.committed, s.txs, k, a, v);
    case FlushData(k) => FlushMem(s, step);
    case UndoAll(k) => UndoAllMem(s, k);
    case FlushUndo(k) => FlushMem(s, step);
    case Close(k) => CloseMem(s, k);
    case CloseFence(k, header) =>
      ReleaseMem(s.cur.mem, s.per.mem, s.committed, s.txs, k, Apply(s, step).txs[k]);
    case _ =>
  }

  lemma PublishStepMem(s: State, k: nat, addr: nat, len: nat)
    requires Inv(s) && Enabled(s, Publish(k, addr, len))
    ensures MemInv(Apply(s, Publish(k, addr, len)))
  {
    hide LogInv, MemOk;
    InvShape(s);
    var t' := Apply(s, Publish(k, addr, len)).txs[k];
    forall a, j | addr <= a < addr + len && 0 <= j < |s.txs| && j != k && !s.txs[j].status.Done?
      ensures a !in s.txs[j].before
    {
      assert FreeFor(s, k, a) && Unreleased(s, j);
    }
    PublishMem(s.cur.mem, s.per.mem, s.committed, s.txs, k, t', addr, len);
  }

  // ---- Runs --------------------------------------------------------------------------------------------

  ghost predicate IsRun(s: State, steps: seq<Step>)
    decreases |steps|
  {
    steps == [] || (Shape(s) && Enabled(s, steps[0]) && IsRun(Apply(s, steps[0]), steps[1..]))
  }

  ghost function After(s: State, steps: seq<Step>): State
    requires IsRun(s, steps)
    decreases |steps|
  {
    if steps == [] then s else After(Apply(s, steps[0]), steps[1..])
  }

  /** Runs can be put one behind the other. */
  lemma {:induction false} RunsJoin(s: State, steps: seq<Step>, more: seq<Step>)
    requires IsRun(s, steps) && IsRun(After(s, steps), more)
    ensures IsRun(s, steps + more) && After(s, steps + more) == After(After(s, steps), more)
    decreases |steps|
  {
    hide Apply, Enabled, Shape;
    if steps == [] {
      assert steps + more == more;
    } else {
      assert (steps + more)[0] == steps[0] && (steps + more)[1..] == steps[1..] + more;
      RunsJoin(Apply(s, steps[0]), steps[1..], more);
    }
  }

  lemma {:induction false} RunKeepsInv(s: State, steps: seq<Step>)
    requires Inv(s) && IsRun(s, steps)
    ensures Inv(After(s, steps))
    decreases |steps|
  {
    hide LogInv, MemInv;
    if steps != [] {
      LogStep(s, steps[0]);
      MemStep(s, steps[0]);
      RunKeepsInv(Apply(s, steps[0]), steps[1..]);
    }
  }

  /** Every state that a run from format reaches satisfies the invariant. */
  lemma ReachableInv(n: nat, mem: Memory, steps: seq<Step>)
    requires 2 <= n && IsRun(Format(n, mem), steps)
    ensures Inv(After(Format(n, mem), steps))
  {
    FormatLog(n, mem);
    FormatMem(n, mem);
    RunKeepsInv(Format(n, mem), steps);
  }

  // ---- The persisted log as recovery sees it ------------------------------------------------------

  /** Transaction t's reservation covers slot i in lap l. */
  ghost predicate Reserves(t: Tx, i: int, lap: int) {
    t.lap == lap && t.start <= i < t.End()
  }

  /** First slot of the reservation that owns slot i in lap l, or -1. */
  ghost function RegionAt(txs: seq<Tx>, i: int, lap: int): int {
    if exists k :: 0 <= k < |txs| && Reserves(txs[k], i, lap)
    then var k :| 0 <= k < |txs| && Reserves(txs[k], i, lap); txs[k].start
    else -1
  }

  lemma RegionIs(txs: seq<Tx>, k: nat, i: int)
    requires Ordered(txs) && k < |txs| && txs[k].start <= i < txs[k].End()
    ensures RegionAt(txs, i, txs[k].lap) == txs[k].start
  {
    assert Reserves(txs[k], i, txs[k].lap);
    forall j | 0 <= j < |txs| && Reserves(txs[j], i, txs[k].lap) ensures j == k {
      RegionsApart(txs, j, k, i);
    }
  }

  /** The persisted image shows transaction k as finished: its end entry is persisted, or the
      cleaner has moved head past it or wiped its start. */
  ghost predicate FinishedInImage(s: State, k: int)
    requires Shape(s) && 0 <= k < |s.txs|
  {
    var t := s.txs[k];
    t.Ended() &&
      (|| !InLog(s.cur.hdr, t)
       || InZone(s.cur.hdr, s.cleaner, t.start)
       || (var f := t.start + |t.log| - 1; s.per.ring.own[f] == k && s.per.ring.slots[f].gen != 0))
  }

  /** The share of lap `lap` in the persisted live region. */
  function SegmentOf(s: State, lap: int): Segment {
    var h := s.per.hdr;
    if lap == h.lap then Segment(s.per.ring.slots, if h.head <= h.tail then h.head else 0, h.tail, GenOf(lap))
    else Segment(s.per.ring.slots, h.head, |s.per.ring.slots|, GenOf(lap))
  }

  ghost predicate HasLap(s: State, lap: int) {
    lap == s.per.hdr.lap || (lap == s.per.hdr.lap - 1 && s.per.hdr.tail < s.per.hdr.head)
  }

  ghost function Regions(s: State, lap: int): seq<int> {
    seq(|s.per.ring.slots|, i => RegionAt(s.txs, i, lap))
  }

  ghost function ClosedRegions(s: State, lap: int): set<int>
    requires Shape(s)
  {
    set k | 0 <= k < |s.txs| && s.txs[k].lap == lap && FinishedInImage(s, k) :: s.txs[k].start
  }

  lemma SegmentLive(s: State, lap: int, i: int)
    requires LogInv(s) && HasLap(s, lap)
    ensures SegmentOf(s, lap).WellFormed()
    ensures var g := SegmentOf(s, lap);
      g.lo <= i < g.hi ==> Live(s.cur.hdr, i) && LapAt(s.cur.hdr, i) == lap && Live(s.per.hdr, i)
  {
  }

  /** A valid slot of the image belongs to a transaction in the log that wrote it there. */
  lemma SegmentOwner(s: State, lap: int, i: nat)
    requires LogInv(s) && HasLap(s, lap) && SegmentOf(s, lap).Valid(i)
    ensures 0 <= s.per.ring.own[i] < |s.txs|
    ensures var k := s.per.ring.own[i]; var t := s.txs[k];
      && t.lap == lap && InLog(s.cur.hdr, t) && t.start <= i < t.start + |t.log| <= t.End()
      && s.per.ring.slots[i] == t.log[i - t.start] && EntryShape(t, k, i - t.start)
      && RegionAt(s.txs, i, lap) == t.start && SegmentOf(s, lap).lo <= t.start
  {
    SegmentLive(s, lap, i);
    ValidOwner(s.cur.hdr, s.per.hdr, s.txs, s.per.ring, i);
    var k := s.per.ring.own[i];
    assert TxShape(s.txs[k], k, |s.cur.ring.slots|);
    RegionIs(s.txs, k, i);
  }

  /** A fenced entry of a transaction whose start the cleaner has not wiped is valid in the image. */
  lemma FencedIsValid(s: State, k: nat, j: nat)
    requires LogInv(s) && k < |s.txs| && j < s.txs[k].fenced <= |s.txs[k].log|
    requires InLog(s.cur.hdr, s.txs[k])
    requires !InZone(s.cur.hdr, s.cleaner, s.txs[k].start + j)
    ensures var t := s.txs[k];
      && HasLap(s, t.lap) && SegmentOf(s, t.lap).Valid(t.start + j)
      && s.per.ring.own[t.start + j] == k && s.per.ring.slots[t.start + j] == t.log[j]
  {
    var t := s.txs[k];
    var i := t.start + j;
    assert TxShape(t, k, |s.cur.ring.slots|);
    assert Placed(s.cur.hdr, s.per.hdr, t);
    RegionLive(s.cur.hdr, t, i);
    assert Kept(s.cur.hdr, s.cleaner, t, k, t.fenced, s.per.ring);
    assert SlotOk(s.cur.hdr, s.txs, s.per.ring.slots[i], s.per.ring.own[i], i);
  }

  /** The zone is a prefix of every lap. */
  lemma ZonePrefix(h: Header, c: Cleaner, i: int, j: int)
    requires i <= j && LapAt(h, i) == LapAt(h, j) && Live(h, i) && InZone(h, c, j)
    ensures InZone(h, c, i)
  {
  }

  /** A released transaction counts as finished in every image. */
  lemma DoneIsFinished(s: State, k: nat)
    requires LogInv(s) && k < |s.txs| && s.txs[k].status.Done?
    ensures FinishedInImage(s, k)
  {
    var t := s.txs[k];
    var f := t.start + |t.log| - 1;
    assert TxShape(t, k, |s.cur.ring.slots|);
    assert Placed(s.cur.hdr, s.per.hdr, t);
    if InLog(s.cur.hdr, t) {
      RegionLive(s.cur.hdr, t, f);
      if InZone(s.cur.hdr, s.cleaner, f) {
        ZonePrefix(s.cur.hdr, s.cleaner, t.start, f);
      } else {
        FencedIsValid(s, k, |t.log| - 1);
      }
    }
  }

  /** Below a wiped start of the MAX_GEN_ID lap the image shows no start without an end. */
  lemma WipedBelow(s: State, k: nat, i: nat, j: int)
    requires LogInv(s) && k < |s.txs| && InLog(s.cur.hdr, s.txs[k]) && InZone(s.cur.hdr, s.cleaner, s.txs[k].start)
    requires var g := SegmentOf(s, s.txs[k].lap);
      HasLap(s, s.txs[k].lap) && s.txs[k].start <= i < s.txs[k].End() && g.lo <= j <= i < g.hi && g.ValidStart(j)
    ensures s.per.ring.slots[j].Fin()
  {
    var t := s.txs[k];
    SegmentLive(s, t.lap, j);
    SegmentOwner(s, t.lap, j);
    if !InZone(s.cur.hdr, s.cleaner, j) {
      assert t.start < j;
      RegionsApart(s.txs, k, s.per.ring.own[j], j);
      assert false;
    }
  }

  lemma WipedShape(s: State, lap: int, i: nat)
    requires LogInv(s) && HasLap(s, lap) && SegmentOf(s, lap).Valid(i)
    requires 0 <= s.per.ring.own[i] < |s.txs| && InZone(s.cur.hdr, s.cleaner, s.txs[s.per.ring.own[i]].start)
    ensures NoPlainStart(SegmentOf(s, lap), i)
  {
    hide LogInv, InZone;
    InvShape(s);
    var g := SegmentOf(s, lap);
    SegmentOwner(s, lap, i);
    forall j | j <= i && g.ValidStart(j) ensures g.slots[j].Fin() {
      WipedBelow(s, s.per.ring.own[i], i, j);
    }
  }

  lemma FinishedShape(s: State, lap: int, i: nat)
    requires LogInv(s) && HasLap(s, lap) && SegmentOf(s, lap).Valid(i)
    requires FinishedInImage(s, s.per.ring.own[i])
    ensures var g := SegmentOf(s, lap); var r := Regions(s, lap);
      (g.ValidStart(r[i]) && ShowsFin(g, r, r[i])) || NoPlainStart(g, i)
  {
    hide LogInv, InZone, InLog, RegionAt, NoPlainStart, TxShape;
    InvShape(s);
    SegmentOwner(s, lap, i);
    var k := s.per.ring.own[i];
    var t := s.txs[k];
    if InZone(s.cur.hdr, s.cleaner, t.start) {
      WipedShape(s, lap, i);
    } else {
      FinishedStart(s, k, i);
      FinishedEnd(s, k, i);
    }
  }

  lemma FinishedEnd(s: State, k: nat, i: nat)
    requires LogInv(s) && k < |s.txs| && InLog(s.cur.hdr, s.txs[k]) && !InZone(s.cur.hdr, s.cleaner, s.txs[k].start)
    requires FinishedInImage(s, k) && HasLap(s, s.txs[k].lap)
    requires SegmentOf(s, s.txs[k].lap).Valid(i) && s.per.ring.own[i] == k
    ensures ShowsFin(SegmentOf(s, s.txs[k].lap), Regions(s, s.txs[k].lap), s.txs[k].start)
  {
    hide LogInv, InZone, InLog, RegionAt;
    InvShape(s);
    var t := s.txs[k];
    var f := t.start + |t.log| - 1;
    assert TxShape(t, k, |s.cur.ring.slots|);
    SegmentOwner(s, t.lap, i);
    if |t.log| == 1 {
      assert f == i;
    } else {
      FinishedFin(s, k);
    }
    assert SegmentOf(s, t.lap).ValidFin(f);
    InvOrdered(s);
    RegionIs(s.txs, k, f);
  }

  lemma InvOrdered(s: State)
    requires LogInv(s)
    ensures Ordered(s.txs)
  {
  }

  lemma FinishedFin(s: State, k: nat)
    requires LogInv(s) && k < |s.txs| && InLog(s.cur.hdr, s.txs[k]) && !InZone(s.cur.hdr, s.cleaner, s.txs[k].start)
    requires FinishedInImage(s, k) && 2 <= |s.txs[k].log|
    ensures var t := s.txs[k]; HasLap(s, t.lap) && SegmentOf(s, t.lap).ValidFin(t.start + |t.log| - 1)
  {
    var t := s.txs[k];
    var f := t.start + |t.log| - 1;
    assert TxShape(t, k, |s.cur.ring.slots|);
    assert EntryShape(t, k, |t.log| - 1);
    assert Placed(s.cur.hdr, s.per.hdr, t);
    RegionLive(s.cur.hdr, t, f);
    assert SlotOk(s.cur.hdr, s.txs, s.per.ring.slots[f], s.per.ring.own[f], f);
  }

  lemma FinishedStart(s: State, k: nat, i: nat)
    requires LogInv(s) && k < |s.txs| && InLog(s.cur.hdr, s.txs[k]) && !InZone(s.cur.hdr, s.cleaner, s.txs[k].start)
    requires s.txs[k].Ended() && HasLap(s, s.txs[k].lap) && SegmentOf(s, s.txs[k].lap).Valid(i)
    requires s.per.ring.own[i] == k
    ensures SegmentOf(s, s.txs[k].lap).ValidStart(s.txs[k].start)
  {
    var t := s.txs[k];
    assert TxShape(t, k, |s.cur.ring.slots|);
    SegmentOwner(s, t.lap, i);
    assert EntryShape(t, k, 0);
    if |t.log| == 1 {
      assert i == t.start;
    } else {
      FencedIsValid(s, k, 0);
    }
  }

  lemma ClosedIs(s: State, k: nat)
    requires LogInv(s) && k < |s.txs|
    ensures s.txs[k].start in ClosedRegions(s, s.txs[k].lap) <==> FinishedInImage(s, k)
  {
    if s.txs[k].start in ClosedRegions(s, s.txs[k].lap) {
      var j :| 0 <= j < |s.txs| && s.txs[j].lap == s.txs[k].lap && FinishedInImage(s, j) &&
        s.txs[j].start == s.txs[k].start;
      assert TxShape(s.txs[j], j, |s.cur.ring.slots|) && TxShape(s.txs[k], k, |s.cur.ring.slots|);
      RegionsApart(s.txs, j, k, s.txs[k].start);
    }
  }

  lemma ImageSlot(s: State, lap: int, i: nat)
    requires LogInv(s) && HasLap(s, lap) && SegmentOf(s, lap).Valid(i)
    ensures var g := SegmentOf(s, lap); var r := Regions(s, lap);
      && 0 <= r[i] <= i && (g.ValidStart(i) ==> r[i] == i)
      && (g.ValidFin(i) ==> r[i] in ClosedRegions(s, lap))
      && (r[i] in ClosedRegions(s, lap) ==> (g.ValidStart(r[i]) && ShowsFin(g, r, r[i])) || NoPlainStart(g, i))
  {
    hide LogInv, ClosedRegions, RegionAt, ShowsFin, NoPlainStart;
    InvShape(s);
    SegmentOwner(s, lap, i);
    var k := s.per.ring.own[i];
    ClosedIs(s, k);
    if FinishedInImage(s, k) {
      FinishedShape(s, lap, i);
    }
  }

  lemma ImageRegion(s: State, lap: int, i: nat, j: nat)
    requires LogInv(s) && HasLap(s, lap) && SegmentOf(s, lap).Valid(i)
    requires SegmentOf(s, lap).lo <= j < SegmentOf(s, lap).hi
    ensures j < |Regions(s, lap)|
    ensures Regions(s, lap)[i] <= j <= i ==> Regions(s, lap)[j] == Regions(s, lap)[i]
  {
    SegmentOwner(s, lap, i);
    if Regions(s, lap)[i] <= j <= i {
      RegionIs(s.txs, s.per.ring.own[i], j);
    }
  }

  lemma ImageFinLast(s: State, lap: int, i: nat, j: nat)
    requires LogInv(s) && HasLap(s, lap) && SegmentOf(s, lap).ValidFin(i) && SegmentOf(s, lap).Valid(j)
    requires Regions(s, lap)[i] == Regions(s, lap)[j]
    ensures j <= i
  {
    SegmentOwner(s, lap, i);
    SegmentOwner(s, lap, j);
    RegionsApart(s.txs, s.per.ring.own[i], s.per.ring.own[j], Regions(s, lap)[i]);
  }

  /** Every reachable persisted image has the structure that backward recovery relies on. */
  lemma ImageStructured(s: State, lap: int)
    requires LogInv(s) && HasLap(s, lap)
    ensures Structured(SegmentOf(s, lap), Regions(s, lap), ClosedRegions(s, lap))
  {
    var g := SegmentOf(s, lap);
    var r := Regions(s, lap);
    SegmentLive(s, lap, 0);
    hide LogInv, ClosedRegions, SegmentOf, ShowsFin, NoPlainStart, HasLap;
    forall i | g.Valid(i)
      ensures 0 <= r[i] <= i && (g.ValidStart(i) ==> r[i] == i) && (g.ValidFin(i) ==> r[i] in ClosedRegions(s, lap))
      ensures r[i] in ClosedRegions(s, lap) ==> (g.ValidStart(r[i]) && ShowsFin(g, r, r[i])) || NoPlainStart(g, i)
    {
      ImageSlot(s, lap, i);
    }
    forall i, j | g.Valid(i) && g.lo <= j < g.hi && r[i] <= j <= i ensures r[j] == r[i] {
      ImageRegion(s, lap, i, j);
    }
    forall i, j | g.ValidFin(i) && g.Valid(j) && r[i] == r[j] ensures j <= i {
      ImageFinLast(s, lap, i, j);
    }
  }
}
