/** Mounts that are not safe: histories that lose a committed change, in a ring of any size. */
module MountLimits {
  import opened JournalRing
  import opened JournalCleanerRun
  import opened JournalCode
  import opened JournalCrash
  import opened JournalInvariant
  import opened JournalLimits
  import opened JournalMachine
  import opened JournalMount
  import JournalMemory
  import opened JournalRequest
  import opened JournalRuns
  import opened JournalSafety
  import opened RecoveryGroups
  import opened RecoveryRestart
  import opened UndoRecovery

  // ---- Histories, piece by piece
  // ----------------------------------------------------------------------------------------

  /** Some history leads from s to s'. */
  ghost predicate LeadsTo(s: State, s': State) {
    exists events :: IsHistory(s, events) && Then(s, events) == s'
  }

  lemma {:induction false} HistoriesJoin(s: State, events: seq<Event>, more: seq<Event>)
    requires IsHistory(s, events) && IsHistory(Then(s, events), more)
    ensures IsHistory(s, events + more) && Then(s, events + more) == Then(Then(s, events), more)
    decreases |events|
  {
    hide Apply, Enabled, Shape, Remount;
    if events == [] {
      assert events + more == more;
    } else {
      assert (events + more)[0] == events[0] && (events + more)[1..] == events[1..] + more;
      match events[0] {
        case Do(step) => HistoriesJoin(Apply(s, step), events[1..], more);
        case Mount => HistoriesJoin(Remount(s), events[1..], more);
      }
    }
  }

  lemma LeadsOn(s: State, s1: State, s2: State)
    requires LeadsTo(s, s1) && LeadsTo(s1, s2)
    ensures LeadsTo(s, s2)
  {
    var a :| IsHistory(s, a) && Then(s, a) == s1;
    var b :| IsHistory(s1, b) && Then(s1, b) == s2;
    HistoriesJoin(s, a, b);
  }

  lemma {:induction false} RunIsHistory(s: State, steps: seq<Step>)
    requires IsRun(s, steps)
    ensures LeadsTo(s, After(s, steps))
    decreases |steps|
  {
    hide Apply, Enabled, Shape, Remount, LeadsTo;
    if steps == [] {
      NothingLeads(s);
    } else {
      StepLeads(s, steps[0]);
      RunIsHistory(Apply(s, steps[0]), steps[1..]);
      LeadsOn(s, Apply(s, steps[0]), After(s, steps));
    }
  }

  lemma NothingLeads(s: State)
    ensures LeadsTo(s, s)
  {
    assert IsHistory(s, []) && Then(s, []) == s;
  }

  lemma StepLeads(s: State, step: Step)
    requires Shape(s) && Enabled(s, step)
    ensures LeadsTo(s, Apply(s, step))
  {
    hide Apply, Enabled, Shape, Remount;
    var events := [Do(step)];
    assert events[1..] == [];
    assert IsHistory(Apply(s, step), []) && Then(Apply(s, step), []) == Apply(s, step);
    assert IsHistory(s, events) && Then(s, events) == Apply(s, step);
  }

  lemma MountLeads(s: State)
    requires Shape(s)
    ensures LeadsTo(s, Remount(s))
  {
    hide Apply, Enabled, Shape, Remount;
    var events := [Mount];
    assert events[1..] == [];
    assert IsHistory(Remount(s), []) && Then(Remount(s), []) == Remount(s);
    assert IsHistory(s, events) && Then(s, events) == Remount(s);
  }

  lemma ReachedLeads(s: State, s': State)
    requires Reaches(s, s')
    ensures LeadsTo(s, s')
  {
    var steps :| IsRun(s, steps) && After(s, steps) == s';
    RunIsHistory(s, steps);
  }

  /** A step that is taken whether or not the invariant holds. */
  lemma Takes(s0: State, s: State, step: Step) returns (s1: State)
    requires LeadsTo(s0, s) && Shape(s) && Enabled(s, step)
    ensures s1 == Apply(s, step) && LeadsTo(s0, s1)
  {
    hide Apply, Enabled, Shape, LeadsTo;
    s1 := Apply(s, step);
    StepLeads(s, step);
    LeadsOn(s0, s, s1);
  }

  lemma ShapeWith(s: State, s': State, k: nat)
    requires Shape(s) && s.cleaner.Idle? && s'.cleaner.Idle? && k < |s'.txs|
    requires |s.cur.ring.slots| == |s'.cur.ring.slots|
    requires |s'.cur.ring.slots| == |s'.cur.ring.own| == |s'.per.ring.slots| == |s'.per.ring.own|
    requires s'.cur.hdr.head < |s'.cur.ring.slots| && s'.cur.hdr.tail < |s'.cur.ring.slots|
    requires s'.per.hdr == s.per.hdr || s'.per.hdr == s'.cur.hdr
    requires s'.cur.mem.Keys == s.cur.mem.Keys && s'.per.mem.Keys == s.per.mem.Keys
    requires s'.committed.Keys == s.committed.Keys
    requires |s.txs| <= |s'.txs| <= |s.txs| + 1
    requires forall j :: 0 <= j < |s'.txs| && j != k ==> j < |s.txs| && s'.txs[j] == s.txs[j]
    requires TxShape(s'.txs[k], k, |s.cur.ring.slots|)
    ensures Shape(s')
  {
    hide TxShape;
  }

  lemma TakesReserve(s0: State, s: State, req: nat) returns (s1: State)
    requires LeadsTo(s0, s) && Shape(s) && s.cleaner.Idle? && 1 <= req <= Avail(s.cur.hdr, |s.cur.ring.slots|)
    requires s.cur.hdr.tail + req < |s.cur.ring.slots| && s.cur.hdr.gen == GenOf(s.cur.hdr.lap)
    ensures LeadsTo(s0, s1) && Shape(s1)
    ensures s1 == s.(cur := s.cur.(hdr := s.cur.hdr.(tail := s.cur.hdr.tail + req)),
      txs := s.txs + [FreshTx(s.cur.hdr, req)])
  {
    hide LeadsTo, TxShape;
    s1 := Takes(s0, s, Reserve(req));
    assert TxShape(FreshTx(s.cur.hdr, req), |s.txs|, |s.cur.ring.slots|) by {
      NewShape(s.cur.hdr, req, |s.txs|, |s.cur.ring.slots|);
    }
    ShapeWith(s, s1, |s.txs|);
  }

  lemma NewShape(h: Header, req: nat, k: nat, n: nat)
    requires 1 <= req && h.tail + req <= n && h.gen == GenOf(h.lap)
    ensures TxShape(FreshTx(h, req), k, n)
  {
  }

  /** Transaction k saves byte a and waits for that. */
  lemma TakesOpen(s0: State, s: State, k: nat, a: nat) returns (s1: State)
    requires LeadsTo(s0, s) && Shape(s) && s.cleaner.Idle? && k < |s.txs| && a in s.cur.mem && Unlogged(s.txs, a)
    requires s.txs[k].status.Running? && s.txs[k].log == [] && s.txs[k].before == map[] && 2 <= s.txs[k].size
    ensures LeadsTo(s0, s1) && Shape(s1) && s1.cleaner.Idle? && s1.committed == s.committed
    ensures var t := s.txs[k]; var e := DataEntry(k, t.gen, true, a, s.cur.mem[a]);
      && s1.txs == s.txs[k := t.(log := [e], fenced := 1, before := map[a := s.cur.mem[a]])] &&
         t.start < |s.cur.ring.slots|
      && s1.cur.ring.slots == s.cur.ring.slots[t.start := e] && |s.per.ring.slots| == |s.cur.ring.slots|
      && s1.per.ring.slots == s.per.ring.slots[t.start := e]
      && s1.cur.hdr == s.cur.hdr == s1.per.hdr && s1.cur.mem == s.cur.mem && s1.per.mem == s.per.mem
  {
    hide LeadsTo, TxShape, PersistSlots;
    var t, n := s.txs[k], |s.cur.ring.slots|;
    var v := s.cur.mem[a];
    var e := DataEntry(k, t.gen, true, a, v);
    OneByte(s.cur.mem, a);
    assert FreeFor(s, k, a);
    var s2 := Takes(s0, s, Publish(k, a, 1));
    var t2 := t.(log := [e], before := map[a := v]);
    assert s2.txs[k] == t2 && [] + [e] == [e];
    OpenShape(t, t2, k, n, e);
    ShapeWith(s, s2, k);
    s1 := Takes(s0, s2, Fence(k, true));
    FencedShape(t2, k, n, Running);
    ShapeWith(s2, s1, k);
    PersistedAt(s.per.ring, s2.cur.ring, t.start, t.start + 1);
  }

  lemma OpenShape(t: Tx, t': Tx, k: nat, n: nat, e: Entry)
    requires TxShape(t, k, n) && t.status.Running? && t.log == [] && 2 <= t.size
    requires t' == t.(log := [e], before := t'.before)
    requires e.gen == t.gen && e.tid == k && e.isStart && !e.Fin() && e.data != []
    ensures TxShape(t', k, n) && t.start < n
  {
    assert EntryShape(t', k, 0);
  }

  /** Transaction k commits. */
  lemma TakesCommit(s0: State, s: State, k: nat) returns (s1: State)
    requires LeadsTo(s0, s) && Shape(s) && s.cleaner.Idle? && k < |s.txs|
    requires s.txs[k].status.Running? && s.txs[k].fenced == |s.txs[k].log| < s.txs[k].size
    ensures LeadsTo(s0, s1) && Shape(s1) && s1.cleaner.Idle? && s.cur.mem.Keys == s.per.mem.Keys == s.committed.Keys
    ensures var t := s.txs[k]; var e := Entry(0, k, t.gen, |t.log| == 0, true, false, []); var at := t.start + |t.log|;
      && s1.txs == s.txs[k := CommittedTx(t, k)] && at < |s.cur.ring.slots| == |s.per.ring.slots|
      && s1.per.ring.slots == s.per.ring.slots[at := e]
      && s1.cur.hdr == s.cur.hdr == s1.per.hdr && s1.cur.mem == s.cur.mem
      && s1.per.mem == CopyBytes(s.per.mem, s.cur.mem, t.before.Keys) &&
         s1.committed == CopyBytes(s.committed, s.cur.mem, t.before.Keys)
  {
    hide LeadsTo, TxShape, PersistSlots, CopyBytes;
    var t, n := s.txs[k], |s.cur.ring.slots|;
    var e := Entry(0, k, t.gen, |t.log| == 0, true, false, []);
    var s2 := Takes(s0, s, FlushData(k));
    var t2 := t.(status := Flushed(false));
    var t3 := t2.(log := t.log + [e], status := Closing(false));
    CloseShapes(t, t2, t3, k, n, e);
    ShapeWith(s, s2, k);
    var s3 := Takes(s0, s2, Close(k));
    ShapeWith(s2, s3, k);
    s1 := Takes(s0, s3, CloseFence(k, true));
    FencedShape(t3, k, n, Done);
    ShapeWith(s3, s1, k);
    PersistedAt(s.per.ring, s3.cur.ring, t.start + |t.log|, t.start + |t.log| + 1);
    assert t3.(fenced := |t3.log|, status := Done) == CommittedTx(t, k);
  }

  lemma CloseShapes(t: Tx, t2: Tx, t3: Tx, k: nat, n: nat, e: Entry)
    requires TxShape(t, k, n) && t.status.Running? && t.fenced == |t.log| < t.size
    requires t2 == t.(status := Flushed(false)) && t3 == t2.(log := t.log + [e], status := Closing(false))
    requires e.gen == t.gen && e.tid == k && (e.isStart <==> |t.log| == 0) && e.Fin()
    ensures TxShape(t2, k, n) && TxShape(t3, k, n) && t.start + |t.log| < n
  {
    forall j | 0 <= j < |t.log| ensures EntryShape(t2, k, j) && EntryShape(t3, k, j) {
      assert EntryShape(t, k, j);
    }
    assert EntryShape(t3, k, |t.log|);
  }

  // ---- An empty log keeps what the cache wrote behind its tail
  // -----------------------------------------------------------

  const EARLY: Entry := DataEntry(0, 1, true, 0, 0)

  /** The first transaction's start entry is written back before the tail is; then the machine crashes. */
  lemma KeepsEarly(n: nat) returns (s: State)
    requires 8 <= n
    ensures LeadsTo(Format(n, M0), s) && Shape(s) && s.txs == [] && s.cleaner.Idle?
    ensures s.cur == s.per && s.cur.hdr == H0 && s.cur.mem == M0 == s.committed
    ensures |s.cur.ring.slots| == n == |s.cur.ring.own|
    ensures s.cur.ring.slots[0] == EARLY && forall i :: 0 < i < n ==> s.cur.ring.slots[i] == BLANK
  {
    hide Inv, Reaches, TxShape, LeadsTo;
    var s0 := Formatted(n, M0);
    OneByte(M0, 0);
    var s1 := Does(s0, s0, Reserve(2));
    assert FreeFor(s1, 0, 0);
    var s2 := Does(s0, s1, Publish(0, 0, 1));
    var s3 := Does(s0, s2, EvictSlot(0));
    ReachedLeads(s0, s3);
    MountLeads(s3);
    MountShape(s3);
    s := Remount(s3);
    LeadsOn(s0, s3, s);
    assert Accounted(H0, s3.txs) == 0;
  }

  const TXA: Tx := Tx(0, 2, 0, 1, [], 0, Running, map[])
  const TXB: Tx := Tx(2, 2, 0, 1, [], 0, Running, map[])
  const STARTB: Entry := DataEntry(1, 1, true, 0, 0)
  const COMMITB: Entry := Entry(0, 1, 1, false, true, false, [])
  const OPENB: Tx := TXB.(log := [STARTB], fenced := 1, before := map[0 := 0])

  /** The next mount's first two transactions; the second one has saved byte 0. */
  lemma SecondMount(n: nat) returns (s: State)
    requires 8 <= n
    ensures LeadsTo(Format(n, M0), s) && s.txs == [TXA, OPENB] && Shape(s) && s.cleaner.Idle?
    ensures s.cur.hdr == Header(0, 4, 1, 0) && s.cur.mem == M0 == s.per.mem == s.committed
    ensures |s.per.ring.slots| == n && s.per.ring.slots[0] == EARLY && s.per.ring.slots[1] == BLANK
    ensures s.per.ring.slots[2] == STARTB
  {
    hide LeadsTo, Shape;
    var s0 := Format(n, M0);
    var s1 := KeepsEarly(n);
    var s2 := TakesReserve(s0, s1, 2);
    assert s2.txs == [TXA];
    var s3 := TakesReserve(s0, s2, 2);
    assert s3.txs == [TXA, TXB];
    s := TakesOpen(s0, s3, 1, 0);
    assert s.txs == [TXA, OPENB];
  }

  /** An entry that reached persistent memory while the tail did not is still there at the next mount, which finds an
      empty log and keeps the generation. The next transaction to commit changes the same byte; the machine crashes
      before the old entry's slot has been written again, and recovery reverts the committed change. */
  lemma EmptyJournalKeepsStaleEntry(n: nat) returns (s: State)
    requires 8 <= n
    ensures LeadsTo(Format(n, M0), s) && Shape(s) && 0 in s.committed && 0 in CrashRecovered(s)
    ensures forall k :: 0 <= k < |s.txs| && !s.txs[k].Ended() ==> 0 !in s.txs[k].before
    ensures s.committed[0] == 9 && CrashRecovered(s)[0] == 0
  {
    hide LeadsTo, Recover;
    var s0, m := Format(n, M0), M0[0 := 9];
    var s1 := SecondMount(n);
    assert s1.txs[1].log[0].Covers(0);
    var s2 := Takes(s0, s1, Write(1, 0, 9));
    ShapeWith(s1, s2, 1);
    s := TakesCommit(s0, s2, 1);
    assert s.txs == [TXA, CommittedTx(OPENB, 1)];
    EarlyUndone(s.per.mem, s.per.ring.slots, n);
  }

  lemma EarlyUndone(mem: Memory, slots: seq<Entry>, n: nat)
    requires 8 <= n == |slots| && slots[0] == EARLY && slots[1] == BLANK && slots[2] == STARTB && slots[3] == COMMITB
    requires 0 in mem
    ensures Recover(mem, slots, Header(0, 4, 1, 0))[0] == 0
  {
    var h := Header(0, 4, 1, 0);
    var s := Lap(slots, h, false);
    assert forall i :: s.Valid(i) <==> i == 0 || i == 2 || i == 3;
    assert StartOf(s, 0, 0) && s.ValidStart(2);
    assert forall f :: s.ValidFin(f) ==> f == 3;
    assert !FinAt(s, 0, 3);
    assert Restored(slots, h, false, 0);
    assert LastOn(slots, h, false, 0, 0) && Untouched(slots, h, true, 0);
    LeavesValue(mem, slots, h, 0, 0);
  }

  // ---- A generation comes round again
  // -------------------------------------------------------------------------------------

  const STALE: Entry := DataEntry(0, 1, false, 1, 0)

  const T0: Tx := OpenTx(0, H0, 3, 0, 0)
  const T1: Tx := MoreTx(T0, 0, 1, 0)
  const T2: Tx := CommittedTx(T1, 0)

  /** Transaction 0 has saved bytes 0 and 1, changed byte 1 and committed. */
  lemma TwoBytes(n: nat) returns (s: State)
    requires 8 <= n
    ensures Reaches(Format(n, M0), s) && InOrder(s, n, Header(0, 3, 1, 0), [T2], M1, M1)
    ensures |s.cur.ring.slots| == n && s.cur.ring.slots[1] == STALE
  {
    hide Reaches, InOrder;
    var s0 := Formatted(n, M0);
    var s1 := RunsOpen(s0, s0, n, H0, [], M0, M0, 3, 0);
    assert [] + [T0] == [T0];
    var h := Header(0, 3, 1, 0);
    assert Unlogged([T0][0 := T0.(before := map[])], 1);
    var s2 := RunsMore(s0, s1, n, h, [T0], M0, M0, 0, 1);
    assert [T0][0 := T1] == [T1] && T1.log[1].Covers(1) && T1.log[1] == STALE;
    var s3 := RunsWrite(s0, s2, n, h, [T1], M0, M0, 0, 1, 7);
    assert M0[1 := 7] == M1;
    s := RunsCommit(s0, s3, n, h, [T1], M1, M1, 0);
    CopySame(M1, T1.before.Keys);
    assert [T1][0 := T2] == [T2];
  }

  /** The lap after it begins. */
  lemma FirstLap(n: nat) returns (s: State)
    requires 8 <= n
    ensures Reaches(Format(n, M0), s) && InOrder(s, n, LapBegin(1), [T2], M1, M1) && AllDone([T2])
    ensures |s.cur.ring.slots| == n && s.cur.ring.slots[1] == STALE
  {
    hide Reaches, InOrder, Clean, FirstOpen;
    var s0, h, txs := Format(n, M0), Header(0, 3, 1, 0), [T2];
    var s4 := TwoBytes(n);
    OneDoneTx(T2);
    DoneIsEnded(txs);
    var s5 := RunsCleaner(s0, s4, n, h, txs, M1, M1);
    CleanLeaves(s4.cur.ring.slots, 0, 3, 1);
    var s6 := RunsWrap(s0, s5, n, h.(head := 3), txs, M1, M1);
    CleanLeavesOlder(s6.cur.ring.slots, 3, 1);
    s := RunsCleaner(s0, s6, n, Header(3, 0, 2, 1), txs, M1, M1);
  }

  /** The laps go by up to the last but one before the generation wraps. Slot 1 is as transaction 0 left it. */
  lemma LastLapButOne(n: nat) returns (s: State, txs: seq<Tx>)
    requires 8 <= n
    ensures Reaches(Format(n, M0), s) && InOrder(s, n, Header(0, 3, 65534, 65533), txs, M1, M1) && AllDone(txs)
    ensures n == |s.per.ring.slots| && s.per.ring.slots[1] == STALE
  {
    hide Reaches, InOrder, AllDone;
    var s0, h := Format(n, M0), LapBegin(65533);
    var s7 := FirstLap(n);
    var s8, txs8 := LapsGoBy(s0, s7, n, 1, 65533, [T2], M1);
    var s9 := RunsEmpty(s0, s8, n, h, txs8, M1, M1, 3);
    txs := txs8 + [EmptyTx(|txs8|, h, 3)];
    DoneMore(txs8, EmptyTx(|txs8|, h, 3));
    s := RunsEvict(s0, s9, n, Header(0, 3, 65534, 65533), txs, M1, M1, 1);
  }

  lemma OneDoneTx(t: Tx)
    requires t.status.Done?
    ensures AllDone([t])
  {
  }

  lemma DoneMore(txs: seq<Tx>, t: Tx)
    requires AllDone(txs) && t.status.Done?
    ensures AllDone(txs + [t])
  {
  }

  /** Nothing in the image is of the lap of MAX_GEN_ID or later. */
  lemma NothingOfMax(s: State, n: nat, txs: seq<Tx>)
    requires InOrder(s, n, Header(0, 3, 65534, 65533), txs, M1, M1)
    ensures n == |s.per.ring.slots| == |s.per.ring.own|
    ensures forall i :: 0 <= i < n ==> s.per.ring.slots[i].gen < MAX_GEN_ID
  {
    OrderFacts(s, n, Header(0, 3, 65534, 65533), txs, M1, M1);
    forall i | 0 <= i < n ensures s.per.ring.slots[i].gen < MAX_GEN_ID {
      assert SlotOk(s.cur.hdr, s.txs, s.per.ring.slots[i], s.per.ring.own[i], i);
    }
  }

  lemma NothingToUndo(s: State, n: nat, txs: seq<Tx>)
    requires InOrder(s, n, Header(0, 3, 65534, 65533), txs, M1, M1) && AllDone(txs)
    ensures Shape(s) && CrashRecovered(s) == M1
  {
    hide LogInv, FinishedInImage, CrashRecovered, TxShape, JournalMemory.MemInv;
    OrderFacts(s, n, Header(0, 3, 65534, 65533), txs, M1, M1);
    forall a | a in M1 ensures a in CrashRecovered(s) && CrashRecovered(s)[a] == M1[a] {
      CrashKeeps(s, a);
    }
    assert CrashRecovered(s).Keys == s.per.mem.Keys;
  }

  /** Recovery leaves the slots in front of the tail alone in generation 65534, and the lap of MAX_GEN_ID begins behind
      them, so that nothing wipes them before generation 1 comes round. Transaction 0's entry in slot 1, which was
      written in generation 1 once, is then undone with the new transaction, and byte 1 loses its committed value. */
  lemma NotWipedBeforeGenerationWraps(n: nat) returns (s: State)
    requires 8 <= n
    ensures LeadsTo(Format(n, M0), s) && Shape(s) && 1 in s.committed && 1 in CrashRecovered(s)
    ensures forall k :: 0 <= k < |s.txs| && !s.txs[k].Ended() ==> 1 !in s.txs[k].before
    ensures s.committed[1] == 7 && CrashRecovered(s)[1] == 0
  {
    hide LeadsTo, Inv, TxShape, CrashRecovered, Accounted, AllDone;
    var s0 := Format(n, M0);
    var s1, txs := LastLapButOne(n);
    ReachedLeads(s0, s1);
    NothingOfMax(s1, n, txs);
    NothingToUndo(s1, n, txs);
    OrderFacts(s1, n, Header(0, 3, 65534, 65533), txs, M1, M1);
    MountLeads(s1);
    MountShape(s1);
    var s2 := Remount(s1);
    LeadsOn(s0, s1, s2);
    OldAreDone(s1, txs);
    assert s2.cur.hdr == Header(3, 3, MAX_GEN_ID, 65534) && s2.cur.ring == s1.per.ring;
    s := NewTransaction(s0, s2, n);
  }

  lemma OldAreDone(s: State, txs: seq<Tx>)
    requires Shape(s) && s.txs == txs && AllDone(txs) && s.per.hdr.head != s.per.hdr.tail
    ensures AllDone(Remount(s).txs)
  {
    hide RecoveredSlots, CrashRecovered, TxShape;
  }

  /** The mount's first transaction, after a wrap to slot 0, logs one entry; the second slot is as it was. */
  lemma NewTransaction(s0: State, s: State, n: nat) returns (s': State)
    requires 8 <= n && LeadsTo(s0, s) && Shape(s) && s.cleaner.Idle? && AllDone(s.txs) && n == |s.cur.ring.slots|
    requires s.cur == s.per && s.cur.hdr == Header(3, 3, MAX_GEN_ID, 65534) && s.cur.mem == M1 == s.committed
    requires s.cur.ring.slots[1] == STALE && forall i :: 0 <= i < n ==> s.cur.ring.slots[i].gen < MAX_GEN_ID
    ensures LeadsTo(s0, s') && Shape(s') && 1 in s'.committed && 1 in CrashRecovered(s')
    ensures forall k :: 0 <= k < |s'.txs| && !s'.txs[k].Ended() ==> 1 !in s'.txs[k].before
    ensures s'.committed[1] == 7 && CrashRecovered(s')[1] == 0
  {
    hide LeadsTo, TxShape, Recover;
    var k := |s.txs|;
    var s1 := Takes(s0, s, Wrap(n - 3));
    assert s1.cur.hdr == Header(3, 0, 1, 65535) && s1 == s.(cur := s.cur.(hdr := s1.cur.hdr));
    WrapShape(s, s1);
    var s2 := TakesReserve(s0, s1, 2);
    DoneUnlogged(s.txs, FreshTx(s1.cur.hdr, 2), 0);
    s' := TakesOpen(s0, s2, k, 0);
    var e := DataEntry(k, 1, true, 0, 0);
    assert forall j :: 0 <= j < k ==> s'.txs[j] == s.txs[j];
    StaleUndone(M1, s'.per.ring.slots, n, e);
  }

  lemma WrapShape(s: State, s1: State)
    requires Shape(s) && s1 == s.(cur := s.cur.(hdr := s1.cur.hdr)) && s1.cur.hdr.head < |s.cur.ring.slots|
    requires s1.cur.hdr.tail < |s.cur.ring.slots|
    requires s.cleaner.Idle?
    ensures Shape(s1)
  {
  }

  lemma DoneUnlogged(txs: seq<Tx>, t: Tx, a: nat)
    requires AllDone(txs) && t.before == map[]
    ensures Unlogged(txs + [t], a)
  {
  }

  lemma StaleUndone(mem: Memory, slots: seq<Entry>, n: nat, e: Entry)
    requires 8 <= n == |slots| && slots[0] == e && slots[1] == STALE && 1 in mem
    requires e.isStart && !e.Fin() && e.gen == 1 && e.addr == 0 && |e.data| == 1
    requires forall i :: 3 <= i < n ==> slots[i].gen < MAX_GEN_ID
    ensures Recover(mem, slots, Header(3, 2, 1, 65535))[1] == 0
  {
    var h := Header(3, 2, 1, 65535);
    var s := Lap(slots, h, false);
    assert forall i :: s.Valid(i) <==> i == 0 || i == 1;
    assert StartOf(s, 0, 0) && StartOf(s, 1, 0);
    assert forall f :: !s.ValidFin(f);
    assert Restored(slots, h, false, 1) && slots[1].Covers(1) && !slots[0].Covers(1);
    assert LastOn(slots, h, false, 1, 1);
    assert forall i: int :: !Lap(slots, h, true).Valid(i);
    assert Untouched(slots, h, true, 1);
    LeavesValue(mem, slots, h, 1, 0);
  }
}
