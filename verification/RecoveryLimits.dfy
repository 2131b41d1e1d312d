/** Recoveries that lose a rollback because they crash: runs that lead to the images, in a ring of any size, and the
    loss. */
module RecoveryLimits {
  import opened JournalRing
  import opened JournalMachine
  import opened JournalRequest
  import opened JournalRuns
  import opened JournalCleanerRun
  import opened JournalInvariant
  import opened JournalLimits
  import opened JournalSafety
  import opened RecoveryGroups
  import opened RecoveryHazard
  import opened RecoveryLoss
  import opened RecoveryReach
  import opened RecoveryRestart
  import RecoverySteps
  import opened RecoverySweep
  import opened UndoRecovery

  // ---- The image
  // -----------------------------------------------------------------------------------------------------

  /** A durable entry of an open or committed transaction in the log is in the image. */
  lemma DurableEntry(s: State, n: nat, h: Header, txs: seq<Tx>, mem: Memory, durable: Memory, k: nat, j: nat)
    requires InOrder(s, n, h, txs, mem, durable) && k < |txs| && j < txs[k].fenced <= |txs[k].log|
    requires InLog(h, txs[k])
    ensures txs[k].start + j < n == |s.per.ring.slots| && s.per.ring.slots[txs[k].start + j] == txs[k].log[j]
    ensures txs[k].gen == GenOf(txs[k].lap) && txs[k].log[j].gen == txs[k].gen
  {
    FencedIsValid(s, k, j);
    assert TxShape(txs[k], k, n) && EntryShape(txs[k], k, j);
  }

  const LAST: int := 65534
  const G: nat := MAX_GEN_ID

  /** Two transactions at the beginning of the lap of MAX_GEN_ID: the first has saved byte 0 and is open; of the
      second, which has saved byte 1, there are two entries. */
  ghost predicate TwoGroups(slots: seq<Entry>, n: nat, second: Entry, third: Entry) {
    && 8 <= n == |slots|
    && slots[0].gen == G && RecoverySteps.PlainStart(slots[0]) && slots[0].addr == 0 && slots[0].data == [0]
    && slots[1].gen != G && slots[2] == second && slots[3] == third && slots[4].gen != G
    && second.gen == third.gen == G && RecoverySteps.PlainStart(second) && second.addr == 1 && second.data == [0] &&
       !third.isStart
  }

  /** The first of the two transactions, which has changed its byte. */
  lemma FirstOfTwo(n: nat) returns (s: State, txs: seq<Tx>)
    requires 8 <= n
    ensures Reaches(Format(n, M0), s) && Spent(txs)
    ensures InOrder(s, n, Header(0, 2, G, LAST), txs + [OpenTx(|txs|, LapBegin(LAST), 2, 0, 0)], M0[0 := 9], M0[0 := 9])
  {
    hide Reaches, InOrder, Spent;
    var s0 := Format(n, M0);
    var s1;
    s1, txs := ReachesLap(n, M0, LAST);
    SpentUnlogged(txs, 0);
    var h := LapBegin(LAST);
    var s2 := RunsOpen(s0, s1, n, h, txs, M0, M0, 2, 0);
    var t := OpenTx(|txs|, h, 2, 0, 0);
    assert t.log[0].Covers(0);
    s := RunsWrite(s0, s2, n, h.(tail := 2), txs + [t], M0, M0, |txs|, 0, 9);
  }

  lemma SpentUnlogged(txs: seq<Tx>, a: nat)
    requires Spent(txs)
    ensures Unlogged(txs, a)
  {
  }

  lemma OneMoreSpent(txs: seq<Tx>, t: Tx)
    requires Spent(txs) && t.status.Done? && t.start == 0 && |t.log| == 1
    ensures Spent(txs + [t])
  {
  }

  lemma OneUnlogged(txs: seq<Tx>, t: Tx, a: nat)
    requires Spent(txs) && a !in t.before
    ensures Unlogged(txs + [t], a)
  {
  }

  /** Nothing else is in the first five slots of the image. */
  lemma RestIsEmpty(s: State, n: nat, h: Header, txs: seq<Tx>, t1: Tx, t2: Tx, mem: Memory, durable: Memory, i: nat)
    requires InOrder(s, n, h, txs + [t1, t2], mem, durable) && Spent(txs) && 0 < i < n
    requires !(t1.start <= i < t1.start + |t1.log|) && !(t2.start <= i < t2.start + |t2.log|)
    ensures n == |s.per.ring.slots| && s.per.ring.slots[i].gen == 0
  {
    hide Inv;
    OrderFacts(s, n, h, txs + [t1, t2], mem, durable);
    OrderParts(s, n, h, txs + [t1, t2], mem, durable);
    forall k | 0 <= k < |txs + [t1, t2]|
      ensures !((txs + [t1, t2])[k].start <= i < (txs + [t1, t2])[k].start + |(txs + [t1, t2])[k].log|)
    {
      assert k < |txs| ==> (txs + [t1, t2])[k] == txs[k];
    }
    EmptyBetween(s, n, h, txs + [t1, t2], mem, durable, i);
  }

  /** The image of the two transactions. */
  lemma TwoInImage(s: State, n: nat, txs: seq<Tx>, t2: Tx, mem: Memory, durable: Memory)
    requires 8 <= n
    requires InOrder(s, n, Header(0, 5, G, LAST), txs + [OpenTx(|txs|, LapBegin(LAST), 2, 0, 0), t2], mem, durable)
    requires Spent(txs)
    requires t2.start == 2 && t2.size == 3 && t2.lap == LAST && t2.fenced == |t2.log| == 2
    requires t2.log[0] == DataEntry(|txs| + 1, G, true, 1, 0) && !t2.log[1].isStart
    ensures TwoGroups(s.per.ring.slots, n, t2.log[0], t2.log[1]) && OneWriter(s.per.ring.slots, Header(0, 5, G, LAST))
  {
    hide Inv, Spent, InOrder, OneWriter;
    var t1 := OpenTx(|txs|, LapBegin(LAST), 2, 0, 0);
    var h, all := Header(0, 5, G, LAST), txs + [t1, t2];
    assert all[|txs|] == t1 && all[|txs| + 1] == t2;
    DurableEntry(s, n, h, all, mem, durable, |txs|, 0);
    DurableEntry(s, n, h, all, mem, durable, |txs| + 1, 0);
    DurableEntry(s, n, h, all, mem, durable, |txs| + 1, 1);
    RestIsEmpty(s, n, h, txs, t1, t2, mem, durable, 1);
    RestIsEmpty(s, n, h, txs, t1, t2, mem, durable, 4);
    OrderParts(s, n, h, all, mem, durable);
    ImageOneWriter(s);
  }

  // ---- What the image loses
  // ------------------------------------------------------------------------------------------

  const H5: Header := Header(0, 5, G, LAST)

  lemma TwoLap(slots: seq<Entry>, n: nat, second: Entry, third: Entry)
    requires TwoGroups(slots, n, second, third)
    ensures Bounds(slots, H5) && IsMaxLap(H5, false) && Lap(slots, H5, false) == Segment(slots, 0, 5, G)
    ensures Lap(slots, H5, true).hi == Lap(slots, H5, true).lo
    ensures var s := Lap(slots, H5, false);
      && (forall i :: s.Valid(i) <==> i == 0 || i == 2 || i == 3) && (forall i :: s.ValidStart(i) <==> i == 0 || i == 2)
      && (forall i :: s.ValidFin(i) <==> i == 3 && third.Fin())
  {
  }

  /** The scan comes to the upper group and could be interrupted there. */
  lemma UpperGroup(slots: seq<Entry>, n: nat, second: Entry, third: Entry)
    requires TwoGroups(slots, n, second, third)
    ensures Bounds(slots, H5) && WalkBack(slots, 0, 3, G) == 2 && Descends(slots, H5, false, 5, {}, 4, {})
    ensures Divides(Lap(slots, H5, false), 4) && Leftover(slots, 2, 4, G) == (if third.Fin() then {3} else Slots(3, 4))
    ensures NextOpen(Lap(slots, H5, false), 2, 0)
  {
    TwoLap(slots, n, second, third);
    TopDivides(Lap(slots, H5, false));
    StaleDivides(Lap(slots, H5, false), 5);
    WalkBackStops(slots, 0, 3, G);
    assert Descends(slots, H5, false, 4, {}, 4, {});
    assert HasFin(slots, 2, 4, G) <==> third.Fin() by {
      assert third.Fin() ==> slots[3].Fin();
    }
  }

  /** Transaction 0 of the two is undone. */
  lemma LowerIsOpen(slots: seq<Entry>, n: nat, second: Entry, third: Entry)
    requires TwoGroups(slots, n, second, third)
    ensures Bounds(slots, H5) && LastOn(slots, H5, false, 0, 0) && Leaves(slots, H5, 0, 0)
  {
    TwoLap(slots, n, second, third);
    var s := Lap(slots, H5, false);
    assert StartOf(s, 0, 0) && s.ValidStart(2);
    assert forall f :: FinAt(s, 0, f) ==> f == 3;
    assert !FinAt(s, 0, 3);
    assert Restored(slots, H5, false, 0) && slots[0].Covers(0);
    assert LastOn(slots, H5, false, 0, 0);
    assert Untouched(slots, H5, true, 0);
  }

  lemma LosesFromRisk(mem: Memory, slots: seq<Entry>, n: nat, second: Entry, third: Entry, a: nat, v: Byte)
    requires TwoGroups(slots, n, second, third) && Bounds(slots, H5) && OneWriter(slots, H5)
    requires Threat(slots, H5, false, 2, 3, a, v) && a in mem && mem[a] != v
    ensures Loses(mem, slots, H5, a)
  {
    hide OneWriter, Threat, Divides, Descends, Loses, WalkBack, TwoGroups;
    UpperGroup(slots, n, second, third);
    TwoLap(slots, n, second, third);
    assert Lap(slots, H5, false).Valid(3);
    LosesInGroup(mem, slots, H5, false, 4, {}, 3, a, v);
  }

  lemma RiskFromThreat(slots: seq<Entry>, n: nat, second: Entry, third: Entry)
    requires TwoGroups(slots, n, second, third) && Bounds(slots, H5) && Spoils(slots, H5, false, 0, 2, 3)
    ensures ScanRisk(slots, H5)
  {
    hide Spoils, Divides, Descends, WalkBack, Unfenced;
    UpperGroup(slots, n, second, third);
    TwoLap(slots, n, second, third);
    assert NextSpoiled(slots, H5, false, 2, Leftover(slots, 2, 4, G));
    assert Risky(slots, H5, false, 4, {});
    assert Risky(slots, H5, false, 5, {});
  }

  /** A run comes to an image in which transaction A is open and transaction B above it has committed, in the lap of
      MAX_GEN_ID. Recovery can be interrupted so that the next one takes B's commit for A's, and leaves A's change. */
  lemma LeftCommitKeepsChange(n: nat) returns (s: State, k: nat)
    requires 8 <= n
    ensures Reaches(Format(n, M0), s) && Shape(s) && Bounds(s.per.ring.slots, s.per.hdr) && k < |s.txs|
    ensures !s.txs[k].Ended()
    ensures 0 in s.txs[k].before && 0 in s.per.mem && s.txs[k].before[0] == 0 && s.per.mem[0] == 9
    ensures ScanRisk(s.per.ring.slots, s.per.hdr) && Loses(s.per.mem, s.per.ring.slots, s.per.hdr, 0)
  {
    hide Reaches, InOrder, Spent, Loses, TwoGroups, OneWriter, Inv, ScanRisk, Leaves, Spoils, Threat;
    var s0, m := Format(n, M0), M0[0 := 9];
    var s1, txs := FirstOfTwo(n);
    k := |txs|;
    var t1, h := OpenTx(k, LapBegin(LAST), 2, 0, 0), Header(0, 2, G, LAST);
    OneUnlogged(txs, t1, 1);
    var s2 := RunsOpen(s0, s1, n, h, txs + [t1], m, m, 3, 1);
    var t2 := OpenTx(k + 1, h, 3, 1, 0);
    assert txs + [t1] + [t2] == txs + [t1, t2];
    s := RunsCommit(s0, s2, n, H5, txs + [t1, t2], m, m, k + 1);
    var t2' := CommittedTx(t2, k + 1);
    assert (txs + [t1, t2])[k + 1 := t2'] == txs + [t1, t2'];
    CopySame(m, t2.before.Keys);
    TwoInImage(s, n, txs, t2', m, m);
    OrderParts(s, n, H5, txs + [t1, t2'], m, m);
    OrderFacts(s, n, H5, txs + [t1, t2'], m, m);
    CommitThreat(s.per.ring.slots, n, t2'.log[0], t2'.log[1]);
    RiskFromThreat(s.per.ring.slots, n, t2'.log[0], t2'.log[1]);
    LosesFromRisk(m, s.per.ring.slots, n, t2'.log[0], t2'.log[1], 0, 0);
  }

  lemma CommitThreat(slots: seq<Entry>, n: nat, second: Entry, third: Entry)
    requires TwoGroups(slots, n, second, third) && third.Fin()
    ensures Bounds(slots, H5) && Threat(slots, H5, false, 2, 3, 0, 0) && Spoils(slots, H5, false, 0, 2, 3)
  {
    hide Leaves, Restored, LastOn;
    TwoLap(slots, n, second, third);
    UpperGroup(slots, n, second, third);
    LowerIsOpen(slots, n, second, third);
    var i: nat := 0;
    assert NextOpen(Lap(slots, H5, false), 2, 0) && Lap(slots, H5, false).Valid(i) && slots[i].Covers(0);
  }

  /** A run comes to an image in which neither has ended, and B has saved its byte twice. Recovery can be interrupted
      so that the next one undoes B's second entry alone, as part of A. */
  lemma LeftDataUndoneAlone(n: nat) returns (s: State, k: nat)
    requires 8 <= n
    ensures Reaches(Format(n, M0), s) && Shape(s) && Bounds(s.per.ring.slots, s.per.hdr) && k < |s.txs|
    ensures !s.txs[k].Ended()
    ensures 1 in s.txs[k].before && 1 in s.per.mem && s.txs[k].before[1] == 0 && s.per.mem[1] == 8
    ensures ScanRisk(s.per.ring.slots, s.per.hdr) && Loses(s.per.mem, s.per.ring.slots, s.per.hdr, 1)
  {
    hide Reaches, InOrder, Spent, Loses, TwoGroups, OneWriter, Inv, ScanRisk, Leaves, Spoils, Threat;
    var s0, m := Format(n, M0), M0[0 := 9];
    var s1, txs := FirstOfTwo(n);
    k := |txs| + 1;
    var t1, h := OpenTx(|txs|, LapBegin(LAST), 2, 0, 0), Header(0, 2, G, LAST);
    OneUnlogged(txs, t1, 1);
    var s2 := RunsOpen(s0, s1, n, h, txs + [t1], m, m, 3, 1);
    var t2 := OpenTx(k, h, 3, 1, 0);
    assert txs + [t1] + [t2] == txs + [t1, t2];
    assert t2.log[0].Covers(1);
    var s3 := RunsWrite(s0, s2, n, H5, txs + [t1, t2], m, m, k, 1, 7);
    var m7 := m[1 := 7];
    TwoUnlogged(txs, t1, t2, 1);
    var s4 := RunsMore(s0, s3, n, H5, txs + [t1, t2], m7, m7, k, 1);
    var t2' := MoreTx(t2, k, 1, 7);
    assert (txs + [t1, t2])[k := t2'] == txs + [t1, t2'];
    assert t2'.log[0].Covers(1);
    s := RunsWrite(s0, s4, n, H5, txs + [t1, t2'], m7, m7, k, 1, 8);
    var m8 := m7[1 := 8];
    TwoInImage(s, n, txs, t2', m8, m8);
    OrderParts(s, n, H5, txs + [t1, t2'], m8, m8);
    OrderFacts(s, n, H5, txs + [t1, t2'], m8, m8);
    DataThreat(s.per.ring.slots, n, t2'.log[0], t2'.log[1]);
    RiskFromThreat(s.per.ring.slots, n, t2'.log[0], t2'.log[1]);
    LosesFromRisk(m8, s.per.ring.slots, n, t2'.log[0], t2'.log[1], 1, 7);
  }

  lemma TwoUnlogged(txs: seq<Tx>, t1: Tx, t2: Tx, a: nat)
    requires Spent(txs) && a !in t1.before
    ensures Unlogged((txs + [t1, t2])[|txs| + 1 := t2.(before := map[])], a)
  {
    var all := (txs + [t1, t2])[|txs| + 1 := t2.(before := map[])];
    assert all == txs + [t1, t2.(before := map[])];
  }

  lemma DataThreat(slots: seq<Entry>, n: nat, second: Entry, third: Entry)
    requires TwoGroups(slots, n, second, third) && !third.Fin() && third.addr == 1 && third.data == [7]
    ensures Bounds(slots, H5) && Threat(slots, H5, false, 2, 3, 1, 7) && Spoils(slots, H5, false, 0, 2, 3)
  {
    TwoLap(slots, n, second, third);
    UpperGroup(slots, n, second, third);
    var s := Lap(slots, H5, false);
    assert StartOf(s, 2, 2) && forall f :: !s.ValidFin(f);
    assert Restored(slots, H5, false, 2) && slots[2].Covers(1) && slots[3].Covers(1) && Saved(slots[3], 1) == 7;
    assert forall second: bool :: !LastOn(slots, H5, second, 3, 1);
    assert Untouched(slots, H5, true, 1);
    assert forall i :: Restored(slots, H5, false, i) ==> i == 0 || i == 2 || i == 3;
    assert !DecidedBelow(slots, H5, false, 2, 1);
    assert !Leaves(slots, H5, 1, 7);
  }

  // ---- The older lap wiped with its undo
  // -----------------------------------------------------------------------------

  /** A run comes to an image whose log has just wrapped into the lap of MAX_GEN_ID, with an open transaction behind
      the tail. Recovery undoes it and wipes its slot with no barrier in between; the cache can let the wipe through
      first. */
  lemma WipedBeforeUndoIsDurable(n: nat) returns (s: State, k: nat)
    requires 8 <= n
    ensures Reaches(Format(n, M0), s) && Shape(s) && Bounds(s.per.ring.slots, s.per.hdr) && k < |s.txs|
    ensures !s.txs[k].Ended()
    ensures 0 in s.txs[k].before && 0 in s.per.mem && s.txs[k].before[0] == 0 && s.per.mem[0] == 9
    ensures SweepRisk(s.per.ring.slots, s.per.hdr) && Loses(s.per.mem, s.per.ring.slots, s.per.hdr, 0)
  {
    hide Reaches, InOrder, Spent, Loses, OneWriter, Inv, SweepRisk, Leaves;
    var s0, m, l := Format(n, M0), M0[0 := 9], LAST - 1;
    var s1, txs := ReachesLap(n, M0, l);
    var h := LapBegin(l);
    var s2 := RunsEmpty(s0, s1, n, h, txs, M0, M0, n - 3);
    var t1 := EmptyTx(|txs|, h, n - 3);
    var done := txs + [t1];
    OneMoreSpent(txs, t1);
    SpentUnlogged(done, 0);
    h := h.(tail := n - 3);
    var s3 := RunsOpen(s0, s2, n, h, done, M0, M0, 2, 0);
    k := |done|;
    var t2 := OpenTx(k, h, 2, 0, 0);
    h := h.(tail := n - 1);
    assert t2.log[0].Covers(0);
    var s4 := RunsWrite(s0, s3, n, h, done + [t2], M0, M0, k, 0, 9);
    FirstIsLast(done, t2, n - 1);
    var s5 := RunsCleaner(s0, s4, n, h, done + [t2], m, m);
    s := RunsWrap(s0, s5, n, h.(head := n - 3), done + [t2], m, m);
    var r := Header(n - 3, 0, G, LAST);
    GenFollowsLap(l);
    OrderParts(s, n, r, done + [t2], m, m);
    OrderFacts(s, n, r, done + [t2], m, m);
    assert (done + [t2])[k] == t2;
    DurableEntry(s, n, r, done + [t2], m, m, k, 0);
    ImageOneWriter(s);
    forall j | n - 3 < j < n ensures s.per.ring.slots[j].gen != G - 1 {
      BehindIsEmpty(s, n, r, done, t2, m, m, j);
    }
    OlderIsOpen(s.per.ring.slots, r, n - 3);
    var v := LosesOlderUndo(s.per.ring.slots, r, n - 3, 0);
    OlderValue(s.per.ring.slots, r, n - 3, v);
  }

  lemma FirstIsLast(done: seq<Tx>, t: Tx, tail: nat)
    requires Spent(done) && !t.Ended()
    ensures FirstOpen(done + [t], tail) == t.start
    ensures |t.log| > 0 ==> forall k :: 0 <= k < |done + [t]| && !(done + [t])[k].status.Done? ==>
      1 <= |(done + [t])[k].log|
  {
    var k := FirstOpenIs(done + [t], tail);
    assert (done + [t])[|done|] == t && forall j :: 0 <= j < |done| ==> (done + [t])[j] == done[j];
    assert k == |done|;
  }

  lemma BehindIsEmpty(s: State, n: nat, h: Header, done: seq<Tx>, t: Tx, mem: Memory, durable: Memory, i: nat)
    requires InOrder(s, n, h, done + [t], mem, durable) && Spent(done) && 0 < i < n
    requires !(t.start <= i < t.start + |t.log|)
    ensures n == |s.per.ring.slots| && s.per.ring.slots[i].gen == 0
  {
    hide Inv;
    OrderFacts(s, n, h, done + [t], mem, durable);
    OrderParts(s, n, h, done + [t], mem, durable);
    forall k | 0 <= k < |done + [t]|
      ensures !((done + [t])[k].start <= i < (done + [t])[k].start + |(done + [t])[k].log|)
    {
      assert k < |done| ==> (done + [t])[k] == done[k];
    }
    EmptyBetween(s, n, h, done + [t], mem, durable, i);
  }

  lemma OlderIsOpen(slots: seq<Entry>, h: Header, i: nat)
    requires Bounds(slots, h) && h.gen == G && h.tail < h.head == i && slots[i].gen == G - 1
    requires slots[i].isStart && !slots[i].Fin() && slots[i].addr == 0 && slots[i].data == [0]
    requires forall j :: i < j < |slots| ==> slots[j].gen != G - 1
    ensures Restored(slots, h, true, i) && slots[i].Covers(0) && SweepRisk(slots, h) && LastOn(slots, h, true, i, 0)
  {
    var s := Lap(slots, h, true);
    assert s.gen == G - 1 && s.lo == i;
    assert StartOf(s, i, i);
    assert forall f :: s.ValidFin(f) ==> false;
    assert Restored(slots, h, true, i);
  }

  lemma OlderValue(slots: seq<Entry>, h: Header, i: nat, v: Byte)
    requires Bounds(slots, h) && LastOn(slots, h, true, i, 0) && Leaves(slots, h, 0, v)
    requires slots[i].addr == 0 && slots[i].data == [0]
    ensures v == 0
  {
    hide Restored;
    LastBounds(slots, h, true, i, 0);
    var m: Memory := map[0 := 5];
    LeavesValue(m, slots, h, 0, v);
    LeavesLast(slots, h, true, i, 0);
    LeavesValue(m, slots, h, 0, 0);
  }
}
