/** Crashes during the recovery of the images that runs of the journal leave. */
module RecoveryReach {
  import opened JournalRing
  import opened JournalCrash
  import opened JournalInvariant
  import opened JournalMachine
  import JournalMemory
  import opened JournalMount
  import opened JournalSafety
  import opened JournalTheorems
  import opened RecoveryGroups
  import opened RecoveryHazard
  import opened RecoveryMany
  import opened RecoveryRestart
  import opened RecoverySequences
  import opened RecoverySteady
  import opened RecoverySteps
  import opened RecoverySweep
  import opened UndoRecovery

  function LapNumber(h: Header, second: bool): int {
    if second then h.lap - 1 else h.lap
  }

  /** The lap that recovery scans is the log's share of that lap. */
  lemma SameSegment(s: State, second: bool)
    requires LogInv(s) && (second ==> s.per.hdr.tail < s.per.hdr.head)
    ensures var lap := LapNumber(s.per.hdr, second);
      && Bounds(s.per.ring.slots, s.per.hdr) && HasLap(s, lap) && SegmentOf(s, lap).WellFormed()
      && Lap(s.per.ring.slots, s.per.hdr, second) == SegmentOf(s, lap)
  {
    GenFollowsLap(s.per.hdr.lap);
    GenFollowsLap(s.per.hdr.lap - 1);
    SegmentLive(s, LapNumber(s.per.hdr, second), 0);
  }

  lemma HeaderInside(s: State)
    requires LogInv(s)
    ensures Bounds(s.per.ring.slots, s.per.hdr)
  {
  }

  lemma NoOlderLap(slots: seq<Entry>, h: Header, i: int)
    requires Bounds(slots, h) && Restored(slots, h, true, i)
    ensures h.tail < h.head
  {
  }

  lemma UndoneHere(s: State, second: bool, i: nat)
    requires LogInv(s) && Bounds(s.per.ring.slots, s.per.hdr) && Restored(s.per.ring.slots, s.per.hdr, second, i)
    ensures var lap := LapNumber(s.per.hdr, second);
      HasLap(s, lap) && SegmentOf(s, lap).WellFormed() && i in UndoneIn(s, lap)
  {
    hide LogInv, Restored, UndoneSlots;
    if second {
      NoOlderLap(s.per.ring.slots, s.per.hdr, i);
    }
    SameSegment(s, second);
    RestoredSet(s.per.ring.slots, s.per.hdr, second, i);
  }

  /** Two undone slots of one reservation belong to one group. */
  lemma SameReservation(s: Segment, region: seq<int>, closed: set<int>, i: int, j: int)
    requires Structured(s, region, closed) && s.Valid(i) && s.Valid(j) && i <= j && region[i] == region[j]
    requires region[j] !in closed
    requires exists b :: StartOf(s, i, b)
    ensures exists b :: StartOf(s, i, b) && StartOf(s, j, b)
  {
    var b :| StartOf(s, i, b);
    forall x | i < x <= j ensures !s.ValidStart(x) {
      assert s.lo <= x < s.hi ==> region[x] == region[j];
    }
    forall x | i <= x < j ensures !s.ValidFin(x) {
      assert s.lo <= x < s.hi ==> region[x] == region[j];
    }
    assert StartOf(s, j, b);
  }

  lemma OneGroup(s: State, second: bool, i: nat, j: nat)
    requires Inv(s) && Bounds(s.per.ring.slots, s.per.hdr) && i <= j < |s.per.ring.own|
    requires s.per.ring.own[i] == s.per.ring.own[j]
    requires Restored(s.per.ring.slots, s.per.hdr, second, i) && Restored(s.per.ring.slots, s.per.hdr, second, j)
    ensures exists b ::
        StartOf(Lap(s.per.ring.slots, s.per.hdr, second), i, b) &&
        StartOf(Lap(s.per.ring.slots, s.per.hdr, second), j, b)
  {
    hide LogInv, JournalMemory.MemInv, Structured, ClosedRegions, UndoneSlots, FinishedInImage, StartOf;
    var lap := LapNumber(s.per.hdr, second);
    UndoneHere(s, second, i);
    UndoneHere(s, second, j);
    if second {
      NoOlderLap(s.per.ring.slots, s.per.hdr, i);
    }
    SameSegment(s, second);
    InvShape(s);
    ImageStructured(s, lap);
    UndoneOwner(s, lap, i);
    UndoneOwner(s, lap, j);
    OwnRegion(s, lap, i);
    OwnRegion(s, lap, j);
    SameReservation(SegmentOf(s, lap), Regions(s, lap), ClosedRegions(s, lap), i, j);
  }

  lemma OwnRegion(s: State, lap: int, i: nat)
    requires Inv(s) && HasLap(s, lap) && SegmentOf(s, lap).Valid(i) && Unfinished(s, s.per.ring.own[i])
    ensures i < |Regions(s, lap)| && Regions(s, lap)[i] == s.txs[s.per.ring.own[i]].start
    ensures Regions(s, lap)[i] !in ClosedRegions(s, lap)
  {
    hide LogInv, JournalMemory.MemInv, ClosedRegions, FinishedInImage, RegionAt;
    InvShape(s);
    SegmentOwner(s, lap, i);
    RegionValue(s, lap, i);
    ClosedIs(s, s.per.ring.own[i]);
  }

  /** In the image of every reachable state, entries undone over a common byte are of one group. */
  lemma ImageOneWriter(s: State)
    requires Inv(s)
    ensures Bounds(s.per.ring.slots, s.per.hdr) && OneWriter(s.per.ring.slots, s.per.hdr)
  {
    hide Inv, Restored, StartOf;
    LogOf(s);
    HeaderInside(s);
    var slots, h := s.per.ring.slots, s.per.hdr;
    forall l1: bool, l2: bool, i, j, a: nat |
      Restored(slots, h, l1, i) && Restored(slots, h, l2, j) && 0 <= i < |slots| && 0 <= j < |slots| &&
        slots[i].Covers(a) && slots[j].Covers(a)
      ensures l1 == l2 && SameGroup(Lap(slots, h, l1), i, j)
    {
      OneTransaction(s, l1, l2, i, j, a);
      if i <= j {
        OneGroup(s, l1, i, j);
      } else {
        OneGroup(s, l1, j, i);
      }
    }
    forall l: bool, i | Restored(slots, h, l, i) ensures 0 <= i < |slots| {
      RestoredBounds(slots, h, l, i);
    }
  }

  lemma LogOf(s: State)
    requires Inv(s)
    ensures LogInv(s)
  {
  }

  lemma OneTransaction(s: State, l1: bool, l2: bool, i: nat, j: nat, a: nat)
    requires Inv(s) && Bounds(s.per.ring.slots, s.per.hdr) && i < |s.per.ring.slots| && j < |s.per.ring.slots|
    requires Restored(s.per.ring.slots, s.per.hdr, l1, i) && Restored(s.per.ring.slots, s.per.hdr, l2, j)
    requires s.per.ring.slots[i].Covers(a) && s.per.ring.slots[j].Covers(a)
    ensures l1 == l2 && i < |s.per.ring.own| && j < |s.per.ring.own| && s.per.ring.own[i] == s.per.ring.own[j]
  {
    hide LogInv, JournalMemory.MemInv, Restored, UndoneIn, HasLap, JournalMemory.Remembers, FinishedInImage, TxShape;
    var lap1, lap2 := LapNumber(s.per.hdr, l1), LapNumber(s.per.hdr, l2);
    UndoneHere(s, l1, i);
    UndoneHere(s, l2, j);
    UndoneOwner(s, lap1, i);
    InvShape(s);
    var k := s.per.ring.own[i];
    OwnerRemembers(s, k);
    CoveredIsRemembered(s.txs[k], i - s.txs[k].start, a);
    UndoneCovers(s, lap1, i, k, a);
    UndoneCovers(s, lap2, j, k, a);
  }

  /** After any history from format whose mounts are safe and a crash, recovery may itself crash, and the image it
      leaves is recovered like the first one: always outside the laps of MAX_GEN_ID,
        and inside them exactly if nothing can be spoiled. */
  lemma RecoveryCrashes(n: nat, mem: Memory, events: seq<Event>)
    requires 2 <= n && IsHistory(Format(n, mem), events) && SafeMounts(Format(n, mem), events)
    ensures var s := Then(Format(n, mem), events);
      && Bounds(s.per.ring.slots, s.per.hdr)
      && (CrashProof(s.per.ring.slots, s.per.hdr) <==>
         !ScanRisk(s.per.ring.slots, s.per.hdr) && !SweepRisk(s.per.ring.slots, s.per.hdr))
      && (!HasMaxLap(s.per.hdr) ==> CrashProof(s.per.ring.slots, s.per.hdr))
  {
    hide Inv, LogInv, OneWriter, NothingNext, CrashProof, Risky, Then, IsHistory, SafeMounts;
    var s := Then(Format(n, mem), events);
    HistoryInv(n, mem, events);
    LogOf(s);
    ImageOneWriter(s);
    NothingNextInImage(s);
    CrashProofExactly(s.per.ring.slots, s.per.hdr);
  }

  /** A valid entry of the image is one that its transaction logged. */
  lemma ImageEntry(s: State, second: bool, i: nat)
    requires LogInv(s) && Bounds(s.per.ring.slots, s.per.hdr) && Lap(s.per.ring.slots, s.per.hdr, second).Valid(i)
    ensures s.per.ring.slots[i].Fin() || s.per.ring.slots[i].data != []
  {
    SameSegment(s, second);
    SegmentOwner(s, LapNumber(s.per.hdr, second), i);
  }

  /** No valid entry of a MAX_GEN_ID lap both starts and ends a transaction. */
  ghost predicate NoLoneEnd(slots: seq<Entry>, h: Header)
    requires Bounds(slots, h)
  {
    forall mx, i :: IsMaxLap(h, mx) && Lap(slots, h, mx).ValidStart(i) ==> !slots[i].Fin()
  }

  /** After any history from format whose mounts are safe and a crash, recovery may itself crash any number of times:
      outside the laps of MAX_GEN_ID nothing is lost, and in them nothing is if nothing can be spoiled, and only
      then where no transaction consists of its end entry. */
  lemma RecoveriesCrash(n: nat, mem: Memory, events: seq<Event>)
    requires 2 <= n && IsHistory(Format(n, mem), events) && SafeMounts(Format(n, mem), events)
    ensures var s := Then(Format(n, mem), events);
      && Bounds(s.per.ring.slots, s.per.hdr)
      && (!HasMaxLap(s.per.hdr) ==> ManyCrashProof(s.per.ring.slots, s.per.hdr))
      && (NothingSpoils(s.per.ring.slots, s.per.hdr) ==> ManyCrashProof(s.per.ring.slots, s.per.hdr))
      && (NoLoneEnd(s.per.ring.slots, s.per.hdr) ==>
            (ManyCrashProof(s.per.ring.slots, s.per.hdr)
             <==> !ScanRisk(s.per.ring.slots, s.per.hdr) && !SweepHazard(s.per.ring.slots, s.per.hdr)))
  {
    hide Inv, LogInv, OneWriter, NothingLater, Risky, Then, IsHistory, SafeMounts, ClearAbove, SweepHazard, ScanRisk,
      Recover,
      CrashImages;
    var s := Then(Format(n, mem), events);
    var slots, h := s.per.ring.slots, s.per.hdr;
    HistoryInv(n, mem, events);
    LogOf(s);
    ImageOneWriter(s);
    NothingLaterInImage(s);
    if NothingSpoils(slots, h) {
      forall m: Memory, runs ensures Recovered(CrashImages(Image(m, slots, h), runs)) == Recover(m, slots, h) {
        ManyCrashesInMaxLap(Image(m, slots, h), runs);
      }
    }
    if !HasMaxLap(h) {
      forall m: Memory, runs ensures Recovered(CrashImages(Image(m, slots, h), runs)) == Recover(m, slots, h) {
        ManyCrashes(Image(m, slots, h), runs);
      }
    }
    if NoLoneEnd(slots, h) {
      forall mx | IsMaxLap(h, mx) ensures StartsSave(Lap(slots, h, mx)) {
        forall b | Lap(slots, h, mx).ValidStart(b) ensures !slots[b].Fin() && slots[b].data != [] {
          ImageEntry(s, mx, b);
        }
      }
      ManyCrashProofExactly(slots, h);
    }
  }

  /** Atomicity survives crashes during recovery, however many: unfinished transactions are rolled back and
      everything else is kept by the recovery that gets through in the end. */
  lemma AtomicityOverRecoveryCrashes(n: nat, mem: Memory, events: seq<Event>, s: State, runs: seq<seq<RStep>>, a: nat)
    requires 2 <= n && IsHistory(Format(n, mem), events) && SafeMounts(Format(n, mem), events)
    requires s == Then(Format(n, mem), events) && a in mem
    requires Bounds(s.per.ring.slots, s.per.hdr)
    requires !HasMaxLap(s.per.hdr) || NothingSpoils(s.per.ring.slots, s.per.hdr)
    ensures var m := Recovered(CrashImages(Image(s.per.mem, s.per.ring.slots, s.per.hdr), runs));
      && Shape(s) && a in m && a in s.cur.mem
      && (forall k :: Unfinished(s, k) && a in s.txs[k].before ==> m[a] == s.txs[k].before[a])
      && ((forall k :: Unfinished(s, k) ==> a !in s.txs[k].before) ==> m[a] == s.cur.mem[a])
  {
    hide Inv, LogInv, NothingSpoils, Then, IsHistory, SafeMounts, CrashImages, Recover, Unfinished, NoLoneEnd;
    RecoveriesCrash(n, mem, events);
    AtomicityOverMounts(n, mem, events, a);
    assert Recovered(CrashImages(Image(s.per.mem, s.per.ring.slots, s.per.hdr), runs)) == CrashRecovered(s);
  }

  /** One crash is survived under the weaker condition that is exact for one. */
  lemma AtomicityOverRecoveryCrash(n: nat, mem: Memory, events: seq<Event>, s: State, rsteps: seq<RStep>, a: nat)
    requires 2 <= n && IsHistory(Format(n, mem), events) && SafeMounts(Format(n, mem), events)
    requires s == Then(Format(n, mem), events) && a in mem
    requires Bounds(s.per.ring.slots, s.per.hdr) && !ScanRisk(s.per.ring.slots, s.per.hdr)
    requires !SweepRisk(s.per.ring.slots, s.per.hdr)
    ensures var m := Again(Run(Begin(s.per.mem, s.per.ring.slots, s.per.hdr), rsteps));
      && Shape(s) && a in m && a in s.cur.mem
      && (forall k :: Unfinished(s, k) && a in s.txs[k].before ==> m[a] == s.txs[k].before[a])
      && ((forall k :: Unfinished(s, k) ==> a !in s.txs[k].before) ==> m[a] == s.cur.mem[a])
  {
    hide Inv, LogInv, ScanRisk, SweepRisk, Then, IsHistory, SafeMounts, Run, Again, Recover, Unfinished;
    RecoveryCrashes(n, mem, events);
    AtomicityOverMounts(n, mem, events, a);
    assert Again(Run(Begin(s.per.mem, s.per.ring.slots, s.per.hdr), rsteps)) == CrashRecovered(s);
  }
}
