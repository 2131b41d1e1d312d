/** The last steps of recovery at generation MAX_GEN_ID, and when a crash during recovery is harmless at all. */
module RecoverySweep {
  import opened JournalRing
  import opened RecoveryExact
  import opened RecoveryGroups
  import opened RecoveryHazard
  import opened RecoveryLoss
  import opened RecoveryMaxLap
  import opened RecoveryMaxRun
  import opened RecoveryRestart
  import opened RecoverySteps
  import opened UndoRecovery

  // ---- Running to the sweep ----------------------------------------------------------------------------------

  predicate InOlderLap(p: Phase) {
    match p
    case Seek(_, second) => second
    case Undoing(_, _, _, second) => second
    case Wiping(_, _, _, second, _) => second
    case _ => true
  }

  /** A run without evictions; byte a, which the newer lap does not write, is durably as it was. */
  ghost predicate Behind(r: Recovery, mem0: Memory, slots: seq<Entry>, h: Header, loose: set<nat>, a: nat)
    requires Bounds(slots, h)
  {
    && MaxCore(r, mem0, slots, h, false, loose)
    && (Untouched(slots, h, false, a) && a in mem0 ==>
          && a in r.per.mem && r.per.mem[a] == mem0[a]
          && (InOlderLap(r.phase) || (a in r.cur.mem && r.cur.mem[a] == mem0[a])))
  }

  lemma OlderLapLater(r: Recovery)
    requires Fits(r) && (r.phase.Seek? || r.phase.Undoing? || r.phase.Wiping?)
    ensures InOlderLap(r.phase) ==> InOlderLap(Advance(r).phase)
    ensures Advance(r).phase.Sweep? ==> Advance(r).phase == Sweep(r.cur.hdr.tail)
    ensures Advance(r).phase.Seek? || Advance(r).phase.Undoing? || Advance(r).phase.Wiping? || Advance(r).phase.Sweep?
  {
    hide WalkBack, RollsBack, LapGen;
    if r.phase.Seek? {
      SeekFits(r);
    }
  }

  lemma StaysBehind(r: Recovery, mem0: Memory, slots: seq<Entry>, h: Header, loose: set<nat>, a: nat)
    requires Fits(r) && Bounds(slots, h) && IsMaxLap(h, false) && Behind(r, mem0, slots, h, loose, a)
    requires r.phase.Seek? || r.phase.Undoing? || r.phase.Wiping?
    ensures Behind(Advance(r), mem0, slots, h, LooseAfter(slots, r.phase, loose), a)
  {
    hide RingOk, GroupOk, SafeOk, Restored, BetweenGroups, WalkBack, Completed, Settled, Recover, RollsBack, LooseAfter;
    var p := r.phase;
    ScanGoes(r, mem0, slots, h, false, loose);
    OlderLapLater(r);
    RingLengths(r.cur.slots, r.per.slots, slots, h, false, p, loose);
    WipesNewer(slots, h, p, loose);
    if p.Undoing? && p.at > p.lo {
      AheadOk(r.cur.slots, r.per.slots, slots, h, false, p, loose);
      assert Ahead(h, p.hi, p.second, p.at - 1) && r.cur.slots[p.at - 1] == slots[p.at - 1];
    } else if p.Seek? {
      SeekFits(r);
    }
  }

  lemma WipesNewer(slots: seq<Entry>, h: Header, p: Phase, loose: set<nat>)
    requires Bounds(slots, h) && GroupOk(slots, h, false, p, loose)
    ensures p.Wiping? ==> !InOlderLap(p)
  {
  }

  /** The scan, undisturbed, comes to its end. */
  lemma {:induction false} ToSweep(r: Recovery, mem0: Memory, slots: seq<Entry>, h: Header, loose: set<nat>, a: nat)
    returns (steps: seq<RStep>, loose': set<nat>)
    requires Fits(r) && Bounds(slots, h) && IsMaxLap(h, false) && Behind(r, mem0, slots, h, loose, a) && r.cur.hdr == h
    requires r.phase.Seek? || r.phase.Undoing? || r.phase.Wiping? || r.phase == Sweep(h.tail)
    ensures Behind(Run(r, steps), mem0, slots, h, loose', a) && Run(r, steps).phase == Sweep(h.tail)
    decreases RankLap(r.phase), RankPos(r.phase), RankKind(r.phase), RankIn(r.phase)
  {
    hide Advance, RankLap, RankPos, RankKind, RankIn, Fits, LooseAfter, Behind;
    if r.phase.Sweep? {
      steps, loose' := [], loose;
    } else {
      StaysBehind(r, mem0, slots, h, loose, a);
      OlderLapLater(r);
      GoesDown(r);
      GoFirst(r, []);
      BehindHeader(Advance(r), mem0, slots, h, LooseAfter(slots, r.phase, loose), a);
      steps, loose' := ToSweep(Advance(r), mem0, slots, h, LooseAfter(slots, r.phase, loose), a);
      GoFirst(r, steps);
      steps := [Go] + steps;
    }
  }

  lemma BehindHeader(r: Recovery, mem0: Memory, slots: seq<Entry>, h: Header, loose: set<nat>, a: nat)
    requires Bounds(slots, h) && Behind(r, mem0, slots, h, loose, a)
    ensures r.cur.hdr == h && r.per.hdr == h && |r.cur.slots| == |r.per.slots| == |slots|
  {
  }

  /** The slots behind the tail are wiped in the cache; nothing reaches persistent memory. */
  lemma {:induction false} SweepAll(r: Recovery, mem0: Memory, slots: seq<Entry>, h: Header, loose: set<nat>)
    returns (steps: seq<RStep>)
    requires Fits(r) && Bounds(slots, h) && IsMaxLap(h, false) && MaxCore(r, mem0, slots, h, false, loose)
    requires r.phase.Sweep? && r.phase.at <= |slots|
    ensures MaxCore(Run(r, steps), mem0, slots, h, false, loose)
    ensures Run(r, steps).phase == Sweep(|slots|) && Run(r, steps).per == r.per
    decreases |slots| - r.phase.at
  {
    hide MaxCore, Fits;
    if r.phase.at == |slots| {
      steps := [];
    } else {
      CoreFacts(r, mem0, slots, h, false, loose);
      SweepOne(r, mem0, slots, h, false, loose);
      GoFirst(r, []);
      SweepSilent(r);
      steps := SweepAll(Advance(r), mem0, slots, h, loose);
      GoFirst(r, steps);
      steps := [Go] + steps;
    }
  }

  lemma SweepSilent(r: Recovery)
    requires Fits(r) && r.phase.Sweep? && r.cur.hdr.gen == MAX_GEN_ID && r.phase.at < |r.cur.slots|
    ensures Advance(r).per == r.per
  {
  }

  // ---- The crash -------------------------------------------------------------------------------------------------

  /** Of the ring only the slots in `keep` are left. */
  ghost predicate OnlyKept(slots: seq<Entry>, p: seq<Entry>, keep: set<nat>) {
    && |p| == |slots|
    && forall i: nat :: i < |slots| ==> p[i] == if i in keep then slots[i] else slots[i].(gen := 0)
  }

  lemma OlderLapDurable(cur: seq<Entry>, per: seq<Entry>, slots: seq<Entry>, h: Header, loose: set<nat>)
    requires Bounds(slots, h) && IsMaxLap(h, false) && h.tail < h.head
    requires RingOk(cur, per, slots, h, false, Sweep(h.tail), loose)
    ensures |per| == |slots| && forall i :: h.head <= i < |slots| ==> per[i] == slots[i]
  {
  }

  lemma AllWiped(cur: seq<Entry>, per: seq<Entry>, slots: seq<Entry>, h: Header, loose: set<nat>, keep: set<nat>)
    requires Bounds(slots, h) && IsMaxLap(h, false) && h.tail < h.head
    requires RingOk(cur, per, slots, h, false, Sweep(|slots|), loose)
    requires forall i :: i in keep ==> i < |slots| && per[i] == slots[i]
    ensures |cur| == |per| && OnlyKept(slots, Mixed(cur, per, |slots|, keep), keep)
  {
  }

  /** Recovery can come to where all is wiped but the slots in `keep` of the older lap, with byte a, if the newer
      lap does not write it, as it was. */
  lemma SweepCrash(mem: Memory, slots: seq<Entry>, h: Header, keep: set<nat>, a: nat)
    returns (steps: seq<RStep>, m: Memory, p: seq<Entry>)
    requires Bounds(slots, h) && h.gen == MAX_GEN_ID && h.tail < h.head
    requires forall i :: i in keep ==> h.head <= i < |slots|
    ensures OnlyKept(slots, p, keep) && m.Keys == mem.Keys && Run(Begin(mem, slots, h), steps).per == Image(m, p, h)
    ensures Untouched(slots, h, false, a) && a in mem ==> a in m && m[a] == mem[a]
  {
    hide MaxCore, Restored, Again, Recover, Mixed, OnlyKept, Untouched;
    var r := Begin(mem, slots, h);
    MaxBegins(mem, slots, h, false);
    var s1, loose := ToSweep(r, mem, slots, h, {}, a);
    var r1 := Run(r, s1);
    CoreRing(r1, mem, slots, h, loose);
    OlderLapDurable(r1.cur.slots, r1.per.slots, slots, h, loose);
    var s2 := SweepAll(r1, mem, slots, h, loose);
    var r2 := Run(r1, s2);
    CoreRing(r2, mem, slots, h, loose);
    CoreFacts(r2, mem, slots, h, false, loose);
    AllWiped(r2.cur.slots, r2.per.slots, slots, h, loose, keep);
    Evicted(r2, |slots|, keep);
    RunMore(r, s1, s2);
    RunMore(r, s1 + s2, EvictAllBut(|slots|, keep));
    steps := s1 + s2 + EvictAllBut(|slots|, keep);
    m, p := r2.per.mem, Mixed(r2.cur.slots, r2.per.slots, |slots|, keep);
  }

  lemma CoreRing(r: Recovery, mem0: Memory, slots: seq<Entry>, h: Header, loose: set<nat>)
    requires Bounds(slots, h) && MaxCore(r, mem0, slots, h, false, loose)
    ensures RingOk(r.cur.slots, r.per.slots, slots, h, false, r.phase, loose)
  {
  }

  lemma LosesFrom(mem: Memory, slots: seq<Entry>, h: Header, a: nat, steps: seq<RStep>, m: Memory, p: seq<Entry>)
    requires Bounds(slots, h) && Bounds(p, h) && Run(Begin(mem, slots, h), steps).per == Image(m, p, h)
    requires a in mem && a in m && Recover(m, p, h)[a] != Recover(mem, slots, h)[a]
    ensures Loses(mem, slots, h, a)
  {
    hide Recover;
    assert LosesBy(mem, slots, h, a, steps);
  }

  /** The older lap's undo may be lost with its log. */
  lemma LosesOlderUndo(slots: seq<Entry>, h: Header, i: nat, a: nat) returns (v: Byte)
    requires Bounds(slots, h) && OneWriter(slots, h) && h.gen == MAX_GEN_ID && h.tail < h.head
    requires Restored(slots, h, true, i) && i < |slots| && slots[i].Covers(a)
    ensures Leaves(slots, h, a, v)
    ensures forall mem: Memory :: a in mem && mem[a] != v ==> Loses(mem, slots, h, a)
  {
    hide OneWriter, Again, Recover, Leaves, Loses, Restored;
    v := Decided(slots, h, a);
    OnlyOneLap(slots, h, false, a);
    forall mem: Memory | a in mem && mem[a] != v ensures Loses(mem, slots, h, a) {
      var steps, m, p := SweepCrash(mem, slots, h, {}, a);
      NothingKept(slots, p, h);
      NothingValid(m, p, h);
      LeavesValue(mem, slots, h, a, v);
      LosesFrom(mem, slots, h, a, steps, m, p);
    }
  }

  lemma NothingKept(slots: seq<Entry>, p: seq<Entry>, h: Header)
    requires Bounds(slots, h) && h.gen == MAX_GEN_ID && OnlyKept(slots, p, {})
    ensures Bounds(p, h) && forall second: bool, i: int :: !Lap(p, h, second).Valid(i)
  {
  }

  /** Or an entry of the older lap that was not to be undone is. */
  lemma UndoesLeftOver(slots: seq<Entry>, p: seq<Entry>, h: Header, b: nat, i: nat, a: nat)
    requires Bounds(slots, h) && h.gen == MAX_GEN_ID && h.tail < h.head && LeftInOlderLap(slots, h, b, i, a)
    requires OnlyKept(slots, p, {b, i})
    ensures Bounds(p, h) && i < |slots| && slots[i].Covers(a) && p[i] == slots[i] && LastOn(p, h, true, i, a)
  {
    hide Leaves;
    var s' := Lap(p, h, true);
    assert forall j :: s'.Valid(j) ==> j == b || j == i;
    assert s'.Valid(i) && s'.ValidStart(b);
    if slots[i].isStart {
      assert StartOf(s', i, i);
    } else {
      assert StartOf(s', i, b);
    }
    assert forall f :: !s'.ValidFin(f);
  }

  lemma LosesToLeftOver(slots: seq<Entry>, h: Header, b: nat, i: nat, a: nat) returns (v: Byte)
    requires Bounds(slots, h) && h.gen == MAX_GEN_ID && h.tail < h.head && LeftInOlderLap(slots, h, b, i, a)
    ensures forall mem: Memory :: a in mem && mem[a] != v ==> Loses(mem, slots, h, a)
  {
    hide Again, Recover, Leaves, Loses, Restored;
    v := Saved(slots[i], a);
    forall mem: Memory | a in mem && mem[a] != v ensures Loses(mem, slots, h, a) {
      var steps, m, p := SweepCrash(mem, slots, h, {b, i}, a);
      UndoesLeftOver(slots, p, h, b, i, a);
      LeavesLast(p, h, true, i, a);
      assert a in m.Keys;
      LeavesValue(m, p, h, a, v);
      NotLeft(mem, slots, h, a, v);
      LosesFrom(mem, slots, h, a, steps, m, p);
    }
  }

  lemma SweepLoses(slots: seq<Entry>, h: Header) returns (a: nat, v: Byte)
    requires Bounds(slots, h) && OneWriter(slots, h) && SweepRisk(slots, h)
    ensures forall mem: Memory :: a in mem && mem[a] != v ==> Loses(mem, slots, h, a)
  {
    hide OneWriter, Loses, Leaves;
    if j :| Restored(slots, h, true, j) && slots[j].data != [] {
      RestoredBounds(slots, h, true, j);
      a := slots[j].addr;
      assert slots[j].Covers(a);
      v := LosesOlderUndo(slots, h, j, a);
    } else {
      var b, i, c :| LeftInOlderLap(slots, h, b, i, c);
      a := c;
      v := LosesToLeftOver(slots, h, b, i, a);
    }
  }

  // ---- When a crash is harmless ------------------------------------------------------------------------------------

  /** Whatever memory holds and wherever recovery crashes, the next one ends with the memory that the first would
      have reached. */
  ghost predicate CrashProof(slots: seq<Entry>, h: Header)
    requires Bounds(slots, h)
  {
    forall mem: Memory, steps :: Again(Run(Begin(mem, slots, h), steps)) == Recover(mem, slots, h)
  }

  /** For any image whose unfinished transactions have no byte in common: recovery can crash anywhere without
      loss if and only if nothing left of a MAX_GEN_ID lap in part wiped can spoil a group below. */
  lemma CrashProofExactly(slots: seq<Entry>, h: Header)
    requires Bounds(slots, h) && OneWriter(slots, h) && NothingNext(slots, h)
    ensures CrashProof(slots, h) <==> !ScanRisk(slots, h) && !SweepRisk(slots, h)
  {
    hide OneWriter, NothingNext, ScanRisk, SweepRisk, Recover, Again, Run, Loses;
    if ScanRisk(slots, h) {
      var a, v := ScanLoses(slots, h);
      SomeLoss(slots, h, a, v);
    } else if SweepRisk(slots, h) {
      var a, v := SweepLoses(slots, h);
      SomeLoss(slots, h, a, v);
    } else {
      forall mem: Memory, steps ensures Again(Run(Begin(mem, slots, h), steps)) == Recover(mem, slots, h) {
        AnyCrash(mem, slots, h, steps);
      }
    }
  }

  lemma SomeLoss(slots: seq<Entry>, h: Header, a: nat, v: Byte)
    requires Bounds(slots, h) && forall mem: Memory :: a in mem && mem[a] != v ==> Loses(mem, slots, h, a)
    ensures !CrashProof(slots, h)
  {
    hide Recover, Again, Run;
    var w: Byte := if v == 0 then 1 else 0;
    var mem: Memory := map[a := w];
    var steps :| LosesBy(mem, slots, h, a, steps);
    assert Again(Run(Begin(mem, slots, h), steps)) != Recover(mem, slots, h);
  }

  lemma AnyCrash(mem: Memory, slots: seq<Entry>, h: Header, steps: seq<RStep>)
    requires Bounds(slots, h) && OneWriter(slots, h) && NothingNext(slots, h) && !ScanRisk(slots, h)
    requires !SweepRisk(slots, h)
    ensures Again(Run(Begin(mem, slots, h), steps)) == Recover(mem, slots, h)
  {
    hide OneWriter, NothingNext, SweepRisk, Recover, Again, Run, MaxScan, Scanning, Closing, Risky, MaxCore;
    if HasMaxLap(h) {
      var mx := h.gen != MAX_GEN_ID;
      assert IsMaxLap(h, mx);
      MaxRestartsAlike(mem, slots, h, mx, steps);
    } else {
      RestartsAlike(mem, slots, h, steps);
    }
  }
}
