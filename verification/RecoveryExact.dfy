/** Crashes during recovery of a log with a MAX_GEN_ID lap: harmless whatever memory holds if and only if no group
    of the image can be spoiled. */
module RecoveryExact {
  import opened JournalRing
  import opened RecoveryGroups
  import opened RecoveryHazard
  import opened RecoveryMaxLap
  import opened RecoveryMaxRun
  import opened RecoveryRestart
  import opened RecoverySteps
  import opened UndoRecovery

  // ---- The sweep behind the tail -----------------------------------------------------------------------------

  /** Of the last lap before the wrap nothing is undone once it has been scanned. */
  lemma NothingInNewerLap(cur: seq<Entry>, per: seq<Entry>, slots: seq<Entry>, h: Header, p: Phase, loose: set<nat>,
        y: int)
    requires Bounds(slots, h) && IsMaxLap(h, false) && p.Sweep? && RingOk(cur, per, slots, h, false, p, loose)
    ensures Bounds(per, h) && !Restored(per, h, false, y)
  {
    hide LooseNow;
    var s, s' := Lap(slots, h, false), Lap(per, h, false);
    assert LooseNow(slots, p, loose) == loose by {
      LooseOutside(slots, p, loose);
    }
    forall b: nat | s'.ValidStart(b) ensures s'.ValidFin(b) {
      assert WipedAt(slots, h, false, p, b) && s.Valid(b) && per[b] == slots[b];
      assert b in loose;
    }
    assert forall b :: s'.ValidStart(b) ==> s'.ValidFin(b);
    assert FinAt(s', y, y) <==> s'.ValidFin(y);
  }

  lemma LooseOutside(slots: seq<Entry>, p: Phase, loose: set<nat>)
    requires !p.Wiping?
    ensures LooseNow(slots, p, loose) == loose
  {
  }

  /** Without the risk, no byte depends on the older lap. */
  lemma OlderLapUntouched(slots: seq<Entry>, h: Header, a: nat)
    requires Bounds(slots, h) && !SweepRisk(slots, h) && h.gen == MAX_GEN_ID && h.tail < h.head
    ensures Untouched(slots, h, true, a)
  {
    hide Restored, LeftInOlderLap;
    forall j | Restored(slots, h, true, j) ensures 0 <= j < |slots| && !slots[j].Covers(a) {
      RestoredBounds(slots, h, true, j);
    }
  }

  /** What is left of the older lap and would be undone is harmless without the risk. */
  lemma OlderLapHarmless(slots: seq<Entry>, p: seq<Entry>, h: Header, m: nat, a: nat)
    requires Bounds(slots, h) && SomeWiped(slots, p) && !SweepRisk(slots, h) && h.gen == MAX_GEN_ID && h.tail < h.head
    requires Bounds(p, h) && LastOn(p, h, true, m, a)
    ensures m < |slots| && slots[m].Covers(a) && Leaves(slots, h, a, Saved(slots[m], a))
  {
    hide Leaves;
    var s, s' := Lap(slots, h, true), Lap(p, h, true);
    LastBounds(p, h, true, m, a);
    assert LapGen(h, true) != 0;
    assert forall j :: s'.Valid(j) ==> s.Valid(j) && p[j] == slots[j];
    var b :| StartOf(s', m, b);
    assert FinAt(s', m, m) == s'.ValidFin(m);
    assert s'.ValidFin(b) ==> b == m;
    if b < m && p[b].Covers(a) {
      StartUndone(s', m, b);
    }
    if !Leaves(slots, h, a, Saved(slots[m], a)) {
      RiskFrom(slots, h, b, m, a);
    }
  }

  lemma RiskFrom(slots: seq<Entry>, h: Header, b: int, i: int, a: nat)
    requires Bounds(slots, h) && h.gen == MAX_GEN_ID && h.tail < h.head && LeftInOlderLap(slots, h, b, i, a)
    ensures SweepRisk(slots, h)
  {
  }

  // ---- Sufficient: nothing can be spoiled ---------------------------------------------------------------------

  /** While the slots behind the tail are wiped, memory is already as recovery leaves it. */
  lemma SweepAgain(r: Recovery, mem0: Memory, slots: seq<Entry>, h: Header, loose: set<nat>)
    requires Fits(r) && Bounds(slots, h) && IsMaxLap(h, false) && h.tail < h.head && !SweepRisk(slots, h)
    requires MaxScan(r, mem0, slots, h, false, loose) && r.phase.Sweep?
    ensures Again(r) == Recover(mem0, slots, h)
  {
    hide RingOk, GroupOk, SafeOk, Recover, Completed, GroupRestored, BetweenGroups, SweepRisk, Restored, Leaves;
    var t, p := Recover(mem0, slots, h), r.per.slots;
    OlderLapBits(r.cur.slots, p, slots, h, r.phase, loose);
    forall a | a in mem0 ensures Again(r)[a] == t[a] {
      assert a in r.per.mem.Keys;
      forall y ensures !Restored(p, h, false, y) {
        NothingInNewerLap(r.cur.slots, p, slots, h, r.phase, loose, y);
      }
      assert Untouched(p, h, false, a);
      if Untouched(p, h, true, a) {
        StaysUntouched(r.per.mem, p, h, false, true, a);
        OlderLapUntouched(slots, h, a);
        NothingBelowFloor(slots, h, a);
      } else {
        var y := Toucher(p, h, true, a);
        var m := LastExists(p, h, true, y, a);
        LastBounds(p, h, true, m, a);
        OlderLapHarmless(slots, p, h, m, a);
        LeavesLast(p, h, true, m, a);
        LeavesValue(r.per.mem, p, h, a, Saved(p[m], a));
        LeavesValue(mem0, slots, h, a, Saved(slots[m], a));
      }
    }
  }

  lemma OlderLapBits(cur: seq<Entry>, per: seq<Entry>, slots: seq<Entry>, h: Header, p: Phase, loose: set<nat>)
    requires Bounds(slots, h) && RingOk(cur, per, slots, h, false, p, loose)
    ensures SomeWiped(slots, per)
    ensures forall i :: 0 <= i < |slots| ==> per[i].addr == slots[i].addr && per[i].data == slots[i].data
  {
    hide WipedAt, LooseNow;
  }

  lemma NothingBelowFloor(slots: seq<Entry>, h: Header, a: nat)
    requires Bounds(slots, h)
    ensures NotBelow(slots, h, false, Lap(slots, h, false).lo, a)
  {
  }

  lemma MaxBegins(mem: Memory, slots: seq<Entry>, h: Header, mx: bool)
    requires Bounds(slots, h) && IsMaxLap(h, mx)
    ensures MaxCore(Begin(mem, slots, h), mem, slots, h, mx, {})
    ensures !Risky(slots, h, mx, Lap(slots, h, mx).hi, {}) ==> MaxScan(Begin(mem, slots, h), mem, slots, h, mx, {})
  {
    hide Risky, Recover, RestOfRecovery;
    CompletedFirst(mem, slots, h);
    TopDivides(Lap(slots, h, false));
    AllSettledAtFirst(mem, slots, h, mx);
  }

  /** Bytes that nothing writes. */
  lemma AllSettledAtFirst(mem: Memory, slots: seq<Entry>, h: Header, mx: bool)
    requires Bounds(slots, h)
    ensures Settled(mem, Recover(mem, slots, h), slots, h, mx, Lap(slots, h, mx).hi)
  {
    hide Restored, Recover;
    var t := Recover(mem, slots, h);
    forall a | a in t && Untouched(slots, h, !mx, a) && NotBelow(slots, h, mx, Lap(slots, h, mx).hi, a)
      ensures a in mem && mem[a] == t[a]
    {
      assert a in mem.Keys;
      BelowTop(slots, h, mx, a);
      StaysUntouched(mem, slots, h, mx, !mx, a);
    }
  }

  lemma BelowTop(slots: seq<Entry>, h: Header, mx: bool, a: nat)
    requires Bounds(slots, h) && NotBelow(slots, h, mx, Lap(slots, h, mx).hi, a)
    ensures Untouched(slots, h, mx, a)
  {
    hide Restored;
    forall j | Restored(slots, h, mx, j) ensures 0 <= j < |slots| && !slots[j].Covers(a) {
      RestoredBounds(slots, h, mx, j);
    }
  }

  /** Recovering the recovered image changes nothing. */
  lemma MaxRecoveredAgain(mem: Memory, slots: seq<Entry>, h: Header, mx: bool)
    requires Bounds(slots, h) && IsMaxLap(h, mx) && OneWriter(slots, h)
    ensures Recover(Recover(mem, slots, h), RecoveredSlots(slots, h), h) == Recover(mem, slots, h)
  {
    hide Recover, OneWriter;
    var t, p := Recover(mem, slots, h), RecoveredSlots(slots, h);
    if !mx {
      assert forall second: bool, i: int :: !Lap(p, h, second).Valid(i);
      NothingValid(t, p, h);
    } else {
      var lo := Lap(slots, h, true).lo;
      OlderWiped(slots, h);
      HarmlessForAny(mem, slots, p, h, true, lo);
      OneWriterRight(mem, slots, h, true);
      forall a | a in mem ensures Recover(t, p, h)[a] == t[a] {
        CrashByte(mem, t, slots, p, h, true, lo, a);
      }
    }
  }

  lemma OlderWiped(slots: seq<Entry>, h: Header)
    requires Bounds(slots, h) && IsMaxLap(h, true)
    ensures var p := RecoveredSlots(slots, h); var lo := Lap(slots, h, true).lo;
      PartlyWiped(slots, p, h, true, lo) && Harmless(slots, p, h, true, lo)
  {
    hide NextSpoiled;
    var p, lo := RecoveredSlots(slots, h), Lap(slots, h, true).lo;
    assert !NextSpoiled(slots, h, true, lo, {}) by {
      NoneToSpoil(slots, h, true, lo);
    }
    CrashAbove(p, slots, h, true, lo, {});
  }

  lemma NoneToSpoil(slots: seq<Entry>, h: Header, mx: bool, pos: nat)
    requires Bounds(slots, h)
    ensures !NextSpoiled(slots, h, mx, pos, {})
  {
  }

  /** What holds at every step of recovery, and the slots that may be left. */
  ghost predicate InMaxRun(r: Recovery, mem: Memory, slots: seq<Entry>, h: Header, mx: bool, loose: set<nat>)
    requires Bounds(slots, h)
  {
    MaxCore(r, mem, slots, h, mx, loose) || Closing(r, Recover(mem, slots, h), RecoveredSlots(slots, h), h)
  }

  ghost predicate SafeRun(r: Recovery, mem: Memory, slots: seq<Entry>, h: Header, mx: bool, loose: set<nat>)
    requires Bounds(slots, h)
  {
    MaxCore(r, mem, slots, h, mx, loose) ==> SafeOk(slots, h, mx, r.phase, loose)
  }

  lemma CoreStep(mem: Memory, slots: seq<Entry>, h: Header, mx: bool, loose: set<nat>, r: Recovery, step: RStep)
    returns (loose': set<nat>)
    requires Bounds(slots, h) && IsMaxLap(h, mx) && Fits(r) && MaxCore(r, mem, slots, h, mx, loose)
    ensures InMaxRun(Take(r, step), mem, slots, h, mx, loose')
    ensures SafeOk(slots, h, mx, r.phase, loose) ==> SafeRun(Take(r, step), mem, slots, h, mx, loose')
  {
    hide MaxCore, SafeOk, Closing, Recover, RecoveredSlots, Advance;
    loose' := loose;
    if !step.Go? {
      EvictKeeps(r, step, mem, slots, h, mx, loose);
    } else if !r.phase.Sweep? {
      ScanGoes(r, mem, slots, h, mx, loose);
      loose' := LooseAfter(slots, r.phase, loose);
    } else if h.gen == MAX_GEN_ID && r.phase.at < |slots| {
      SweepOne(r, mem, slots, h, mx, loose);
    } else {
      SweepEnd(r, mem, slots, h, mx, loose);
      ClosingIsLast(Advance(r), mem, Recover(mem, slots, h), RecoveredSlots(slots, h), slots, h, mx, loose);
    }
  }

  lemma ClosingIsLast(r: Recovery, mem: Memory, t: Memory, slots': seq<Entry>, slots: seq<Entry>, h: Header, mx: bool,
        loose: set<nat>)
    requires Bounds(slots, h) && Closing(r, t, slots', h)
    ensures !MaxCore(r, mem, slots, h, mx, loose)
  {
    hide RingOk, MemOk, GroupRestored, BetweenGroups, GroupOk;
  }

  lemma {:induction false} MaxRun(mem: Memory, slots: seq<Entry>, h: Header, mx: bool, loose: set<nat>, r: Recovery,
        steps: seq<RStep>)
    returns (loose': set<nat>)
    requires Bounds(slots, h) && IsMaxLap(h, mx) && Fits(r) && InMaxRun(r, mem, slots, h, mx, loose)
    ensures InMaxRun(Run(r, steps), mem, slots, h, mx, loose')
    ensures SafeRun(r, mem, slots, h, mx, loose) ==> SafeRun(Run(r, steps), mem, slots, h, mx, loose')
    decreases |steps|
  {
    hide MaxCore, Closing, Fits, Recover, RecoveredSlots, Take, IsMaxLap, SafeOk;
    loose' := loose;
    if steps != [] {
      TakeFits(r, steps[0]);
      if MaxCore(r, mem, slots, h, mx, loose) {
        loose' := CoreStep(mem, slots, h, mx, loose, r, steps[0]);
      } else {
        ClosingStep(r, steps[0], Recover(mem, slots, h), RecoveredSlots(slots, h), h);
        ClosingIsLast(Take(r, steps[0]), mem, Recover(mem, slots, h), RecoveredSlots(slots, h), slots, h, mx, loose);
      }
      loose' := MaxRun(mem, slots, h, mx, loose', Take(r, steps[0]), steps[1..]);
    }
  }

  /** A crash at any point of the recovery of an image that cannot be spoiled is harmless. */
  lemma MaxRestartsAlike(mem: Memory, slots: seq<Entry>, h: Header, mx: bool, steps: seq<RStep>)
    requires Bounds(slots, h) && IsMaxLap(h, mx) && OneWriter(slots, h) && NothingNext(slots, h) && !SweepRisk(slots, h)
    requires !Risky(slots, h, mx, Lap(slots, h, mx).hi, {})
    ensures Again(Run(Begin(mem, slots, h), steps)) == Recover(mem, slots, h)
  {
    hide MaxCore, SafeOk, Closing, NothingNext, OneWriter, SweepRisk, Recover, RecoveredSlots, Again, Run, IsMaxLap,
      Risky;
    MaxBegins(mem, slots, h, mx);
    var loose := MaxRun(mem, slots, h, mx, {}, Begin(mem, slots, h), steps);
    var r := Run(Begin(mem, slots, h), steps);
    if MaxCore(r, mem, slots, h, mx, loose) {
      ScanAgain(mem, slots, h, mx, loose, r);
    } else {
      MaxRecoveredAgain(mem, slots, h, mx);
      ClosingAgain(r, Recover(mem, slots, h), slots, h);
    }
  }

  lemma ScanAgain(mem: Memory, slots: seq<Entry>, h: Header, mx: bool, loose: set<nat>, r: Recovery)
    requires Bounds(slots, h) && IsMaxLap(h, mx) && OneWriter(slots, h) && !SweepRisk(slots, h)
    requires Fits(r) && MaxScan(r, mem, slots, h, mx, loose)
    ensures Again(r) == Recover(mem, slots, h)
  {
    hide MaxScan, OneWriter, SweepRisk, Recover, Again;
    if r.phase.Sweep? && h.tail < h.head && h.gen == MAX_GEN_ID {
      NotSecond(h, mx);
      SweepAgain(r, mem, slots, h, loose);
    } else {
      MaxScanAgain(r, mem, slots, h, mx, loose);
    }
  }
}
