/** Every step of the recovery of a log with a MAX_GEN_ID lap keeps the invariant. */
module RecoveryMaxRun {
  import opened JournalRing
  import opened RecoveryGroups
  import opened RecoveryHazard
  import opened RecoveryMaxLap
  import opened RecoveryRestart
  import opened RecoverySteps
  import opened UndoRecovery

  /** Nothing has reached persistent memory that the barriers did not put there. */
  ghost predicate Tight(per: seq<Entry>, slots: seq<Entry>, h: Header, mx: bool, p: Phase, loose: set<nat>)
    requires Bounds(slots, h)
  {
    && |per| == |slots|
    && forall i: nat :: WipedAt(slots, h, mx, p, i) && Lap(slots, h, mx).Valid(i) && i in LooseNow(slots, p, loose) ==>
       per[i] == slots[i]
  }

  /** What the step leaves for the groups below. */
  ghost function LooseAfter(slots: seq<Entry>, p: Phase, loose: set<nat>): set<nat> {
    if p.Wiping? && p.barrier && p.at == p.lo then {}
    else if p.Wiping? && !p.barrier && p.at == p.hi <= |slots| then Unfenced(slots, p.lo, p.hi, p.hi, loose)
    else loose
  }

  lemma OtherGen(h: Header, mx: bool, second: bool)
    requires IsMaxLap(h, mx) && second != mx
    ensures LapGen(h, second) != MAX_GEN_ID
  {
  }

  /** What is still to be scanned has not been wiped. */
  lemma AheadOk(cur: seq<Entry>, per: seq<Entry>, slots: seq<Entry>, h: Header, mx: bool, p: Phase, loose: set<nat>)
    requires Bounds(slots, h) && IsMaxLap(h, mx) && PhaseFits(|slots|, h, p) && RingOk(cur, per, slots, h, mx, p, loose)
    ensures AheadSame(slots, cur, h, p)
  {
    hide LooseNow;
  }

  /** What recovery will not write any more is as it will be in the end. */
  lemma RestKeeps(mem: Memory, slots: seq<Entry>, h: Header, tl: nat, second: bool, a: nat)
    requires Bounds(slots, h) && InLap(|slots|, h, tl, second) && a in mem && Divides(Lap(slots, h, second), tl)
    requires NotBelow(slots, h, second, tl, a) && (second || Untouched(slots, h, true, a))
    ensures RestOfRecovery(mem, slots, h, tl, second).Keys == mem.Keys
    ensures RestOfRecovery(mem, slots, h, tl, second)[a] == mem[a]
  {
    hide Restored, RecoverSegment, Divides, UndoneSlots;
    var lo, g := Floor(h, second), LapGen(h, second);
    forall i | i in UndoneSlots(slots, lo, tl, g) ensures !slots[i].Covers(a) {
      UndoneIsLocal(slots, lo, tl, g, i);
      SplitUndoes(slots, h, second, tl, i);
      UndoneBelow(slots, lo, tl, g, i);
    }
    RecoverKeeps(mem, slots, lo, tl, g, a, mem[a]);
    var m := RecoverSegment(mem, slots, lo, tl, g);
    if !second && h.tail < h.head {
      StaysInLap(m, slots, h, true, a);
    }
  }

  lemma UndoneBelow(slots: seq<Entry>, lo: nat, hi: nat, g: nat, i: nat)
    requires lo <= hi <= |slots| && i in UndoneSlots(slots, lo, hi, g)
    ensures i < hi
  {
  }

  lemma StaysInLap(mem: Memory, slots: seq<Entry>, h: Header, second: bool, a: nat)
    requires Bounds(slots, h) && a in mem && Untouched(slots, h, second, a)
    ensures RecoverLap(mem, slots, h, second)[a] == mem[a]
  {
    hide Restored;
    LapKept(mem, slots, h, second, a);
  }

  /** The undo of a whole group settles its bytes. */
  lemma SettledAfter(mem: Memory, mem0: Memory, slots: seq<Entry>, h: Header, mx: bool, lo: nat)
    requires Bounds(slots, h) && InLap(|slots|, h, lo, mx) && Divides(Lap(slots, h, mx), lo) && mem.Keys == mem0.Keys
    requires RestOfRecovery(mem, slots, h, lo, mx) == Recover(mem0, slots, h)
    ensures Settled(mem, Recover(mem0, slots, h), slots, h, mx, lo)
  {
    hide Restored, Divides, Recover, RestOfRecovery;
    var t := Recover(mem0, slots, h);
    forall a | a in t && Untouched(slots, h, !mx, a) && NotBelow(slots, h, mx, lo, a)
      ensures a in mem && mem[a] == t[a]
    {
      assert a in mem.Keys;
      RestKeeps(mem, slots, h, lo, mx, a);
    }
  }

  /** A group that is not rolled back has nothing to restore. */
  lemma GroupNotRestored(slots: seq<Entry>, h: Header, mx: bool, lo: nat, hi: nat, i: int)
    requires Bounds(slots, h) && GroupAt(slots, h, mx, lo, hi) && !RollsBack(slots, lo, hi, LapGen(h, mx))
    requires lo <= i < hi
    ensures !Restored(slots, h, mx, i)
  {
    hide UndoneSlots, Undoes, Divides, RollsBack, Restored;
    var s := Lap(slots, h, mx);
    UndoneUnfolds(slots, s.lo, hi, s.gen, i);
    UndoneAbove(slots, s.lo, lo, s.gen, i);
    UndoneIsLocal(slots, s.lo, hi, s.gen, i);
    SplitUndoes(slots, h, mx, hi, i);
  }

  lemma SettledSkip(mem: Memory, t: Memory, slots: seq<Entry>, h: Header, mx: bool, lo: nat, hi: nat)
    requires Bounds(slots, h) && Settled(mem, t, slots, h, mx, hi) && lo <= hi
    requires forall i :: lo <= i < hi ==> !Restored(slots, h, mx, i)
    ensures Settled(mem, t, slots, h, mx, lo)
  {
    hide Restored;
    forall a | a in t && Untouched(slots, h, !mx, a) && NotBelow(slots, h, mx, lo, a)
      ensures a in mem && mem[a] == t[a]
    {
      assert NotBelow(slots, h, mx, hi, a);
      assert a in mem.Keys;
    }
  }

  // ---- Evictions ------------------------------------------------------------------------------------------------

  lemma EvictKeeps(r: Recovery, step: RStep, mem0: Memory, slots: seq<Entry>, h: Header, mx: bool, loose: set<nat>)
    requires Fits(r) && Bounds(slots, h) && MaxCore(r, mem0, slots, h, mx, loose) && !step.Go?
    ensures MaxCore(Take(r, step), mem0, slots, h, mx, loose)
    ensures SafeOk(slots, h, mx, r.phase, loose) ==> SafeOk(slots, h, mx, Take(r, step).phase, loose)
  {
    hide Restored, Completed, GroupOk, SafeOk, GroupRestored, BetweenGroups, LooseNow, WipedAt, Recover, Untouched,
      NotBelow;
  }

  // ---- Entering the older lap ------------------------------------------------------------------------------------

  lemma Across(r: Recovery, mem0: Memory, slots: seq<Entry>, h: Header, mx: bool, loose: set<nat>)
    requires Fits(r) && Bounds(slots, h) && IsMaxLap(h, mx) && MaxCore(r, mem0, slots, h, mx, loose)
    requires r.phase == Seek(0, false) && h.head != 0
    ensures var r1 := r.(phase := Seek(|slots|, true));
      && Fits(r1) && MaxCore(r1, mem0, slots, h, mx, loose) && Advance(r1) == Advance(r)
      && (SafeOk(slots, h, mx, r.phase, loose) ==> SafeOk(slots, h, mx, r1.phase, loose))
      && (Tight(r.per.slots, slots, h, mx, r.phase, loose) ==> Tight(r1.per.slots, slots, h, mx, r1.phase, loose))
  {
    hide Restored, Risky, RestOfRecovery, WalkBack, RollsBack, Settled, Recover;
    RestAcross(r.cur.mem, slots, h, 0, false);
    TopDivides(Lap(slots, h, true));
  }

  // ---- The scan ------------------------------------------------------------------------------------------------

  /** Before its next step the scan stands above slot 0. */
  ghost predicate Above(p: Phase, h: Header) {
    p.Seek? && p.tl != h.head && p.tl > 0
  }

  /** The same slots are wiped, and the same ones may be left. */
  lemma RingDepends(cur: seq<Entry>, per: seq<Entry>, slots: seq<Entry>, h: Header, mx: bool, p: Phase, p': Phase,
        loose: set<nat>, loose': set<nat>)
    requires Bounds(slots, h) && RingOk(cur, per, slots, h, mx, p, loose)
    requires forall i :: WipedAt(slots, h, mx, p, i) <==> WipedAt(slots, h, mx, p', i)
    requires forall i: nat :: WipedAt(slots, h, mx, p, i) && Lap(slots, h, mx).Valid(i) ==>
      (i in LooseNow(slots, p, loose) <==> i in LooseNow(slots, p', loose'))
    requires forall i :: i in loose' ==> i < |slots| && !PlainStart(slots[i])
    ensures RingOk(cur, per, slots, h, mx, p', loose')
    ensures Tight(per, slots, h, mx, p, loose) ==> Tight(per, slots, h, mx, p', loose')
  {
    hide WipedAt, LooseNow;
  }

  lemma LooseBounds(cur: seq<Entry>, per: seq<Entry>, slots: seq<Entry>, h: Header, mx: bool, p: Phase, loose: set<nat>)
    requires Bounds(slots, h) && RingOk(cur, per, slots, h, mx, p, loose)
    ensures forall i :: i in loose ==> i < |slots| && !PlainStart(slots[i])
  {
    hide WipedAt, LooseNow;
  }

  /** The lap is where it was: nothing in the rings has changed. */
  lemma SameFront(slots: seq<Entry>, h: Header, mx: bool, p: Phase, p': Phase, cur: seq<Entry>, per: seq<Entry>,
        loose: set<nat>)
    requires Bounds(slots, h) && RingOk(cur, per, slots, h, mx, p, loose)
    requires (p.Seek? || p.Undoing?) && (p'.Seek? || p'.Undoing? || (p'.Sweep? && p'.at == h.tail))
    requires Front(slots, h, mx, p) == Front(slots, h, mx, p')
    ensures RingOk(cur, per, slots, h, mx, p', loose)
    ensures SafeOk(slots, h, mx, p, loose) ==> SafeOk(slots, h, mx, p', loose)
    ensures Tight(per, slots, h, mx, p, loose) ==> Tight(per, slots, h, mx, p', loose)
  {
    hide Risky, Front, RingOk, Tight;
    assert forall i :: WipedAt(slots, h, mx, p, i) <==> WipedAt(slots, h, mx, p', i);
    LooseBounds(cur, per, slots, h, mx, p, loose);
    RingDepends(cur, per, slots, h, mx, p, p', loose, loose);
  }

  /** At the head the scan is over, and so is the lap. */
  lemma SeekEnd(r: Recovery, mem0: Memory, slots: seq<Entry>, h: Header, mx: bool, loose: set<nat>)
    requires Fits(r) && Bounds(slots, h) && IsMaxLap(h, mx) && MaxCore(r, mem0, slots, h, mx, loose)
    requires r.phase.Seek? && r.phase.tl == h.head
    ensures MaxCore(Advance(r), mem0, slots, h, mx, loose)
    ensures SafeOk(slots, h, mx, r.phase, loose) ==> SafeOk(slots, h, mx, Advance(r).phase, loose)
    ensures Tight(r.per.slots, slots, h, mx, r.phase, loose) ==>
      Tight(r.per.slots, slots, h, mx, Advance(r).phase, loose)
  {
    hide Restored, RingOk, SafeOk, Tight, RestOfRecovery, WalkBack, RollsBack, Settled, Recover;
    RestIsDone(r.cur.mem, slots, h, r.phase.second);
    SameFront(slots, h, mx, r.phase, Advance(r).phase, r.cur.slots, r.per.slots, loose);
  }

  /** In the other lap the ring stays as it is. */
  lemma SeekOther(r: Recovery, mem0: Memory, slots: seq<Entry>, h: Header, mx: bool, loose: set<nat>)
    requires Fits(r) && Bounds(slots, h) && IsMaxLap(h, mx) && MaxCore(r, mem0, slots, h, mx, loose)
    requires Above(r.phase, h) && r.phase.second != mx
    ensures MaxCore(Advance(r), mem0, slots, h, mx, loose)
    ensures SafeOk(slots, h, mx, r.phase, loose) ==> SafeOk(slots, h, mx, Advance(r).phase, loose)
    ensures Tight(r.per.slots, slots, h, mx, r.phase, loose) ==>
      Tight(r.per.slots, slots, h, mx, Advance(r).phase, loose)
  {
    hide Restored, RingOk, SafeOk, Tight, Completed, WalkBack, RollsBack, Settled, Recover, Divides, Advance;
    var hi, second := r.phase.tl, r.phase.second;
    var g, lo := LapGen(h, second), Floor(h, second);
    SeekFits(r);
    OtherGen(h, mx, second);
    RingLengths(r.cur.slots, r.per.slots, slots, h, mx, r.phase, loose);
    AheadOk(r.cur.slots, r.per.slots, slots, h, mx, r.phase, loose);
    StepCompletes(r, slots, h);
    assert forall i :: lo <= i < hi ==> Ahead(h, hi, second, i);
    GroupFrame(slots, r.cur.slots, lo, hi, g);
    if slots[hi - 1].gen != g {
      StaleDivides(Lap(slots, h, second), hi);
    } else {
      GroupOf(slots, h, second, hi);
    }
    SameFront(slots, h, mx, r.phase, Advance(r).phase, r.cur.slots, r.per.slots, loose);
  }

  lemma RingLengths(cur: seq<Entry>, per: seq<Entry>, slots: seq<Entry>, h: Header, mx: bool, p: Phase, loose: set<nat>)
    requires Bounds(slots, h) && RingOk(cur, per, slots, h, mx, p, loose)
    ensures |cur| == |slots| && |per| == |slots|
  {
  }

  /** The group below hi: what is below it is separate, and it is restored if it rolls back. */
  lemma GroupOf(slots: seq<Entry>, h: Header, second: bool, hi: nat)
    requires Bounds(slots, h) && InLap(|slots|, h, hi, second) && Floor(h, second) < hi
    requires Divides(Lap(slots, h, second), hi)
    requires slots[hi - 1].gen == LapGen(h, second)
    ensures var g := LapGen(h, second); var k := WalkBack(slots, Floor(h, second), hi - 1, g);
      && Divides(Lap(slots, h, second), k)
      && (RollsBack(slots, k, hi, g) ==> forall i :: k <= i < hi && slots[i].gen == g ==> Restored(slots, h, second, i))
  {
    hide Restored, WalkBack, RollsBack, Divides;
    var g := LapGen(h, second);
    var k := WalkBack(slots, Floor(h, second), hi - 1, g);
    GroupDivides(Lap(slots, h, second), hi);
    if RollsBack(slots, k, hi, g) {
      forall i | k <= i < hi && slots[i].gen == g ensures Restored(slots, h, second, i) {
        GroupIsRestored(slots, h, second, hi, i);
      }
    }
  }

  // ---- The scan in the lap --------------------------------------------------------------------------------------

  /** A slot without the lap's generation is wiped in passing. */
  lemma SeekStale(r: Recovery, mem0: Memory, slots: seq<Entry>, h: Header, mx: bool, loose: set<nat>)
    requires Fits(r) && Bounds(slots, h) && IsMaxLap(h, mx) && MaxCore(r, mem0, slots, h, mx, loose)
    requires Above(r.phase, h) && r.phase.second == mx && slots[r.phase.tl - 1].gen != MAX_GEN_ID
    ensures MaxCore(Advance(r), mem0, slots, h, mx, loose) && Advance(r).phase == Seek(r.phase.tl - 1, mx)
    ensures SafeOk(slots, h, mx, r.phase, loose) ==> SafeOk(slots, h, mx, Advance(r).phase, loose)
    ensures Tight(r.per.slots, slots, h, mx, r.phase, loose) ==>
      Tight(r.per.slots, slots, h, mx, Advance(r).phase, loose)
  {
    hide Restored, RingOk, SafeOk, Tight, Completed, WalkBack, RollsBack, Settled, Recover, Divides, Advance;
    var hi := r.phase.tl;
    SeekFits(r);
    RingLengths(r.cur.slots, r.per.slots, slots, h, mx, r.phase, loose);
    AheadOk(r.cur.slots, r.per.slots, slots, h, mx, r.phase, loose);
    StepCompletes(r, slots, h);
    assert Ahead(h, hi, mx, hi - 1) && r.cur.slots[hi - 1] == slots[hi - 1];
    StaleDivides(Lap(slots, h, mx), hi);
    StaleRing(r.cur.slots, r.per.slots, slots, h, mx, hi, loose);
    StaleSettled(r.cur.mem, Recover(mem0, slots, h), slots, h, mx, hi);
    StaleSettled(r.per.mem, Recover(mem0, slots, h), slots, h, mx, hi);
  }

  lemma StaleSettled(mem: Memory, t: Memory, slots: seq<Entry>, h: Header, mx: bool, hi: nat)
    requires Bounds(slots, h) && 0 < hi <= |slots| && Settled(mem, t, slots, h, mx, hi)
    requires slots[hi - 1].gen != LapGen(h, mx)
    ensures Settled(mem, t, slots, h, mx, hi - 1)
  {
    hide Settled;
    SettledSkip(mem, t, slots, h, mx, hi - 1, hi);
  }

  lemma StaleRing(cur: seq<Entry>, per: seq<Entry>, slots: seq<Entry>, h: Header, mx: bool, hi: nat, loose: set<nat>)
    requires Bounds(slots, h) && IsMaxLap(h, mx) && Lap(slots, h, mx).lo < hi <= Lap(slots, h, mx).hi
    requires RingOk(cur, per, slots, h, mx, Seek(hi, mx), loose)
    requires slots[hi - 1].gen != MAX_GEN_ID && hi <= |cur|
    ensures RingOk(WithoutGen(cur, hi - 1), per, slots, h, mx, Seek(hi - 1, mx), loose)
    ensures SafeOk(slots, h, mx, Seek(hi, mx), loose) ==> SafeOk(slots, h, mx, Seek(hi - 1, mx), loose)
    ensures Tight(per, slots, h, mx, Seek(hi, mx), loose) ==> Tight(per, slots, h, mx, Seek(hi - 1, mx), loose)
  {
    hide NextSpoiled, RingOk, Tight;
    var p, p' := Seek(hi, mx), Seek(hi - 1, mx);
    assert forall i :: WipedAt(slots, h, mx, p', i) <==> WipedAt(slots, h, mx, p, i) || i == hi - 1;
    OneMoreWiped(cur, per, slots, h, mx, p, p', loose, hi - 1);
  }

  /** One more slot is wiped in the cache; it was not valid, or it may be left. */
  lemma OneMoreWiped(cur: seq<Entry>, per: seq<Entry>, slots: seq<Entry>, h: Header, mx: bool, p: Phase, p': Phase,
        loose: set<nat>, z: nat)
    requires Bounds(slots, h) && RingOk(cur, per, slots, h, mx, p, loose) && z < |slots| && z < |cur|
    requires !WipedAt(slots, h, mx, p, z)
    requires forall i :: WipedAt(slots, h, mx, p', i) <==> WipedAt(slots, h, mx, p, i) || i == z
    requires forall i: nat :: i != z && WipedAt(slots, h, mx, p, i) && Lap(slots, h, mx).Valid(i) ==>
      (i in LooseNow(slots, p, loose) <==> i in LooseNow(slots, p', loose))
    requires Lap(slots, h, mx).Valid(z) ==> z in LooseNow(slots, p', loose)
    ensures RingOk(WithoutGen(cur, z), per, slots, h, mx, p', loose)
    ensures Tight(per, slots, h, mx, p, loose) ==> Tight(per, slots, h, mx, p', loose)
  {
    hide WipedAt, LooseNow;
  }

  /** A group of the lap is undone, or wiped at once. */
  lemma SeekGroup(r: Recovery, mem0: Memory, slots: seq<Entry>, h: Header, mx: bool, loose: set<nat>)
    requires Fits(r) && Bounds(slots, h) && IsMaxLap(h, mx) && MaxCore(r, mem0, slots, h, mx, loose)
    requires Above(r.phase, h) && r.phase.second == mx && slots[r.phase.tl - 1].gen == MAX_GEN_ID
    ensures MaxCore(Advance(r), mem0, slots, h, mx, loose)
    ensures SafeOk(slots, h, mx, r.phase, loose) ==> SafeOk(slots, h, mx, Advance(r).phase, loose)
    ensures Tight(r.per.slots, slots, h, mx, r.phase, loose) ==>
      Tight(r.per.slots, slots, h, mx, Advance(r).phase, loose)
    ensures var k := WalkBack(slots, Floor(h, mx), r.phase.tl - 1, MAX_GEN_ID);
      Advance(r).phase ==
        if RollsBack(slots, k, r.phase.tl, MAX_GEN_ID) then Undoing(k, r.phase.tl, r.phase.tl, mx) else Wiping(k, k,
        r.phase.tl, mx, false)
  {
    hide Restored, RingOk, SafeOk, Tight, Completed, WalkBack, RollsBack, Settled, Recover, Divides, Advance;
    var hi, lo := r.phase.tl, Floor(h, mx);
    var k := WalkBack(slots, lo, hi - 1, MAX_GEN_ID);
    SeekFits(r);
    RingLengths(r.cur.slots, r.per.slots, slots, h, mx, r.phase, loose);
    AheadOk(r.cur.slots, r.per.slots, slots, h, mx, r.phase, loose);
    StepCompletes(r, slots, h);
    assert forall i :: lo <= i < hi ==> Ahead(h, hi, mx, i);
    GroupFrame(slots, r.cur.slots, lo, hi, MAX_GEN_ID);
    GroupOf(slots, h, mx, hi);
    assert GroupAt(slots, h, mx, k, hi);
    if RollsBack(slots, k, hi, MAX_GEN_ID) {
      SameFront(slots, h, mx, r.phase, Advance(r).phase, r.cur.slots, r.per.slots, loose);
    } else {
      WipingBegins(r.cur.slots, r.per.slots, slots, h, mx, k, hi, r.phase, Wiping(k, k, hi, mx, false), loose);
      forall i | k <= i < hi ensures !Restored(slots, h, mx, i) {
        GroupNotRestored(slots, h, mx, k, hi, i);
      }
      SettledSkip(r.cur.mem, Recover(mem0, slots, h), slots, h, mx, k, hi);
      SettledSkip(r.per.mem, Recover(mem0, slots, h), slots, h, mx, k, hi);
    }
  }

  lemma WipingBegins(cur: seq<Entry>, per: seq<Entry>, slots: seq<Entry>, h: Header, mx: bool, lo: nat, hi: nat,
        p: Phase, p': Phase, loose: set<nat>)
    requires Bounds(slots, h) && IsMaxLap(h, mx) && GroupAt(slots, h, mx, lo, hi)
    requires p == Seek(hi, mx) || (p.Undoing? && p.lo == lo && p.hi == hi && p.second == mx)
    requires p'.Wiping? && p'.lo == lo && p'.at == lo && p'.hi == hi && p'.second == mx
    requires RingOk(cur, per, slots, h, mx, p, loose)
    ensures RingOk(cur, per, slots, h, mx, p', loose)
    ensures SafeOk(slots, h, mx, p, loose) ==> SafeOk(slots, h, mx, p', loose)
    ensures Tight(per, slots, h, mx, p, loose) ==> Tight(per, slots, h, mx, p', loose)
  {
    hide NextSpoiled, Divides, Leftover, RingOk, Tight;
    assert forall i :: WipedAt(slots, h, mx, p', i) <==> WipedAt(slots, h, mx, p, i);
    assert LooseNow(slots, p', loose) == loose + Slots(lo, hi);
    assert SafeOk(slots, h, mx, p, loose) ==> !Risky(slots, h, mx, hi, loose);
    LooseBounds(cur, per, slots, h, mx, p, loose);
    RingDepends(cur, per, slots, h, mx, p, p', loose, loose);
  }

  // ---- Undoing a group ---------------------------------------------------------------------------------------------

  lemma UndoSettled(mem: Memory, t: Memory, slots: seq<Entry>, h: Header, mx: bool, second: bool, pos: nat, i: nat)
    requires Bounds(slots, h) && Settled(mem, t, slots, h, mx, pos) && i < |slots| && Restored(slots, h, second, i)
    requires second == mx ==> i < pos
    ensures Settled(UndoEntry(mem, slots[i]), t, slots, h, mx, pos)
  {
    hide Restored;
    var m := UndoEntry(mem, slots[i]);
    forall a | a in t && Untouched(slots, h, !mx, a) && NotBelow(slots, h, mx, pos, a) ensures a in m && m[a] == t[a] {
      assert a in mem.Keys;
      assert second == !mx || second == mx;
    }
  }

  /** The undo of one entry, in memory. */
  lemma UndoingMem(r: Recovery, mem0: Memory, slots: seq<Entry>, h: Header, mx: bool, loose: set<nat>)
    requires Fits(r) && Bounds(slots, h) && IsMaxLap(h, mx) && MaxCore(r, mem0, slots, h, mx, loose) && r.phase.Undoing?
    ensures MemOk(Advance(r).cur.mem, Advance(r).per.mem, mem0, slots, h, mx, Advance(r).phase)
  {
    hide Restored, RingOk, Completed, WalkBack, RollsBack, Settled, Recover, Divides, GroupAt;
    var p := r.phase;
    RingLengths(r.cur.slots, r.per.slots, slots, h, mx, p, loose);
    AheadOk(r.cur.slots, r.per.slots, slots, h, mx, p, loose);
    StepCompletes(r, slots, h);
    if p.at > p.lo {
      assert Ahead(h, p.hi, p.second, p.at - 1) && r.cur.slots[p.at - 1] == slots[p.at - 1];
      if slots[p.at - 1].gen == LapGen(h, p.second) {
        UndoSettled(r.cur.mem, Recover(mem0, slots, h), slots, h, mx, p.second, Front(slots, h, mx, p), p.at - 1);
      }
    }
  }

  lemma UndoingStep(r: Recovery, mem0: Memory, slots: seq<Entry>, h: Header, mx: bool, loose: set<nat>)
    requires Fits(r) && Bounds(slots, h) && IsMaxLap(h, mx) && MaxCore(r, mem0, slots, h, mx, loose) && r.phase.Undoing?
    ensures MaxCore(Advance(r), mem0, slots, h, mx, loose)
    ensures SafeOk(slots, h, mx, r.phase, loose) ==> SafeOk(slots, h, mx, Advance(r).phase, loose)
    ensures Tight(r.per.slots, slots, h, mx, r.phase, loose) ==>
      Tight(r.per.slots, slots, h, mx, Advance(r).phase, loose)
  {
    hide Restored, RingOk, SafeOk, MemOk, Tight, RollsBack, Divides, UndoEntry;
    var p, p' := r.phase, Advance(r).phase;
    UndoingMem(r, mem0, slots, h, mx, loose);
    if p.second != mx {
      OtherGen(h, mx, p.second);
    }
    if p.at == p.lo && p.second == mx {
      WipingBegins(r.cur.slots, r.per.slots, slots, h, mx, p.lo, p.hi, p, p', loose);
    } else {
      SameFront(slots, h, mx, p, p', r.cur.slots, r.per.slots, loose);
    }
  }

  // ---- Wiping a group ----------------------------------------------------------------------------------------------

  /** A barrier leaves nothing that is wiped in the cache only. */
  lemma Fenced(cur: seq<Entry>, per: seq<Entry>, slots: seq<Entry>, h: Header, mx: bool, p: Phase, p': Phase,
        loose: set<nat>, loose': set<nat>)
    requires Bounds(slots, h) && IsMaxLap(h, mx) && RingOk(cur, per, slots, h, mx, p, loose)
    requires forall i :: WipedAt(slots, h, mx, p, i) <==> WipedAt(slots, h, mx, p', i)
    requires forall i :: i in loose' ==> i < |slots| && !PlainStart(slots[i])
    requires forall i: nat :: WipedAt(slots, h, mx, p', i) && Lap(slots, h, mx).Valid(i) ==>
      i !in LooseNow(slots, p', loose')
    ensures RingOk(cur, cur, slots, h, mx, p', loose') && Tight(cur, slots, h, mx, p', loose')
  {
    hide WipedAt, LooseNow;
  }

  /** The barrier between the undo of a group and its wiping. */
  lemma FirstBarrier(r: Recovery, mem0: Memory, slots: seq<Entry>, h: Header, mx: bool, loose: set<nat>)
    requires Fits(r) && Bounds(slots, h) && IsMaxLap(h, mx) && MaxCore(r, mem0, slots, h, mx, loose)
    requires r.phase.Wiping? && r.phase.barrier && r.phase.at == r.phase.lo
    ensures MaxCore(Advance(r), mem0, slots, h, mx, {})
    ensures SafeOk(slots, h, mx, r.phase, loose) ==> SafeOk(slots, h, mx, Advance(r).phase, {})
    ensures Tight(Advance(r).per.slots, slots, h, mx, Advance(r).phase, {})
  {
    hide Restored, RingOk, Tight, WalkBack, Settled, Recover, Divides, Risky, NextSpoiled, RestOfRecovery;
    var p, p' := r.phase, Advance(r).phase;
    RingLengths(r.cur.slots, r.per.slots, slots, h, mx, p, loose);
    assert forall i :: WipedAt(slots, h, mx, p, i) <==> WipedAt(slots, h, mx, p', i);
    assert LooseNow(slots, p', {}) == {} + Slots(p.lo, p.hi);
    Fenced(r.cur.slots, r.per.slots, slots, h, mx, p, p', loose, {});
    SameUnfenced(slots, p.lo, p.hi, p.hi, loose, {});
    StillTop(r.cur.mem, r.per.mem, mem0, slots, h, mx, p);
    SettledAfter(r.cur.mem, mem0, slots, h, mx, p.lo);
  }

  lemma StillTop(cur: Memory, per: Memory, mem0: Memory, slots: seq<Entry>, h: Header, mx: bool, p: Phase)
    requires Bounds(slots, h) && MemOk(cur, per, mem0, slots, h, mx, p) && p.Wiping? && p.second == mx
    ensures cur.Keys == mem0.Keys && InLap(|slots|, h, p.lo, mx)
    ensures RestOfRecovery(cur, slots, h, p.lo, mx) == Recover(mem0, slots, h)
  {
  }

  lemma SameUnfenced(slots: seq<Entry>, k: nat, upto: nat, hi: nat, l1: set<nat>, l2: set<nat>)
    requires k < upto <= hi <= |slots| && PlainStart(slots[k])
    ensures Unfenced(slots, k, upto, hi, l1) == Unfenced(slots, k, upto, hi, l2)
  {
  }

  /** The barrier after a plain start. */
  lemma NextBarrier(r: Recovery, mem0: Memory, slots: seq<Entry>, h: Header, mx: bool, loose: set<nat>)
    requires Fits(r) && Bounds(slots, h) && IsMaxLap(h, mx) && MaxCore(r, mem0, slots, h, mx, loose)
    requires r.phase.Wiping? && r.phase.barrier && r.phase.at > r.phase.lo
    ensures MaxCore(Advance(r), mem0, slots, h, mx, loose)
    ensures SafeOk(slots, h, mx, r.phase, loose) ==> SafeOk(slots, h, mx, Advance(r).phase, loose)
    ensures Tight(Advance(r).per.slots, slots, h, mx, Advance(r).phase, loose)
  {
    hide Restored, RingOk, Tight, WalkBack, RollsBack, Settled, Recover, Divides, Risky, NextSpoiled, Completed;
    var p, p' := r.phase, Advance(r).phase;
    RingLengths(r.cur.slots, r.per.slots, slots, h, mx, p, loose);
    LooseBounds(r.cur.slots, r.per.slots, slots, h, mx, p, loose);
    assert forall i :: WipedAt(slots, h, mx, p, i) <==> WipedAt(slots, h, mx, p', i);
    forall i: nat | WipedAt(slots, h, mx, p', i) ensures i !in LooseNow(slots, p', loose) {
      if i in LooseNow(slots, p', loose) {
        UnfencedIs(slots, p.lo, p.at, p.hi, loose, i);
      }
    }
    Fenced(r.cur.slots, r.per.slots, slots, h, mx, p, p', loose, loose);
    SameCompleted(r.cur.mem, slots, h, p, p');
  }

  lemma SameCompleted(mem: Memory, slots: seq<Entry>, h: Header, p: Phase, p': Phase)
    requires Bounds(slots, h) && PhaseFits(|slots|, h, p) && PhaseFits(|slots|, h, p')
    requires p.Wiping? && (p'.Wiping? || p'.Seek?) && p'.second == p.second
    requires p.lo == (if p'.Wiping? then p'.lo else p'.tl)
    ensures Completed(mem, slots, h, p) == Completed(mem, slots, h, p')
  {
  }

  /** One more slot of the group is wiped. */
  lemma WipeOne(r: Recovery, mem0: Memory, slots: seq<Entry>, h: Header, mx: bool, loose: set<nat>)
    requires Fits(r) && Bounds(slots, h) && IsMaxLap(h, mx) && MaxCore(r, mem0, slots, h, mx, loose)
    requires r.phase.Wiping? && !r.phase.barrier && r.phase.at < r.phase.hi
    ensures MaxCore(Advance(r), mem0, slots, h, mx, loose)
    ensures SafeOk(slots, h, mx, r.phase, loose) ==> SafeOk(slots, h, mx, Advance(r).phase, loose)
    ensures Tight(r.per.slots, slots, h, mx, r.phase, loose) ==>
      Tight(Advance(r).per.slots, slots, h, mx, Advance(r).phase, loose)
  {
    hide Restored, RingOk, Tight, WalkBack, RollsBack, Settled, Recover, Divides, Risky, NextSpoiled, Completed,
      Unfenced;
    var p, p' := r.phase, Advance(r).phase;
    RingLengths(r.cur.slots, r.per.slots, slots, h, mx, p, loose);
    CurAt(r.cur.slots, r.per.slots, slots, h, mx, p, loose, p.at);
    assert forall i :: WipedAt(slots, h, mx, p', i) <==> WipedAt(slots, h, mx, p, i) || i == p.at;
    UnfencedMore(slots, p.lo, p.at, p.hi, loose);
    OneMoreWiped(r.cur.slots, r.per.slots, slots, h, mx, p, p', loose, p.at);
    SameCompleted(r.cur.mem, slots, h, p, p');
  }

  lemma CurAt(cur: seq<Entry>, per: seq<Entry>, slots: seq<Entry>, h: Header, mx: bool, p: Phase, loose: set<nat>,
        i: nat)
    requires Bounds(slots, h) && RingOk(cur, per, slots, h, mx, p, loose) && i < |slots| && !WipedAt(slots, h, mx, p, i)
    ensures i < |cur| && cur[i] == slots[i]
  {
    hide WipedAt, LooseNow;
  }

  lemma UnfencedMore(slots: seq<Entry>, lo: nat, at: nat, hi: nat, loose: set<nat>)
    requires lo <= at < hi <= |slots|
    ensures !PlainStart(slots[at]) ==> Unfenced(slots, lo, at + 1, hi, loose) == Unfenced(slots, lo, at, hi, loose)
    ensures at in Unfenced(slots, lo, at, hi, loose)
  {
  }

  /** The group is wiped: what no barrier has followed is left over for the groups below. */
  lemma WipeDone(r: Recovery, mem0: Memory, slots: seq<Entry>, h: Header, mx: bool, loose: set<nat>)
    requires Fits(r) && Bounds(slots, h) && IsMaxLap(h, mx) && MaxCore(r, mem0, slots, h, mx, loose)
    requires r.phase.Wiping? && !r.phase.barrier && r.phase.at == r.phase.hi
    ensures MaxCore(Advance(r), mem0, slots, h, mx, LooseAfter(slots, r.phase, loose))
    ensures Advance(r).phase == Seek(r.phase.lo, mx)
    ensures SafeOk(slots, h, mx, r.phase, loose) ==>
      SafeOk(slots, h, mx, Advance(r).phase, LooseAfter(slots, r.phase, loose))
    ensures r.phase.hi <= |slots|
    ensures Tight(r.per.slots, slots, h, mx, r.phase, loose) ==>
      Tight(Advance(r).per.slots, slots, h, mx, Advance(r).phase, LooseAfter(slots, r.phase, loose))
  {
    hide Restored, RingOk, Tight, WalkBack, RollsBack, Settled, Recover, Divides, Risky, NextSpoiled, Completed;
    var p, p' := r.phase, Advance(r).phase;
    RingLengths(r.cur.slots, r.per.slots, slots, h, mx, p, loose);
    LooseBounds(r.cur.slots, r.per.slots, slots, h, mx, p, loose);
    var loose' := Unfenced(slots, p.lo, p.hi, p.hi, loose);
    assert forall i :: WipedAt(slots, h, mx, p', i) <==> WipedAt(slots, h, mx, p, i);
    forall i | i in loose' ensures i < |slots| && !PlainStart(slots[i]) {
      UnfencedIs(slots, p.lo, p.hi, p.hi, loose, i);
    }
    RingDepends(r.cur.slots, r.per.slots, slots, h, mx, p, p', loose, loose');
    SameCompleted(r.cur.mem, slots, h, p, p');
  }

  // ---- Behind the tail ----------------------------------------------------------------------------------------------

  /** One more slot behind the tail is wiped. */
  lemma SweepOne(r: Recovery, mem0: Memory, slots: seq<Entry>, h: Header, mx: bool, loose: set<nat>)
    requires Fits(r) && Bounds(slots, h) && IsMaxLap(h, mx) && MaxCore(r, mem0, slots, h, mx, loose)
    requires r.phase.Sweep? && h.gen == MAX_GEN_ID && r.phase.at < |slots|
    ensures MaxCore(Advance(r), mem0, slots, h, mx, loose) && Advance(r).phase == Sweep(r.phase.at + 1)
    ensures SafeOk(slots, h, mx, r.phase, loose) ==> SafeOk(slots, h, mx, Advance(r).phase, loose)
    ensures Tight(r.per.slots, slots, h, mx, r.phase, loose) ==>
      Tight(Advance(r).per.slots, slots, h, mx, Advance(r).phase, loose)
  {
    hide Restored, RingOk, Tight, WalkBack, RollsBack, Settled, Recover, Divides, Risky, NextSpoiled, GroupOk,
      BetweenGroups, GroupRestored;
    var p, p' := r.phase, Advance(r).phase;
    NotSecond(h, mx);
    RingLengths(r.cur.slots, r.per.slots, slots, h, mx, p, loose);
    CurAt(r.cur.slots, r.per.slots, slots, h, mx, p, loose, p.at);
    assert forall i :: WipedAt(slots, h, mx, p', i) <==> WipedAt(slots, h, mx, p, i) || i == p.at;
    OneMoreWiped(r.cur.slots, r.per.slots, slots, h, mx, p, p', loose, p.at);
    PlainPhase(slots, h, mx, p', loose);
  }

  lemma PlainPhase(slots: seq<Entry>, h: Header, mx: bool, p: Phase, loose: set<nat>)
    requires Bounds(slots, h) && p.Sweep?
    ensures GroupOk(slots, h, mx, p, loose) && BetweenGroups(slots, h, p) && GroupRestored(slots, h, p)
  {
  }

  lemma NotSecond(h: Header, mx: bool)
    requires IsMaxLap(h, mx) && h.gen == MAX_GEN_ID
    ensures !mx
  {
  }

  /** Before the last barrier the ring is wiped as recovery is to leave it. */
  lemma RingAtEnd(cur: seq<Entry>, per: seq<Entry>, slots: seq<Entry>, h: Header, mx: bool, p: Phase, loose: set<nat>)
    requires Bounds(slots, h) && IsMaxLap(h, mx) && RingOk(cur, per, slots, h, mx, p, loose)
    requires p.Sweep? && h.tail <= p.at && (h.gen == MAX_GEN_ID ==> p.at >= |slots|)
    ensures cur == RecoveredSlots(slots, h)
  {
    var rs := RecoveredSlots(slots, h);
    forall i | 0 <= i < |slots| ensures cur[i] == rs[i] {
    }
  }

  /** The last barrier. */
  lemma SweepEnd(r: Recovery, mem0: Memory, slots: seq<Entry>, h: Header, mx: bool, loose: set<nat>)
    requires Fits(r) && Bounds(slots, h) && IsMaxLap(h, mx) && MaxCore(r, mem0, slots, h, mx, loose)
    requires r.phase.Sweep? && !(h.gen == MAX_GEN_ID && r.phase.at < |slots|)
    ensures Closing(Advance(r), Recover(mem0, slots, h), RecoveredSlots(slots, h), h)
  {
    hide RingOk, Settled, Recover, SafeOk, RecoveredSlots;
    RingLengths(r.cur.slots, r.per.slots, slots, h, mx, r.phase, loose);
    RingAtEnd(r.cur.slots, r.per.slots, slots, h, mx, r.phase, loose);
  }

  // ---- Any step -----------------------------------------------------------------------------------------------------

  lemma SeekGoes(r: Recovery, mem0: Memory, slots: seq<Entry>, h: Header, mx: bool, loose: set<nat>)
    requires Fits(r) && Bounds(slots, h) && IsMaxLap(h, mx) && MaxCore(r, mem0, slots, h, mx, loose)
    requires r.phase.Seek? && r.phase.tl != h.head
    ensures MaxCore(Advance(r), mem0, slots, h, mx, loose)
    ensures SafeOk(slots, h, mx, r.phase, loose) ==> SafeOk(slots, h, mx, Advance(r).phase, loose)
    ensures Tight(r.per.slots, slots, h, mx, r.phase, loose) ==>
      Tight(r.per.slots, slots, h, mx, Advance(r).phase, loose)
  {
    hide RingOk, GroupOk, SafeOk, GroupRestored, BetweenGroups, MemOk, Tight, Advance, WalkBack, RollsBack;
    var r1 := r;
    RingLengths(r.cur.slots, r.per.slots, slots, h, mx, r.phase, loose);
    if r.phase.tl == 0 {
      AtZero(|slots|, h, r.phase.second);
      Across(r, mem0, slots, h, mx, loose);
      r1 := r.(phase := Seek(|slots|, true));
    }
    RingLengths(r1.cur.slots, r1.per.slots, slots, h, mx, r1.phase, loose);
    SeekBelow(|slots|, h, r1.phase);
    if r1.phase.second != mx {
      SeekOther(r1, mem0, slots, h, mx, loose);
    } else if slots[r1.phase.tl - 1].gen != MAX_GEN_ID {
      SeekStale(r1, mem0, slots, h, mx, loose);
    } else {
      SeekGroup(r1, mem0, slots, h, mx, loose);
    }
  }

  lemma AtZero(n: nat, h: Header, second: bool)
    requires h.head < n && h.tail < n && InLap(n, h, 0, second) && h.head != 0
    ensures !second && h.tail < h.head
  {
  }

  lemma SeekBelow(n: nat, h: Header, p: Phase)
    requires h.head < n && h.tail < n && PhaseFits(n, h, p) && p.Seek? && p.tl != h.head && p.tl > 0
    ensures Above(p, h) && p.tl <= n
  {
  }

  lemma WipingGoes(r: Recovery, mem0: Memory, slots: seq<Entry>, h: Header, mx: bool, loose: set<nat>)
    requires Fits(r) && Bounds(slots, h) && IsMaxLap(h, mx) && MaxCore(r, mem0, slots, h, mx, loose) && r.phase.Wiping?
    ensures MaxCore(Advance(r), mem0, slots, h, mx, LooseAfter(slots, r.phase, loose))
    ensures SafeOk(slots, h, mx, r.phase, loose) ==>
      SafeOk(slots, h, mx, Advance(r).phase, LooseAfter(slots, r.phase, loose))
    ensures Tight(r.per.slots, slots, h, mx, r.phase, loose) ==>
      Tight(Advance(r).per.slots, slots, h, mx, Advance(r).phase, LooseAfter(slots, r.phase, loose))
  {
    hide RingOk, SafeOk, GroupRestored, BetweenGroups, MemOk, Tight, Advance, GroupAt, RollsBack;
    if r.phase.barrier && r.phase.at == r.phase.lo {
      FirstBarrier(r, mem0, slots, h, mx, loose);
    } else if r.phase.barrier {
      NextBarrier(r, mem0, slots, h, mx, loose);
    } else if r.phase.at < r.phase.hi {
      WipeOne(r, mem0, slots, h, mx, loose);
    } else {
      WipeDone(r, mem0, slots, h, mx, loose);
    }
  }

  /** The scan takes a step. */
  lemma ScanGoes(r: Recovery, mem0: Memory, slots: seq<Entry>, h: Header, mx: bool, loose: set<nat>)
    requires Fits(r) && Bounds(slots, h) && IsMaxLap(h, mx) && MaxCore(r, mem0, slots, h, mx, loose) && !r.phase.Sweep?
    ensures MaxCore(Advance(r), mem0, slots, h, mx, LooseAfter(slots, r.phase, loose))
    ensures SafeOk(slots, h, mx, r.phase, loose) ==>
      SafeOk(slots, h, mx, Advance(r).phase, LooseAfter(slots, r.phase, loose))
    ensures Tight(r.per.slots, slots, h, mx, r.phase, loose) ==>
      Tight(Advance(r).per.slots, slots, h, mx, Advance(r).phase, LooseAfter(slots, r.phase, loose))
  {
    hide RingOk, GroupOk, SafeOk, GroupRestored, BetweenGroups, MemOk, Tight, Advance, WalkBack, RollsBack;
    if r.phase.Undoing? {
      UndoingStep(r, mem0, slots, h, mx, loose);
    } else if r.phase.Wiping? {
      WipingGoes(r, mem0, slots, h, mx, loose);
    } else if r.phase.tl == h.head {
      SeekEnd(r, mem0, slots, h, mx, loose);
    } else {
      SeekGoes(r, mem0, slots, h, mx, loose);
    }
    if !r.phase.Wiping? {
      PerStays(r);
    }
  }

  lemma PerStays(r: Recovery)
    requires Fits(r) && (r.phase.Seek? || r.phase.Undoing?)
    ensures Advance(r).per == r.per
  {
    hide WalkBack, RollsBack;
  }
}
