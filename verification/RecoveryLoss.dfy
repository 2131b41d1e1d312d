/** Crashes during recovery of a log with a MAX_GEN_ID lap: whenever a group of the image can be spoiled, some
    crash loses a byte. */
module RecoveryLoss {
  import opened JournalRing
  import opened RecoveryExact
  import opened RecoveryGroups
  import opened RecoveryHazard
  import opened RecoveryMaxLap
  import opened RecoveryMaxRun
  import opened RecoveryRestart
  import opened RecoverySteps
  import opened UndoRecovery

  // ---- Where the scan comes to -----------------------------------------------------------------------------

  /** Scanning down from hi, with `loose` left above, the code comes to pos with loose' left above. */
  ghost predicate Descends(slots: seq<Entry>, h: Header, mx: bool, hi: nat, loose: set<nat>, pos: nat, loose': set<nat>)
    requires Bounds(slots, h) && Floor(h, mx) <= hi <= |slots|
    decreases hi
  {
    var g, lo := LapGen(h, mx), Floor(h, mx);
    || (hi == pos && loose == loose')
    || (lo < hi
        && if slots[hi - 1].gen != g then Descends(slots, h, mx, hi - 1, loose, pos, loose')
           else
             var k := WalkBack(slots, lo, hi - 1, g);
             Descends(slots, h, mx, k, Unfenced(slots, k, hi, hi, loose), pos, loose'))
  }

  lemma {:induction false} DescendsDown(slots: seq<Entry>, h: Header, mx: bool, hi: nat, loose: set<nat>, pos: nat,
        loose': set<nat>)
    requires Bounds(slots, h) && Floor(h, mx) <= hi <= |slots| && Descends(slots, h, mx, hi, loose, pos, loose')
    ensures Floor(h, mx) <= pos <= hi && (pos == hi ==> loose == loose')
    decreases hi
  {
    hide Unfenced, WalkBack;
    var g, lo := LapGen(h, mx), Floor(h, mx);
    if !(hi == pos && loose == loose') {
      if slots[hi - 1].gen != g {
        DescendsDown(slots, h, mx, hi - 1, loose, pos, loose');
      } else {
        var k := WalkBack(slots, lo, hi - 1, g);
        DescendsDown(slots, h, mx, k, Unfenced(slots, k, hi, hi, loose), pos, loose');
      }
    }
  }

  /** The group below pos, or the one below that, can be spoiled. */
  ghost predicate SpoiledAt(slots: seq<Entry>, h: Header, mx: bool, pos: nat, loose: set<nat>)
    requires Bounds(slots, h)
  {
    && Floor(h, mx) < pos <= |slots| && slots[pos - 1].gen == LapGen(h, mx)
    && var k := WalkBack(slots, Floor(h, mx), pos - 1, LapGen(h, mx));
       NextSpoiled(slots, h, mx, pos, loose) || NextSpoiled(slots, h, mx, k, Leftover(slots, k, pos, LapGen(h, mx)))
  }

  lemma {:induction false} RiskIsReached(slots: seq<Entry>, h: Header, mx: bool, hi: nat, loose: set<nat>)
    returns (pos: nat, loose': set<nat>)
    requires Bounds(slots, h) && Floor(h, mx) <= hi <= |slots| && Risky(slots, h, mx, hi, loose)
    ensures Descends(slots, h, mx, hi, loose, pos, loose') && SpoiledAt(slots, h, mx, pos, loose')
    decreases hi
  {
    hide Unfenced, WalkBack, NextSpoiled, Leftover;
    var g, lo := LapGen(h, mx), Floor(h, mx);
    if slots[hi - 1].gen != g {
      pos, loose' := RiskIsReached(slots, h, mx, hi - 1, loose);
    } else {
      var k := WalkBack(slots, lo, hi - 1, g);
      if NextSpoiled(slots, h, mx, hi, loose) || NextSpoiled(slots, h, mx, k, Leftover(slots, k, hi, g)) {
        pos, loose' := hi, loose;
      } else {
        pos, loose' := RiskIsReached(slots, h, mx, k, Unfenced(slots, k, hi, hi, loose));
      }
    }
  }

  lemma {:induction false} DescendsDivides(slots: seq<Entry>, h: Header, mx: bool, hi: nat, loose: set<nat>, pos: nat,
        loose': set<nat>)
    requires Bounds(slots, h) && Floor(h, mx) <= hi <= Lap(slots, h, mx).hi
    requires Descends(slots, h, mx, hi, loose, pos, loose')
    requires Divides(Lap(slots, h, mx), hi)
    ensures Divides(Lap(slots, h, mx), pos)
    decreases hi
  {
    hide Unfenced, WalkBack, StartOf, Divides;
    var g, lo := LapGen(h, mx), Floor(h, mx);
    if !(hi == pos && loose == loose') {
      if slots[hi - 1].gen != g {
        assert !Lap(slots, h, mx).Valid(hi - 1);
        StaleDivides(Lap(slots, h, mx), hi);
        DescendsDivides(slots, h, mx, hi - 1, loose, pos, loose');
      } else {
        var k := WalkBack(slots, lo, hi - 1, g);
        GroupDivides(Lap(slots, h, mx), hi);
        DescendsDivides(slots, h, mx, k, Unfenced(slots, k, hi, hi, loose), pos, loose');
      }
    }
  }

  // ---- Running to a position --------------------------------------------------------------------------------

  /** From phase p the scan will come to pos with loose' left above. */
  ghost predicate Coming(slots: seq<Entry>, h: Header, mx: bool, p: Phase, loose: set<nat>, pos: nat, loose': set<nat>)
    requires Bounds(slots, h)
  {
    && PhaseFits(|slots|, h, p)
    && match p
       case Seek(tl, second) =>
         if second == mx then Descends(slots, h, mx, tl, loose, pos, loose')
           else mx && Descends(slots, h, mx, |slots|, loose, pos, loose')
       case Undoing(lo, _, hi, second) =>
         if second == mx then Descends(slots, h, mx, lo, Unfenced(slots, lo, hi, hi, loose), pos, loose')
         else mx && Descends(slots, h, mx, |slots|, loose, pos, loose')
       case Wiping(lo, _, hi, second, _) =>
         second == mx && Descends(slots, h, mx, lo, Unfenced(slots, lo, hi, hi, loose), pos, loose')
       case _ => false
  }

  /** The scan stands at pos, or at the wrap just before it. */
  predicate Stands(n: nat, mx: bool, p: Phase, pos: nat) {
    p == Seek(pos, mx) || (mx && pos == n && p == Seek(0, false))
  }

  /** What is still to be done in the scan, in decreasing order. */
  function RankLap(p: Phase): nat {
    match p
    case Seek(_, second) => if second then 1 else 2
    case Undoing(_, _, _, second) => if second then 1 else 2
    case Wiping(_, _, _, second, _) => if second then 1 else 2
    case _ => 0
  }

  function RankPos(p: Phase): nat {
    match p
    case Seek(tl, _) => tl
    case Undoing(lo, _, _, _) => lo
    case Wiping(lo, _, _, _, _) => lo
    case _ => 0
  }

  function RankKind(p: Phase): nat {
    match p
    case Undoing(_, _, _, _) => 2
    case Wiping(_, _, _, _, _) => 1
    case _ => 0
  }

  function RankIn(p: Phase): nat {
    match p
    case Undoing(lo, at, _, _) => if lo <= at then at - lo else 0
    case Wiping(_, at, hi, _, barrier) => (if at <= hi then 2 * (hi - at) else 0) + (if barrier then 1 else 0)
    case _ => 0
  }

  predicate Lower(p': Phase, p: Phase) {
    || RankLap(p') < RankLap(p)
    || (RankLap(p') == RankLap(p) && RankPos(p') < RankPos(p))
    || (RankLap(p') == RankLap(p) && RankPos(p') == RankPos(p) && RankKind(p') < RankKind(p))
    || (RankLap(p') == RankLap(p) && RankPos(p') == RankPos(p) && RankKind(p') == RankKind(p) && RankIn(p') < RankIn(p))
  }

  /** Every step of the scan comes closer to its end. */
  lemma GoesDown(r: Recovery)
    requires Fits(r) && (r.phase.Seek? || r.phase.Undoing? || r.phase.Wiping?)
    ensures Lower(Advance(r).phase, r.phase)
  {
    hide WalkBack, RollsBack, LapGen;
    if r.phase.Seek? {
      SeekFits(r);
      if r.phase.tl != r.cur.hdr.head && r.phase.tl > 0 {
        var hi, sec := r.phase.tl, r.phase.second;
        assert WalkBack(r.cur.slots, Floor(r.cur.hdr, sec), hi - 1, LapGen(r.cur.hdr, sec)) < hi;
      } else if r.phase.tl != r.cur.hdr.head {
        AtZero(|r.cur.slots|, r.cur.hdr, r.phase.second);
      }
    }
  }

  lemma GoFirst(r: Recovery, steps: seq<RStep>)
    requires Fits(r)
    ensures Fits(Advance(r)) && Run(r, [Go] + steps) == Run(Advance(r), steps)
  {
    AdvanceFits(r);
    assert ([Go] + steps)[1..] == steps;
  }

  /** One step towards pos. */
  lemma ComesCloser(r: Recovery, mem0: Memory, slots: seq<Entry>, h: Header, mx: bool, loose: set<nat>, pos: nat,
        loose': set<nat>)
    requires Fits(r) && Bounds(slots, h) && IsMaxLap(h, mx) && MaxCore(r, mem0, slots, h, mx, loose)
    requires Coming(slots, h, mx, r.phase, loose, pos, loose') && !Stands(|slots|, mx, r.phase, pos)
    ensures Coming(slots, h, mx, Advance(r).phase, LooseAfter(slots, r.phase, loose), pos, loose')
  {
    hide RingOk, MemOk, GroupRestored, BetweenGroups, Unfenced, WalkBack, Descends, Advance, Divides;
    RingLengths(r.cur.slots, r.per.slots, slots, h, mx, r.phase, loose);
    AdvanceFits(r);
    match r.phase {
      case Seek(tl, second) => SeekCloser(r, mem0, slots, h, mx, loose, pos, loose');
      case Undoing(lo, at, hi, second) => UndoPhase(r);
      case Wiping(lo, at, hi, second, barrier) =>
        WipePhase(r);
        if barrier && at == lo {
          SameUnfenced(slots, lo, hi, hi, loose, {});
        }
    }
  }

  /** At the lowest slot there is nowhere to go. */
  lemma AtFloor(slots: seq<Entry>, h: Header, mx: bool, hi: nat, loose: set<nat>, pos: nat, loose': set<nat>)
    requires Bounds(slots, h) && Floor(h, mx) == hi && Descends(slots, h, mx, hi, loose, pos, loose')
    ensures pos == hi
  {
  }

  lemma LapCloser(r: Recovery, mem0: Memory, slots: seq<Entry>, h: Header, mx: bool, loose: set<nat>, pos: nat,
        loose': set<nat>)
    requires Fits(r) && Bounds(slots, h) && IsMaxLap(h, mx) && MaxCore(r, mem0, slots, h, mx, loose)
    requires Above(r.phase, h) && r.phase.second == mx && r.phase.tl != pos
    requires Coming(slots, h, mx, r.phase, loose, pos, loose')
    ensures Coming(slots, h, mx, Advance(r).phase, loose, pos, loose')
  {
    hide RingOk, MemOk, GroupOk, GroupRestored, BetweenGroups, Unfenced, WalkBack, Advance, Divides, RollsBack;
    RingLengths(r.cur.slots, r.per.slots, slots, h, mx, r.phase, loose);
    AdvanceFits(r);
    if slots[r.phase.tl - 1].gen != MAX_GEN_ID {
      SeekStale(r, mem0, slots, h, mx, loose);
    } else {
      SeekGroup(r, mem0, slots, h, mx, loose);
    }
  }

  lemma SeekCloser(r: Recovery, mem0: Memory, slots: seq<Entry>, h: Header, mx: bool, loose: set<nat>, pos: nat,
        loose': set<nat>)
    requires Fits(r) && Bounds(slots, h) && IsMaxLap(h, mx) && MaxCore(r, mem0, slots, h, mx, loose) && r.phase.Seek?
    requires Coming(slots, h, mx, r.phase, loose, pos, loose') && !Stands(|slots|, mx, r.phase, pos)
    ensures Coming(slots, h, mx, Advance(r).phase, loose, pos, loose')
  {
    hide RingOk, MemOk, GroupOk, GroupRestored, BetweenGroups, Unfenced, WalkBack, Descends, Advance, Divides,
      RollsBack;
    RingLengths(r.cur.slots, r.per.slots, slots, h, mx, r.phase, loose);
    AdvanceFits(r);
    SeekFits(r);
    if r.phase.second == mx && r.phase.tl == h.head {
      AtFloor(slots, h, mx, r.phase.tl, loose, pos, loose');
    } else if r.phase.tl == 0 {
      AtZero(|slots|, h, r.phase.second);
      if mx {
        Across(r, mem0, slots, h, mx, loose);
        LapCloser(r.(phase := Seek(|slots|, true)), mem0, slots, h, mx, loose, pos, loose');
      } else {
        AtFloor(slots, h, mx, 0, loose, pos, loose');
      }
    } else if r.phase.second == mx {
      LapCloser(r, mem0, slots, h, mx, loose, pos, loose');
    } else {
      OtherGen(h, mx, r.phase.second);
    }
  }

  lemma UndoPhase(r: Recovery)
    requires Fits(r) && r.phase.Undoing?
    ensures var p := r.phase;
      Advance(r).phase == if p.at > p.lo then Undoing(p.lo, p.at - 1, p.hi, p.second)
                          else if LapGen(r.cur.hdr, p.second) ==
                            MAX_GEN_ID then Wiping(p.lo, p.lo, p.hi, p.second, true)
                          else Seek(p.lo, p.second)
  {
  }

  lemma WipePhase(r: Recovery)
    requires Fits(r) && r.phase.Wiping?
    ensures var p := r.phase;
      if p.barrier then Advance(r).phase == p.(barrier := false)
      else if p.at == p.hi then Advance(r).phase == Seek(p.lo, p.second)
      else
        && Advance(r).phase.Wiping?
        && Advance(r).phase == Wiping(p.lo, p.at + 1, p.hi, p.second, Advance(r).phase.barrier)
  {
  }

  /** Byte a is written back only from slots of the lap below pos. */
  ghost predicate OnlyBelow(slots: seq<Entry>, h: Header, mx: bool, pos: nat, a: nat)
    requires Bounds(slots, h)
  {
    forall second: bool, j :: Restored(slots, h, second, j) && slots[j].Covers(a) ==> second == mx && j < pos
  }

  ghost predicate Unwritten(cur: Memory, per: Memory, mem0: Memory, a: nat) {
    a in cur && a in per && a in mem0 && cur[a] == per[a] == mem0[a]
  }

  /** Above pos nothing writes byte a. */
  lemma StaysUnwritten(r: Recovery, mem0: Memory, slots: seq<Entry>, h: Header, mx: bool, loose: set<nat>, pos: nat,
        a: nat)
    requires Fits(r) && Bounds(slots, h) && IsMaxLap(h, mx) && MaxCore(r, mem0, slots, h, mx, loose)
    requires OnlyBelow(slots, h, mx, pos, a)
    requires r.phase.Seek? || r.phase.Undoing? || r.phase.Wiping?
    requires r.phase.Undoing? && r.phase.second == mx ==> pos <= r.phase.lo
    requires Unwritten(r.cur.mem, r.per.mem, mem0, a)
    ensures Unwritten(Advance(r).cur.mem, Advance(r).per.mem, mem0, a)
  {
    hide RingOk, GroupOk, Restored, BetweenGroups, WalkBack, Completed, Settled, Recover, RollsBack;
    var p := r.phase;
    if p.Undoing? && p.at > p.lo {
      RingLengths(r.cur.slots, r.per.slots, slots, h, mx, p, loose);
      AheadOk(r.cur.slots, r.per.slots, slots, h, mx, p, loose);
      assert Ahead(h, p.hi, p.second, p.at - 1) && r.cur.slots[p.at - 1] == slots[p.at - 1];
    } else if p.Seek? {
      SeekFits(r);
    }
  }

  /** What holds of a run without evictions, with byte a as it was. */
  ghost predicate Quiet(r: Recovery, mem0: Memory, slots: seq<Entry>, h: Header, mx: bool, loose: set<nat>, pos: nat,
        a: nat)
    requires Bounds(slots, h)
  {
    && MaxCore(r, mem0, slots, h, mx, loose) && Tight(r.per.slots, slots, h, mx, r.phase, loose)
    && (OnlyBelow(slots, h, mx, pos, a) && a in mem0 ==> Unwritten(r.cur.mem, r.per.mem, mem0, a))
  }

  lemma StaysQuiet(r: Recovery, mem0: Memory, slots: seq<Entry>, h: Header, mx: bool, loose: set<nat>, pos: nat, a: nat)
    requires Fits(r) && Bounds(slots, h) && IsMaxLap(h, mx) && Quiet(r, mem0, slots, h, mx, loose, pos, a)
    requires r.phase.Seek? || r.phase.Undoing? || r.phase.Wiping?
    requires r.phase.Undoing? && r.phase.second == mx ==> pos <= r.phase.lo
    ensures Quiet(Advance(r), mem0, slots, h, mx, LooseAfter(slots, r.phase, loose), pos, a)
  {
    hide MaxCore, Tight, OnlyBelow, Unwritten, Advance;
    ScanGoes(r, mem0, slots, h, mx, loose);
    if OnlyBelow(slots, h, mx, pos, a) && a in mem0 {
      StaysUnwritten(r, mem0, slots, h, mx, loose, pos, a);
    }
  }

  lemma AbovePos(slots: seq<Entry>, h: Header, mx: bool, p: Phase, loose: set<nat>, pos: nat, loose': set<nat>)
    requires Bounds(slots, h) && Coming(slots, h, mx, p, loose, pos, loose')
    ensures p.Seek? || p.Undoing? || p.Wiping?
    ensures p.Undoing? && p.second == mx ==> pos <= p.lo
  {
    hide Descends, Unfenced;
    if p.Undoing? && p.second == mx {
      DescendsDown(slots, h, mx, p.lo, Unfenced(slots, p.lo, p.hi, p.hi, loose), pos, loose');
    }
  }

  /** The scan, undisturbed, comes to pos. */
  lemma {:induction false} ScanTo(r: Recovery, mem0: Memory, slots: seq<Entry>, h: Header, mx: bool, loose: set<nat>,
        pos: nat, loose': set<nat>, a: nat)
    returns (steps: seq<RStep>)
    requires Fits(r) && Bounds(slots, h) && IsMaxLap(h, mx) && Quiet(r, mem0, slots, h, mx, loose, pos, a)
    requires Coming(slots, h, mx, r.phase, loose, pos, loose')
    ensures Quiet(Run(r, steps), mem0, slots, h, mx, loose', pos, a) && Stands(|slots|, mx, Run(r, steps).phase, pos)
    decreases RankLap(r.phase), RankPos(r.phase), RankKind(r.phase), RankIn(r.phase)
  {
    hide MaxCore, Tight, OnlyBelow, Unwritten, Advance, RankLap, RankPos, RankKind, RankIn, Descends, Unfenced, Fits,
      LooseAfter;
    if Stands(|slots|, mx, r.phase, pos) {
      steps := [];
      StandsWith(slots, h, mx, r.phase, loose, pos, loose');
    } else {
      AbovePos(slots, h, mx, r.phase, loose, pos, loose');
      StaysQuiet(r, mem0, slots, h, mx, loose, pos, a);
      CoreComes(r, mem0, slots, h, mx, loose, pos, loose', a);
      GoesDown(r);
      GoFirst(r, []);
      steps := ScanTo(Advance(r), mem0, slots, h, mx, LooseAfter(slots, r.phase, loose), pos, loose', a);
      GoFirst(r, steps);
      steps := [Go] + steps;
    }
  }

  lemma CoreComes(r: Recovery, mem0: Memory, slots: seq<Entry>, h: Header, mx: bool, loose: set<nat>, pos: nat,
        loose': set<nat>, a: nat)
    requires Fits(r) && Bounds(slots, h) && IsMaxLap(h, mx) && Quiet(r, mem0, slots, h, mx, loose, pos, a)
    requires Coming(slots, h, mx, r.phase, loose, pos, loose') && !Stands(|slots|, mx, r.phase, pos)
    ensures Fits(Advance(r)) && Coming(slots, h, mx, Advance(r).phase, LooseAfter(slots, r.phase, loose), pos, loose')
  {
    hide MaxCore, Tight, OnlyBelow, Unwritten, Advance, Coming, LooseAfter, Stands;
    AdvanceFits(r);
    ComesCloser(r, mem0, slots, h, mx, loose, pos, loose');
  }

  lemma StandsWith(slots: seq<Entry>, h: Header, mx: bool, p: Phase, loose: set<nat>, pos: nat, loose': set<nat>)
    requires Bounds(slots, h) && Coming(slots, h, mx, p, loose, pos, loose') && Stands(|slots|, mx, p, pos)
    ensures loose == loose'
  {
    hide Descends, Unfenced;
    DescendsDown(slots, h, mx, pos, loose, pos, loose');
  }

  /** The group [lo..hi) is in hand, and not wiped beyond slot y. */
  predicate InHand(mx: bool, p: Phase, lo: nat, hi: nat, y: nat) {
    || (p.Undoing? && p.lo == lo && p.hi == hi && p.second == mx && lo <= y)
    || (p.Wiping? && p.lo == lo && p.hi == hi && p.second == mx && p.at <= y)
  }

  /** The group in hand is wiped up to slot y. */
  lemma {:induction false} WipeTo(r: Recovery, mem0: Memory, slots: seq<Entry>, h: Header, mx: bool, loose: set<nat>,
        lo: nat, hi: nat, y: nat, a: nat)
    returns (steps: seq<RStep>, loose': set<nat>)
    requires Fits(r) && Bounds(slots, h) && IsMaxLap(h, mx) && Quiet(r, mem0, slots, h, mx, loose, lo, a)
    requires InHand(mx, r.phase, lo, hi, y) && y < hi
    ensures Quiet(Run(r, steps), mem0, slots, h, mx, loose', lo, a)
    ensures var p := Run(r, steps).phase; p.Wiping? && p.lo == lo && p.at == y && p.hi == hi && p.second == mx
    decreases RankLap(r.phase), RankPos(r.phase), RankKind(r.phase), RankIn(r.phase)
  {
    hide MaxCore, Tight, OnlyBelow, Unwritten, Advance, RankLap, RankPos, RankKind, RankIn, Fits, LooseAfter, Quiet;
    if r.phase.Wiping? && r.phase.at == y {
      steps, loose' := [], loose;
    } else {
      StaysQuiet(r, mem0, slots, h, mx, loose, lo, a);
      StaysInHand(r, mem0, slots, h, mx, loose, lo, hi, y, a);
      GoesDown(r);
      GoFirst(r, []);
      steps, loose' := WipeTo(Advance(r), mem0, slots, h, mx, LooseAfter(slots, r.phase, loose), lo, hi, y, a);
      GoFirst(r, steps);
      steps := [Go] + steps;
    }
  }

  lemma StaysInHand(r: Recovery, mem0: Memory, slots: seq<Entry>, h: Header, mx: bool, loose: set<nat>, lo: nat,
        hi: nat, y: nat, a: nat)
    requires Fits(r) && Bounds(slots, h) && IsMaxLap(h, mx) && Quiet(r, mem0, slots, h, mx, loose, lo, a)
    requires InHand(mx, r.phase, lo, hi, y) && y < hi && !(r.phase.Wiping? && r.phase.at == y)
    ensures InHand(mx, Advance(r).phase, lo, hi, y)
  {
    hide RingOk, MemOk, GroupOk, GroupRestored, BetweenGroups, Tight, OnlyBelow, Unwritten, Advance, Divides;
    if r.phase.Undoing? {
      UndoPhase(r);
    } else {
      WipePhase(r);
    }
  }

  // ---- What the cache lets through ----------------------------------------------------------------------------

  /** Every slot below n but those in `keep` is evicted. */
  ghost function EvictAllBut(n: nat, keep: set<nat>): seq<RStep> {
    if n == 0 then [] else EvictAllBut(n - 1, keep) + (if n - 1 in keep then [] else [EvictSlot(n - 1)])
  }

  ghost function Mixed(cur: seq<Entry>, per: seq<Entry>, n: nat, keep: set<nat>): (r: seq<Entry>)
    requires |cur| == |per|
    ensures |r| == |per|
  {
    seq(|per|, i requires 0 <= i < |per| => if i < n && i !in keep then cur[i] else per[i])
  }

  lemma {:induction false} Evicted(r: Recovery, n: nat, keep: set<nat>)
    requires Fits(r) && n <= |r.cur.slots|
    ensures Run(r, EvictAllBut(n, keep)) == r.(per := r.per.(slots := Mixed(r.cur.slots, r.per.slots, n, keep)))
    decreases n
  {
    hide Advance;
    if n == 0 {
      assert Mixed(r.cur.slots, r.per.slots, 0, keep) == r.per.slots;
    } else {
      Evicted(r, n - 1, keep);
      var s1, r1 := EvictAllBut(n - 1, keep), Run(r, EvictAllBut(n - 1, keep));
      if n - 1 in keep {
        assert EvictAllBut(n, keep) == s1;
        assert Mixed(r.cur.slots, r.per.slots, n, keep) == Mixed(r.cur.slots, r.per.slots, n - 1, keep);
      } else {
        RunMore(r, s1, [EvictSlot(n - 1)]);
        OneStep(r1, EvictSlot(n - 1));
        assert Mixed(r.cur.slots, r.per.slots, n, keep) ==
          Mixed(r.cur.slots, r.per.slots, n - 1, keep)[n - 1 := r.cur.slots[n - 1]];
      }
    }
  }

  lemma OneStep(r: Recovery, step: RStep)
    requires Fits(r)
    ensures Run(r, [step]) == Take(r, step)
  {
    TakeFits(r, step);
    assert [step][1..] == [];
  }

  // ---- What a crash loses -------------------------------------------------------------------------------------

  /** A byte that recovery does not leave at v, and that is not v before. */
  lemma NotLeft(mem: Memory, slots: seq<Entry>, h: Header, a: nat, v: Byte)
    requires Bounds(slots, h) && a in mem && !Leaves(slots, h, a, v) && mem[a] != v
    ensures Recover(mem, slots, h)[a] != v
  {
    hide Restored, Leaves, Recover;
    if Untouched(slots, h, false, a) && Untouched(slots, h, true, a) {
      StaysValue(mem, slots, h, a);
    } else {
      var w := Decided(slots, h, a);
      LeavesValue(mem, slots, h, a, w);
    }
  }

  /** The value that recovery gives to a byte it writes. */
  lemma Decided(slots: seq<Entry>, h: Header, a: nat) returns (w: Byte)
    requires Bounds(slots, h) && !(Untouched(slots, h, false, a) && Untouched(slots, h, true, a))
    ensures Leaves(slots, h, a, w)
  {
    hide Restored, Leaves;
    var lap := !Untouched(slots, h, true, a);
    var i := Toucher(slots, h, lap, a);
    var m := LastExists(slots, h, lap, i, a);
    LastBounds(slots, h, lap, m, a);
    LeavesLast(slots, h, lap, m, a);
    w := Saved(slots[m], a);
  }

  /** Of the lap from pos on, y is left, and if it is not an end entry, perhaps data above it. */
  ghost predicate LowestLeft(slots: seq<Entry>, p: seq<Entry>, h: Header, mx: bool, pos: nat, y: nat)
    requires Bounds(slots, h)
  {
    && PartlyWiped(slots, p, h, mx, pos) && pos <= y && Lap(p, h, mx).Valid(y) && !slots[y].isStart
    && forall j :: pos <= j && Lap(p, h, mx).Valid(j) ==>
         j == y || (y < j < |slots| && !slots[j].isStart && !slots[j].Fin() && !slots[y].Fin())
  }

  /** A data entry that is left joins the open group below and is undone with it. */
  lemma JoinsGroup(slots: seq<Entry>, p: seq<Entry>, h: Header, mx: bool, pos: nat, b: int, y: nat)
    requires Bounds(slots, h) && IsMaxLap(h, mx) && LowestLeft(slots, p, h, mx, pos, y) && !slots[y].Fin()
    requires NextOpen(Lap(slots, h, mx), pos, b)
    ensures Bounds(p, h) && Restored(p, h, mx, y)
    ensures forall j :: pos <= j < y ==> !Restored(p, h, mx, j)
  {
    hide PartlyWiped;
    BelowSame(slots, p, h, mx, pos);
    var s, s' := Lap(slots, h, mx), Lap(p, h, mx);
    assert StartOf(s', y, b);
    assert forall f :: y <= f ==> !s'.ValidFin(f);
  }

  lemma LosesByte(mem0: Memory, mem: Memory, slots: seq<Entry>, p: seq<Entry>, h: Header, mx: bool, pos: nat, b: int,
        y: nat, a: nat)
    requires Bounds(slots, h) && IsMaxLap(h, mx) && LowestLeft(slots, p, h, mx, pos, y) && !slots[y].Fin()
    requires NextOpen(Lap(slots, h, mx), pos, b) && slots[y].Covers(a) && !DecidedBelow(slots, h, mx, pos, a)
    requires a in mem && a in mem0 && !Leaves(slots, h, a, Saved(slots[y], a)) && mem0[a] != Saved(slots[y], a)
    ensures Bounds(p, h) && Recover(mem, p, h)[a] != Recover(mem0, slots, h)[a]
  {
    hide Restored, Leaves, Recover, PartlyWiped, NextOpen;
    JoinsGroup(slots, p, h, mx, pos, b, y);
    WipedFields(slots, p, h, mx, pos);
    forall j | j < y && Restored(p, h, mx, j) ensures 0 <= j < |p| && !p[j].Covers(a) {
      RestoredBounds(p, h, mx, j);
      if j < pos {
        NothingNewBelow(slots, p, h, mx, pos, j);
      }
    }
    if !mx {
      OtherUntouched(slots, p, h, mx, true, pos, a);
    }
    LeavesLast(p, h, mx, y, a);
    LeavesValue(mem, p, h, a, Saved(slots[y], a));
    NotLeft(mem0, slots, h, a, Saved(slots[y], a));
  }

  lemma OneStart(s: Segment, i: int, b: int, b': int)
    requires StartOf(s, i, b) && StartOf(s, i, b')
    ensures b == b'
  {
  }

  /** A byte that an entry of the open group saved is saved by no other group. */
  lemma OnlyThisGroup(slots: seq<Entry>, h: Header, mx: bool, pos: nat, b: int, i: nat, a: nat, second: bool, j: int)
    requires Bounds(slots, h) && OneWriter(slots, h) && NextOpen(Lap(slots, h, mx), pos, b)
    requires Divides(Lap(slots, h, mx), pos)
    requires b <= i < pos && Lap(slots, h, mx).Valid(i) && slots[i].Covers(a)
    requires Restored(slots, h, second, j) && 0 <= j < |slots| && slots[j].Covers(a)
    ensures second == mx && StartOf(Lap(slots, h, mx), j, b)
  {
    hide Restored, NextOpen, Divides, StartOf;
    OpenIsRestored(slots, h, mx, pos, b, i);
    var s := Lap(slots, h, mx);
    var b' :| StartOf(s, i, b') && StartOf(s, j, b');
    OneStart(s, i, b, b');
  }

  lemma GroupOnly(slots: seq<Entry>, h: Header, mx: bool, pos: nat, b: int, i: nat, a: nat)
    requires Bounds(slots, h) && OneWriter(slots, h) && NextOpen(Lap(slots, h, mx), pos, b)
    requires Divides(Lap(slots, h, mx), pos)
    requires b <= i < pos && Lap(slots, h, mx).Valid(i) && slots[i].Covers(a)
    ensures OnlyBelow(slots, h, mx, pos, a)
  {
    hide Restored, Divides, StartOf, OneWriter;
    forall second: bool, j | Restored(slots, h, second, j)
      ensures 0 <= j < |slots| && (slots[j].Covers(a) ==> second == mx && j < pos)
    {
      RestoredBounds(slots, h, second, j);
      if slots[j].Covers(a) {
        OnlyThisGroup(slots, h, mx, pos, b, i, a, second, j);
        EndsBelow(Lap(slots, h, mx), pos, j, b);
      }
    }
  }

  /** A commit or abort that is left closes the group below it. */
  lemma ClosesGroup(slots: seq<Entry>, p: seq<Entry>, h: Header, mx: bool, pos: nat, b: int, y: nat, j: int)
    requires Bounds(slots, h) && IsMaxLap(h, mx) && LowestLeft(slots, p, h, mx, pos, y) && slots[y].Fin()
    requires NextOpen(Lap(slots, h, mx), pos, b) && b <= j
    ensures Bounds(p, h) && !Restored(p, h, mx, j)
  {
    hide PartlyWiped;
    BelowSame(slots, p, h, mx, pos);
    var s, s' := Lap(slots, h, mx), Lap(p, h, mx);
    if s'.Valid(j) {
      assert j < pos || j == y;
      assert FinAt(s', j, y);
    }
  }

  lemma LosesRollback(mem0: Memory, mem: Memory, slots: seq<Entry>, p: seq<Entry>, h: Header, mx: bool, pos: nat,
        b: int, i: nat, y: nat, a: nat, w: Byte)
    requires Bounds(slots, h) && IsMaxLap(h, mx) && LowestLeft(slots, p, h, mx, pos, y) && slots[y].Fin()
    requires OneWriter(slots, h)
    requires NextOpen(Lap(slots, h, mx), pos, b) && b <= i < pos && Lap(slots, h, mx).Valid(i) && slots[i].Covers(a)
    requires a in mem && a in mem0 && mem[a] == mem0[a] != w && Leaves(slots, h, a, w)
    ensures Bounds(p, h) && Recover(mem, p, h)[a] != Recover(mem0, slots, h)[a]
  {
    hide Restored, Leaves, Recover, PartlyWiped, NextOpen, OneWriter, LowestLeft;
    var s := Lap(slots, h, mx);
    LeftShape(slots, p, h, mx, pos, y);
    WipedFields(slots, p, h, mx, pos);
    CutHere(slots, p, h, mx, pos);
    forall j | Restored(p, h, mx, j) ensures 0 <= j < |p| && !p[j].Covers(a) {
      RestoredBounds(p, h, mx, j);
      if b <= j {
        ClosesGroup(slots, p, h, mx, pos, b, y, j);
      } else if p[j].Covers(a) {
        NothingNewBelow(slots, p, h, mx, pos, j);
        OnlyThisGroup(slots, h, mx, pos, b, i, a, mx, j);
      }
    }
    forall j | Restored(slots, h, !mx, j) ensures 0 <= j < |slots| && !slots[j].Covers(a) {
      RestoredBounds(slots, h, !mx, j);
      if slots[j].Covers(a) {
        OnlyThisGroup(slots, h, mx, pos, b, i, a, !mx, j);
      }
    }
    OtherUntouched(slots, p, h, mx, !mx, pos, a);
    StaysUntouched(mem, p, h, mx, !mx, a);
    LeavesValue(mem0, slots, h, a, w);
  }

  lemma LeftShape(slots: seq<Entry>, p: seq<Entry>, h: Header, mx: bool, pos: nat, y: nat)
    requires Bounds(slots, h) && LowestLeft(slots, p, h, mx, pos, y)
    ensures PartlyWiped(slots, p, h, mx, pos) && Bounds(p, h)
  {
  }

  // ---- The byte and the entry ---------------------------------------------------------------------------------

  /** If y is left from pos on, byte a is lost, unless it has value v from the start. */
  ghost predicate Threat(slots: seq<Entry>, h: Header, mx: bool, pos: nat, y: nat, a: nat, v: Byte)
    requires Bounds(slots, h)
  {
    var s := Lap(slots, h, mx);
    && pos <= y && s.Valid(y) && !slots[y].isStart
    && if slots[y].Fin()
       then exists b, i: nat ::
           NextOpen(s, pos, b) && b <= i < pos && s.Valid(i) && slots[i].Covers(a) && Leaves(slots, h, a, v)
       else
         && (exists b :: NextOpen(s, pos, b)) && slots[y].Covers(a) && v == Saved(slots[y], a)
         && !DecidedBelow(slots, h, mx, pos, a) && !Leaves(slots, h, a, v)
  }

  lemma ThreatFrom(slots: seq<Entry>, h: Header, mx: bool, pos: nat, ys: set<nat>) returns (y: nat, a: nat, v: Byte)
    requires Bounds(slots, h) && NextSpoiled(slots, h, mx, pos, ys) && Divides(Lap(slots, h, mx), pos)
    ensures y in ys && Threat(slots, h, mx, pos, y, a, v)
  {
    hide Restored, Leaves, DecidedBelow, Divides, NextOpen;
    var s := Lap(slots, h, mx);
    var b, e :| NextOpen(s, pos, b) && e in ys && Spoils(slots, h, mx, b, pos, e);
    y := e;
    if slots[y].Fin() {
      var j :| b <= j < pos && s.Valid(j) && slots[j].data != [];
      var i: nat := j;
      a := slots[i].addr;
      OpenIsRestored(slots, h, mx, pos, b, i);
      v := Decided(slots, h, a);
      assert slots[i].Covers(a);
    } else {
      var c: nat :| slots[y].Covers(c) && !DecidedBelow(slots, h, mx, pos, c) &&
        !Leaves(slots, h, c, Saved(slots[y], c));
      a, v := c, Saved(slots[y], c);
    }
  }

  /** An end entry threatens a byte that only the groups below pos write. */
  lemma ThreatBelow(slots: seq<Entry>, h: Header, mx: bool, pos: nat, y: nat, a: nat, v: Byte)
    requires Bounds(slots, h) && OneWriter(slots, h) && Divides(Lap(slots, h, mx), pos)
    requires Threat(slots, h, mx, pos, y, a, v) && slots[y].Fin()
    ensures OnlyBelow(slots, h, mx, pos, a)
  {
    hide OneWriter, Divides, NextOpen, Leaves, OnlyBelow;
    var s := Lap(slots, h, mx);
    var b, i: nat :| NextOpen(s, pos, b) && b <= i < pos && s.Valid(i) && slots[i].Covers(a) && Leaves(slots, h, a, v);
    GroupOnly(slots, h, mx, pos, b, i, a);
  }

  lemma ThreatLoses(mem0: Memory, mem: Memory, slots: seq<Entry>, p: seq<Entry>, h: Header, mx: bool, pos: nat, y: nat,
        a: nat, v: Byte)
    requires Bounds(slots, h) && IsMaxLap(h, mx) && OneWriter(slots, h) && LowestLeft(slots, p, h, mx, pos, y)
    requires Threat(slots, h, mx, pos, y, a, v) && a in mem && a in mem0 && mem0[a] != v
    requires slots[y].Fin() ==> mem[a] == mem0[a]
    ensures Bounds(p, h) && Recover(mem, p, h)[a] != Recover(mem0, slots, h)[a]
  {
    hide OneWriter, NextOpen, Leaves, LowestLeft, DecidedBelow, Recover;
    var s := Lap(slots, h, mx);
    if slots[y].Fin() {
      var b, i: nat :| NextOpen(s, pos, b) && b <= i < pos && s.Valid(i) && slots[i].Covers(a) &&
        Leaves(slots, h, a, v);
      LosesRollback(mem0, mem, slots, p, h, mx, pos, b, i, y, a, v);
    } else {
      var b :| NextOpen(s, pos, b);
      LosesByte(mem0, mem, slots, p, h, mx, pos, b, y, a);
    }
  }

  // ---- The rings at the crash -----------------------------------------------------------------------------------

  lemma LeftAtSeek(cur: seq<Entry>, per: seq<Entry>, slots: seq<Entry>, h: Header, mx: bool, loose: set<nat>, pos: nat,
        y: nat)
    requires Bounds(slots, h) && IsMaxLap(h, mx) && RingOk(cur, per, slots, h, mx, Seek(pos, mx), loose)
    requires Tight(per, slots, h, mx, Seek(pos, mx), loose) && y in loose && |cur| == |per| == |slots|
    requires Lap(slots, h, mx).lo <= pos <= y && Lap(slots, h, mx).Valid(y) && !slots[y].isStart
    requires Divides(Lap(slots, h, mx), pos)
    ensures LowestLeft(slots, Mixed(cur, per, |slots|, {y}), h, mx, pos, y)
  {
    hide Divides;
  }

  /** The cache while a group is wiped. */
  ghost predicate WipedFrom(slots: seq<Entry>, p: seq<Entry>, s: Segment, lo: nat, y: nat, hi: nat) {
    && |p| == |slots|
    && forall i :: 0 <= i < |slots| ==>
         p[i] == if (lo <= i < y) || (hi <= i && s.lo <= i < s.hi) then slots[i].(gen := 0) else slots[i]
  }

  lemma CacheInGroup(cur: seq<Entry>, per: seq<Entry>, slots: seq<Entry>, h: Header, mx: bool, p: Phase,
        loose: set<nat>)
    requires Bounds(slots, h) && p.Wiping? && RingOk(cur, per, slots, h, mx, p, loose) && |cur| == |per| == |slots|
    ensures Mixed(cur, per, |slots|, {}) == cur && WipedFrom(slots, cur, Lap(slots, h, mx), p.lo, p.at, p.hi)
  {
    hide LooseNow;
  }

  lemma LeftInGroup(slots: seq<Entry>, p: seq<Entry>, h: Header, mx: bool, lo: nat, hi: nat, y: nat)
    requires Bounds(slots, h) && IsMaxLap(h, mx) && GroupAt(slots, h, mx, lo, hi)
    requires WipedFrom(slots, p, Lap(slots, h, mx), lo, y, hi)
    requires lo < y && y in Leftover(slots, lo, hi, MAX_GEN_ID) && Lap(slots, h, mx).Valid(y) && !slots[y].isStart
    ensures LowestLeft(slots, p, h, mx, lo, y)
  {
    hide Divides, GroupAt, WalkBack;
    GroupShape(slots, h, mx, lo, hi);
    GroupBounds(slots, h, mx, lo, hi);
    var s, s' := Lap(slots, h, mx), Lap(p, h, mx);
    assert lo < y < hi;
    forall j | lo <= j && s'.Valid(j) ensures y <= j < hi && s.Valid(j) {
    }
    assert PartlyWiped(slots, p, h, mx, lo) by {
      GroupWiped(slots, p, h, mx, lo, hi, y);
    }
  }

  lemma GroupWiped(slots: seq<Entry>, p: seq<Entry>, h: Header, mx: bool, lo: nat, hi: nat, y: nat)
    requires Bounds(slots, h) && IsMaxLap(h, mx) && WipedFrom(slots, p, Lap(slots, h, mx), lo, y, hi) && lo < y < hi
    requires Lap(slots, h, mx).lo <= lo < hi <= Lap(slots, h, mx).hi && Divides(Lap(slots, h, mx), lo)
    requires forall i :: lo < i < hi ==> !Lap(slots, h, mx).ValidStart(i)
    ensures PartlyWiped(slots, p, h, mx, lo)
  {
    hide Divides;
    var s, s', o := Lap(slots, h, mx), Lap(p, h, mx), Lap(slots, h, !mx);
    forall i | o.lo <= i < o.hi ensures p[i] == slots[i] {
    }
    assert forall i :: s'.ValidStart(i) ==> s.ValidStart(i) && (i < lo || y <= i < hi);
  }

  lemma GroupBounds(slots: seq<Entry>, h: Header, mx: bool, lo: nat, hi: nat)
    requires Bounds(slots, h) && GroupAt(slots, h, mx, lo, hi)
    ensures Lap(slots, h, mx).lo <= lo < hi <= Lap(slots, h, mx).hi && Divides(Lap(slots, h, mx), lo)
  {
    hide Divides;
    GroupDivides(Lap(slots, h, mx), hi);
  }

  // ---- Crashes of the scan ------------------------------------------------------------------------------------

  lemma CoreFacts(r: Recovery, mem0: Memory, slots: seq<Entry>, h: Header, mx: bool, loose: set<nat>)
    requires Bounds(slots, h) && MaxCore(r, mem0, slots, h, mx, loose)
    ensures r.cur.mem.Keys == r.per.mem.Keys == mem0.Keys && r.per.hdr == h && |r.cur.slots| == |r.per.slots| == |slots|
  {
  }

  /** What the crash leaves after the given evictions. */
  lemma AfterEvictions(r: Recovery, n: nat, keep: set<nat>, h: Header)
    requires Fits(r) && n <= |r.cur.slots| && r.per.hdr == h
    ensures var p := Mixed(r.cur.slots, r.per.slots, n, keep);
      Bounds(p, h) && Again(Run(r, EvictAllBut(n, keep))) == Recover(r.per.mem, p, h)
  {
    Evicted(r, n, keep);
  }

  lemma CrashAtSeek(r: Recovery, mem0: Memory, slots: seq<Entry>, h: Header, mx: bool, loose: set<nat>, pos: nat,
        y: nat, a: nat, v: Byte)
    returns (steps: seq<RStep>)
    requires Fits(r) && Bounds(slots, h) && IsMaxLap(h, mx) && OneWriter(slots, h) && r.phase == Seek(pos, mx)
    requires Quiet(r, mem0, slots, h, mx, loose, pos, a) && Divides(Lap(slots, h, mx), pos)
    requires y in loose && Threat(slots, h, mx, pos, y, a, v) && a in mem0 && mem0[a] != v
    ensures a in Again(Run(r, steps)) && Again(Run(r, steps))[a] != Recover(mem0, slots, h)[a]
  {
    hide OneWriter, Divides, OnlyBelow, RingOk, MemOk, GroupOk, GroupRestored, BetweenGroups, Again, Recover,
      LowestLeft, DecidedBelow, Leaves, Tight, Mixed;
    CoreFacts(r, mem0, slots, h, mx, loose);
    var p := Mixed(r.cur.slots, r.per.slots, |slots|, {y});
    PosInLap(slots, h, mx, pos);
    LeftAtSeek(r.cur.slots, r.per.slots, slots, h, mx, loose, pos, y);
    if slots[y].Fin() {
      ThreatBelow(slots, h, mx, pos, y, a, v);
    }
    ThreatLoses(mem0, r.per.mem, slots, p, h, mx, pos, y, a, v);
    steps := EvictAllBut(|slots|, {y});
    AfterEvictions(r, |slots|, {y}, h);
  }

  lemma PosInLap(slots: seq<Entry>, h: Header, mx: bool, pos: nat)
    requires Bounds(slots, h) && PhaseFits(|slots|, h, Seek(pos, mx))
    ensures Lap(slots, h, mx).lo <= pos <= Lap(slots, h, mx).hi
  {
  }

  /** The step that takes the group below pos in hand. */
  lemma TakesGroup(r: Recovery, mem0: Memory, slots: seq<Entry>, h: Header, mx: bool, loose: set<nat>, pos: nat, a: nat)
    requires Fits(r) && Bounds(slots, h) && IsMaxLap(h, mx) && MaxCore(r, mem0, slots, h, mx, loose)
    requires Stands(|slots|, mx, r.phase, pos) && Floor(h, mx) < pos <= |slots| && slots[pos - 1].gen == MAX_GEN_ID
    ensures var k := WalkBack(slots, Floor(h, mx), pos - 1, MAX_GEN_ID);
      Fits(Advance(r)) && forall y: nat :: k <= y ==> InHand(mx, Advance(r).phase, k, pos, y)
  {
    hide RingOk, MemOk, GroupOk, GroupRestored, BetweenGroups, WalkBack, RollsBack, Advance;
    AdvanceFits(r);
    if r.phase == Seek(pos, mx) {
      SeekGroup(r, mem0, slots, h, mx, loose);
    } else {
      Across(r, mem0, slots, h, mx, loose);
      SeekGroup(r.(phase := Seek(|slots|, true)), mem0, slots, h, mx, loose);
    }
  }

  lemma CrashWhileWiped(r: Recovery, mem0: Memory, slots: seq<Entry>, h: Header, mx: bool, loose: set<nat>, lo: nat,
        hi: nat, y: nat, a: nat, v: Byte)
    returns (steps: seq<RStep>)
    requires Fits(r) && Bounds(slots, h) && IsMaxLap(h, mx) && OneWriter(slots, h)
    requires r.phase.Wiping? && r.phase.lo == lo && r.phase.at == y && r.phase.hi == hi && r.phase.second == mx
    requires GroupAt(slots, h, mx, lo, hi) && lo < y && y in Leftover(slots, lo, hi, MAX_GEN_ID)
    requires Quiet(r, mem0, slots, h, mx, loose, lo, a) && Divides(Lap(slots, h, mx), lo)
    requires Threat(slots, h, mx, lo, y, a, v) && a in mem0 && mem0[a] != v
    ensures a in Again(Run(r, steps)) && Again(Run(r, steps))[a] != Recover(mem0, slots, h)[a]
  {
    hide OneWriter, Divides, OnlyBelow, RingOk, MemOk, GroupOk, GroupRestored, BetweenGroups, Again, Recover,
      LowestLeft, DecidedBelow, Leaves, Tight, Mixed, WipedFrom, Leftover, GroupAt;
    CoreFacts(r, mem0, slots, h, mx, loose);
    CacheInGroup(r.cur.slots, r.per.slots, slots, h, mx, r.phase, loose);
    LeftInGroup(slots, r.cur.slots, h, mx, lo, hi, y);
    if slots[y].Fin() {
      ThreatBelow(slots, h, mx, lo, y, a, v);
    }
    ThreatLoses(mem0, r.per.mem, slots, r.cur.slots, h, mx, lo, y, a, v);
    steps := EvictAllBut(|slots|, {});
    AfterEvictions(r, |slots|, {}, h);
  }

  /** What is left of a group, with no start, never sits at its bottom. */
  lemma AboveBottom(slots: seq<Entry>, h: Header, mx: bool, lo: nat, hi: nat, y: nat, a: nat, v: Byte)
    requires Bounds(slots, h) && GroupAt(slots, h, mx, lo, hi) && y in Leftover(slots, lo, hi, MAX_GEN_ID)
    requires Threat(slots, h, mx, lo, y, a, v)
    ensures lo < y < hi
  {
    hide Leaves, DecidedBelow, GroupAt;
    GroupShape(slots, h, mx, lo, hi);
    var b :| NextOpen(Lap(slots, h, mx), lo, b);
    GroupBounds(slots, h, mx, lo, hi);
  }

  lemma QuietLower(r: Recovery, mem0: Memory, slots: seq<Entry>, h: Header, mx: bool, loose: set<nat>, pos: nat,
        k: nat, a: nat)
    requires Bounds(slots, h) && Quiet(r, mem0, slots, h, mx, loose, pos, a) && k <= pos
    ensures Quiet(r, mem0, slots, h, mx, loose, k, a)
  {
    hide MaxCore, Tight, Restored, Unwritten;
    assert OnlyBelow(slots, h, mx, k, a) ==> OnlyBelow(slots, h, mx, pos, a);
  }

  lemma CrashInHand(r: Recovery, mem0: Memory, slots: seq<Entry>, h: Header, mx: bool, loose: set<nat>, pos: nat,
        y: nat, a: nat, v: Byte)
    returns (steps: seq<RStep>)
    requires Fits(r) && Bounds(slots, h) && IsMaxLap(h, mx) && OneWriter(slots, h) && Stands(|slots|, mx, r.phase, pos)
    requires Floor(h, mx) < pos <= Lap(slots, h, mx).hi && slots[pos - 1].gen == MAX_GEN_ID
    requires Quiet(r, mem0, slots, h, mx, loose, pos, a)
    requires Divides(Lap(slots, h, mx), pos)
    requires var k := WalkBack(slots, Floor(h, mx), pos - 1, MAX_GEN_ID);
      y in Leftover(slots, k, pos, MAX_GEN_ID) && Threat(slots, h, mx, k, y, a, v)
    requires a in mem0 && mem0[a] != v
    ensures a in Again(Run(r, steps)) && Again(Run(r, steps))[a] != Recover(mem0, slots, h)[a]
  {
    hide OneWriter, Divides, Again, Recover, Leftover, Threat, MaxCore, Tight, Unwritten, OnlyBelow, WalkBack, Advance,
      InHand, Quiet;
    var k := WalkBack(slots, Floor(h, mx), pos - 1, MAX_GEN_ID);
    assert GroupAt(slots, h, mx, k, pos);
    GroupDivides(Lap(slots, h, mx), pos);
    AboveBottom(slots, h, mx, k, pos, y, a, v);
    QuietIsCore(r, mem0, slots, h, mx, loose, pos, a);
    TakesGroup(r, mem0, slots, h, mx, loose, pos, a);
    StandsAbove(r, slots, mx, pos);
    StaysQuiet(r, mem0, slots, h, mx, loose, pos, a);
    var r1 := Advance(r);
    QuietLower(r1, mem0, slots, h, mx, LooseAfter(slots, r.phase, loose), pos, k, a);
    var s1, loose1 := WipeTo(r1, mem0, slots, h, mx, LooseAfter(slots, r.phase, loose), k, pos, y, a);
    var s2 := CrashWhileWiped(Run(r1, s1), mem0, slots, h, mx, loose1, k, pos, y, a, v);
    RunMore(r1, s1, s2);
    GoFirst(r, s1 + s2);
    steps := [Go] + (s1 + s2);
  }

  lemma QuietIsCore(r: Recovery, mem0: Memory, slots: seq<Entry>, h: Header, mx: bool, loose: set<nat>, pos: nat,
        a: nat)
    requires Bounds(slots, h) && Quiet(r, mem0, slots, h, mx, loose, pos, a)
    ensures MaxCore(r, mem0, slots, h, mx, loose)
  {
  }

  lemma StandsAbove(r: Recovery, slots: seq<Entry>, mx: bool, pos: nat)
    requires Stands(|slots|, mx, r.phase, pos)
    ensures r.phase.Seek?
  {
  }

  /** After these steps of recovery and a crash, recovery leaves byte a other than it would have. */
  ghost predicate LosesBy(mem: Memory, slots: seq<Entry>, h: Header, a: nat, steps: seq<RStep>)
    requires Bounds(slots, h)
  {
    var m := Again(Run(Begin(mem, slots, h), steps));
    a in mem && a in m && m[a] != Recover(mem, slots, h)[a]
  }

  ghost predicate Loses(mem: Memory, slots: seq<Entry>, h: Header, a: nat)
    requires Bounds(slots, h)
  {
    exists steps :: LosesBy(mem, slots, h, a, steps)
  }

  /** Recovery begins above the lap, with nothing left over. */
  lemma BeginsQuiet(mem: Memory, slots: seq<Entry>, h: Header, mx: bool, pos: nat, loose': set<nat>, a: nat)
    requires Bounds(slots, h) && IsMaxLap(h, mx) && Floor(h, mx) <= Lap(slots, h, mx).hi
    requires Descends(slots, h, mx, Lap(slots, h, mx).hi, {}, pos, loose')
    ensures Quiet(Begin(mem, slots, h), mem, slots, h, mx, {}, pos, a)
    ensures Coming(slots, h, mx, Begin(mem, slots, h).phase, {}, pos, loose')
  {
    hide MaxCore, OnlyBelow, Descends;
    MaxBegins(mem, slots, h, mx);
  }

  lemma RunOn(mem: Memory, slots: seq<Entry>, h: Header, a: nat, s1: seq<RStep>, s2: seq<RStep>)
    requires Bounds(slots, h) && a in mem && a in Again(Run(Run(Begin(mem, slots, h), s1), s2))
    requires Again(Run(Run(Begin(mem, slots, h), s1), s2))[a] != Recover(mem, slots, h)[a]
    ensures Loses(mem, slots, h, a)
  {
    hide Again, Recover;
    RunMore(Begin(mem, slots, h), s1, s2);
    assert LosesBy(mem, slots, h, a, s1 + s2);
  }

  lemma LosesAtSeek(mem: Memory, slots: seq<Entry>, h: Header, mx: bool, pos: nat, loose: set<nat>, y: nat, a: nat,
        v: Byte)
    requires Bounds(slots, h) && IsMaxLap(h, mx) && OneWriter(slots, h) && Floor(h, mx) <= Lap(slots, h, mx).hi
    requires Descends(slots, h, mx, Lap(slots, h, mx).hi, {}, pos, loose) && pos < Lap(slots, h, mx).hi
    requires Divides(Lap(slots, h, mx), pos)
    requires y in loose && Threat(slots, h, mx, pos, y, a, v) && a in mem && mem[a] != v
    ensures Loses(mem, slots, h, a)
  {
    hide OneWriter, Divides, Again, Recover, Threat, Loses, MaxCore, Tight, Unwritten, OnlyBelow, Descends, Quiet,
      Coming;
    BeginsQuiet(mem, slots, h, mx, pos, loose, a);
    var s1 := ScanTo(Begin(mem, slots, h), mem, slots, h, mx, {}, pos, loose, a);
    var s2 := CrashAtSeek(Run(Begin(mem, slots, h), s1), mem, slots, h, mx, loose, pos, y, a, v);
    RunOn(mem, slots, h, a, s1, s2);
  }

  lemma LosesInGroup(mem: Memory, slots: seq<Entry>, h: Header, mx: bool, pos: nat, loose: set<nat>, y: nat, a: nat,
        v: Byte)
    requires Bounds(slots, h) && IsMaxLap(h, mx) && OneWriter(slots, h) && Floor(h, mx) <= Lap(slots, h, mx).hi
    requires Descends(slots, h, mx, Lap(slots, h, mx).hi, {}, pos, loose) && Floor(h, mx) < pos <= Lap(slots, h, mx).hi
    requires slots[pos - 1].gen == MAX_GEN_ID && Divides(Lap(slots, h, mx), pos)
    requires var k := WalkBack(slots, Floor(h, mx), pos - 1, MAX_GEN_ID);
      y in Leftover(slots, k, pos, MAX_GEN_ID) && Threat(slots, h, mx, k, y, a, v)
    requires a in mem && mem[a] != v
    ensures Loses(mem, slots, h, a)
  {
    hide OneWriter, Divides, Again, Recover, Threat, Loses, MaxCore, Tight, Unwritten, OnlyBelow, Descends, Quiet,
      Coming, Leftover, WalkBack;
    BeginsQuiet(mem, slots, h, mx, pos, loose, a);
    var s1 := ScanTo(Begin(mem, slots, h), mem, slots, h, mx, {}, pos, loose, a);
    var s2 := CrashInHand(Run(Begin(mem, slots, h), s1), mem, slots, h, mx, loose, pos, y, a, v);
    RunOn(mem, slots, h, a, s1, s2);
  }

  /** If a group can be spoiled, some byte is lost, whatever the rest of memory holds and whatever value but one
      the byte itself has. */
  lemma ScanLoses(slots: seq<Entry>, h: Header) returns (a: nat, v: Byte)
    requires Bounds(slots, h) && OneWriter(slots, h) && ScanRisk(slots, h)
    ensures forall mem: Memory :: a in mem && mem[a] != v ==> Loses(mem, slots, h, a)
  {
    hide OneWriter, Divides, Recover, Threat, Loses, Descends, Leftover, WalkBack, NextSpoiled, Risky;
    var mx :| IsMaxLap(h, mx) && Risky(slots, h, mx, Lap(slots, h, mx).hi, {});
    var s := Lap(slots, h, mx);
    var pos, loose := RiskIsReached(slots, h, mx, s.hi, {});
    TopDivides(s);
    DescendsDown(slots, h, mx, s.hi, {}, pos, loose);
    DescendsDivides(slots, h, mx, s.hi, {}, pos, loose);
    var k := WalkBack(slots, Floor(h, mx), pos - 1, MAX_GEN_ID);
    var y: nat;
    if NextSpoiled(slots, h, mx, pos, loose) {
      SomethingLeft(slots, h, mx, pos, loose);
      y, a, v := ThreatFrom(slots, h, mx, pos, loose);
      forall mem: Memory | a in mem && mem[a] != v ensures Loses(mem, slots, h, a) {
        LosesAtSeek(mem, slots, h, mx, pos, loose, y, a, v);
      }
    } else {
      GroupDivides(s, pos);
      y, a, v := ThreatFrom(slots, h, mx, k, Leftover(slots, k, pos, MAX_GEN_ID));
      forall mem: Memory | a in mem && mem[a] != v ensures Loses(mem, slots, h, a) {
        LosesInGroup(mem, slots, h, mx, pos, loose, y, a, v);
      }
    }
  }

  lemma SomethingLeft(slots: seq<Entry>, h: Header, mx: bool, pos: nat, loose: set<nat>)
    requires Bounds(slots, h) && NextSpoiled(slots, h, mx, pos, loose)
    ensures loose != {}
  {
  }
}
