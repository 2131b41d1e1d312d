/** Any number of interrupted recoveries of a log with a MAX_GEN_ID lap: what each of them leaves, and why the
    last one still ends with the memory that the first would have reached. */
module RecoverySteady {
  import opened JournalRing
  import opened RecoveryExact
  import opened RecoveryGroups
  import opened RecoveryHazard
  import opened RecoveryMaxLap
  import opened RecoveryMaxRun
  import opened RecoveryRestart
  import opened RecoverySequences
  import opened RecoverySteps
  import opened UndoRecovery

  // ---- Where a crash has come to ------------------------------------------------------------------------------

  /** A crash while a group is wiped: what is left from there on shows no plain start. */
  lemma NoPlainStart(cur: seq<Entry>, per: seq<Entry>, slots: seq<Entry>, h: Header, mx: bool, p: Phase,
        loose: set<nat>, y: nat)
    requires Bounds(slots, h) && IsMaxLap(h, mx) && p.Wiping? && Bounds(per, h)
    requires RingOk(cur, per, slots, h, mx, p, loose) && GroupOk(slots, h, mx, p, loose)
    requires p.lo <= y && Lap(per, h, mx).ValidStart(y)
    requires (y < p.hi ==> per[p.lo] != slots[p.lo] || !PlainStart(slots[p.lo]))
    ensures slots[y].Fin()
  {
    hide Divides, Restored, Unfenced, RingOk, RollsBack;
    WipingFacts(cur, per, slots, h, mx, p, loose);
    GroupShape(slots, h, mx, p.lo, p.hi);
    LeftIn(per, slots, h, mx, p.lo);
    assert Lap(slots, h, mx).ValidStart(y) && per[y] == slots[y];
    if !(p.at <= y < p.hi) {
      UnfencedIs(slots, p.lo, FencedTo(p), p.hi, loose, y);
    }
  }

  lemma ShapeFrom(per: seq<Entry>, slots: seq<Entry>, h: Header, mx: bool, pos: nat)
    requires Bounds(slots, h) && IsMaxLap(h, mx) && PersistentFrom(per, slots, h, mx, pos)
    requires Lap(slots, h, mx).lo <= pos <= Lap(slots, h, mx).hi && Divides(Lap(slots, h, mx), pos) && Bounds(per, h)
    requires forall y: nat :: pos <= y && Lap(per, h, mx).ValidStart(y) ==> slots[y].Fin()
    ensures PartlyWiped(slots, per, h, mx, pos)
  {
    hide Divides;
    PersistentOther(per, slots, h, mx, pos);
    forall y | pos <= y && Lap(per, h, mx).ValidStart(y) ensures 0 <= y < |slots| && slots[y].Fin() {
      var i: nat := y;
    }
  }

  lemma CrashedWiping(cur: seq<Entry>, per: seq<Entry>, slots: seq<Entry>, h: Header, mx: bool, p: Phase,
        loose: set<nat>)
    returns (pos: nat)
    requires Bounds(slots, h) && IsMaxLap(h, mx) && p.Wiping?
    requires RingOk(cur, per, slots, h, mx, p, loose) && GroupOk(slots, h, mx, p, loose)
    ensures PartlyWiped(slots, per, h, mx, pos) && SettledFrom(slots, h, mx, p) <= pos
  {
    hide Divides, Restored, PartlyWiped, Unfenced, RingOk, RollsBack;
    var s := Lap(slots, h, mx);
    WipingFacts(cur, per, slots, h, mx, p, loose);
    GroupShape(slots, h, mx, p.lo, p.hi);
    LeftIn(per, slots, h, mx, p.lo);
    if i: nat :| p.lo <= i < p.hi && per[i] != slots[i] {
      pos := p.lo;
      GroupDivides(s, p.hi);
      if s.ValidStart(p.lo) && PlainStart(slots[p.lo]) {
        StartIsFirst(cur, per, slots, h, mx, p, loose, i);
      }
    } else {
      pos := p.hi;
    }
    forall y: nat | pos <= y && Lap(per, h, mx).ValidStart(y) ensures slots[y].Fin() {
      assert Lap(slots, h, mx).ValidStart(y);
      if y < p.hi && PlainStart(slots[p.lo]) && per[p.lo] == slots[p.lo] {
        assert !s.ValidStart(p.lo);
        StartsAreEnded(cur, per, slots, h, mx, p, loose);
      } else {
        NoPlainStart(cur, per, slots, h, mx, p, loose, y);
      }
    }
    ShapeFrom(per, slots, h, mx, pos);
  }

  lemma CrashedSeeking(cur: seq<Entry>, per: seq<Entry>, slots: seq<Entry>, h: Header, mx: bool, p: Phase,
        loose: set<nat>)
    requires Bounds(slots, h) && IsMaxLap(h, mx)
    requires (p.Seek? || p.Undoing? || (p.Sweep? && (h.head <= h.tail || h.gen != MAX_GEN_ID)))
    requires RingOk(cur, per, slots, h, mx, p, loose) && GroupOk(slots, h, mx, p, loose)
    requires BetweenGroups(slots, h, p) && PhaseFits(|slots|, h, p)
    ensures PartlyWiped(slots, per, h, mx, Front(slots, h, mx, p))
    ensures SettledFrom(slots, h, mx, p) == Front(slots, h, mx, p)
  {
    hide Risky, Restored, PartlyWiped, Unfenced, RollsBack;
    FrontDivides(slots, h, mx, p, loose);
    var pos := Front(slots, h, mx, p);
    LeftIn(per, slots, h, mx, pos);
    forall y: nat | pos <= y && Lap(per, h, mx).ValidStart(y) ensures slots[y].Fin() {
      assert Lap(slots, h, mx).ValidStart(y) && per[y] == slots[y];
    }
    ShapeFrom(per, slots, h, mx, pos);
  }

  /** The position from which the lap may be wiped in the image that a crash leaves. */
  lemma CrashShape(r: Recovery, mem: Memory, slots: seq<Entry>, h: Header, mx: bool, loose: set<nat>) returns (pos: nat)
    requires Fits(r) && Bounds(slots, h) && IsMaxLap(h, mx) && MaxCore(r, mem, slots, h, mx, loose)
    requires r.phase.Sweep? ==> h.head <= h.tail || h.gen != MAX_GEN_ID
    ensures PartlyWiped(slots, r.per.slots, h, mx, pos) && r.per.hdr == h
    ensures Settled(r.per.mem, Recover(mem, slots, h), slots, h, mx, pos)
  {
    hide RingOk, GroupOk, Recover, MaxCore, GroupRestored, BetweenGroups, Settled, PartlyWiped;
    CoreImage(r, mem, slots, h, mx, loose);
    if r.phase.Wiping? {
      pos := CrashedWiping(r.cur.slots, r.per.slots, slots, h, mx, r.phase, loose);
    } else {
      IsScan(r, mem, slots, h, mx, loose);
      pos := Front(slots, h, mx, r.phase);
      CrashedSeeking(r.cur.slots, r.per.slots, slots, h, mx, r.phase, loose);
    }
    SettledLater(r.per.mem, Recover(mem, slots, h), slots, h, mx, SettledFrom(slots, h, mx, r.phase), pos);
  }

  lemma IsScan(r: Recovery, mem: Memory, slots: seq<Entry>, h: Header, mx: bool, loose: set<nat>)
    requires Bounds(slots, h) && MaxCore(r, mem, slots, h, mx, loose)
    ensures r.phase.Seek? || r.phase.Undoing? || r.phase.Wiping? || r.phase.Sweep?
  {
  }

  // ---- Nothing above an open group does harm -------------------------------------------------------------------

  /** Entry e is no end entry and saved the values of t. */
  predicate Right(t: Memory, e: Entry) {
    !e.Fin() && forall a: nat :: e.Covers(a) && a in t ==> Saved(e, a) == t[a]
  }

  /** Entry y lies above the open group that starts at b and does not belong to it. */
  ghost predicate IsAbove(slots: seq<Entry>, h: Header, mx: bool, b: int, y: int)
    requires Bounds(slots, h)
  {
    var s := Lap(slots, h, mx);
    && Restored(slots, h, mx, b) && s.ValidStart(b)
    && b < y && s.Valid(y) && !slots[y].isStart && !StartOf(s, y, b)
  }

  ghost predicate RightAbove(t: Memory, slots: seq<Entry>, h: Header, mx: bool)
    requires Bounds(slots, h)
  {
    forall b, y :: IsAbove(slots, h, mx, b, y) ==> Right(t, slots[y])
  }

  /** No end entry lies above an open group of the lap, and no data entry that is not of the group and saved
      another value than recovery leaves. */
  ghost predicate ClearAbove(slots: seq<Entry>, h: Header, mx: bool)
    requires Bounds(slots, h)
  {
    forall b, y :: IsAbove(slots, h, mx, b, y) ==>
      !slots[y].Fin() && forall a: nat :: slots[y].Covers(a) ==> Leaves(slots, h, a, Saved(slots[y], a))
  }

  lemma ClearIsRight(mem: Memory, slots: seq<Entry>, h: Header, mx: bool)
    requires Bounds(slots, h) && ClearAbove(slots, h, mx)
    ensures RightAbove(Recover(mem, slots, h), slots, h, mx)
  {
    hide Leaves, Recover, IsAbove;
    var t := Recover(mem, slots, h);
    forall b, y | IsAbove(slots, h, mx, b, y) ensures 0 <= y < |slots| && Right(t, slots[y]) {
      AboveBounds(slots, h, mx, b, y);
      forall a: nat | slots[y].Covers(a) && a in t ensures Saved(slots[y], a) == t[a] {
        assert a in mem.Keys;
        LeavesValue(mem, slots, h, a, Saved(slots[y], a));
      }
    }
  }

  lemma AboveBounds(slots: seq<Entry>, h: Header, mx: bool, b: int, y: int)
    requires Bounds(slots, h) && IsAbove(slots, h, mx, b, y)
    ensures 0 <= b < y < |slots|
  {
  }

  /** What is left above is harmless, and what is open below stays open. */
  lemma RightIsHarmless(t: Memory, slots: seq<Entry>, p: seq<Entry>, h: Header, mx: bool, pos: nat)
    requires Bounds(slots, h) && IsMaxLap(h, mx) && PartlyWiped(slots, p, h, mx, pos) && RightAbove(t, slots, h, mx)
    ensures |p| == |slots| && HarmlessFor(t, slots, p, h, mx, pos)
  {
    hide PartlyWiped, RightAbove, DecidedBelow, Restored;
    WipedFields(slots, p, h, mx, pos);
    forall y, a: nat | pos <= y && Restored(p, h, mx, y) && y < |slots| && slots[y].Covers(a) && a in t
      ensures DecidedBelow(slots, h, mx, pos, a) || Saved(slots[y], a) == t[a]
    {
      JoinsRight(t, slots, p, h, mx, pos, y);
    }
    forall i | i < pos && Restored(slots, h, mx, i) ensures 0 <= i < |slots| && Restored(p, h, mx, i) {
      RestoredBounds(slots, h, mx, i);
      StaysOpen(t, slots, p, h, mx, pos, i);
    }
  }

  lemma JoinsRight(t: Memory, slots: seq<Entry>, p: seq<Entry>, h: Header, mx: bool, pos: nat, y: nat)
    requires Bounds(slots, h) && IsMaxLap(h, mx) && PartlyWiped(slots, p, h, mx, pos) && RightAbove(t, slots, h, mx)
    requires Bounds(p, h) && pos <= y && Restored(p, h, mx, y)
    ensures y < |slots| && Right(t, slots[y])
  {
    hide PartlyWiped, Divides, Right, Undoes, StartOf;
    CutHere(slots, p, h, mx, pos);
    var b := JoinsOpen(slots, p, h, mx, pos, y);
    OpenIsRestored(slots, h, mx, pos, b, b);
    EndsBelow(Lap(slots, h, mx), pos, y, b);
    assert IsAbove(slots, h, mx, b, y);
  }

  lemma StaysOpen(t: Memory, slots: seq<Entry>, p: seq<Entry>, h: Header, mx: bool, pos: nat, i: nat)
    requires Bounds(slots, h) && IsMaxLap(h, mx) && PartlyWiped(slots, p, h, mx, pos) && RightAbove(t, slots, h, mx)
    requires Bounds(p, h) && i < pos && Restored(slots, h, mx, i)
    ensures Restored(p, h, mx, i)
  {
    hide PartlyWiped;
    BelowSame(slots, p, h, mx, pos);
    var s, s' := Lap(slots, h, mx), Lap(p, h, mx);
    var b :| StartOf(s, i, b);
    assert StartOf(s', i, b);
    assert forall f :: f < pos ==> (FinAt(s, i, f) <==> FinAt(s', i, f));
    forall f ensures !FinAt(s', i, f) {
      if f >= pos && FinAt(s', i, f) {
        FinIsAbove(slots, p, h, mx, pos, i, b, f);
      }
    }
  }

  lemma FinIsAbove(slots: seq<Entry>, p: seq<Entry>, h: Header, mx: bool, pos: nat, i: nat, b: int, f: nat)
    requires Bounds(slots, h) && IsMaxLap(h, mx) && PartlyWiped(slots, p, h, mx, pos) && Bounds(p, h)
    requires i < pos <= f && Restored(slots, h, mx, i) && StartOf(Lap(slots, h, mx), i, b) && FinAt(Lap(p, h, mx), i, f)
    ensures IsAbove(slots, h, mx, b, f) && f < |slots| && slots[f].Fin()
  {
    hide PartlyWiped;
    BelowSame(slots, p, h, mx, pos);
    CutHere(slots, p, h, mx, pos);
    StartUndone(Lap(slots, h, mx), i, b);
    EndsBelow(Lap(slots, h, mx), pos, f, b);
    assert !Lap(p, h, mx).ValidStart(f);
  }

  lemma RightStays(t: Memory, slots: seq<Entry>, p: seq<Entry>, h: Header, mx: bool, pos: nat)
    requires Bounds(slots, h) && IsMaxLap(h, mx) && PartlyWiped(slots, p, h, mx, pos) && RightAbove(t, slots, h, mx)
    ensures Bounds(p, h) && RightAbove(t, p, h, mx)
  {
    hide PartlyWiped, Right;
    BelowSame(slots, p, h, mx, pos);
    NoStartLeft(slots, p, h, mx, pos);
    var s, s' := Lap(slots, h, mx), Lap(p, h, mx);
    forall b, y | IsAbove(p, h, mx, b, y) ensures Right(t, p[y]) {
      assert StartOf(s', b, b) && FinAt(s', b, b) == s'.ValidFin(b);
      assert b < pos;
      NothingNewBelow(slots, p, h, mx, pos, b);
      assert StartOf(s, y, b) ==> StartOf(s', y, b);
      assert IsAbove(slots, h, mx, b, y);
    }
  }

  // ---- While the lap is scanned --------------------------------------------------------------------------------

  /** Of the older lap nothing is written back, and nothing would be, if only part of it were left. */
  ghost predicate OlderHarmless(t: Memory, slots: seq<Entry>, h: Header)
    requires Bounds(slots, h)
  {
    (forall i :: Restored(slots, h, true, i) ==> slots[i].data == []) && RightOlder(t, slots, h)
  }

  /** Data entry i of the older lap has a plain start below it or is one. */
  predicate OverStart(slots: seq<Entry>, h: Header, b: int, i: int)
    requires Bounds(slots, h)
  {
    var s := Lap(slots, h, true);
    b <= i && s.ValidStart(b) && !slots[b].Fin() && s.Valid(i) && !slots[i].Fin()
  }

  ghost predicate RightOlder(t: Memory, slots: seq<Entry>, h: Header)
    requires Bounds(slots, h)
  {
    forall b, i :: OverStart(slots, h, b, i) ==> Right(t, slots[i])
  }

  /** The image of a recovery that was interrupted during the scan. */
  ghost predicate Steady(img: Image, t: Memory, h: Header, mx: bool) {
    && img.hdr == h && Bounds(img.slots, h) && NothingLater(img.slots, h)
    && Recovered(img) == t && OtherRight(t, img.slots, h, mx) && RightAbove(t, img.slots, h, mx)
    && (h.gen == MAX_GEN_ID && h.tail < h.head ==> OlderHarmless(t, img.slots, h))
  }

  lemma OtherRightStays(t: Memory, slots: seq<Entry>, p: seq<Entry>, h: Header, mx: bool, pos: nat)
    requires Bounds(slots, h) && PartlyWiped(slots, p, h, mx, pos) && OtherRight(t, slots, h, mx)
    ensures Bounds(p, h) && OtherRight(t, p, h, mx)
  {
    hide PartlyWiped, Restored;
    WipedFields(slots, p, h, mx, pos);
    var other := !mx;
    OtherSame(slots, p, h, mx, other, pos);
    forall i, a: nat | LastOn(p, h, other, i, a) && 0 <= i < |p| && p[i].Covers(a) && a in t
      ensures Saved(p[i], a) == t[a]
    {
      forall j | Restored(slots, h, other, j) ensures 0 <= j < |slots| {
        RestoredBounds(slots, h, other, j);
      }
      assert LastOn(slots, h, other, i, a);
    }
  }

  lemma OlderStays(t: Memory, slots: seq<Entry>, p: seq<Entry>, h: Header, pos: nat)
    requires Bounds(slots, h) && PartlyWiped(slots, p, h, false, pos) && OlderHarmless(t, slots, h)
    ensures Bounds(p, h) && OlderHarmless(t, p, h)
  {
    hide Restored, Right;
    OtherSame(slots, p, h, false, true, pos);
    forall b, i | OverStart(p, h, b, i) ensures Right(t, p[i]) {
      assert OverStart(slots, h, b, i);
    }
    forall i | Restored(p, h, true, i) ensures 0 <= i < |p| && p[i].data == [] {
      RestoredBounds(slots, h, true, i);
    }
  }

  lemma WipedInPart(slots: seq<Entry>, p: seq<Entry>, h: Header, mx: bool, pos: nat)
    requires Bounds(slots, h) && PartlyWiped(slots, p, h, mx, pos)
    ensures SomeWiped(slots, p)
  {
  }

  /** Another crash during the scan. */
  lemma SteadyFrom(img: Image, t: Memory, h: Header, mx: bool, mem: Memory, p: seq<Entry>, pos: nat)
    requires Steady(img, t, h, mx) && IsMaxLap(h, mx)
    requires PartlyWiped(img.slots, p, h, mx, pos) && Settled(mem, t, img.slots, h, mx, pos)
    ensures Steady(Image(mem, p, h), t, h, mx)
  {
    hide PartlyWiped, Settled, OtherRight, RightAbove, OlderHarmless, HarmlessFor, NothingLater, Recover;
    RightIsHarmless(t, img.slots, p, h, mx, pos);
    RightStays(t, img.slots, p, h, mx, pos);
    OtherRightStays(t, img.slots, p, h, mx, pos);
    WipedInPart(img.slots, p, h, mx, pos);
    WipedLater(img.slots, p, h);
    SettledKeys(mem, t, img.slots, h, mx, pos);
    if h.gen == MAX_GEN_ID && h.tail < h.head {
      NotSecond(h, mx);
      OlderStays(t, img.slots, p, h, pos);
    }
    forall a | a in mem ensures Recover(mem, p, h)[a] == t[a] {
      assert a in img.mem.Keys;
      CrashByte(img.mem, mem, img.slots, p, h, mx, pos, a);
    }
  }

  // ---- While the slots behind the tail are wiped -----------------------------------------------------------------

  /** The image of a recovery at generation MAX_GEN_ID that was interrupted behind the scan. */
  ghost predicate Swept(img: Image, t: Memory, h: Header) {
    && img.hdr == h && Bounds(img.slots, h) && NothingLater(img.slots, h) && img.mem == t
    && h.gen == MAX_GEN_ID && h.tail < h.head
    && (forall y :: Lap(img.slots, h, false).ValidStart(y) ==> img.slots[y].Fin())
    && RightOlder(t, img.slots, h)
  }

  /** Whatever recovery writes is what memory holds. */
  ghost predicate WritesSame(t: Memory, slots: seq<Entry>, h: Header)
    requires Bounds(slots, h)
  {
    forall second: bool, j :: Restored(slots, h, second, j) ==> Right(t, slots[j])
  }

  lemma SweptWrites(img: Image, t: Memory, h: Header)
    requires Swept(img, t, h)
    ensures WritesSame(t, img.slots, h) && Recovered(img) == t
  {
    hide Right, NothingLater, RightOlder, Recover, Undoes;
    var slots := img.slots;
    forall second: bool, j | Restored(slots, h, second, j) ensures 0 <= j < |slots| && Right(t, slots[j]) {
      RestoredBounds(slots, h, second, j);
      PlainBelow(Lap(slots, h, second), j);
      assert second;
      RightRestored(t, slots, h, j);
    }
    forall a | a in t ensures Recover(t, slots, h)[a] == t[a] {
      SameRight(t, slots, h, a);
    }
  }

  lemma PlainBelow(s: Segment, j: int)
    requires Undoes(s, j)
    ensures s.Valid(j) && !s.slots[j].Fin() && exists b :: b <= j && s.ValidStart(b) && !s.slots[b].Fin()
  {
    var b :| StartOf(s, j, b);
    assert FinAt(s, j, j) == s.ValidFin(j);
    assert s.ValidFin(b) ==> b == j;
  }

  lemma RightRestored(t: Memory, slots: seq<Entry>, h: Header, j: nat)
    requires Bounds(slots, h) && RightOlder(t, slots, h) && Restored(slots, h, true, j) && j < |slots|
    ensures Right(t, slots[j])
  {
    hide Right, Undoes;
    PlainBelow(Lap(slots, h, true), j);
    var b :| b <= j && Lap(slots, h, true).ValidStart(b) && !slots[b].Fin();
    assert OverStart(slots, h, b, j);
  }

  lemma SameRight(t: Memory, slots: seq<Entry>, h: Header, a: nat)
    requires Bounds(slots, h) && WritesSame(t, slots, h) && a in t
    ensures Recover(t, slots, h)[a] == t[a]
  {
    hide Restored, Recover;
    forall second: bool, j | Restored(slots, h, second, j)
      ensures 0 <= j < |slots| && (slots[j].Covers(a) ==> Saved(slots[j], a) == t[a])
    {
      RestoredBounds(slots, h, second, j);
      assert Right(t, slots[j]);
    }
    StaysValue(t, slots, h, a);
  }

  lemma UndoSame(t: Memory, e: Entry)
    requires Right(t, e)
    ensures UndoEntry(t, e) == t
  {
    forall a | a in t ensures UndoEntry(t, e)[a] == t[a] {
      if e.Covers(a) {
        assert Saved(e, a) == t[a];
      }
    }
  }

  /** Memory does not change in a run from there. */
  lemma SameMemory(r: Recovery, step: RStep, t: Memory, slots: seq<Entry>, h: Header, mx: bool, loose: set<nat>)
    requires Fits(r) && Bounds(slots, h) && IsMaxLap(h, mx) && MaxCore(r, t, slots, h, mx, loose)
    requires WritesSame(t, slots, h)
    requires r.cur.mem == t == r.per.mem
    ensures Take(r, step).cur.mem == t == Take(r, step).per.mem
  {
    hide RingOk, GroupOk, Restored, BetweenGroups, WalkBack, Completed, Settled, Recover, RollsBack, Right, UndoEntry;
    var p := r.phase;
    match step {
      case Go =>
        RingLengths(r.cur.slots, r.per.slots, slots, h, mx, p, loose);
        if p.Undoing? && p.at > p.lo {
          AheadOk(r.cur.slots, r.per.slots, slots, h, mx, p, loose);
          assert Ahead(h, p.hi, p.second, p.at - 1) && r.cur.slots[p.at - 1] == slots[p.at - 1];
          if slots[p.at - 1].gen == LapGen(h, p.second) {
            UndoSame(t, slots[p.at - 1]);
          }
        } else if p.Seek? {
          SeekFits(r);
        }
      case EvictByte(a) => if a in t { assert t[a := t[a]] == t; }
      case _ =>
    }
  }

  lemma {:induction false} SameMemoryRun(t: Memory, slots: seq<Entry>, h: Header, mx: bool, loose: set<nat>,
        r: Recovery, steps: seq<RStep>)
    returns (loose': set<nat>)
    requires Bounds(slots, h) && IsMaxLap(h, mx) && WritesSame(t, slots, h) && Recover(t, slots, h) == t
    requires Fits(r) && InMaxRun(r, t, slots, h, mx, loose) && r.cur.mem == t == r.per.mem
    ensures InMaxRun(Run(r, steps), t, slots, h, mx, loose') && Run(r, steps).per.mem == t
    decreases |steps|
  {
    hide MaxCore, Closing, Fits, Recover, RecoveredSlots, Take, IsMaxLap, WritesSame;
    loose' := loose;
    if steps != [] {
      TakeFits(r, steps[0]);
      if MaxCore(r, t, slots, h, mx, loose) {
        loose' := CoreStep(t, slots, h, mx, loose, r, steps[0]);
        SameMemory(r, steps[0], t, slots, h, mx, loose);
      } else {
        ClosingStep(r, steps[0], t, RecoveredSlots(slots, h), h);
        ClosingMemory(Take(r, steps[0]), t, RecoveredSlots(slots, h), h);
      }
      loose' := SameMemoryRun(t, slots, h, mx, loose', Take(r, steps[0]), steps[1..]);
    }
  }

  lemma ClosingMemory(r: Recovery, t: Memory, slots: seq<Entry>, h: Header)
    requires Closing(r, t, slots, h)
    ensures r.cur.mem == t == r.per.mem
  {
  }

  lemma SweptStays(img: Image, t: Memory, h: Header, p: seq<Entry>)
    requires Swept(img, t, h) && SomeWiped(img.slots, p)
    ensures Swept(Image(t, p, h), t, h)
  {
    hide NothingLater, Right;
    WipedLater(img.slots, p, h);
    assert LapGen(h, true) != 0 && LapGen(h, false) != 0;
    forall y | Lap(p, h, false).ValidStart(y) ensures p[y].Fin() {
      assert Lap(img.slots, h, false).ValidStart(y);
    }
    forall b, i | OverStart(p, h, b, i) ensures Right(t, p[i]) {
      assert OverStart(img.slots, h, b, i) && p[i] == img.slots[i];
    }
  }

  lemma SweptCrash(img: Image, t: Memory, h: Header, steps: seq<RStep>)
    requires Swept(img, t, h)
    ensures Swept(CrashImage(img, steps), t, h) || Still(CrashImage(img, steps), t)
  {
    hide MaxCore, Closing, Recover, RecoveredSlots, Run, NothingLater, Swept, WritesSame, Still, RingOk, GroupOk;
    SweptFacts(img, t, h);
    SweptWrites(img, t, h);
    MaxBegins(t, img.slots, h, false);
    var loose := SameMemoryRun(t, img.slots, h, false, {}, Begin(t, img.slots, h), steps);
    var r := Run(Begin(t, img.slots, h), steps);
    if MaxCore(r, t, img.slots, h, false, loose) {
      CoreImage(r, t, img.slots, h, false, loose);
      SweptStays(img, t, h, r.per.slots);
    } else {
      ClosingImage(r, t, img.slots, h);
      NextQuiet(img.slots, h);
      SweptStays(img, t, h, RecoveredSlots(img.slots, h));
    }
  }

  lemma SweptFacts(img: Image, t: Memory, h: Header)
    requires Swept(img, t, h)
    ensures img.mem == t && img.hdr == h && Bounds(img.slots, h) && NothingLater(img.slots, h) && IsMaxLap(h, false)
    ensures h.head != h.tail
  {
  }

  /** The scan is over: memory is as recovery leaves it, and what has been wiped of the older lap is not missed. */
  lemma SweptFrom(img: Image, t: Memory, h: Header, r: Recovery, loose: set<nat>)
    requires Fits(r) && Steady(img, t, h, false) && IsMaxLap(h, false) && h.tail < h.head
    requires MaxCore(r, img.mem, img.slots, h, false, loose) && r.phase.Sweep?
    ensures Swept(r.per, t, h)
  {
    hide RingOk, GroupOk, GroupRestored, BetweenGroups, NothingLater, OtherRight, RightAbove, Recover, Restored, Right,
      MaxCore;
    var slots, per := img.slots, r.per.slots;
    CoreImage(r, img.mem, slots, h, false, loose);
    WipedLater(slots, per, h);
    forall a | a in t ensures a in r.per.mem && r.per.mem[a] == t[a] {
      NothingBelowFloor(slots, h, a);
      assert Untouched(slots, h, true, a) by {
        forall j | Restored(slots, h, true, j) ensures 0 <= j < |slots| && !slots[j].Covers(a) {
          RestoredBounds(slots, h, true, j);
        }
      }
      SettledByte(r.per.mem, t, slots, h, false, Lap(slots, h, false).lo, a);
    }
    SettledKeys(r.per.mem, t, slots, h, false, Lap(slots, h, false).lo);
    NewerWithoutStart(r.cur.slots, per, slots, h, r.phase, loose);
    assert LapGen(h, true) != 0;
    forall b, i | OverStart(per, h, b, i) ensures Right(t, per[i]) {
      assert OverStart(slots, h, b, i) && per[i] == slots[i];
    }
  }

  lemma NewerWithoutStart(cur: seq<Entry>, per: seq<Entry>, slots: seq<Entry>, h: Header, p: Phase, loose: set<nat>)
    requires Bounds(slots, h) && IsMaxLap(h, false) && p.Sweep? && RingOk(cur, per, slots, h, false, p, loose)
    ensures Bounds(per, h) && forall y :: Lap(per, h, false).ValidStart(y) ==> per[y].Fin()
  {
    hide LooseNow;
    LooseOutside(slots, p, loose);
    forall y | Lap(per, h, false).ValidStart(y) ensures per[y].Fin() {
      var b: nat := y;
      assert WipedAt(slots, h, false, p, b) && Lap(slots, h, false).Valid(b) && per[b] == slots[b];
      assert b in loose;
    }
  }

  // ---- One crash after another -------------------------------------------------------------------------------------

  /** What any number of interrupted recoveries leaves. */
  ghost predicate Sane(img: Image, t: Memory, h: Header, mx: bool) {
    && Bounds(img.slots, img.hdr)
    && (Steady(img, t, h, mx) || Swept(img, t, h) || Still(img, t))
  }

  lemma SaneRecovers(img: Image, t: Memory, h: Header, mx: bool)
    requires Sane(img, t, h, mx)
    ensures Recovered(img) == t
  {
    hide Still, Swept, NothingLater, OtherRight, RightAbove, OlderHarmless, Recovered;
    if Still(img, t) {
      StillRecovers(img, t);
    } else if Swept(img, t, h) {
      SweptWrites(img, t, h);
    }
  }

  lemma SteadyCrash(img: Image, t: Memory, h: Header, mx: bool, steps: seq<RStep>)
    requires Steady(img, t, h, mx) && IsMaxLap(h, mx)
    ensures Sane(CrashImage(img, steps), t, h, mx)
  {
    hide MaxCore, Closing, Recover, RecoveredSlots, Run, NothingLater, Swept, OtherRight, RightAbove, OlderHarmless,
      Still, PartlyWiped, Settled, Harmless;
    if h.head != h.tail {
      var slots := img.slots;
      MaxBegins(img.mem, slots, h, mx);
      var loose := MaxRun(img.mem, slots, h, mx, {}, Begin(img.mem, slots, h), steps);
      var r := Run(Begin(img.mem, slots, h), steps);
      if MaxCore(r, img.mem, slots, h, mx, loose) {
        if r.phase.Sweep? && h.tail < h.head && h.gen == MAX_GEN_ID {
          NotSecond(h, mx);
          SweptFrom(img, t, h, r, loose);
        } else {
          var pos := CrashShape(r, img.mem, slots, h, mx, loose);
          SteadyFrom(img, t, h, mx, r.per.mem, r.per.slots, pos);
        }
      } else {
        ClosingImage(r, t, slots, h);
        NextQuiet(slots, h);
        if mx {
          OlderWiped(slots, h);
          SettledSame(t, slots, h, true, Lap(slots, h, true).lo);
          SteadyFrom(img, t, h, true, t, RecoveredSlots(slots, h), Lap(slots, h, true).lo);
        } else {
          IsStill(r.per, t, h, slots);
        }
      }
    }
  }

  lemma SettledSame(t: Memory, slots: seq<Entry>, h: Header, mx: bool, pos: nat)
    requires Bounds(slots, h)
    ensures Settled(t, t, slots, h, mx, pos)
  {
  }

  lemma IsStill(img: Image, t: Memory, h: Header, slots: seq<Entry>)
    requires Bounds(slots, h) && NothingLater(slots, h) && IsMaxLap(h, false) && Bounds(img.slots, img.hdr)
    requires Still(img, t) || (img.hdr == h && img.mem == t && img.slots == RecoveredSlots(slots, h))
    ensures Still(img, t)
  {
    NextQuiet(slots, h);
  }

  lemma {:induction false} SaneImages(img: Image, t: Memory, h: Header, mx: bool, runs: seq<seq<RStep>>)
    requires Sane(img, t, h, mx) && IsMaxLap(h, mx)
    ensures Recovered(CrashImages(img, runs)) == t
    decreases |runs|
  {
    hide Still, Swept, Steady, Recovered, CrashImage;
    if runs == [] {
      SaneRecovers(img, t, h, mx);
    } else {
      if Still(img, t) {
        StillCrash(img, t, runs[0]);
      } else if Swept(img, t, h) {
        SweptCrash(img, t, h, runs[0]);
      } else {
        SteadyCrash(img, t, h, mx, runs[0]);
      }
      SaneImages(CrashImage(img, runs[0]), t, h, mx, runs[1..]);
    }
  }

  /** In the last lap before the generation wraps: a rollback of the older lap may be lost with its log, or an
      entry of a finished transaction is undone and then its undo is. */
  ghost predicate SweepHazard(slots: seq<Entry>, h: Header)
    requires Bounds(slots, h)
  {
    && h.gen == MAX_GEN_ID && h.tail < h.head
    && (|| (exists i :: Restored(slots, h, true, i) && slots[i].data != [])
        || (exists b, i, a :: WrongInOlderLap(slots, h, b, i, a)))
  }

  lemma NoHazard(mem: Memory, slots: seq<Entry>, h: Header)
    requires Bounds(slots, h) && !SweepHazard(slots, h) && h.gen == MAX_GEN_ID && h.tail < h.head
    ensures OlderHarmless(Recover(mem, slots, h), slots, h)
  {
    hide Leaves, Restored, Recover;
    var t, s := Recover(mem, slots, h), Lap(slots, h, true);
    forall i | Restored(slots, h, true, i) ensures 0 <= i < |slots| && slots[i].data == [] {
      RestoredBounds(slots, h, true, i);
    }
    forall b, i | OverStart(slots, h, b, i) ensures Right(t, slots[i]) {
      forall a: nat | slots[i].Covers(a) && a in t ensures Saved(slots[i], a) == t[a] {
        assert a in mem.Keys;
        assert !WrongInOlderLap(slots, h, b, i, a);
        LeavesValue(mem, slots, h, a, Saved(slots[i], a));
      }
    }
  }

  /** Whatever lap of MAX_GEN_ID there is, nothing above an open group does harm, and nothing is left behind by the
      last steps. */
  ghost predicate NothingSpoils(slots: seq<Entry>, h: Header)
    requires Bounds(slots, h)
  {
    (forall mx :: IsMaxLap(h, mx) ==> ClearAbove(slots, h, mx)) && !SweepHazard(slots, h)
  }

  /** However many recoveries of such an image crash before one gets through, memory ends as after an undisturbed
      one. */
  lemma ManyCrashesInMaxLap(img: Image, runs: seq<seq<RStep>>)
    requires Bounds(img.slots, img.hdr) && NothingLater(img.slots, img.hdr)
    requires OneWriter(img.slots, img.hdr) && NothingSpoils(img.slots, img.hdr)
    ensures Recovered(CrashImages(img, runs)) == Recovered(img)
  {
    hide NothingLater, OneWriter, ClearAbove, SweepHazard, RightAbove, OtherRight, OlderHarmless, Recover;
    var slots, h := img.slots, img.hdr;
    if HasMaxLap(h) {
      var mx := h.gen != MAX_GEN_ID;
      assert IsMaxLap(h, mx);
      ClearIsRight(img.mem, slots, h, mx);
      OneWriterRight(img.mem, slots, h, mx);
      if h.gen == MAX_GEN_ID && h.tail < h.head {
        NoHazard(img.mem, slots, h);
      }
      SaneImages(img, Recovered(img), h, mx, runs);
    } else {
      ManyCrashes(img, runs);
    }
  }
}
