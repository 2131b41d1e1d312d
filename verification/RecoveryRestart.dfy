/** A crash during recovery, and recovery from what it leaves: outside the laps of MAX_GEN_ID nothing is lost. */
module RecoveryRestart {
  import opened JournalRing
  import opened RecoveryGroups
  import opened RecoverySteps
  import opened UndoRecovery

  /** Some lap of the image is scanned with the last generation before the wrap. */
  predicate HasMaxLap(h: Header) {
    h.gen == MAX_GEN_ID || (h.tail < h.head && PrevGen(h.gen) == MAX_GEN_ID)
  }

  // ---- The last steps ---------------------------------------------------------------------------------------

  /** The header once both of its fields have been stored. */
  function Forwarded(h: Header): Header {
    HalfForwarded(h).(head := h.tail)
  }

  /** The scan's work is durable; only the header remains. */
  ghost predicate Closing(r: Recovery, t: Memory, slots: seq<Entry>, h: Header) {
    && r.cur.mem == t == r.per.mem && r.cur.slots == slots == r.per.slots
    && match r.phase
       case Renumber => r.cur.hdr == h == r.per.hdr
       case Rehead => r.cur.hdr == HalfForwarded(h) && (r.per.hdr == h || r.per.hdr == HalfForwarded(h))
       case Flush =>
         r.cur.hdr == Forwarded(h) && (r.per.hdr == h || r.per.hdr == HalfForwarded(h) || r.per.hdr == Forwarded(h))
       case Finished => r.cur.hdr == Forwarded(h) && r.per.hdr == Forwarded(h)
       case _ => false
  }

  lemma ClosingStep(r: Recovery, step: RStep, t: Memory, slots: seq<Entry>, h: Header)
    requires Fits(r) && Closing(r, t, slots, h)
    ensures Closing(Take(r, step), t, slots, h)
  {
    match step {
      case EvictByte(a) => if a in r.cur.mem { assert r.per.mem[a := r.cur.mem[a]] == r.per.mem; }
      case EvictSlot(i) => if i < |r.cur.slots| { assert r.per.slots[i := r.cur.slots[i]] == r.per.slots; }
      case _ =>
    }
  }

  lemma ClosingAgain(r: Recovery, t: Memory, slots: seq<Entry>, h: Header)
    requires Fits(r) && Bounds(slots, h) && Closing(r, t, RecoveredSlots(slots, h), h) && NothingNext(slots, h)
    requires Recover(t, RecoveredSlots(slots, h), h) == t
    ensures Again(r) == t
  {
    hide NothingNext, RecoveredSlots;
    NothingLeft(t, slots, h);
  }

  // ---- No lap of MAX_GEN_ID ----------------------------------------------------------------------------------

  /** Memory differs from the image's only where recovery writes. */
  ghost predicate DiffersWhereWritten(mem: Memory, mem0: Memory, slots: seq<Entry>, h: Header)
    requires Bounds(slots, h)
  {
    && mem.Keys == mem0.Keys
    && forall a :: a in mem0 && Untouched(slots, h, false, a) && Untouched(slots, h, true, a) ==> mem[a] == mem0[a]
  }

  /** The group that is being undone is one that recovery undoes. */
  ghost predicate GroupRestored(slots: seq<Entry>, h: Header, p: Phase)
    requires Bounds(slots, h)
  {
    p.Undoing? ==>
      && p.hi <= |slots|
      && forall i :: p.lo <= i < p.hi && slots[i].gen == LapGen(h, p.second) ==> Restored(slots, h, p.second, i)
  }

  /** The scan stands between two groups. */
  ghost predicate BetweenGroups(slots: seq<Entry>, h: Header, p: Phase)
    requires Bounds(slots, h)
  {
    match p
    case Seek(tl, second) => Divides(Lap(slots, h, second), tl)
    case Undoing(lo, _, _, second) => Divides(Lap(slots, h, second), lo)
    case Wiping(lo, _, _, second, _) => Divides(Lap(slots, h, second), lo)
    case _ => true
  }

  /** While the scan runs in laps of other generations, the ring stays as it is. */
  ghost predicate Scanning(r: Recovery, mem0: Memory, slots: seq<Entry>, h: Header)
    requires Bounds(slots, h)
  {
    && (r.phase.Seek? || r.phase.Undoing? || r.phase.Sweep?)
    && r.cur.slots == slots == r.per.slots && r.cur.hdr == h == r.per.hdr
    && DiffersWhereWritten(r.cur.mem, mem0, slots, h) && DiffersWhereWritten(r.per.mem, mem0, slots, h)
    && PhaseFits(|slots|, h, r.phase)
    && Completed(r.cur.mem, slots, h, r.phase) == Recover(mem0, slots, h)
    && GroupRestored(slots, h, r.phase) && BetweenGroups(slots, h, r.phase)
  }

  ghost predicate Sound(r: Recovery, mem0: Memory, slots: seq<Entry>, h: Header)
    requires Bounds(slots, h)
  {
    Scanning(r, mem0, slots, h) || Closing(r, Recover(mem0, slots, h), slots, h)
  }

  lemma BeginSound(mem: Memory, slots: seq<Entry>, h: Header)
    requires Bounds(slots, h)
    ensures Scanning(Begin(mem, slots, h), mem, slots, h)
  {
    CompletedFirst(mem, slots, h);
    TopDivides(Lap(slots, h, false));
  }

  lemma ScanningAgain(r: Recovery, mem0: Memory, slots: seq<Entry>, h: Header)
    requires Fits(r) && Bounds(slots, h) && Scanning(r, mem0, slots, h)
    ensures Again(r) == Recover(mem0, slots, h)
  {
    hide Restored, Recover, Completed;
    forall a | a in mem0 ensures Again(r)[a] == Recover(mem0, slots, h)[a] {
      SameByte(r.per.mem, mem0, slots, h, a);
    }
  }

  /** The store of one entry of the group. */
  lemma UndoDiffers(mem: Memory, mem0: Memory, slots: seq<Entry>, h: Header, second: bool, i: nat)
    requires Bounds(slots, h) && DiffersWhereWritten(mem, mem0, slots, h) && i < |slots|
    requires Restored(slots, h, second, i)
    ensures DiffersWhereWritten(UndoEntry(mem, slots[i]), mem0, slots, h)
  {
  }

  lemma SeekScans(r: Recovery, mem0: Memory, slots: seq<Entry>, h: Header)
    requires Fits(r) && Bounds(slots, h) && !HasMaxLap(h) && Scanning(r, mem0, slots, h) && r.phase.Seek?
    ensures Scanning(Advance(r), mem0, slots, h)
  {
    hide Restored, Completed, RollsBack, WalkBack, DiffersWhereWritten, Advance, Divides, Recover;
    var tl, second, n := r.phase.tl, r.phase.second, |slots|;
    SeekFits(r);
    StepCompletes(r, slots, h);
    if tl != h.head {
      var sec := second || tl == 0;
      var hi := if tl == 0 then n else tl;
      var g, lo := LapGen(h, sec), Floor(h, sec);
      CrossDivides(slots, h, tl, second);
      if slots[hi - 1].gen != g {
        StaleDivides(Lap(slots, h, sec), hi);
      } else {
        var k := WalkBack(slots, lo, hi - 1, g);
        GroupDivides(Lap(slots, h, sec), hi);
        if RollsBack(slots, k, hi, g) {
          forall i | k <= i < hi && slots[i].gen == g ensures Restored(slots, h, sec, i) {
            GroupIsRestored(slots, h, sec, hi, i);
          }
        }
      }
    }
  }

  lemma ScanStep(r: Recovery, step: RStep, mem0: Memory, slots: seq<Entry>, h: Header)
    requires Fits(r) && Bounds(slots, h) && !HasMaxLap(h) && Scanning(r, mem0, slots, h)
    ensures Sound(Take(r, step), mem0, slots, h)
  {
    hide Restored, Completed, RollsBack, WalkBack, Divides, Recover, Untouched;
    match step {
      case Go =>
        if r.phase.Seek? {
          SeekScans(r, mem0, slots, h);
        } else if r.phase.Undoing? {
          StepCompletes(r, slots, h);
          if r.phase.at > r.phase.lo && slots[r.phase.at - 1].gen == LapGen(h, r.phase.second) {
            UndoDiffers(r.cur.mem, mem0, slots, h, r.phase.second, r.phase.at - 1);
          }
        } else {
          SweepIsDone(r.cur.mem, slots, h, r.phase);
        }
      case EvictSlot(i) =>
        if i < |slots| {
          assert r.per.slots[i := r.cur.slots[i]] == r.per.slots;
        }
      case _ =>
    }
  }

  lemma SweepIsDone(mem: Memory, slots: seq<Entry>, h: Header, p: Phase)
    requires Bounds(slots, h) && PhaseFits(|slots|, h, p) && p.Sweep?
    ensures Completed(mem, slots, h, p) == mem
  {
  }

  lemma {:induction false} SoundRun(mem: Memory, slots: seq<Entry>, h: Header, r: Recovery, steps: seq<RStep>)
    requires Bounds(slots, h) && !HasMaxLap(h) && Fits(r) && Sound(r, mem, slots, h)
    ensures Sound(Run(r, steps), mem, slots, h)
    decreases |steps|
  {
    hide Scanning, Closing, Fits, Recover, Take, HasMaxLap;
    if steps != [] {
      TakeFits(r, steps[0]);
      if Scanning(r, mem, slots, h) {
        ScanStep(r, steps[0], mem, slots, h);
      } else {
        ClosingStep(r, steps[0], Recover(mem, slots, h), slots, h);
      }
      SoundRun(mem, slots, h, Take(r, steps[0]), steps[1..]);
    }
  }

  /** Starting recovery again after a crash at any of its points, in any order of the stores that the cache
      lets through, ends with the memory that the first attempt would have reached. */
  lemma RestartsAlike(mem: Memory, slots: seq<Entry>, h: Header, steps: seq<RStep>)
    requires Bounds(slots, h) && !HasMaxLap(h) && NothingNext(slots, h)
    ensures Again(Run(Begin(mem, slots, h), steps)) == Recover(mem, slots, h)
  {
    hide Scanning, Closing, NothingNext, Recover, Again, Run, HasMaxLap;
    BeginSound(mem, slots, h);
    SoundRun(mem, slots, h, Begin(mem, slots, h), steps);
    var r := Run(Begin(mem, slots, h), steps);
    if Scanning(r, mem, slots, h) {
      ScanningAgain(r, mem, slots, h);
    } else {
      RecoveredAgain(mem, slots, h);
      ClosingAgain(r, Recover(mem, slots, h), slots, h);
    }
  }

  /** Recovering recovered memory changes nothing. */
  lemma RecoveredAgain(mem: Memory, slots: seq<Entry>, h: Header)
    requires Bounds(slots, h) && !HasMaxLap(h)
    ensures RecoveredSlots(slots, h) == slots
    ensures Recover(Recover(mem, slots, h), slots, h) == Recover(mem, slots, h)
  {
    hide Restored;
    var t := Recover(mem, slots, h);
    forall a | a in mem ensures Recover(t, slots, h)[a] == t[a] {
      if Untouched(slots, h, false, a) && Untouched(slots, h, true, a) {
        StaysValue(mem, slots, h, a);
      }
      SameByte(t, mem, slots, h, a);
    }
  }

  /** The group that the scan finds is restored as a whole if it rolls back. */
  lemma {:induction false} GroupIsRestored(slots: seq<Entry>, h: Header, second: bool, hi: nat, i: nat)
    requires Bounds(slots, h) && InLap(|slots|, h, hi, second) && Floor(h, second) < hi
    requires slots[hi - 1].gen == LapGen(h, second)
    requires var k := WalkBack(slots, Floor(h, second), hi - 1, LapGen(h, second));
      RollsBack(slots, k, hi, LapGen(h, second)) && k <= i < hi && slots[i].gen == LapGen(h, second)
    requires Divides(Lap(slots, h, second), hi)
    ensures Restored(slots, h, second, i)
  {
    hide Restored, Undoes, UndoneSlots;
    var s := Lap(slots, h, second);
    var g, lo := LapGen(h, second), Floor(h, second);
    UndoneUnfolds(slots, lo, hi, g, i);
    UndoneIsLocal(slots, lo, hi, g, i);
    SplitUndoes(slots, h, second, hi, i);
  }

  /** No group of the lap reaches across position pos: no end entry from there on closes what lies below without
      one below that does, and no start below has slots from there on. */
  ghost predicate Divides(s: Segment, pos: nat) {
    && (forall j, f :: s.lo <= j < pos <= f && FinAt(s, j, f) ==> exists f' :: f' < pos && FinAt(s, j, f'))
    && (forall j, b :: b < pos <= j && s.Valid(j) ==> !StartOf(s, j, b))
  }

  /** A group that starts below pos ends there. */
  lemma EndsBelow(s: Segment, pos: nat, j: int, b: int)
    requires Divides(s, pos) && s.Valid(j) && b < pos
    ensures StartOf(s, j, b) ==> j < pos
  {
  }

  lemma TopDivides(s: Segment)
    ensures Divides(s, s.hi)
  {
  }

  lemma StaleDivides(s: Segment, hi: nat)
    requires 0 < hi && Divides(s, hi) && !s.Valid(hi - 1)
    ensures Divides(s, hi - 1)
  {
    forall j, f | s.lo <= j < hi - 1 <= f && FinAt(s, j, f) ensures exists f' :: f' < hi - 1 && FinAt(s, j, f') {
      if f >= hi {
        var f' :| f' < hi && FinAt(s, j, f');
      }
    }
    forall j, b | b < hi - 1 <= j && s.Valid(j) ensures !StartOf(s, j, b) {
    }
  }

  lemma GroupDivides(s: Segment, hi: nat)
    requires s.lo < hi <= |s.slots| && Divides(s, hi)
    ensures Divides(s, WalkBack(s.slots, s.lo, hi - 1, s.gen)) || hi > s.hi
  {
    WalkBackStops(s.slots, s.lo, hi - 1, s.gen);
    var k := WalkBack(s.slots, s.lo, hi - 1, s.gen);
    if hi <= s.hi {
      forall j, f | s.lo <= j < k <= f && FinAt(s, j, f) ensures exists f' :: f' < k && FinAt(s, j, f') {
        assert s.ValidStart(k) || s.ValidFin(k - 1);
        if s.ValidFin(k - 1) {
          assert FinAt(s, j, k - 1);
        }
      }
      forall j, b | b < k <= j && s.Valid(j) ensures !StartOf(s, j, b) {
        assert s.ValidStart(k) || k == s.lo || s.ValidFin(k - 1);
      }
    }
  }

  /** Wrapping to the end of the ring, the scan stands above the older lap. */
  lemma CrossDivides(slots: seq<Entry>, h: Header, tl: nat, second: bool)
    requires Bounds(slots, h) && InLap(|slots|, h, tl, second) && tl != h.head && Divides(Lap(slots, h, second), tl)
    ensures Divides(Lap(slots, h, second || tl == 0), if tl == 0 then |slots| else tl)
  {
    if tl == 0 {
      TopDivides(Lap(slots, h, true));
    }
  }

  lemma SplitUndoes(slots: seq<Entry>, h: Header, second: bool, hi: nat, i: nat)
    requires Bounds(slots, h) && InLap(|slots|, h, hi, second) && i < hi && Divides(Lap(slots, h, second), hi)
    ensures Undoes(Segment(slots, Floor(h, second), hi, LapGen(h, second)), i) <==> Restored(slots, h, second, i)
  {
    var s := Lap(slots, h, second);
    var t := Segment(slots, Floor(h, second), hi, LapGen(h, second));
    assert forall j :: t.Valid(j) <==> s.Valid(j) && j < hi;
    assert forall j :: t.ValidStart(j) <==> s.ValidStart(j) && j < hi;
    assert forall j :: t.ValidFin(j) <==> s.ValidFin(j) && j < hi;
    assert forall b :: StartOf(s, i, b) <==> StartOf(t, i, b);
    assert forall f :: f < hi ==> (FinAt(s, i, f) <==> FinAt(t, i, f));
    assert forall f :: FinAt(t, i, f) ==> f < hi;
  }
}
