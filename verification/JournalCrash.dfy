/** What a crash and the recovery after it leave in memory. */
module JournalCrash {
  import opened JournalRing
  import opened JournalMachine
  import opened JournalInvariant
  import opened JournalMemory
  import opened JournalSafety
  import opened UndoRecovery

  /** A transaction that recovery has to roll back: not released, and not finished in the image. */
  ghost predicate Unfinished(s: State, k: int)
    requires Shape(s)
  {
    Unreleased(s, k) && !FinishedInImage(s, k)
  }

  ghost function UndoneIn(s: State, lap: int): set<nat>
    requires SegmentOf(s, lap).WellFormed()
  {
    var g := SegmentOf(s, lap);
    UndoneSlots(g.slots, g.lo, g.hi, g.gen)
  }

  ghost function RecoveredLap(s: State, lap: int, mem: Memory): (r: Memory)
    requires SegmentOf(s, lap).WellFormed()
    ensures r.Keys == mem.Keys
  {
    var g := SegmentOf(s, lap);
    RecoverSegment(mem, g.slots, g.lo, g.hi, g.gen)
  }

  /** Every entry that recovery writes back belongs to an unfinished transaction. */
  lemma UndoneOwner(s: State, lap: int, i: nat)
    requires Inv(s) && HasLap(s, lap) && SegmentOf(s, lap).WellFormed() && i in UndoneIn(s, lap)
    ensures SegmentOf(s, lap).Valid(i) && Unfinished(s, s.per.ring.own[i])
    ensures var t := s.txs[s.per.ring.own[i]];
      t.lap == lap && t.start <= i < t.start + |t.log| && s.per.ring.slots[i] == t.log[i - t.start]
  {
    hide LogInv, MemInv, Structured, ClosedRegions, FinishedInImage, Regions, TxShape, InLog, InZone;
    InvShape(s);
    var g := SegmentOf(s, lap);
    RegionsLength(s, lap);
    ImageStructured(s, lap);
    TopIsBoundary(g, Regions(s, lap));
    ClosedStays(g, Regions(s, lap), ClosedRegions(s, lap), g.hi, i);
    SegmentOwner(s, lap, i);
    RegionValue(s, lap, i);
    var k := s.per.ring.own[i];
    ClosedIs(s, k);
    if s.txs[k].status.Done? {
      DoneIsFinished(s, k);
    }
  }

  lemma RegionValue(s: State, lap: int, i: nat)
    requires i < |s.per.ring.slots|
    ensures i < |Regions(s, lap)| && Regions(s, lap)[i] == RegionAt(s.txs, i, lap)
  {
  }

  lemma OneOwner(s: State, j: nat, k: nat, a: nat)
    requires MemInv(s) && Unreleased(s, j) && Unreleased(s, k)
    requires a in s.txs[j].before && a in s.txs[k].before
    ensures j == k
  {
    hide TxBytesOk, AgreeWhereFree;
    assert a in s.txs[j].before.Keys && a in s.txs[k].before.Keys;
  }

  lemma CoveredIsRemembered(t: Tx, m: nat, a: nat)
    requires Remembers(t) && m < |t.log| && t.log[m].Covers(a)
    ensures a in t.before
  {
  }

  /** An undone entry that covers byte a belongs to the one transaction that logged a. */
  lemma UndoneCovers(s: State, lap: int, i: nat, k: nat, a: nat)
    requires Inv(s) && HasLap(s, lap) && SegmentOf(s, lap).WellFormed() && i in UndoneIn(s, lap)
    requires i < |s.per.ring.slots| && s.per.ring.slots[i].Covers(a)
    requires Unreleased(s, k) && a in s.txs[k].before
    ensures i < |s.per.ring.own| && s.per.ring.own[i] == k
    ensures s.txs[k].lap == lap && s.txs[k].start <= i < s.txs[k].start + |s.txs[k].log|
    ensures s.per.ring.slots[i] == s.txs[k].log[i - s.txs[k].start]
  {
    hide LogInv, MemInv, UndoneIn, HasLap, Remembers, FinishedInImage, TxShape, UndoneSlots;
    UndoneOwner(s, lap, i);
    InvShape(s);
    var j := s.per.ring.own[i];
    OwnerRemembers(s, j);
    CoveredIsRemembered(s.txs[j], i - s.txs[j].start, a);
    OneOwner(s, j, k, a);
  }

  /** Everything fenced of an unfinished transaction is undone. */
  lemma FencedIsUndone(s: State, k: nat, m: nat)
    requires Inv(s) && Unfinished(s, k) && m < s.txs[k].fenced <= |s.txs[k].log|
    ensures var t := s.txs[k];
      && HasLap(s, t.lap) && SegmentOf(s, t.lap).WellFormed()
      && t.start + m in UndoneIn(s, t.lap) && s.per.ring.slots[t.start + m] == t.log[m]
  {
    hide LogInv, MemInv, Structured, ClosedRegions, FinishedInImage, Regions, TxShape, UndoneSlots, InLog, InZone;
    InvShape(s);
    var t := s.txs[k];
    FencedSlots(s, k, m);
    SegmentLive(s, t.lap, 0);
    ImageStructured(s, t.lap);
    var g := SegmentOf(s, t.lap);
    RegionsLength(s, t.lap);
    TopIsBoundary(g, Regions(s, t.lap));
    OpenRollsBack(g, Regions(s, t.lap), ClosedRegions(s, t.lap), g.hi, t.start + m);
  }

  lemma RegionsLength(s: State, lap: int)
    requires Shape(s)
    ensures |Regions(s, lap)| == |SegmentOf(s, lap).slots| == |s.per.ring.slots|
    ensures SegmentOf(s, lap).slots == s.per.ring.slots
  {
  }

  lemma TopIsBoundary(g: Segment, region: seq<int>)
    requires |region| == |g.slots|
    ensures Boundary(g, region, g.hi)
  {
  }

  lemma FencedSlots(s: State, k: nat, m: nat)
    requires LogInv(s) && Unfinished(s, k) && m < s.txs[k].fenced <= |s.txs[k].log|
    ensures var t := s.txs[k]; var g := SegmentOf(s, t.lap);
      && HasLap(s, t.lap) && g.Valid(t.start + m) && s.per.ring.slots[t.start + m] == t.log[m]
      && Regions(s, t.lap)[t.start + m] == t.start && g.ValidStart(t.start)
      && t.start !in ClosedRegions(s, t.lap)
  {
    var t := s.txs[k];
    assert TxShape(t, k, |s.cur.ring.slots|) && EntryShape(t, k, 0);
    UnfinishedAhead(s, k);
    FencedIsValid(s, k, m);
    FencedIsValid(s, k, 0);
    ClosedIs(s, k);
    RegionIs(s.txs, k, t.start + m);
  }

  /** An unfinished transaction is in the log and the cleaner has not touched it. */
  lemma UnfinishedAhead(s: State, k: nat)
    requires LogInv(s) && Unfinished(s, k)
    ensures InLog(s.cur.hdr, s.txs[k])
    ensures forall i :: s.txs[k].start <= i < s.txs[k].End() ==> !InZone(s.cur.hdr, s.cleaner, i)
  {
    var t := s.txs[k];
    assert TxShape(t, k, |s.cur.ring.slots|);
    assert Placed(s.cur.hdr, s.per.hdr, t);
    forall i | t.start <= i < t.End() ensures !InZone(s.cur.hdr, s.cleaner, i) {
      RegionLive(s.cur.hdr, t, i);
      if !t.Ended() {
        OpenAhead(s, k, t.start);
      }
      if InZone(s.cur.hdr, s.cleaner, i) {
        ZonePrefix(s.cur.hdr, s.cleaner, t.start, i);
        assert false;
      }
    }
  }

  // ---- One lap of the log ------------------------------------------------------------------------

  /** The lap's recovery leaves byte a of unfinished transaction k at its original value, if the
      transaction belongs to this lap, and alone otherwise. */
  lemma LapRestores(s: State, lap: int, mem: Memory, k: nat, a: nat)
    requires Inv(s) && HasLap(s, lap) && SegmentOf(s, lap).WellFormed()
    requires Unfinished(s, k) && a in s.txs[k].before && a in mem && s.txs[k].fenced <= |s.txs[k].log|
    ensures var t := s.txs[k]; var r := RecoveredLap(s, lap, mem);
      && (t.Logged(a, t.fenced) && t.lap == lap ==> r[a] == t.before[a])
      && (t.lap != lap ==> r[a] == mem[a])
      && (mem[a] == t.before[a] ==> r[a] == t.before[a])
  {
    var t := s.txs[k];
    if t.lap != lap {
      ForeignLap(s, lap, mem, k, a);
    } else if t.Logged(a, t.fenced) {
      ProtectedByte(s, mem, k, a);
    } else if mem[a] == t.before[a] {
      UnprotectedByte(s, lap, mem, k, a);
    }
  }

  lemma ForeignLap(s: State, lap: int, mem: Memory, k: nat, a: nat)
    requires Inv(s) && HasLap(s, lap) && SegmentOf(s, lap).WellFormed()
    requires Unreleased(s, k) && a in s.txs[k].before && a in mem && s.txs[k].lap != lap
    ensures RecoveredLap(s, lap, mem)[a] == mem[a]
  {
    hide Inv, HasLap, UndoneSlots, RecoverSegment;
    var g := SegmentOf(s, lap);
    forall i | i in UndoneIn(s, lap) ensures !g.slots[i].Covers(a) {
      if g.slots[i].Covers(a) {
        UndoneCovers(s, lap, i, k, a);
        assert false;
      }
    }
    RecoverKeeps(mem, g.slots, g.lo, g.hi, g.gen, a, mem[a]);
  }

  lemma UnprotectedByte(s: State, lap: int, mem: Memory, k: nat, a: nat)
    requires Inv(s) && HasLap(s, lap) && SegmentOf(s, lap).WellFormed()
    requires Unreleased(s, k) && a in s.txs[k].before && a in mem && s.txs[k].fenced <= |s.txs[k].log|
    requires !s.txs[k].Logged(a, s.txs[k].fenced) && mem[a] == s.txs[k].before[a]
    ensures RecoveredLap(s, lap, mem)[a] == mem[a]
  {
    hide LogInv, MemInv, HasLap, UndoneSlots, RecoverSegment;
    var g := SegmentOf(s, lap);
    UnprotectedUniform(s, k, a);
    forall i | i in UndoneIn(s, lap) && g.slots[i].Covers(a) ensures g.slots[i].data[a - g.slots[i].addr] == mem[a] {
      UndoneCovers(s, lap, i, k, a);
    }
    RecoverKeeps(mem, g.slots, g.lo, g.hi, g.gen, a, mem[a]);
  }

  lemma UnprotectedUniform(s: State, k: nat, a: nat)
    requires MemInv(s) && Unreleased(s, k) && a in s.txs[k].before && s.txs[k].fenced <= |s.txs[k].log|
    requires !s.txs[k].Logged(a, s.txs[k].fenced)
    ensures Uniform(s.txs[k], a)
    ensures a in s.per.mem && a in s.cur.mem && s.cur.mem[a] == s.per.mem[a] == s.txs[k].before[a]
  {
    assert TxBytesOk(s.cur.mem, s.per.mem, s.committed, s.txs[k]);
  }

  /** The first entry that saved byte a is fenced if any entry that covers a is. */
  lemma FirstFenced(t: Tx, a: nat) returns (m: nat)
    requires Remembers(t) && a in t.before && t.Logged(a, t.fenced)
    ensures m < t.fenced && SavedAt(t, a, m)
  {
    assert Saved(t, a);
    m :| SavedAt(t, a, m);
    var j :| 0 <= j < t.fenced && t.log[j].Covers(a);
  }

  lemma ProtectedByte(s: State, mem: Memory, k: nat, a: nat)
    requires Inv(s) && Unfinished(s, k) && a in s.txs[k].before && a in mem && s.txs[k].fenced <= |s.txs[k].log|
    requires HasLap(s, s.txs[k].lap) && SegmentOf(s, s.txs[k].lap).WellFormed()
    requires s.txs[k].Logged(a, s.txs[k].fenced)
    ensures RecoveredLap(s, s.txs[k].lap, mem)[a] == s.txs[k].before[a]
  {
    hide LogInv, MemInv, HasLap, FinishedInImage, Remembers, TxShape, UndoneSlots, RecoverSegment;
    InvShape(s);
    var t := s.txs[k];
    OwnerRemembers(s, k);
    var m := FirstFenced(t, a);
    FencedIsUndone(s, k, m);
    var g := SegmentOf(s, t.lap);
    forall i | i in UndoneIn(s, t.lap) && i < t.start + m ensures !g.slots[i].Covers(a) {
      EarlierUndone(s, k, m, i, a);
    }
    RecoverOldest(mem, g.slots, g.lo, g.hi, g.gen, a, t.start + m);
  }

  lemma EarlierUndone(s: State, k: nat, m: nat, i: nat, a: nat)
    requires Inv(s) && Unreleased(s, k) && a in s.txs[k].before && SavedAt(s.txs[k], a, m)
    requires HasLap(s, s.txs[k].lap) && SegmentOf(s, s.txs[k].lap).WellFormed()
    requires i in UndoneIn(s, s.txs[k].lap) && i < s.txs[k].start + m
    ensures i < |s.per.ring.slots| && !s.per.ring.slots[i].Covers(a)
  {
    hide Inv, HasLap;
    if s.per.ring.slots[i].Covers(a) {
      UndoneCovers(s, s.txs[k].lap, i, k, a);
      assert false;
    }
  }

  /** A byte that no unfinished transaction logged is left alone. */
  lemma LapKeeps(s: State, lap: int, mem: Memory, a: nat)
    requires Inv(s) && HasLap(s, lap) && SegmentOf(s, lap).WellFormed() && a in mem
    requires forall k :: Unfinished(s, k) ==> a !in s.txs[k].before
    ensures RecoveredLap(s, lap, mem)[a] == mem[a]
  {
    var g := SegmentOf(s, lap);
    forall i | i in UndoneIn(s, lap) ensures !g.slots[i].Covers(a) {
      UndoneOwner(s, lap, i);
      OwnerRemembers(s, s.per.ring.own[i]);
    }
    RecoverKeeps(mem, g.slots, g.lo, g.hi, g.gen, a, mem[a]);
  }

  // ---- The whole recovery ---------------------------------------------------------------------------

  /** Memory after a crash in state s and recovery. */
  function CrashRecovered(s: State): (r: Memory)
    requires Shape(s)
    ensures r.Keys == s.per.mem.Keys
  {
    Recover(s.per.mem, s.per.ring.slots, s.per.hdr)
  }

  /** Recovery treats the image lap by lap. */
  lemma RecoverByLap(s: State)
    requires LogInv(s)
    ensures var l := s.per.hdr.lap;
      && HasLap(s, l) && SegmentOf(s, l).WellFormed()
      && (s.per.hdr.head <= s.per.hdr.tail ==> CrashRecovered(s) == RecoveredLap(s, l, s.per.mem))
      && (s.per.hdr.tail < s.per.hdr.head ==>
            && HasLap(s, l - 1) && SegmentOf(s, l - 1).WellFormed()
            && CrashRecovered(s) == RecoveredLap(s, l - 1, RecoveredLap(s, l, s.per.mem)))
  {
    GenFollowsLap(s.per.hdr.lap);
  }

  lemma LapOfFenced(s: State, k: nat)
    requires LogInv(s) && Unfinished(s, k) && 0 < s.txs[k].fenced
    ensures HasLap(s, s.txs[k].lap)
  {
    var t := s.txs[k];
    assert TxShape(t, k, |s.cur.ring.slots|);
    UnfinishedAhead(s, k);
    FencedIsValid(s, k, 0);
  }

  /** Rollback: every byte logged by a transaction that the crash left unfinished is back at the
      value it had before that transaction. */
  lemma CrashRestores(s: State, k: nat, a: nat)
    requires Inv(s) && Unfinished(s, k) && a in s.txs[k].before
    ensures a in CrashRecovered(s) && CrashRecovered(s)[a] == s.txs[k].before[a]
  {
    var t := s.txs[k];
    var l := s.per.hdr.lap;
    assert TxShape(t, k, |s.cur.ring.slots|);
    ByteInMemory(s, k, a);
    RecoverByLap(s);
    if t.Logged(a, t.fenced) {
      LapOfFenced(s, k);
    } else {
      UnprotectedUniform(s, k, a);
    }
    hide Inv, Unfinished, SegmentOf;
    LapRestores(s, l, s.per.mem, k, a);
    if s.per.hdr.tail < s.per.hdr.head {
      LapRestores(s, l - 1, RecoveredLap(s, l, s.per.mem), k, a);
    }
  }

  lemma ByteInMemory(s: State, k: nat, a: nat)
    requires MemInv(s) && Unreleased(s, k) && a in s.txs[k].before
    ensures a in s.per.mem && a in s.cur.mem && a in s.committed
  {
    assert TxBytesOk(s.cur.mem, s.per.mem, s.committed, s.txs[k]);
  }

  /** Every other byte has the value that the running system last saw, although it may not have
      been the transaction's own fence that persisted it. */
  lemma CrashKeeps(s: State, a: nat)
    requires Inv(s) && a in s.cur.mem
    requires forall k :: Unfinished(s, k) ==> a !in s.txs[k].before
    ensures a in CrashRecovered(s) && CrashRecovered(s)[a] == s.cur.mem[a]
  {
    var l := s.per.hdr.lap;
    RecoverByLap(s);
    PersistedWhereSafe(s, a);
    LapKeeps(s, l, s.per.mem, a);
    if s.per.hdr.tail < s.per.hdr.head {
      LapKeeps(s, l - 1, RecoveredLap(s, l, s.per.mem), a);
    }
  }

  lemma PersistedWhereSafe(s: State, a: nat)
    requires Inv(s) && a in s.cur.mem
    requires forall k :: Unfinished(s, k) ==> a !in s.txs[k].before
    ensures a in s.per.mem && s.per.mem[a] == s.cur.mem[a]
  {
    hide LogInv;
    if Owned(s.txs, a) {
      var k :| 0 <= k < |s.txs| && !s.txs[k].status.Done? && a in s.txs[k].before;
      InvShape(s);
      assert FinishedInImage(s, k);
      assert TxBytesOk(s.cur.mem, s.per.mem, s.committed, s.txs[k]);
      assert StageOk(s.txs[k], a, s.cur.mem[a], s.per.mem[a], s.committed[a]);
    }
  }

  /** Atomicity against the specification machine: recovery yields the memory of the committed
      transactions, except that transactions whose commit entry was written but not yet fenced
      may be rolled back, each one as a whole. */
  lemma CrashIsAtomic(s: State, a: nat)
    requires Inv(s) && a in s.committed
    ensures a in CrashRecovered(s)
    ensures CrashRecovered(s)[a] == s.committed[a]
      || exists k :: Unfinished(s, k) && s.txs[k].status == Closing(false) && a in s.txs[k].before
                     && CrashRecovered(s)[a] == s.txs[k].before[a]
    ensures forall k :: Unfinished(s, k) && s.txs[k].status == Closing(false) && a in s.txs[k].before ==>
      CrashRecovered(s)[a] == s.txs[k].before[a]
  {
    forall k | Unfinished(s, k) && a in s.txs[k].before ensures CrashRecovered(s)[a] == s.txs[k].before[a] {
      CrashRestores(s, k, a);
    }
    if k :| Unfinished(s, k) && a in s.txs[k].before {
      CrashRestores(s, k, a);
      CommittedBefore(s, k, a);
    } else {
      CrashKeeps(s, a);
      CommittedElsewhere(s, a);
    }
  }

  lemma CommittedBefore(s: State, k: nat, a: nat)
    requires MemInv(s) && Unreleased(s, k) && a in s.txs[k].before
    ensures a in s.committed && (s.txs[k].status != Closing(false) ==> s.committed[a] == s.txs[k].before[a])
  {
    assert TxBytesOk(s.cur.mem, s.per.mem, s.committed, s.txs[k]);
    assert StageOk(s.txs[k], a, s.cur.mem[a], s.per.mem[a], s.committed[a]);
  }

  lemma CommittedElsewhere(s: State, a: nat)
    requires Inv(s) && a in s.cur.mem
    requires forall k :: Unfinished(s, k) ==> a !in s.txs[k].before
    ensures a in s.committed && s.committed[a] == s.cur.mem[a]
  {
    hide LogInv;
    if Owned(s.txs, a) {
      var k :| 0 <= k < |s.txs| && !s.txs[k].status.Done? && a in s.txs[k].before;
      InvShape(s);
      assert FinishedInImage(s, k);
      assert TxBytesOk(s.cur.mem, s.per.mem, s.committed, s.txs[k]);
      assert StageOk(s.txs[k], a, s.cur.mem[a], s.per.mem[a], s.committed[a]);
    }
  }

  /** Crash atomicity over every run: after any steps from format and a crash at any point, with
      any set of unfenced lines kept, recovery rolls every unfinished transaction back and keeps
      every other byte as it was. */
  lemma CrashAtomicity(n: nat, mem: Memory, steps: seq<Step>, a: nat)
    requires 2 <= n && IsRun(Format(n, mem), steps) && a in mem
    ensures var s := After(Format(n, mem), steps);
      && Shape(s) && a in CrashRecovered(s) && a in s.cur.mem
      && (forall k :: Unfinished(s, k) && a in s.txs[k].before ==> CrashRecovered(s)[a] == s.txs[k].before[a])
      && ((forall k :: Unfinished(s, k) ==> a !in s.txs[k].before) ==> CrashRecovered(s)[a] == s.cur.mem[a])
  {
    var s := After(Format(n, mem), steps);
    ReachableInv(n, mem, steps);
    RunKeepsKeys(Format(n, mem), steps);
    forall k | Unfinished(s, k) && a in s.txs[k].before ensures CrashRecovered(s)[a] == s.txs[k].before[a] {
      CrashRestores(s, k, a);
    }
    if forall k :: Unfinished(s, k) ==> a !in s.txs[k].before {
      CrashKeeps(s, a);
    }
  }

  /** The same runs against the specification machine: recovery yields the committed memory, up to
      transactions whose commit entry was not fenced yet, and those are rolled back. */
  lemma CrashRefinesCommitted(n: nat, mem: Memory, steps: seq<Step>, a: nat)
    requires 2 <= n && IsRun(Format(n, mem), steps) && a in mem
    ensures var s := After(Format(n, mem), steps);
      && Shape(s) && a in CrashRecovered(s) && a in s.committed
      && (CrashRecovered(s)[a] == s.committed[a]
          || exists k :: Unfinished(s, k) && s.txs[k].status == Closing(false) && a in s.txs[k].before
                         && CrashRecovered(s)[a] == s.txs[k].before[a])
  {
    var s := After(Format(n, mem), steps);
    ReachableInv(n, mem, steps);
    RunKeepsKeys(Format(n, mem), steps);
    InvShape(s);
    CrashIsAtomic(s, a);
  }

  lemma {:induction false} RunKeepsKeys(s: State, steps: seq<Step>)
    requires IsRun(s, steps)
    ensures After(s, steps).cur.mem.Keys == s.cur.mem.Keys
    decreases |steps|
  {
    if steps != [] {
      RunKeepsKeys(Apply(s, steps[0]), steps[1..]);
    }
  }
}
