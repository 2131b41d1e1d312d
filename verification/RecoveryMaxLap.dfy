/** Recovery of a log with a MAX_GEN_ID lap: what holds at every step, and why a crash is harmless if no group
    can be spoiled. */
module RecoveryMaxLap {
  import opened JournalRing
  import opened RecoveryGroups
  import opened RecoveryHazard
  import opened RecoveryRestart
  import opened RecoverySteps
  import opened UndoRecovery

  // ---- Where the scan stands in the lap -----------------------------------------------------------------

  /** Lowest position of the lap down to which whole groups have been dealt with or are in hand. */
  function Front(slots: seq<Entry>, h: Header, mx: bool, p: Phase): nat
    requires Bounds(slots, h)
  {
    match p
    case Seek(tl, second) => if second == mx then tl else if mx then Lap(slots, h, mx).hi else Lap(slots, h, mx).lo
    case Undoing(_, _, hi, second) =>
      if second == mx then hi else if mx then Lap(slots, h, mx).hi else Lap(slots, h, mx).lo
    case Wiping(_, _, hi, _, _) => hi
    case _ => Lap(slots, h, mx).lo
  }

  /** The group in hand has been undone and the barrier behind that passed. */
  predicate PastBarrier(p: Phase) {
    p.Wiping? && !(p.barrier && p.at == p.lo)
  }

  /** What lies from here on is settled. */
  function SettledFrom(slots: seq<Entry>, h: Header, mx: bool, p: Phase): nat
    requires Bounds(slots, h)
  {
    if PastBarrier(p) then p.lo else Front(slots, h, mx, p)
  }

  /** Slot i has been wiped in the cache. */
  predicate WipedAt(slots: seq<Entry>, h: Header, mx: bool, p: Phase, i: int)
    requires Bounds(slots, h)
  {
    || (Lap(slots, h, mx).lo <= i < Lap(slots, h, mx).hi && Front(slots, h, mx, p) <= i)
    || (p.Wiping? && p.lo <= i < p.at)
    || (p.Sweep? && h.gen == MAX_GEN_ID && h.tail <= i < p.at)
  }

  /** Up to where the barriers due in the group in hand have been passed. */
  function FencedTo(p: Phase): nat
    requires p.Wiping?
  {
    if p.barrier && p.at > p.lo then p.at - 1 else p.at
  }

  /** Slots of the lap that may be valid in persistent memory although wiped in the cache. */
  ghost function LooseNow(slots: seq<Entry>, p: Phase, loose: set<nat>): set<nat> {
    if p.Wiping? && FencedTo(p) <= p.hi <= |slots| then Unfenced(slots, p.lo, FencedTo(p), p.hi, loose) else loose
  }

  // ---- The invariant -----------------------------------------------------------------------------------------

  ghost predicate RingOk(cur: seq<Entry>, per: seq<Entry>, slots: seq<Entry>, h: Header, mx: bool, p: Phase,
        loose: set<nat>)
    requires Bounds(slots, h)
  {
    && |cur| == |per| == |slots|
    && (forall i :: 0 <= i < |slots| ==> cur[i] == if WipedAt(slots, h, mx, p, i) then slots[i].(gen := 0)
       else slots[i])
    && (forall i :: 0 <= i < |slots| ==>
       per[i] == slots[i] || (WipedAt(slots, h, mx, p, i) && per[i] == slots[i].(gen := 0)))
    && (forall i: nat :: WipedAt(slots, h, mx, p, i) && Lap(slots, h, mx).Valid(i) && per[i] == slots[i] ==>
       i in LooseNow(slots, p, loose))
    && (forall i :: i in loose ==> i < |slots| && !PlainStart(slots[i]))
  }

  /** The group in hand, [lo..hi), is one of the lap. */
  ghost predicate GroupAt(slots: seq<Entry>, h: Header, mx: bool, lo: nat, hi: nat)
    requires Bounds(slots, h)
  {
    var s := Lap(slots, h, mx);
    && s.lo <= lo < hi <= s.hi && s.Valid(hi - 1) && lo == WalkBack(slots, s.lo, hi - 1, s.gen)
    && Divides(s, hi)
  }

  ghost predicate GroupOk(slots: seq<Entry>, h: Header, mx: bool, p: Phase, loose: set<nat>)
    requires Bounds(slots, h)
  {
    match p
    case Undoing(lo, _, hi, second) =>
      second == mx ==> GroupAt(slots, h, mx, lo, hi) && RollsBack(slots, lo, hi, MAX_GEN_ID)
    case Wiping(lo, at, hi, second, barrier) =>
      && second == mx && GroupAt(slots, h, mx, lo, hi) && lo <= at <= hi
      && (barrier && at == lo ==> RollsBack(slots, lo, hi, MAX_GEN_ID))
      && (barrier && at > lo ==> PlainStart(slots[at - 1]))
      && (PastBarrier(p) && RollsBack(slots, lo, hi, MAX_GEN_ID) ==> loose == {})
    case _ => true
  }

  /** Nothing from here down can be spoiled. */
  ghost predicate SafeOk(slots: seq<Entry>, h: Header, mx: bool, p: Phase, loose: set<nat>)
    requires Bounds(slots, h)
  {
    match p
    case Wiping(lo, at, hi, second, barrier) =>
      && second == mx && GroupAt(slots, h, mx, lo, hi)
      && (!PastBarrier(p) ==> !NextSpoiled(slots, h, mx, hi, loose))
      && !NextSpoiled(slots, h, mx, lo, Leftover(slots, lo, hi, MAX_GEN_ID))
      && !Risky(slots, h, mx, lo, Unfenced(slots, lo, hi, hi, loose))
    case _ =>
      && Lap(slots, h, mx).lo <= Front(slots, h, mx, p) <= Lap(slots, h, mx).hi
      && !Risky(slots, h, mx, Front(slots, h, mx, p), loose)
  }

  ghost predicate MemOk(cur: Memory, per: Memory, mem0: Memory, slots: seq<Entry>, h: Header, mx: bool, p: Phase)
    requires Bounds(slots, h)
  {
    && PhaseFits(|slots|, h, p) && Completed(cur, slots, h, p) == Recover(mem0, slots, h)
    && Settled(cur, Recover(mem0, slots, h), slots, h, mx, SettledFrom(slots, h, mx, p))
    && Settled(per, Recover(mem0, slots, h), slots, h, mx, SettledFrom(slots, h, mx, p))
  }

  /** What every step keeps, whether or not a group can be spoiled. */
  ghost predicate MaxCore(r: Recovery, mem0: Memory, slots: seq<Entry>, h: Header, mx: bool, loose: set<nat>)
    requires Bounds(slots, h)
  {
    && (r.phase.Seek? || r.phase.Undoing? || r.phase.Wiping? || r.phase.Sweep?)
    && r.cur.hdr == h == r.per.hdr
    && RingOk(r.cur.slots, r.per.slots, slots, h, mx, r.phase, loose)
    && MemOk(r.cur.mem, r.per.mem, mem0, slots, h, mx, r.phase)
    && GroupRestored(slots, h, r.phase) && BetweenGroups(slots, h, r.phase)
    && GroupOk(slots, h, mx, r.phase, loose)
  }

  ghost predicate MaxScan(r: Recovery, mem0: Memory, slots: seq<Entry>, h: Header, mx: bool, loose: set<nat>)
    requires Bounds(slots, h)
  {
    MaxCore(r, mem0, slots, h, mx, loose) && SafeOk(slots, h, mx, r.phase, loose)
  }

  // ---- A crash while the lap is scanned ----------------------------------------------------------------------

  /** A group that can be spoiled is the next one to be scanned. */
  lemma {:induction false} NextIsRisky(slots: seq<Entry>, h: Header, mx: bool, hi: nat, loose: set<nat>)
    requires Bounds(slots, h) && Floor(h, mx) <= hi <= Lap(slots, h, mx).hi && NextSpoiled(slots, h, mx, hi, loose)
    ensures Risky(slots, h, mx, hi, loose)
    decreases hi
  {
    hide Spoils;
    var s := Lap(slots, h, mx);
    var b, y :| NextOpen(s, hi, b) && y in loose && Spoils(slots, h, mx, b, hi, y);
    if slots[hi - 1].gen != s.gen {
      assert !s.Valid(hi - 1);
      SpoilsLower(slots, h, mx, b, hi, y);
      assert NextOpen(s, hi - 1, b);
      NextIsRisky(slots, h, mx, hi - 1, loose);
    }
  }

  lemma SpoilsLower(slots: seq<Entry>, h: Header, mx: bool, b: int, hi: nat, y: int)
    requires Bounds(slots, h) && 0 < hi <= |slots| && Spoils(slots, h, mx, b, hi, y) && !Lap(slots, h, mx).Valid(hi - 1)
    ensures Spoils(slots, h, mx, b, hi - 1, y)
  {
    var s := Lap(slots, h, mx);
    if slots[y].Fin() {
      var i :| b <= i < hi && s.Valid(i) && slots[i].data != [];
      assert b <= i < hi - 1;
    } else {
      var a: nat :| slots[y].Covers(a) && !DecidedBelow(slots, h, mx, hi, a) &&
        !Leaves(slots, h, a, Saved(slots[y], a));
      assert !DecidedBelow(slots, h, mx, hi - 1, a);
    }
  }

  /** The lap in the persistent ring from position pos on. */
  ghost predicate PersistentFrom(per: seq<Entry>, slots: seq<Entry>, h: Header, mx: bool, pos: nat)
    requires Bounds(slots, h)
  {
    && |per| == |slots|
    && (forall i :: 0 <= i < |slots| ==> per[i] == slots[i] || per[i] == slots[i].(gen := 0))
    && (forall i :: 0 <= i < |slots| && per[i] != slots[i] ==>
          (Lap(slots, h, mx).lo <= i < Lap(slots, h, mx).hi && pos <= i) || (h.head <= h.tail <= i))
  }

  lemma PersistentOther(per: seq<Entry>, slots: seq<Entry>, h: Header, mx: bool, pos: nat)
    requires Bounds(slots, h) && IsMaxLap(h, mx) && PersistentFrom(per, slots, h, mx, pos)
    ensures OtherLapSame(slots, per, h, mx)
  {
    forall i | Lap(slots, h, !mx).lo <= i < Lap(slots, h, !mx).hi ensures per[i] == slots[i] {
      assert !(Lap(slots, h, mx).lo <= i < Lap(slots, h, mx).hi);
    }
  }

  /** Before anything of the group in hand is durably wiped: only what the groups above left counts. */
  lemma CrashAbove(per: seq<Entry>, slots: seq<Entry>, h: Header, mx: bool, pos: nat, loose: set<nat>)
    requires Bounds(slots, h) && IsMaxLap(h, mx) && PersistentFrom(per, slots, h, mx, pos)
    requires Lap(slots, h, mx).lo <= pos <= Lap(slots, h, mx).hi && Divides(Lap(slots, h, mx), pos)
    requires forall i: nat :: pos <= i && Lap(slots, h, mx).Valid(i) && per[i] == slots[i] ==> i in loose
    requires forall i :: i in loose && pos <= i && Lap(slots, h, mx).ValidStart(i) ==> slots[i].Fin()
    requires !NextSpoiled(slots, h, mx, pos, loose)
    ensures PartlyWiped(slots, per, h, mx, pos) && Harmless(slots, per, h, mx, pos)
  {
    hide NextSpoiled, Restored, Divides;
    PersistentOther(per, slots, h, mx, pos);
    LeftIn(per, slots, h, mx, pos);
    NothingSpoiled(slots, per, h, mx, pos, loose);
  }

  /** What is valid in the persistent ring was valid before. */
  lemma LeftIn(per: seq<Entry>, slots: seq<Entry>, h: Header, mx: bool, pos: nat)
    requires Bounds(slots, h) && IsMaxLap(h, mx) && PersistentFrom(per, slots, h, mx, pos)
    ensures Bounds(per, h)
    ensures forall i :: Lap(per, h, mx).Valid(i) ==> Lap(slots, h, mx).Valid(i) && per[i] == slots[i]
    ensures forall i :: Restored(per, h, mx, i) ==> Lap(per, h, mx).Valid(i)
    ensures forall i, f :: FinAt(Lap(per, h, mx), i, f) ==> Lap(per, h, mx).Valid(f)
  {
  }

  /** The group that starts at lo and whose top is the slot below hi, if part of it may be durably wiped. */
  lemma CrashInGroup(per: seq<Entry>, slots: seq<Entry>, h: Header, mx: bool, lo: nat, hi: nat, ys: set<nat>)
    requires Bounds(slots, h) && IsMaxLap(h, mx) && PersistentFrom(per, slots, h, mx, lo)
    requires GroupAt(slots, h, mx, lo, hi)
    requires !NextSpoiled(slots, h, mx, lo, ys)
    requires forall y :: lo <= y && Lap(per, h, mx).ValidStart(y) ==> slots[y].Fin()
    requires UndoneAmong(per, h, mx, lo, ys) && ClosedIn(slots, per, h, mx, lo, ys)
    ensures PartlyWiped(slots, per, h, mx, lo) && Harmless(slots, per, h, mx, lo)
  {
    hide NextSpoiled, Restored, UndoneAmong, ClosedIn;
    PersistentOther(per, slots, h, mx, lo);
    GroupDivides(Lap(slots, h, mx), hi);
    NothingSpoiled(slots, per, h, mx, lo, ys);
  }

  /** The shape of a group. */
  lemma GroupShape(slots: seq<Entry>, h: Header, mx: bool, lo: nat, hi: nat)
    requires Bounds(slots, h) && GroupAt(slots, h, mx, lo, hi)
    ensures var s := Lap(slots, h, mx);
      && (forall i :: lo < i < hi ==> !s.ValidStart(i))
      && (forall i :: lo <= i < hi - 1 ==> !s.ValidFin(i))
      && (s.ValidStart(lo) || lo == s.lo || s.ValidFin(lo - 1))
      && (HasFin(slots, lo, hi, s.gen) <==> s.ValidFin(hi - 1))
      && (RollsBack(slots, lo, hi, s.gen) <==> s.ValidStart(lo) && !s.ValidFin(hi - 1))
  {
    var s := Lap(slots, h, mx);
    WalkBackStops(slots, s.lo, hi - 1, s.gen);
    if s.ValidFin(hi - 1) {
      assert HasFin(slots, lo, hi, s.gen);
    }
  }

  /** Below a group without a start nothing can be reached: there is an end entry, or nothing. */
  lemma CrashInStartless(per: seq<Entry>, slots: seq<Entry>, h: Header, mx: bool, lo: nat, hi: nat)
    requires Bounds(slots, h) && IsMaxLap(h, mx) && PersistentFrom(per, slots, h, mx, lo)
    requires GroupAt(slots, h, mx, lo, hi)
    requires !Lap(slots, h, mx).ValidStart(lo)
    requires forall y :: lo <= y && Lap(per, h, mx).ValidStart(y) ==> slots[y].Fin()
    ensures PartlyWiped(slots, per, h, mx, lo) && Harmless(slots, per, h, mx, lo)
  {
    var s, s' := Lap(slots, h, mx), Lap(per, h, mx);
    LeftIn(per, slots, h, mx, lo);
    GroupShape(slots, h, mx, lo, hi);
    forall y: nat | lo <= y ensures !Restored(per, h, mx, y) {
      NoneJoins(per, slots, h, mx, lo, y);
    }
    forall i, f | i < lo <= f && FinAt(s', i, f) ensures !Restored(slots, h, mx, i) {
      NoneClosed(per, slots, h, mx, lo, i, f);
    }
    CrashInGroup(per, slots, h, mx, lo, hi, {});
  }

  lemma NoneJoins(per: seq<Entry>, slots: seq<Entry>, h: Header, mx: bool, lo: nat, y: nat)
    requires Bounds(slots, h) && IsMaxLap(h, mx) && PersistentFrom(per, slots, h, mx, lo) && Bounds(per, h)
    requires lo == Lap(slots, h, mx).lo || Lap(slots, h, mx).ValidFin(lo - 1)
    requires forall i :: lo <= i && Lap(per, h, mx).ValidStart(i) ==> slots[i].Fin()
    requires lo <= y
    ensures !Restored(per, h, mx, y)
  {
    var s, s' := Lap(slots, h, mx), Lap(per, h, mx);
    LeftIn(per, slots, h, mx, lo);
    if Restored(per, h, mx, y) {
      var b :| StartOf(s', y, b);
      assert b >= lo ==> s'.ValidFin(b) && FinAt(s', y, y) == s'.ValidFin(y);
      assert lo > s.lo ==> s'.ValidFin(lo - 1);
    }
  }

  lemma NoneClosed(per: seq<Entry>, slots: seq<Entry>, h: Header, mx: bool, lo: nat, i: int, f: int)
    requires Bounds(slots, h) && IsMaxLap(h, mx) && PersistentFrom(per, slots, h, mx, lo) && Bounds(per, h)
    requires lo == Lap(slots, h, mx).lo || Lap(slots, h, mx).ValidFin(lo - 1)
    requires i < lo <= f && FinAt(Lap(per, h, mx), i, f)
    ensures !Restored(slots, h, mx, i)
  {
    var s, s' := Lap(slots, h, mx), Lap(per, h, mx);
    assert forall j :: j < lo ==> (s.ValidStart(j) <==> s'.ValidStart(j));
    if lo > s.lo {
      assert FinAt(s, i, lo - 1);
    }
  }

  // ---- A crash while a group is wiped -----------------------------------------------------------------------

  lemma WipingFacts(cur: seq<Entry>, per: seq<Entry>, slots: seq<Entry>, h: Header, mx: bool, p: Phase, loose: set<nat>)
    requires Bounds(slots, h) && IsMaxLap(h, mx) && p.Wiping?
    requires RingOk(cur, per, slots, h, mx, p, loose) && GroupOk(slots, h, mx, p, loose)
    ensures PersistentFrom(per, slots, h, mx, p.lo) && FencedTo(p) <= p.hi <= |slots|
    ensures forall i: nat :: p.lo <= i && Lap(slots, h, mx).Valid(i) && per[i] == slots[i] ==>
      (p.at <= i < p.hi) || i in Unfenced(slots, p.lo, FencedTo(p), p.hi, loose)
    ensures forall i :: p.lo <= i < p.hi && per[i] != slots[i] ==> i < p.at
    ensures forall i :: i in loose ==> i < |slots| && !PlainStart(slots[i])
  {
    hide Divides, Unfenced;
  }

  /** Slots of Unfenced: in the group with no barrier behind them, or left from above. */
  lemma UnfencedIs(slots: seq<Entry>, k: nat, upto: nat, hi: nat, loose: set<nat>, i: nat)
    requires upto <= hi <= |slots| && i in Unfenced(slots, k, upto, hi, loose)
    ensures (k <= i < hi && forall x :: i <= x < upto && k <= x ==> !PlainStart(slots[x])) ||
      (i in loose && forall x :: k <= x < upto ==> !PlainStart(slots[x]))
  {
  }

  lemma NextOpenIsGroup(slots: seq<Entry>, h: Header, mx: bool, lo: nat, hi: nat, b: int)
    requires Bounds(slots, h) && GroupAt(slots, h, mx, lo, hi) && NextOpen(Lap(slots, h, mx), hi, b)
    ensures b == lo && RollsBack(slots, lo, hi, LapGen(h, mx))
  {
    GroupShape(slots, h, mx, lo, hi);
  }

  lemma SpoiledByNone(slots: seq<Entry>, h: Header, mx: bool, lo: nat, hi: nat, loose: set<nat>)
    requires Bounds(slots, h) && GroupAt(slots, h, mx, lo, hi)
    requires loose == {} || !RollsBack(slots, lo, hi, LapGen(h, mx))
    ensures !NextSpoiled(slots, h, mx, hi, loose)
  {
    hide Spoils, GroupAt, NextOpen;
    if NextSpoiled(slots, h, mx, hi, loose) {
      var b, y :| NextOpen(Lap(slots, h, mx), hi, b) && y in loose && Spoils(slots, h, mx, b, hi, y);
      NextOpenIsGroup(slots, h, mx, lo, hi, b);
    }
  }

  /** Nothing of the group has reached persistent memory. */
  lemma CrashBeforeGroup(cur: seq<Entry>, per: seq<Entry>, slots: seq<Entry>, h: Header, mx: bool, p: Phase,
        loose: set<nat>)
    requires Bounds(slots, h) && IsMaxLap(h, mx) && p.Wiping?
    requires RingOk(cur, per, slots, h, mx, p, loose) && GroupOk(slots, h, mx, p, loose)
    requires SafeOk(slots, h, mx, p, loose)
    requires forall i :: p.lo <= i < p.hi ==> per[i] == slots[i]
    ensures PartlyWiped(slots, per, h, mx, p.hi) && Harmless(slots, per, h, mx, p.hi)
  {
    hide Divides, NextSpoiled, Restored, PartlyWiped, Harmless, Unfenced, RingOk;
    WipingFacts(cur, per, slots, h, mx, p, loose);
    if PastBarrier(p) {
      SpoiledByNone(slots, h, mx, p.lo, p.hi, loose);
    }
    forall i: nat | p.hi <= i && Lap(slots, h, mx).Valid(i) && per[i] == slots[i] ensures i in loose {
      UnfencedIs(slots, p.lo, FencedTo(p), p.hi, loose, i);
    }
    CrashAbove(per, slots, h, mx, p.hi, loose);
  }

  /** If part of a group with a plain start is durably wiped, so is its start. */
  lemma StartIsFirst(cur: seq<Entry>, per: seq<Entry>, slots: seq<Entry>, h: Header, mx: bool, p: Phase,
        loose: set<nat>, i: nat)
    requires Bounds(slots, h) && IsMaxLap(h, mx) && p.Wiping?
    requires RingOk(cur, per, slots, h, mx, p, loose) && GroupOk(slots, h, mx, p, loose)
    requires p.lo <= i < p.hi && per[i] != slots[i] && PlainStart(slots[p.lo]) && Lap(slots, h, mx).ValidStart(p.lo)
    ensures per[p.lo] != slots[p.lo] && PastBarrier(p)
  {
    hide Divides, Unfenced;
    WipingFacts(cur, per, slots, h, mx, p, loose);
    if per[p.lo] == slots[p.lo] {
      UnfencedIs(slots, p.lo, FencedTo(p), p.hi, loose, p.lo);
    }
  }

  /** After a rolled-back group's start is durably wiped, only the rest of it can be left. */
  lemma CrashInOpenGroup(cur: seq<Entry>, per: seq<Entry>, slots: seq<Entry>, h: Header, mx: bool, p: Phase,
        loose: set<nat>)
    requires Bounds(slots, h) && IsMaxLap(h, mx) && p.Wiping? && PastBarrier(p)
    requires RingOk(cur, per, slots, h, mx, p, loose) && GroupOk(slots, h, mx, p, loose)
    requires SafeOk(slots, h, mx, p, loose)
    requires per[p.lo] != slots[p.lo] && RollsBack(slots, p.lo, p.hi, MAX_GEN_ID)
    ensures PartlyWiped(slots, per, h, mx, p.lo) && Harmless(slots, per, h, mx, p.lo)
  {
    hide Divides, NextSpoiled, Restored, PartlyWiped, Harmless, Unfenced, RingOk;
    var ys := Leftover(slots, p.lo, p.hi, MAX_GEN_ID);
    WipingFacts(cur, per, slots, h, mx, p, loose);
    GroupShape(slots, h, mx, p.lo, p.hi);
    LeftIn(per, slots, h, mx, p.lo);
    forall i: nat | p.lo <= i && Lap(per, h, mx).Valid(i) ensures i in ys && p.lo < i < p.hi && !slots[i].isStart {
      assert Lap(slots, h, mx).ValidStart(i) <==> slots[i].isStart;
      if !(p.at <= i < p.hi) {
        UnfencedIs(slots, p.lo, FencedTo(p), p.hi, loose, i);
      }
    }
    forall y | p.lo <= y ensures !Lap(per, h, mx).ValidStart(y) {
      var i: nat := y;
      assert Lap(per, h, mx).Valid(i) ==> per[i] == slots[i];
    }
    AllIn(slots, per, h, mx, p.lo, ys);
    CrashInGroup(per, slots, h, mx, p.lo, p.hi, ys);
  }

  lemma AllIn(slots: seq<Entry>, per: seq<Entry>, h: Header, mx: bool, pos: nat, ys: set<nat>)
    requires Bounds(slots, h) && Bounds(per, h)
    requires forall y: nat :: pos <= y && Lap(per, h, mx).Valid(y) ==> y in ys
    ensures UndoneAmong(per, h, mx, pos, ys) && ClosedIn(slots, per, h, mx, pos, ys)
  {
    var s' := Lap(per, h, mx);
    forall i, f | i < pos <= f && Restored(slots, h, mx, i) && FinAt(s', i, f)
      ensures exists f': nat :: f' in ys && pos <= f' && FinAt(s', i, f')
    {
      var f': nat := f;
      assert s'.Valid(f');
    }
  }

  /** A group of one slot that both begins and ends a transaction, or one that is wiped to the end. */
  lemma CrashAfterGroup(cur: seq<Entry>, per: seq<Entry>, slots: seq<Entry>, h: Header, mx: bool, p: Phase,
        loose: set<nat>)
    requires Bounds(slots, h) && IsMaxLap(h, mx) && p.Wiping? && PastBarrier(p) && p.at == p.hi && !p.barrier
    requires RingOk(cur, per, slots, h, mx, p, loose) && GroupOk(slots, h, mx, p, loose)
    requires SafeOk(slots, h, mx, p, loose)
    requires per[p.lo] != slots[p.lo] || slots[p.lo].Fin()
    ensures PartlyWiped(slots, per, h, mx, p.lo) && Harmless(slots, per, h, mx, p.lo)
  {
    hide Divides, NextSpoiled, Restored, PartlyWiped, Harmless, Unfenced, RingOk;
    var ys := Unfenced(slots, p.lo, p.hi, p.hi, loose);
    WipingFacts(cur, per, slots, h, mx, p, loose);
    GroupShape(slots, h, mx, p.lo, p.hi);
    LeftIn(per, slots, h, mx, p.lo);
    NotRisky(slots, h, mx, p.lo, ys);
    AllIn(slots, per, h, mx, p.lo, ys);
    forall y | p.lo <= y && Lap(per, h, mx).ValidStart(y) ensures slots[y].Fin() {
      UnfencedIs(slots, p.lo, p.hi, p.hi, loose, y);
    }
    CrashInGroup(per, slots, h, mx, p.lo, p.hi, ys);
  }

  lemma NotRisky(slots: seq<Entry>, h: Header, mx: bool, hi: nat, loose: set<nat>)
    requires Bounds(slots, h) && Floor(h, mx) <= hi <= Lap(slots, h, mx).hi && !Risky(slots, h, mx, hi, loose)
    ensures !NextSpoiled(slots, h, mx, hi, loose)
  {
    hide NextSpoiled, Risky;
    if NextSpoiled(slots, h, mx, hi, loose) {
      NextIsRisky(slots, h, mx, hi, loose);
    }
  }

  /** A group with an end entry that is still there: it shields what lies below from everything above. */
  lemma CrashInClosedGroup(cur: seq<Entry>, per: seq<Entry>, slots: seq<Entry>, h: Header, mx: bool, p: Phase,
        loose: set<nat>)
    requires Bounds(slots, h) && IsMaxLap(h, mx) && p.Wiping? && PastBarrier(p)
    requires RingOk(cur, per, slots, h, mx, p, loose) && GroupOk(slots, h, mx, p, loose)
    requires SafeOk(slots, h, mx, p, loose)
    requires per[p.lo] != slots[p.lo] && Lap(slots, h, mx).ValidFin(p.hi - 1) && per[p.hi - 1] == slots[p.hi - 1]
    ensures PartlyWiped(slots, per, h, mx, p.lo) && Harmless(slots, per, h, mx, p.lo)
  {
    hide Divides, NextSpoiled, Restored, PartlyWiped, Harmless, Unfenced, RingOk, Undoes;
    WipingFacts(cur, per, slots, h, mx, p, loose);
    GroupShape(slots, h, mx, p.lo, p.hi);
    LeftIn(per, slots, h, mx, p.lo);
    var ys, s, s' := Leftover(slots, p.lo, p.hi, MAX_GEN_ID), Lap(slots, h, mx), Lap(per, h, mx);
    forall y: nat | p.lo <= y && s'.ValidStart(y) ensures slots[y].Fin() && p.hi <= y {
      assert s'.Valid(y) && s.ValidStart(y);
      if !(p.at <= y < p.hi) {
        UnfencedIs(slots, p.lo, FencedTo(p), p.hi, loose, y);
      }
    }
    var f: nat := p.hi - 1;
    assert s'.ValidFin(f);
    forall y: nat | p.lo <= y ensures !Restored(per, h, mx, y) {
      Shielded(per, h, mx, p.lo, p.hi, y);
    }
    forall i, f' | i < p.lo <= f' && FinAt(s', i, f') ensures f in ys && FinAt(s', i, f) {
      assert s.ValidFin(f');
    }
    assert UndoneAmong(per, h, mx, p.lo, ys);
    assert ClosedIn(slots, per, h, mx, p.lo, ys);
    CrashInGroup(per, slots, h, mx, p.lo, p.hi, ys);
  }

  /** Behind a valid end entry at hi - 1, nothing is undone unless it has a start of its own. */
  lemma Shielded(per: seq<Entry>, h: Header, mx: bool, lo: nat, hi: nat, y: nat)
    requires Bounds(per, h) && lo < hi && lo <= y && Lap(per, h, mx).ValidFin(hi - 1)
    requires forall i :: lo <= i && Lap(per, h, mx).ValidStart(i) ==> per[i].Fin() && hi <= i
    ensures !Restored(per, h, mx, y)
  {
    var s' := Lap(per, h, mx);
    if Restored(per, h, mx, y) {
      var b :| StartOf(s', y, b);
      assert b >= lo ==> s'.ValidFin(b) && FinAt(s', y, y) == s'.ValidFin(y);
      assert y < hi ==> FinAt(s', y, hi - 1);
    }
  }

  // ---- A crash at any point of the scan ------------------------------------------------------------------------

  /** While a group is wiped: the position from which the crash image may differ. */
  lemma CrashWiping(cur: seq<Entry>, per: seq<Entry>, slots: seq<Entry>, h: Header, mx: bool, p: Phase, loose: set<nat>)
    returns (pos: nat)
    requires Bounds(slots, h) && IsMaxLap(h, mx) && p.Wiping?
    requires RingOk(cur, per, slots, h, mx, p, loose) && GroupOk(slots, h, mx, p, loose)
    requires SafeOk(slots, h, mx, p, loose)
    ensures PartlyWiped(slots, per, h, mx, pos) && Harmless(slots, per, h, mx, pos)
    ensures SettledFrom(slots, h, mx, p) <= pos
  {
    hide Divides, NextSpoiled, Restored, PartlyWiped, Harmless, Unfenced, RingOk, SafeOk, RollsBack;
    var s := Lap(slots, h, mx);
    WipingFacts(cur, per, slots, h, mx, p, loose);
    GroupShape(slots, h, mx, p.lo, p.hi);
    if i: nat :| p.lo <= i < p.hi && per[i] != slots[i] {
      pos := p.lo;
      if !s.ValidStart(p.lo) {
        StartsAreEnded(cur, per, slots, h, mx, p, loose);
        CrashInStartless(per, slots, h, mx, p.lo, p.hi);
      } else if slots[p.lo].Fin() {
        assert s.ValidFin(p.lo) && p.hi == p.lo + 1;
        CrashAfterGroup(cur, per, slots, h, mx, p, loose);
      } else {
        StartIsFirst(cur, per, slots, h, mx, p, loose, i);
        if RollsBack(slots, p.lo, p.hi, MAX_GEN_ID) {
          CrashInOpenGroup(cur, per, slots, h, mx, p, loose);
        } else if per[p.hi - 1] == slots[p.hi - 1] {
          CrashInClosedGroup(cur, per, slots, h, mx, p, loose);
        } else {
          CrashAfterGroup(cur, per, slots, h, mx, p, loose);
        }
      }
    } else {
      pos := p.hi;
      CrashBeforeGroup(cur, per, slots, h, mx, p, loose);
    }
  }

  lemma StartsAreEnded(cur: seq<Entry>, per: seq<Entry>, slots: seq<Entry>, h: Header, mx: bool, p: Phase,
        loose: set<nat>)
    requires Bounds(slots, h) && IsMaxLap(h, mx) && p.Wiping?
    requires RingOk(cur, per, slots, h, mx, p, loose) && GroupOk(slots, h, mx, p, loose)
    requires !Lap(slots, h, mx).ValidStart(p.lo)
    ensures Bounds(per, h) && forall y :: p.lo <= y && Lap(per, h, mx).ValidStart(y) ==> slots[y].Fin()
  {
    hide Divides, Restored, Unfenced, RingOk, RollsBack;
    WipingFacts(cur, per, slots, h, mx, p, loose);
    GroupShape(slots, h, mx, p.lo, p.hi);
    LeftIn(per, slots, h, mx, p.lo);
    forall y: nat | p.lo <= y && Lap(per, h, mx).ValidStart(y) ensures slots[y].Fin() {
      assert Lap(slots, h, mx).ValidStart(y);
      if !(p.at <= y < p.hi) {
        UnfencedIs(slots, p.lo, FencedTo(p), p.hi, loose, y);
      }
    }
  }

  /** Elsewhere in the scan: what the groups above left counts. */
  lemma CrashSeeking(cur: seq<Entry>, per: seq<Entry>, slots: seq<Entry>, h: Header, mx: bool, p: Phase,
        loose: set<nat>)
    requires Bounds(slots, h) && IsMaxLap(h, mx)
    requires (p.Seek? || p.Undoing? || (p.Sweep? && (h.head <= h.tail || h.gen != MAX_GEN_ID)))
    requires RingOk(cur, per, slots, h, mx, p, loose) && GroupOk(slots, h, mx, p, loose)
    requires SafeOk(slots, h, mx, p, loose)
    requires BetweenGroups(slots, h, p)
    ensures PartlyWiped(slots, per, h, mx, Front(slots, h, mx, p))
    ensures Harmless(slots, per, h, mx, Front(slots, h, mx, p))
  {
    hide Risky, NextSpoiled, Restored, PartlyWiped, Harmless, Unfenced, RollsBack;
    FrontDivides(slots, h, mx, p, loose);
    NotRisky(slots, h, mx, Front(slots, h, mx, p), loose);
    CrashAbove(per, slots, h, mx, Front(slots, h, mx, p), loose);
  }

  lemma FrontDivides(slots: seq<Entry>, h: Header, mx: bool, p: Phase, loose: set<nat>)
    requires Bounds(slots, h) && IsMaxLap(h, mx) && (p.Seek? || p.Undoing? || p.Sweep?)
    requires GroupOk(slots, h, mx, p, loose) && BetweenGroups(slots, h, p)
    ensures Divides(Lap(slots, h, mx), Front(slots, h, mx, p))
  {
    hide RollsBack;
    TopDivides(Lap(slots, h, mx));
  }

  lemma SettledLater(mem: Memory, t: Memory, slots: seq<Entry>, h: Header, mx: bool, p1: nat, p2: nat)
    requires Bounds(slots, h) && Settled(mem, t, slots, h, mx, p1) && p1 <= p2
    ensures Settled(mem, t, slots, h, mx, p2)
  {
    hide Restored;
    forall a | a in t && Untouched(slots, h, !mx, a) && NotBelow(slots, h, mx, p2, a)
      ensures a in mem && mem[a] == t[a]
    {
      assert NotBelow(slots, h, mx, p1, a);
      assert a in mem.Keys;
    }
  }

  /** Wherever the scan is interrupted, recovery from what is left ends with the same memory. */
  lemma MaxScanAgain(r: Recovery, mem0: Memory, slots: seq<Entry>, h: Header, mx: bool, loose: set<nat>)
    requires Fits(r) && Bounds(slots, h) && IsMaxLap(h, mx) && OneWriter(slots, h)
    requires MaxScan(r, mem0, slots, h, mx, loose) && (r.phase.Sweep? ==> h.head <= h.tail || h.gen != MAX_GEN_ID)
    ensures Again(r) == Recover(mem0, slots, h)
  {
    hide RingOk, GroupOk, SafeOk, OneWriter, Recover, Completed, GroupRestored, BetweenGroups, Settled, PartlyWiped,
      Harmless, HarmlessFor, OtherRight;
    OneWriterRight(mem0, slots, h, mx);
    var pos := Front(slots, h, mx, r.phase);
    if r.phase.Wiping? {
      pos := CrashWiping(r.cur.slots, r.per.slots, slots, h, mx, r.phase, loose);
    } else {
      CrashSeeking(r.cur.slots, r.per.slots, slots, h, mx, r.phase, loose);
    }
    SettledLater(r.per.mem, Recover(mem0, slots, h), slots, h, mx, SettledFrom(slots, h, mx, r.phase), pos);
    SettledKeys(r.per.mem, Recover(mem0, slots, h), slots, h, mx, pos);
    WipedFields(slots, r.per.slots, h, mx, pos);
    HarmlessForAny(mem0, slots, r.per.slots, h, mx, pos);
    forall a | a in mem0 ensures Again(r)[a] == Recover(mem0, slots, h)[a] {
      CrashByte(mem0, r.per.mem, slots, r.per.slots, h, mx, pos, a);
    }
  }
}
