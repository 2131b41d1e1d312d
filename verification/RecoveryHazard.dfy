/** When a crash during recovery of a MAX_GEN_ID lap can lose something: the condition on the image, and why
    an image that a crash leaves recovers alike if nothing spoils it. */
module RecoveryHazard {
  import opened JournalRing
  import opened RecoveryGroups
  import opened RecoveryRestart
  import opened RecoverySteps
  import opened UndoRecovery

  /** The lap of MAX_GEN_ID in the image; the log has wrapped if it is the older one. */
  predicate IsMaxLap(h: Header, second: bool) {
    LapGen(h, second) == MAX_GEN_ID && (second ==> h.tail < h.head)
  }

  /** Two slots belong to the same group. */
  ghost predicate SameGroup(s: Segment, i: int, j: int) {
    exists b :: StartOf(s, i, b) && StartOf(s, j, b)
  }

  /** Entries that recovery writes back to a common byte belong to one group: unfinished transactions have
      no byte in common. */
  ghost predicate OneWriter(slots: seq<Entry>, h: Header)
    requires Bounds(slots, h)
  {
    forall l1: bool, l2: bool, i, j, a: nat ::
      Restored(slots, h, l1, i) && Restored(slots, h, l2, j) && slots[i].Covers(a) && slots[j].Covers(a) ==>
        l1 == l2 && SameGroup(Lap(slots, h, l1), i, j)
  }

  // ---- What can be spoiled -----------------------------------------------------------------------------------

  /** The group directly below position pos starts at b and is rolled back. */
  ghost predicate NextOpen(s: Segment, pos: nat, b: int) {
    && b < pos && s.ValidStart(b)
    && (forall j :: b < j < pos ==> !s.ValidStart(j))
    && (forall j :: b <= j < pos ==> !s.ValidFin(j))
  }

  /** Whatever lies above position pos of this lap, recovery writes byte a below it, or in the lap scanned later. */
  ghost predicate DecidedBelow(slots: seq<Entry>, h: Header, second: bool, pos: nat, a: nat)
    requires Bounds(slots, h)
  {
    || (exists i :: i < pos && Restored(slots, h, second, i) && slots[i].Covers(a))
    || (!second && !Untouched(slots, h, true, a))
  }

  /** Entry y, left behind alone above position pos, joins the group that starts at b: a commit or abort keeps it
      from being rolled back, and a data entry is undone with it, wrongly for some byte. */
  ghost predicate Spoils(slots: seq<Entry>, h: Header, second: bool, b: int, pos: nat, y: int)
    requires Bounds(slots, h)
  {
    var s := Lap(slots, h, second);
    && pos <= y && s.Valid(y) && !slots[y].isStart
    && if slots[y].Fin() then exists i :: b <= i < pos && s.Valid(i) && slots[i].data != []
       else exists a: nat ::
           slots[y].Covers(a) && !DecidedBelow(slots, h, second, pos, a) && !Leaves(slots, h, a, Saved(slots[y], a))
  }

  ghost predicate NextSpoiled(slots: seq<Entry>, h: Header, second: bool, pos: nat, ys: set<nat>)
    requires Bounds(slots, h)
  {
    exists b, y :: NextOpen(Lap(slots, h, second), pos, b) && y in ys && Spoils(slots, h, second, b, pos, y)
  }

  /** Slots lo to hi - 1. */
  ghost function Slots(lo: nat, hi: nat): (r: set<nat>)
    ensures forall i: nat :: i in r <==> lo <= i < hi
  {
    if hi <= lo then {} else Slots(lo, hi - 1) + {hi - 1}
  }

  /** Slots that may still be valid in persistent memory when the group [k..hi) has been wiped up to slot upto
      and the last barrier due has been passed; `loose` are those that the groups above left. */
  ghost function Unfenced(slots: seq<Entry>, k: nat, upto: nat, hi: nat, loose: set<nat>): set<nat>
    requires upto <= hi <= |slots|
  {
    if exists x :: k <= x < upto && PlainStart(slots[x])
    then set i | i in Slots(k, hi) && forall x :: i <= x < upto ==> !PlainStart(slots[x])
    else loose + Slots(k, hi)
  }

  /** Slots of the group [k..hi) that can be the lowest one left while the group is being wiped. */
  ghost function Leftover(slots: seq<Entry>, k: nat, hi: nat, g: nat): set<nat>
    requires k < hi <= |slots|
  {
    if HasFin(slots, k, hi, g) then {hi - 1} else Slots(k + 1, hi)
  }

  /** From position hi down, some group can be spoiled by what is left of the ones above it. */
  ghost predicate Risky(slots: seq<Entry>, h: Header, second: bool, hi: nat, loose: set<nat>)
    requires Bounds(slots, h) && Floor(h, second) <= hi <= |slots|
    decreases hi
  {
    var g, lo := LapGen(h, second), Floor(h, second);
    if hi == lo then false
    else if slots[hi - 1].gen != g then Risky(slots, h, second, hi - 1, loose)
    else
      var k := WalkBack(slots, lo, hi - 1, g);
      || NextSpoiled(slots, h, second, hi, loose)
      || NextSpoiled(slots, h, second, k, Leftover(slots, k, hi, g))
      || Risky(slots, h, second, k, Unfenced(slots, k, hi, hi, loose))
  }

  /** Some group of the MAX_GEN_ID lap can be spoiled while the lap is wiped. */
  ghost predicate ScanRisk(slots: seq<Entry>, h: Header)
    requires Bounds(slots, h)
  {
    exists second :: IsMaxLap(h, second) && Risky(slots, h, second, Lap(slots, h, second).hi, {})
  }

  /** Entry i of the older lap has a start below it and saved another value of byte a than recovery leaves. */
  ghost predicate WrongInOlderLap(slots: seq<Entry>, h: Header, b: int, i: int, a: nat)
    requires Bounds(slots, h)
  {
    var s := Lap(slots, h, true);
    && b <= i && s.ValidStart(b) && !slots[b].Fin() && s.Valid(i) && !slots[i].Fin() && slots[i].Covers(a)
    && !Leaves(slots, h, a, Saved(slots[i], a))
  }

  /** Entry i of the older lap, left behind with that start alone, is undone, wrongly for byte a. */
  ghost predicate LeftInOlderLap(slots: seq<Entry>, h: Header, b: int, i: int, a: nat)
    requires Bounds(slots, h)
  {
    WrongInOlderLap(slots, h, b, i, a) && (b == i || !slots[b].Covers(a))
  }

  /** In the last lap before the generation wraps, the slots behind the tail are wiped without a barrier after the
      older lap's undo: that loses a rollback, or the end of a transaction. */
  ghost predicate SweepRisk(slots: seq<Entry>, h: Header)
    requires Bounds(slots, h)
  {
    && h.gen == MAX_GEN_ID && h.tail < h.head
    && (|| (exists i :: Restored(slots, h, true, i) && slots[i].data != [])
        || (exists b, i, a :: LeftInOlderLap(slots, h, b, i, a)))
  }

  /** Some slots of the ring have been wiped. */
  ghost predicate SomeWiped(slots: seq<Entry>, p: seq<Entry>) {
    |p| == |slots| && forall i :: 0 <= i < |slots| ==> p[i] == slots[i] || p[i] == slots[i].(gen := 0)
  }

  // ---- An image with part of the lap wiped ----------------------------------------------------------------

  /** Slots of the other lap. */
  ghost predicate OtherLapSame(slots: seq<Entry>, p: seq<Entry>, h: Header, second: bool)
    requires Bounds(slots, h) && |p| == |slots|
  {
    var s := Lap(slots, h, !second);
    forall i :: s.lo <= i < s.hi ==> p[i] == slots[i]
  }

  /** p is the ring with the lap wiped in part from slot pos on, without a plain start left there. */
  ghost predicate PartlyWiped(slots: seq<Entry>, p: seq<Entry>, h: Header, second: bool, pos: nat)
    requires Bounds(slots, h)
  {
    && SomeWiped(slots, p) && OtherLapSame(slots, p, h, second)
    && Lap(slots, h, second).lo <= pos <= Lap(slots, h, second).hi && Divides(Lap(slots, h, second), pos)
    && (forall i :: Lap(slots, h, second).lo <= i < pos ==> p[i] == slots[i])
    && (forall y :: pos <= y && Lap(p, h, second).ValidStart(y) ==> slots[y].Fin())
  }

  /** Everything below pos that has something to restore is still undone. */
  ghost predicate KeptBelow(slots: seq<Entry>, p: seq<Entry>, h: Header, second: bool, pos: nat)
    requires Bounds(slots, h) && |p| == |slots|
  {
    forall i :: i < pos && Restored(slots, h, second, i) && slots[i].data != [] ==> Restored(p, h, second, i)
  }

  /** Every entry from pos on that would now be undone is harmless, and everything below that has something to
      restore is still undone. */
  ghost predicate Harmless(slots: seq<Entry>, p: seq<Entry>, h: Header, second: bool, pos: nat)
    requires Bounds(slots, h) && |p| == |slots|
  {
    && (forall y, a: nat :: pos <= y && Restored(p, h, second, y) && y < |slots| && slots[y].Covers(a) ==>
          DecidedBelow(slots, h, second, pos, a) || Leaves(slots, h, a, Saved(slots[y], a)))
    && KeptBelow(slots, p, h, second, pos)
  }

  /** The same, for the memory t that recovery is to end with: what would now be undone saved the values of t. */
  ghost predicate HarmlessFor(t: Memory, slots: seq<Entry>, p: seq<Entry>, h: Header, second: bool, pos: nat)
    requires Bounds(slots, h) && |p| == |slots|
  {
    && (forall y, a: nat :: pos <= y && Restored(p, h, second, y) && y < |slots| && slots[y].Covers(a) && a in t ==>
          DecidedBelow(slots, h, second, pos, a) || Saved(slots[y], a) == t[a])
    && KeptBelow(slots, p, h, second, pos)
  }

  lemma HarmlessForAny(mem0: Memory, slots: seq<Entry>, p: seq<Entry>, h: Header, second: bool, pos: nat)
    requires Bounds(slots, h) && |p| == |slots| && Harmless(slots, p, h, second, pos)
    ensures HarmlessFor(Recover(mem0, slots, h), slots, p, h, second, pos)
  {
    hide Restored, DecidedBelow, Leaves, KeptBelow, Recover;
    var t := Recover(mem0, slots, h);
    forall y, a: nat | pos <= y && Restored(p, h, second, y) && y < |slots| && slots[y].Covers(a) && a in t
      ensures DecidedBelow(slots, h, second, pos, a) || Saved(slots[y], a) == t[a]
    {
      if !DecidedBelow(slots, h, second, pos, a) {
        assert a in mem0.Keys;
        LeavesValue(mem0, slots, h, a, Saved(slots[y], a));
      }
    }
  }

  /** Where the other lap writes, its value is the one that recovery is to end with. */
  ghost predicate OtherRight(t: Memory, slots: seq<Entry>, h: Header, second: bool)
    requires Bounds(slots, h)
  {
    forall i, a: nat :: LastOn(slots, h, !second, i, a) && 0 <= i < |slots| && slots[i].Covers(a) && a in t ==>
      Saved(slots[i], a) == t[a]
  }

  lemma OneWriterRight(mem0: Memory, slots: seq<Entry>, h: Header, second: bool)
    requires Bounds(slots, h) && OneWriter(slots, h)
    ensures OtherRight(Recover(mem0, slots, h), slots, h, second)
  {
    hide OneWriter, Recover, LastOn, Untouched;
    var t := Recover(mem0, slots, h);
    forall i, a: nat | LastOn(slots, h, !second, i, a) && 0 <= i < |slots| && slots[i].Covers(a) && a in t
      ensures Saved(slots[i], a) == t[a]
    {
      assert a in mem0.Keys;
      if second {
        WritesByte(slots, h, false, i, a);
        OnlyOneLap(slots, h, true, a);
      }
      LeavesLast(slots, h, !second, i, a);
      LeavesValue(mem0, slots, h, a, Saved(slots[i], a));
    }
  }

  lemma WritesByte(slots: seq<Entry>, h: Header, second: bool, i: int, a: nat)
    requires Bounds(slots, h) && LastOn(slots, h, second, i, a)
    ensures !Untouched(slots, h, second, a)
  {
  }

  ghost predicate NotBelow(slots: seq<Entry>, h: Header, second: bool, pos: nat, a: nat)
    requires Bounds(slots, h)
  {
    forall i :: i < pos && Restored(slots, h, second, i) ==> !slots[i].Covers(a)
  }

  /** Bytes that nothing below pos and nothing in the other lap restores are as recovery leaves them. */
  ghost predicate Settled(mem: Memory, t: Memory, slots: seq<Entry>, h: Header, second: bool, pos: nat)
    requires Bounds(slots, h)
  {
    && mem.Keys == t.Keys
    && forall a :: a in t && Untouched(slots, h, !second, a) && NotBelow(slots, h, second, pos, a) ==> mem[a] == t[a]
  }

  lemma SameLap(slots: seq<Entry>, p: seq<Entry>, h: Header, second: bool)
    requires Bounds(slots, h) && |p| == |slots|
    requires var s := Lap(slots, h, second); forall i :: s.lo <= i < s.hi ==> p[i] == slots[i]
    ensures forall i :: Restored(p, h, second, i) <==> Restored(slots, h, second, i)
  {
    var s, s' := Lap(slots, h, second), Lap(p, h, second);
    assert forall j :: s.Valid(j) <==> s'.Valid(j);
    assert forall j :: s.ValidStart(j) <==> s'.ValidStart(j);
    assert forall j :: s.ValidFin(j) <==> s'.ValidFin(j);
    forall i ensures Undoes(s', i) <==> Undoes(s, i) {
      assert forall b :: StartOf(s, i, b) <==> StartOf(s', i, b);
      assert forall f :: FinAt(s, i, f) <==> FinAt(s', i, f);
    }
  }

  /** Below pos the two rings agree; above it the second has no valid slot that the first has not. */
  lemma BelowSame(slots: seq<Entry>, p: seq<Entry>, h: Header, second: bool, pos: nat)
    requires Bounds(slots, h) && PartlyWiped(slots, p, h, second, pos) && LapGen(h, second) == MAX_GEN_ID
    ensures |p| == |slots|
    ensures var s, s' := Lap(slots, h, second), Lap(p, h, second);
      && s'.lo == s.lo && s'.hi == s.hi
      && (forall j :: j < pos ==> (s.Valid(j) <==> s'.Valid(j)))
      && (forall j :: j < pos ==> (s.ValidStart(j) <==> s'.ValidStart(j)))
      && (forall j :: j < pos ==> (s.ValidFin(j) <==> s'.ValidFin(j)))
      && (forall j :: s'.Valid(j) ==> s.Valid(j) && p[j] == slots[j])
  {
  }

  /** Below pos nothing new is undone. */
  lemma NothingNewBelow(slots: seq<Entry>, p: seq<Entry>, h: Header, second: bool, pos: nat, j: int)
    requires Bounds(slots, h) && PartlyWiped(slots, p, h, second, pos) && LapGen(h, second) == MAX_GEN_ID
    requires j < pos && Restored(p, h, second, j)
    ensures Restored(slots, h, second, j)
  {
    hide PartlyWiped;
    BelowSame(slots, p, h, second, pos);
    CutHere(slots, p, h, second, pos);
    var s, s' := Lap(slots, h, second), Lap(p, h, second);
    var b :| StartOf(s', j, b);
    assert StartOf(s, j, b);
    assert forall f :: f < pos ==> (FinAt(s, j, f) <==> FinAt(s', j, f));
    forall f ensures !FinAt(s, j, f) {
      if FinAt(s, j, f) {
        var f' := FinBelow(s, pos, j, f);
      }
    }
  }

  lemma CutHere(slots: seq<Entry>, p: seq<Entry>, h: Header, second: bool, pos: nat)
    requires Bounds(slots, h) && PartlyWiped(slots, p, h, second, pos)
    ensures Divides(Lap(slots, h, second), pos)
  {
  }

  lemma FinBelow(s: Segment, pos: nat, j: int, f: int) returns (f': int)
    requires Divides(s, pos) && s.Valid(j) && j < pos && FinAt(s, j, f)
    ensures f' < pos && FinAt(s, j, f')
  {
    if f < pos {
      f' := f;
    } else {
      f' :| f' < pos && FinAt(s, j, f');
    }
  }

  /** What belongs to the open group directly below pos is restored. */
  lemma OpenIsRestored(slots: seq<Entry>, h: Header, mx: bool, pos: nat, b: int, i: int)
    requires Bounds(slots, h) && NextOpen(Lap(slots, h, mx), pos, b) && Divides(Lap(slots, h, mx), pos)
    requires b <= i < pos && Lap(slots, h, mx).Valid(i)
    ensures Restored(slots, h, mx, i) && StartOf(Lap(slots, h, mx), i, b)
  {
    var s := Lap(slots, h, mx);
    assert StartOf(s, i, b);
    forall f ensures !FinAt(s, i, f) {
      if FinAt(s, i, f) {
        var j: nat := i;
        var f' := FinBelow(s, pos, j, f);
      }
    }
  }

  // ---- One byte after the crash ------------------------------------------------------------------------------

  /** What the lap's later part and the scan order decide is decided alike in the wiped ring. */
  lemma BelowDecides(slots: seq<Entry>, p: seq<Entry>, h: Header, second: bool, pos: nat, i: nat, a: nat)
    returns (m: nat)
    requires Bounds(slots, h) && PartlyWiped(slots, p, h, second, pos) && LapGen(h, second) == MAX_GEN_ID
    requires KeptBelow(slots, p, h, second, pos)
    requires i < pos && Restored(slots, h, second, i) && i < |slots| && slots[i].Covers(a)
    ensures m < pos && m < |slots| && slots[m].Covers(a) && p[m] == slots[m]
    ensures LastOn(slots, h, second, m, a) && LastOn(p, h, second, m, a)
  {
    hide Restored, PartlyWiped;
    BelowSame(slots, p, h, second, pos);
    m := LastExists(slots, h, second, i, a);
    RestoredBounds(slots, h, second, m);
    BelowIsKept(slots, p, h, second, pos, m);
    forall j | j < m && Restored(p, h, second, j) ensures 0 <= j < |p| && !p[j].Covers(a) {
      NothingNewBelow(slots, p, h, second, pos, j);
      RestoredBounds(slots, h, second, j);
      BelowIsKept(slots, p, h, second, pos, j);
    }
  }

  lemma BelowIsKept(slots: seq<Entry>, p: seq<Entry>, h: Header, second: bool, pos: nat, j: nat)
    requires Bounds(slots, h) && PartlyWiped(slots, p, h, second, pos) && Lap(slots, h, second).lo <= j < pos
    ensures j < |slots| && p[j] == slots[j]
  {
  }

  lemma WipedFields(slots: seq<Entry>, p: seq<Entry>, h: Header, second: bool, pos: nat)
    requires Bounds(slots, h) && PartlyWiped(slots, p, h, second, pos)
    ensures |p| == |slots|
    ensures forall i :: 0 <= i < |slots| ==> p[i].addr == slots[i].addr && p[i].data == slots[i].data
  {
  }

  lemma OtherSame(slots: seq<Entry>, p: seq<Entry>, h: Header, second: bool, other: bool, pos: nat)
    requires Bounds(slots, h) && PartlyWiped(slots, p, h, second, pos) && other == !second
    ensures |p| == |slots| && forall i :: Restored(p, h, other, i) <==> Restored(slots, h, other, i)
  {
    SameLap(slots, p, h, other);
  }

  /** In the other lap the same entry decides. */
  lemma OtherDecides(slots: seq<Entry>, p: seq<Entry>, h: Header, second: bool, other: bool, pos: nat, a: nat)
    returns (m: nat)
    requires Bounds(slots, h) && PartlyWiped(slots, p, h, second, pos) && other == !second
    requires !Untouched(slots, h, other, a)
    ensures m < |slots| && slots[m].Covers(a) && |p| == |slots| && p[m].Covers(a)
    ensures Saved(p[m], a) == Saved(slots[m], a)
    ensures LastOn(slots, h, other, m, a) && LastOn(p, h, other, m, a)
  {
    hide Restored, PartlyWiped;
    WipedFields(slots, p, h, second, pos);
    OtherSame(slots, p, h, second, other, pos);
    var i := Toucher(slots, h, other, a);
    m := LastExists(slots, h, other, i, a);
    forall j | j < m && Restored(p, h, other, j) ensures 0 <= j < |p| && !p[j].Covers(a) {
      RestoredBounds(slots, h, other, j);
    }
  }

  lemma OtherUntouched(slots: seq<Entry>, p: seq<Entry>, h: Header, second: bool, other: bool, pos: nat, a: nat)
    requires Bounds(slots, h) && PartlyWiped(slots, p, h, second, pos) && other == !second
    ensures |p| == |slots| && (Untouched(p, h, other, a) <==> Untouched(slots, h, other, a))
  {
    hide Restored, PartlyWiped;
    WipedFields(slots, p, h, second, pos);
    OtherSame(slots, p, h, second, other, pos);
    forall i | Restored(slots, h, other, i) ensures 0 <= i < |slots| && p[i].Covers(a) == slots[i].Covers(a) {
      RestoredBounds(slots, h, other, i);
    }
  }

  lemma SettledKeys(mem: Memory, t: Memory, slots: seq<Entry>, h: Header, second: bool, pos: nat)
    requires Bounds(slots, h) && Settled(mem, t, slots, h, second, pos)
    ensures mem.Keys == t.Keys
  {
  }

  lemma SettledByte(mem: Memory, t: Memory, slots: seq<Entry>, h: Header, second: bool, pos: nat, a: nat)
    requires Bounds(slots, h) && Settled(mem, t, slots, h, second, pos) && a in t
    requires Untouched(slots, h, !second, a) && NotBelow(slots, h, second, pos, a)
    ensures a in mem && mem[a] == t[a]
  {
    hide Restored, Untouched;
    assert a in mem.Keys;
  }

  lemma StaysUntouched(mem: Memory, slots: seq<Entry>, h: Header, l1: bool, l2: bool, a: nat)
    requires Bounds(slots, h) && a in mem && l1 != l2 && Untouched(slots, h, l1, a) && Untouched(slots, h, l2, a)
    ensures Recover(mem, slots, h)[a] == mem[a]
  {
    hide Restored;
    StaysValue(mem, slots, h, a);
  }

  lemma Below(slots: seq<Entry>, h: Header, second: bool, pos: nat, a: nat) returns (i: nat)
    requires Bounds(slots, h) && !NotBelow(slots, h, second, pos, a)
    ensures i < pos && Restored(slots, h, second, i) && i < |slots| && slots[i].Covers(a)
  {
    var j :| j < pos && Restored(slots, h, second, j) && slots[j].Covers(a);
    i := j;
  }

  /** The same entry decides before and after. */
  lemma DecidedAlike(mem0: Memory, mem: Memory, slots: seq<Entry>, p: seq<Entry>, h: Header, lap: bool, m: nat, a: nat)
    requires Bounds(slots, h) && |p| == |slots| && a in mem0 && a in mem && m < |slots|
    requires LastOn(slots, h, lap, m, a) && LastOn(p, h, lap, m, a)
    requires slots[m].Covers(a) && p[m].Covers(a) && Saved(p[m], a) == Saved(slots[m], a)
    requires lap || (Untouched(slots, h, true, a) && Untouched(p, h, true, a))
    ensures Recover(mem, p, h)[a] == Recover(mem0, slots, h)[a]
  {
    hide Restored, Untouched, LastOn, Leaves, Recover;
    LeavesLast(slots, h, lap, m, a);
    LeavesLast(p, h, lap, m, a);
    LeavesValue(mem0, slots, h, a, Saved(slots[m], a));
    LeavesValue(mem, p, h, a, Saved(slots[m], a));
  }

  /** A byte is written back in one of the laps only. */
  lemma OnlyOneLap(slots: seq<Entry>, h: Header, second: bool, a: nat)
    requires Bounds(slots, h) && OneWriter(slots, h) && !Untouched(slots, h, !second, a)
    ensures Untouched(slots, h, second, a)
  {
    hide SameGroup;
    var i := Toucher(slots, h, !second, a);
    forall j | Restored(slots, h, second, j) ensures !slots[j].Covers(a) {
    }
  }

  /** An entry from pos on decides, but harmlessly. */
  lemma AboveDecides(t: Memory, mem: Memory, slots: seq<Entry>, p: seq<Entry>, h: Header, second: bool, pos: nat,
        a: nat)
    requires Bounds(slots, h) && PartlyWiped(slots, p, h, second, pos) && IsMaxLap(h, second) && a in t && a in mem
    requires HarmlessFor(t, slots, p, h, second, pos) && NotBelow(slots, h, second, pos, a)
    requires !Untouched(p, h, second, a)
    requires second || (Untouched(slots, h, true, a) && Untouched(p, h, true, a))
    ensures Recover(mem, p, h)[a] == t[a]
  {
    hide Restored, PartlyWiped, Untouched, Leaves, Recover, KeptBelow;
    WipedFields(slots, p, h, second, pos);
    var y := Toucher(p, h, second, a);
    var m := LastExists(p, h, second, y, a);
    LastBounds(p, h, second, m, a);
    if m < pos {
      NothingNewBelow(slots, p, h, second, pos, m);
    }
    assert slots[m].Covers(a) && Saved(p[m], a) == Saved(slots[m], a);
    NotDecidedBelow(slots, h, second, pos, a);
    LeavesLast(p, h, second, m, a);
    LeavesValue(mem, p, h, a, Saved(slots[m], a));
  }

  lemma NotDecidedBelow(slots: seq<Entry>, h: Header, second: bool, pos: nat, a: nat)
    requires Bounds(slots, h) && NotBelow(slots, h, second, pos, a) && (second || Untouched(slots, h, true, a))
    ensures !DecidedBelow(slots, h, second, pos, a)
  {
  }

  lemma Kept(t: Memory, slots: seq<Entry>, p: seq<Entry>, h: Header, second: bool, pos: nat)
    requires Bounds(slots, h) && |p| == |slots| && HarmlessFor(t, slots, p, h, second, pos)
    ensures KeptBelow(slots, p, h, second, pos)
  {
  }

  /** Byte a is recovered from the crash image as it would have been. */
  lemma CrashByte(mem0: Memory, mem: Memory, slots: seq<Entry>, p: seq<Entry>, h: Header, second: bool, pos: nat,
        a: nat)
    requires Bounds(slots, h) && PartlyWiped(slots, p, h, second, pos) && IsMaxLap(h, second) && a in mem0
    requires var t := Recover(mem0, slots, h);
      HarmlessFor(t, slots, p, h, second, pos) && Settled(mem, t, slots, h, second, pos) &&
        OtherRight(t, slots, h, second)
    ensures Recover(mem, p, h)[a] == Recover(mem0, slots, h)[a]
  {
    hide Restored, PartlyWiped, HarmlessFor, Settled, Recover, LastOn, Untouched, KeptBelow;
    var t := Recover(mem0, slots, h);
    SettledKeys(mem, t, slots, h, second, pos);
    assert a in mem.Keys;
    WipedFields(slots, p, h, second, pos);
    Kept(t, slots, p, h, second, pos);
    OtherUntouched(slots, p, h, second, !second, pos, a);
    if !second && !Untouched(slots, h, true, a) {
      var m := OtherDecides(slots, p, h, second, !second, pos, a);
      DecidedAlike(mem0, mem, slots, p, h, true, m, a);
    } else if !NotBelow(slots, h, second, pos, a) {
      var i := Below(slots, h, second, pos, a);
      var m := BelowDecides(slots, p, h, second, pos, i, a);
      DecidedAlike(mem0, mem, slots, p, h, second, m, a);
    } else if !Untouched(p, h, second, a) {
      AboveDecides(t, mem, slots, p, h, second, pos, a);
    } else if !Untouched(slots, h, !second, a) {
      var m := OtherDecides(slots, p, h, second, !second, pos, a);
      LeavesLast(p, h, !second, m, a);
      LeavesValue(mem, p, h, a, Saved(p[m], a));
    } else {
      StaysUntouched(mem, p, h, second, !second, a);
      SettledByte(mem, t, slots, h, second, pos, a);
    }
  }

  // ---- What the condition excludes -------------------------------------------------------------------------

  /** Everything left that would be undone is in ys. */
  ghost predicate UndoneAmong(p: seq<Entry>, h: Header, second: bool, pos: nat, ys: set<nat>)
    requires Bounds(p, h)
  {
    forall y: nat :: pos <= y && Restored(p, h, second, y) ==> y in ys
  }

  /** If a commit or abort that is left keeps an entry below from being undone, then one in ys does. */
  ghost predicate ClosedIn(slots: seq<Entry>, p: seq<Entry>, h: Header, second: bool, pos: nat, ys: set<nat>)
    requires Bounds(slots, h) && Bounds(p, h)
  {
    forall i, f :: i < pos <= f && Restored(slots, h, second, i) && FinAt(Lap(p, h, second), i, f) ==>
      exists f': nat :: f' in ys && pos <= f' && FinAt(Lap(p, h, second), i, f')
  }

  lemma NothingSpoiled(slots: seq<Entry>, p: seq<Entry>, h: Header, second: bool, pos: nat, ys: set<nat>)
    requires Bounds(slots, h) && PartlyWiped(slots, p, h, second, pos) && IsMaxLap(h, second) && Bounds(p, h)
    requires !NextSpoiled(slots, h, second, pos, ys)
    requires UndoneAmong(p, h, second, pos, ys) && ClosedIn(slots, p, h, second, pos, ys)
    ensures Harmless(slots, p, h, second, pos)
  {
    hide Restored, PartlyWiped, NextSpoiled, UndoneAmong, ClosedIn, Leaves, DecidedBelow;
    BelowSame(slots, p, h, second, pos);
    forall y, a: nat | pos <= y && Restored(p, h, second, y) && y < |slots| && slots[y].Covers(a)
      ensures DecidedBelow(slots, h, second, pos, a) || Leaves(slots, h, a, Saved(slots[y], a))
    {
      UndoneHarmless(slots, p, h, second, pos, ys, y, a);
    }
    forall i | i < pos && Restored(slots, h, second, i)
      ensures 0 <= i < |slots| && (slots[i].data != [] ==> Restored(p, h, second, i))
    {
      RestoredBounds(slots, h, second, i);
      if slots[i].data != [] {
        StillUndone(slots, p, h, second, pos, ys, i);
      }
    }
  }

  lemma UndoneHarmless(slots: seq<Entry>, p: seq<Entry>, h: Header, second: bool, pos: nat, ys: set<nat>, y: nat,
        a: nat)
    requires Bounds(slots, h) && PartlyWiped(slots, p, h, second, pos) && IsMaxLap(h, second) && Bounds(p, h)
    requires !NextSpoiled(slots, h, second, pos, ys) && UndoneAmong(p, h, second, pos, ys)
    requires pos <= y && Restored(p, h, second, y) && y < |slots| && slots[y].Covers(a)
    ensures DecidedBelow(slots, h, second, pos, a) || Leaves(slots, h, a, Saved(slots[y], a))
  {
    hide Leaves, DecidedBelow, Undoes;
    var b := JoinsOpen(slots, p, h, second, pos, y);
    if !DecidedBelow(slots, h, second, pos, a) && !Leaves(slots, h, a, Saved(slots[y], a)) {
      DataSpoils(slots, h, second, b, pos, ys, y, a);
    }
  }

  lemma DataSpoils(slots: seq<Entry>, h: Header, second: bool, b: int, pos: nat, ys: set<nat>, y: nat, a: nat)
    requires Bounds(slots, h) && NextOpen(Lap(slots, h, second), pos, b) && y in ys && pos <= y < |slots|
    requires Lap(slots, h, second).Valid(y) && !slots[y].isStart && !slots[y].Fin() && slots[y].Covers(a)
    requires !DecidedBelow(slots, h, second, pos, a) && !Leaves(slots, h, a, Saved(slots[y], a))
    ensures Spoils(slots, h, second, b, pos, y) && NextSpoiled(slots, h, second, pos, ys)
  {
    hide Leaves, DecidedBelow;
    assert Spoils(slots, h, second, b, pos, y);
  }

  /** What is left from pos on and would be undone has joined the open group below. */
  lemma JoinsOpen(slots: seq<Entry>, p: seq<Entry>, h: Header, second: bool, pos: nat, y: nat) returns (b: int)
    requires Bounds(slots, h) && PartlyWiped(slots, p, h, second, pos) && IsMaxLap(h, second) && Bounds(p, h)
    requires pos <= y && Restored(p, h, second, y)
    ensures NextOpen(Lap(slots, h, second), pos, b) && y < |slots|
    ensures Lap(slots, h, second).Valid(y) && !slots[y].isStart && !slots[y].Fin()
  {
    hide PartlyWiped;
    BelowSame(slots, p, h, second, pos);
    NoStartLeft(slots, p, h, second, pos);
    var s, s' := Lap(slots, h, second), Lap(p, h, second);
    b :| StartOf(s', y, b);
    assert !FinAt(s', y, y);
    assert b >= pos ==> s'.ValidFin(b);
    assert !s'.ValidStart(y);
  }

  lemma NoStartLeft(slots: seq<Entry>, p: seq<Entry>, h: Header, second: bool, pos: nat)
    requires Bounds(slots, h) && PartlyWiped(slots, p, h, second, pos)
    ensures Bounds(p, h) && forall y :: pos <= y && Lap(p, h, second).ValidStart(y) ==> slots[y].Fin()
  {
  }

  lemma StillUndone(slots: seq<Entry>, p: seq<Entry>, h: Header, second: bool, pos: nat, ys: set<nat>, i: int)
    requires Bounds(slots, h) && PartlyWiped(slots, p, h, second, pos) && IsMaxLap(h, second) && Bounds(p, h)
    requires !NextSpoiled(slots, h, second, pos, ys) && ClosedIn(slots, p, h, second, pos, ys)
    requires i < pos && Restored(slots, h, second, i) && 0 <= i < |slots| && slots[i].data != []
    ensures Restored(p, h, second, i)
  {
    hide PartlyWiped, NextSpoiled, ClosedIn;
    BelowSame(slots, p, h, second, pos);
    var s, s' := Lap(slots, h, second), Lap(p, h, second);
    var b :| StartOf(s, i, b);
    assert StartOf(s', i, b);
    assert forall f :: f < pos ==> (FinAt(s, i, f) <==> FinAt(s', i, f));
    forall f ensures !FinAt(s', i, f) {
      if FinAt(s', i, f) {
        ClosedSpoils(slots, p, h, second, pos, ys, i, b, f);
      }
    }
  }

  lemma ClosedSpoils(slots: seq<Entry>, p: seq<Entry>, h: Header, second: bool, pos: nat, ys: set<nat>, i: int, b: int,
        f: int)
    requires Bounds(slots, h) && PartlyWiped(slots, p, h, second, pos) && IsMaxLap(h, second) && Bounds(p, h)
    requires ClosedIn(slots, p, h, second, pos, ys)
    requires 0 <= i < pos <= f && Restored(slots, h, second, i) && i < |slots| && slots[i].data != []
    requires StartOf(Lap(slots, h, second), i, b) && FinAt(Lap(p, h, second), i, f)
    ensures NextSpoiled(slots, h, second, pos, ys)
  {
    hide PartlyWiped;
    BelowSame(slots, p, h, second, pos);
    var s, s' := Lap(slots, h, second), Lap(p, h, second);
    var f': nat :| f' in ys && pos <= f' && FinAt(s', i, f');
    assert forall j :: i <= j < pos ==> (s.ValidFin(j) ==> FinAt(s, i, j));
    assert NextOpen(s, pos, b);
    assert !s'.ValidStart(f');
    assert Spoils(slots, h, second, b, pos, f');
  }
}
