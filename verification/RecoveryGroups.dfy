/** Which entries recovery undoes, slot by slot, and what it leaves in one byte. */
module RecoveryGroups {
  import opened JournalRing
  import opened UndoRecovery

  // ---- The slots around one slot -------------------------------------------------------------------

  /** Going down from slot i, the first start or end entry met is the start at b. */
  ghost predicate StartOf(s: Segment, i: int, b: int) {
    && b <= i && s.ValidStart(b)
    && (forall j :: b < j <= i ==> !s.ValidStart(j))
    && (forall j :: b <= j < i ==> !s.ValidFin(j))
  }

  /** Going up from slot i, the end entry at f is met before another start. */
  ghost predicate FinAt(s: Segment, i: int, f: int) {
    i <= f && s.ValidFin(f) && forall j :: i < j <= f ==> !s.ValidStart(j)
  }

  /** Recovery writes slot i back: there is a start below it and no commit or abort above it. */
  ghost predicate Undoes(s: Segment, i: int) {
    && s.Valid(i)
    && (exists b :: StartOf(s, i, b))
    && (forall f :: !FinAt(s, i, f))
  }

  function Upto(s: Segment, hi: nat): Segment {
    s.(hi := hi)
  }

  /** The scan's view: the slots from lo to hi, cut off at hi. */
  lemma {:induction false} UndoneIsLocal(slots: seq<Entry>, lo: nat, hi: nat, g: nat, i: nat)
    requires lo <= hi <= |slots|
    ensures i in UndoneSlots(slots, lo, hi, g) <==> Undoes(Segment(slots, lo, hi, g), i)
    decreases hi
  {
    hide Undoes, UndoneSlots;
    var s := Segment(slots, lo, hi, g);
    UndoneUnfolds(slots, lo, hi, g, i);
    if hi == lo {
      NotUndone(s, i);
    } else if slots[hi - 1].gen != g {
      UndoneIsLocal(slots, lo, hi - 1, g, i);
      StaleTop(s, i);
    } else {
      var k := WalkBack(slots, lo, hi - 1, g);
      WalkBackStops(slots, lo, hi - 1, g);
      if i < k {
        UndoneIsLocal(slots, lo, k, g, i);
        BelowGroup(s, k, i);
      } else {
        UndoneAbove(slots, lo, k, g, i);
        InGroup(s, k, i);
      }
    }
  }

  lemma NotUndone(s: Segment, i: int)
    requires s.hi == s.lo
    ensures !Undoes(s, i)
  {
  }

  lemma UndoneUnfolds(slots: seq<Entry>, lo: nat, hi: nat, g: nat, i: nat)
    requires lo <= hi <= |slots|
    ensures i in UndoneSlots(slots, lo, hi, g) <==>
      && lo < hi
      && if slots[hi - 1].gen != g then i in UndoneSlots(slots, lo, hi - 1, g)
         else
           var k := WalkBack(slots, lo, hi - 1, g);
           (RollsBack(slots, k, hi, g) && k <= i < hi && slots[i].gen == g) || i in UndoneSlots(slots, lo, k, g)
  {
  }

  lemma UndoneAbove(slots: seq<Entry>, lo: nat, hi: nat, g: nat, i: nat)
    requires lo <= hi <= |slots| && hi <= i
    ensures i !in UndoneSlots(slots, lo, hi, g)
  {
  }

  lemma StaleTop(s: Segment, i: int)
    requires s.lo < s.hi <= |s.slots| && !s.Valid(s.hi - 1)
    ensures Undoes(s, i) <==> Undoes(Upto(s, s.hi - 1), i)
  {
    var t := Upto(s, s.hi - 1);
    assert forall j :: s.Valid(j) <==> t.Valid(j);
    assert forall j :: s.ValidStart(j) <==> t.ValidStart(j);
    assert forall j :: s.ValidFin(j) <==> t.ValidFin(j);
    assert forall b :: StartOf(s, i, b) <==> StartOf(t, i, b);
    assert forall f :: FinAt(s, i, f) <==> FinAt(t, i, f);
  }

  /** Nothing above a group's first slot matters below it. */
  lemma BelowGroup(s: Segment, k: nat, i: int)
    requires s.lo <= k < s.hi <= |s.slots| && i < k
    requires s.ValidStart(k) || k == s.lo || s.ValidFin(k - 1)
    ensures Undoes(s, i) <==> Undoes(Upto(s, k), i)
  {
    var t := Upto(s, k);
    assert forall j :: t.Valid(j) <==> s.Valid(j) && j < k;
    assert forall j :: t.ValidStart(j) <==> s.ValidStart(j) && j < k;
    assert forall j :: t.ValidFin(j) <==> s.ValidFin(j) && j < k;
    assert forall b :: StartOf(s, i, b) <==> StartOf(t, i, b);
    forall f | FinAt(s, i, f) && s.Valid(i) ensures exists f' :: FinAt(t, i, f') {
      if f < k {
        assert FinAt(t, i, f);
      } else if s.ValidFin(k - 1) {
        assert FinAt(t, i, k - 1);
      }
    }
    assert forall f :: FinAt(t, i, f) ==> FinAt(s, i, f);
  }

  lemma InGroup(s: Segment, k: nat, i: int)
    requires s.lo <= k <= i && s.lo < s.hi <= |s.slots| && s.Valid(s.hi - 1) && k < s.hi
    requires forall j :: k < j <= s.hi - 1 && s.Valid(j) ==> !s.slots[j].isStart
    requires forall j :: k <= j < s.hi - 1 && s.Valid(j) ==> !s.slots[j].Fin()
    requires s.ValidStart(k) || k == s.lo || s.ValidFin(k - 1)
    ensures Undoes(s, i) <==> RollsBack(s.slots, k, s.hi, s.gen) && i < s.hi && s.slots[i].gen == s.gen
  {
    if Undoes(s, i) {
      var b :| StartOf(s, i, b);
      assert b >= k;
      assert b == k;
      if HasFin(s.slots, k, s.hi, s.gen) {
        assert FinAt(s, i, s.hi - 1);
      }
    }
    if RollsBack(s.slots, k, s.hi, s.gen) && i < s.hi && s.slots[i].gen == s.gen {
      assert StartOf(s, i, k);
      assert forall f :: k <= f < s.hi && s.slots[f].gen == s.gen ==> !s.slots[f].Fin();
      assert forall f :: k <= f ==> !s.ValidFin(f);
    }
  }

  /** With an entry, the start of its group is written back. */
  lemma StartUndone(s: Segment, m: int, b: int)
    requires Undoes(s, m) && StartOf(s, m, b) && b <= m
    ensures Undoes(s, b)
  {
    assert StartOf(s, b, b);
    assert forall f :: FinAt(s, b, f) ==> m <= f;
    assert forall f :: FinAt(s, b, f) && m <= f ==> FinAt(s, m, f);
  }

  // ---- Both laps of an image -----------------------------------------------------------------------------

  predicate Bounds(slots: seq<Entry>, h: Header) {
    h.head < |slots| && h.tail < |slots|
  }

  /** A lap's share of the image; empty if the log has not wrapped. */
  function Lap(slots: seq<Entry>, h: Header, second: bool): (s: Segment)
    requires Bounds(slots, h)
    ensures s.lo <= s.hi <= |s.slots| && s.slots == slots && s.gen == LapGen(h, second)
  {
    Segment(slots, Floor(h, second),
            if !second then h.tail else if h.tail < h.head then |slots| else h.head,
            LapGen(h, second))
  }

  /** Recovery writes slot i of the given lap back. */
  ghost predicate Restored(slots: seq<Entry>, h: Header, second: bool, i: int)
    requires Bounds(slots, h)
  {
    Undoes(Lap(slots, h, second), i)
  }

  /** Slot i is the last one of its lap that recovery copies to byte a. */
  ghost predicate LastOn(slots: seq<Entry>, h: Header, second: bool, i: int, a: nat)
    requires Bounds(slots, h)
  {
    && Restored(slots, h, second, i) && slots[i].Covers(a)
    && forall j :: j < i && Restored(slots, h, second, j) ==> !slots[j].Covers(a)
  }

  /** The value that entry e saved of byte a. */
  function Saved(e: Entry, a: nat): Byte
    requires e.Covers(a)
  {
    e.data[a - e.addr]
  }

  lemma {:induction false} LastExists(slots: seq<Entry>, h: Header, second: bool, i: nat, a: nat) returns (m: nat)
    requires Bounds(slots, h) && Restored(slots, h, second, i) && slots[i].Covers(a)
    ensures m <= i && LastOn(slots, h, second, m, a)
    decreases i
  {
    hide Restored;
    if j: nat :| j < i && Restored(slots, h, second, j) && j < |slots| && slots[j].Covers(a) {
      m := LastExists(slots, h, second, j, a);
    } else {
      m := i;
      forall j | j < i && Restored(slots, h, second, j) ensures 0 <= j < |slots| && !slots[j].Covers(a) {
        RestoredBounds(slots, h, second, j);
      }
    }
  }

  lemma RestoredBounds(slots: seq<Entry>, h: Header, second: bool, i: int)
    requires Bounds(slots, h) && Restored(slots, h, second, i)
    ensures 0 <= Lap(slots, h, second).lo <= i < Lap(slots, h, second).hi <= |slots|
    ensures slots[i].gen == LapGen(h, second)
  {
  }

  lemma RestoredSet(slots: seq<Entry>, h: Header, second: bool, i: nat)
    requires Bounds(slots, h)
    ensures var s := Lap(slots, h, second);
      i in UndoneSlots(slots, s.lo, s.hi, s.gen) <==> Restored(slots, h, second, i)
  {
    var s := Lap(slots, h, second);
    UndoneIsLocal(slots, s.lo, s.hi, s.gen, i);
  }

  /** Recovery of one lap. */
  function RecoverLap(mem: Memory, slots: seq<Entry>, h: Header, second: bool): (r: Memory)
    requires Bounds(slots, h)
    ensures r.Keys == mem.Keys
  {
    var s := Lap(slots, h, second);
    RecoverSegment(mem, slots, s.lo, s.hi, s.gen)
  }

  lemma RecoverIsLaps(mem: Memory, slots: seq<Entry>, h: Header)
    requires Bounds(slots, h)
    ensures Recover(mem, slots, h) == RecoverLap(RecoverLap(mem, slots, h, false), slots, h, true)
  {
  }

  lemma LapDecided(mem: Memory, slots: seq<Entry>, h: Header, second: bool, i: nat, a: nat)
    requires Bounds(slots, h) && LastOn(slots, h, second, i, a) && a in mem
    ensures RecoverLap(mem, slots, h, second)[a] == Saved(slots[i], a)
  {
    hide Restored, RecoverSegment, UndoneSlots;
    var s := Lap(slots, h, second);
    RestoredSet(slots, h, second, i);
    forall j | j in UndoneSlots(slots, s.lo, s.hi, s.gen) && j < i ensures !slots[j].Covers(a) {
      RestoredSet(slots, h, second, j);
    }
    RecoverOldest(mem, slots, s.lo, s.hi, s.gen, a, i);
  }

  /** Every entry that the lap's recovery copies to byte a has saved value v. */
  ghost predicate OnlyValue(slots: seq<Entry>, h: Header, second: bool, a: nat, v: Byte)
    requires Bounds(slots, h)
  {
    forall j :: Restored(slots, h, second, j) && slots[j].Covers(a) ==> Saved(slots[j], a) == v
  }

  lemma LapKept(mem: Memory, slots: seq<Entry>, h: Header, second: bool, a: nat)
    requires Bounds(slots, h) && a in mem && OnlyValue(slots, h, second, a, mem[a])
    ensures RecoverLap(mem, slots, h, second)[a] == mem[a]
  {
    hide Restored, RecoverSegment, UndoneSlots;
    var s := Lap(slots, h, second);
    forall j | j in UndoneSlots(slots, s.lo, s.hi, s.gen) && slots[j].Covers(a)
      ensures slots[j].data[a - slots[j].addr] == mem[a]
    {
      RestoredSet(slots, h, second, j);
      assert Saved(slots[j], a) == mem[a];
    }
    RecoverKeeps(mem, slots, s.lo, s.hi, s.gen, a, mem[a]);
  }

  // ---- One byte after recovery ----------------------------------------------------------------------------

  /** Whatever memory holds, recovery leaves byte a at value v. */
  ghost predicate Leaves(slots: seq<Entry>, h: Header, a: nat, v: Byte)
    requires Bounds(slots, h)
  {
    || (exists i :: LastOn(slots, h, true, i, a) && Saved(slots[i], a) == v)
    || ((exists i :: LastOn(slots, h, false, i, a) && Saved(slots[i], a) == v) && Untouched(slots, h, true, a))
  }

  /** The lap's recovery does not write byte a. */
  ghost predicate Untouched(slots: seq<Entry>, h: Header, second: bool, a: nat)
    requires Bounds(slots, h)
  {
    forall j :: Restored(slots, h, second, j) ==> !slots[j].Covers(a)
  }

  lemma LeavesValue(mem: Memory, slots: seq<Entry>, h: Header, a: nat, v: Byte)
    requires Bounds(slots, h) && a in mem && Leaves(slots, h, a, v)
    ensures Recover(mem, slots, h)[a] == v
  {
    hide RecoverLap;
    RecoverIsLaps(mem, slots, h);
    var m := RecoverLap(mem, slots, h, false);
    if i :| LastOn(slots, h, true, i, a) && Saved(slots[i], a) == v {
      LastBounds(slots, h, true, i, a);
      LapDecided(m, slots, h, true, i, a);
    } else {
      var i :| LastOn(slots, h, false, i, a) && Saved(slots[i], a) == v;
      LastBounds(slots, h, false, i, a);
      LapDecided(mem, slots, h, false, i, a);
      LapKept(m, slots, h, true, a);
    }
  }

  lemma LastBounds(slots: seq<Entry>, h: Header, second: bool, i: int, a: nat)
    requires Bounds(slots, h) && LastOn(slots, h, second, i, a)
    ensures 0 <= i < |slots| && Restored(slots, h, second, i) && slots[i].Covers(a)
  {
  }

  /** Nothing writes byte a with another value: it stays. */
  lemma StaysValue(mem: Memory, slots: seq<Entry>, h: Header, a: nat)
    requires Bounds(slots, h) && a in mem
    requires OnlyValue(slots, h, false, a, mem[a]) && OnlyValue(slots, h, true, a, mem[a])
    ensures Recover(mem, slots, h)[a] == mem[a]
  {
    hide OnlyValue, RecoverLap;
    RecoverIsLaps(mem, slots, h);
    LapKept(mem, slots, h, false, a);
    LapKept(RecoverLap(mem, slots, h, false), slots, h, true, a);
  }

  /** Two memories that agree where recovery does not write are recovered alike. */
  lemma SameByte(m1: Memory, m2: Memory, slots: seq<Entry>, h: Header, a: nat)
    requires Bounds(slots, h) && a in m1 && a in m2
    requires Untouched(slots, h, false, a) && Untouched(slots, h, true, a) ==> m1[a] == m2[a]
    ensures Recover(m1, slots, h)[a] == Recover(m2, slots, h)[a]
  {
    hide Restored;
    if !Untouched(slots, h, true, a) {
      var i := Toucher(slots, h, true, a);
      var m := LastExists(slots, h, true, i, a);
      LeavesLast(slots, h, true, m, a);
      LeavesValue(m1, slots, h, a, Saved(slots[m], a));
      LeavesValue(m2, slots, h, a, Saved(slots[m], a));
    } else if !Untouched(slots, h, false, a) {
      var i := Toucher(slots, h, false, a);
      var m := LastExists(slots, h, false, i, a);
      LeavesLast(slots, h, false, m, a);
      LeavesValue(m1, slots, h, a, Saved(slots[m], a));
      LeavesValue(m2, slots, h, a, Saved(slots[m], a));
    } else {
      StaysValue(m1, slots, h, a);
      StaysValue(m2, slots, h, a);
    }
  }

  lemma Toucher(slots: seq<Entry>, h: Header, second: bool, a: nat) returns (i: nat)
    requires Bounds(slots, h) && !Untouched(slots, h, second, a)
    ensures i < |slots| && Restored(slots, h, second, i) && slots[i].Covers(a)
  {
    var j :| Restored(slots, h, second, j) && slots[j].Covers(a);
    i := j;
  }

  lemma LeavesLast(slots: seq<Entry>, h: Header, second: bool, i: nat, a: nat)
    requires Bounds(slots, h) && LastOn(slots, h, second, i, a) && i < |slots| && slots[i].Covers(a)
    requires second || Untouched(slots, h, true, a)
    ensures Leaves(slots, h, a, Saved(slots[i], a))
  {
  }

  // ---- After recovery --------------------------------------------------------------------------------------

  /** In the recovered ring no slot carries what the scan for the next generation would take for valid. */
  ghost predicate NothingNext(slots: seq<Entry>, h: Header)
    requires Bounds(slots, h)
  {
    forall second: bool, i: int :: !Lap(RecoveredSlots(slots, h), HalfForwarded(h), second).Valid(i)
  }

  predicate InShare(s: Segment, i: int) {
    s.lo <= i < s.hi <= |s.slots|
  }

  /** No slot of the log carries a later generation than its lap's. */
  ghost predicate NothingLater(slots: seq<Entry>, h: Header)
    requires Bounds(slots, h)
  {
    && 1 <= h.gen <= MAX_GEN_ID
    && forall second: bool, i :: InShare(Lap(slots, h, second), i) ==> slots[i].gen <= LapGen(h, second)
  }

  lemma LaterThanNothing(slots: seq<Entry>, h: Header)
    requires Bounds(slots, h) && NothingLater(slots, h)
    ensures NothingNext(slots, h)
  {
    forall second: bool, i: int ensures !Lap(RecoveredSlots(slots, h), HalfForwarded(h), second).Valid(i) {
      assert InShare(Lap(RecoveredSlots(slots, h), HalfForwarded(h), second), i) ==> InShare(Lap(slots, h, second), i);
    }
  }

  /** Without valid slots recovery changes nothing. */
  lemma NothingValid(mem: Memory, slots: seq<Entry>, h: Header)
    requires Bounds(slots, h) && forall second: bool, i: int :: !Lap(slots, h, second).Valid(i)
    ensures Recover(mem, slots, h) == mem
  {
    forall a | a in mem ensures Recover(mem, slots, h)[a] == mem[a] {
      StaysValue(mem, slots, h, a);
    }
  }

  lemma NothingLeft(mem: Memory, slots: seq<Entry>, h: Header)
    requires Bounds(slots, h) && NothingNext(slots, h)
    ensures Recover(mem, RecoveredSlots(slots, h), HalfForwarded(h)) == mem
  {
    NothingValid(mem, RecoveredSlots(slots, h), HalfForwarded(h));
  }
}
