/** Backward recovery of the undo journal, as a function of the persisted image. */
module UndoRecovery {
  import opened JournalRing

  /** A stretch of ring slots scanned with one generation: a lap's share of the live region. */
  datatype Segment = Segment(slots: seq<Entry>, lo: nat, hi: nat, gen: nat)
  {
    ghost predicate WellFormed() {
      lo <= hi <= |slots|
    }

    /** The slot carries the segment's generation. */
    predicate Valid(i: int) {
      lo <= i < hi <= |slots| && slots[i].gen == gen
    }

    predicate ValidStart(i: int) {
      Valid(i) && slots[i].isStart
    }

    predicate ValidFin(i: int) {
      Valid(i) && slots[i].Fin()
    }
  }

  /** Slot where the backward walk from slot k stops (pmfs_recover_transaction's loop). */
  function WalkBack(slots: seq<Entry>, lo: nat, k: nat, g: nat): (r: nat)
    requires lo <= k < |slots|
    ensures lo <= r <= k
    decreases k
  {
    if slots[k].gen == g && slots[k].isStart then k
    else if k == lo then k
    else if slots[k - 1].gen == g && slots[k - 1].Fin() then k
    else WalkBack(slots, lo, k - 1, g)
  }

  /** A commit or abort entry of generation g lies in slots [lo..hi). */
  predicate HasFin(slots: seq<Entry>, lo: nat, hi: nat, g: nat)
    requires lo <= hi <= |slots|
  {
    exists i :: lo <= i < hi && slots[i].gen == g && slots[i].Fin()
  }

  /** The group of slots [k..hi) is rolled back: it has its start and no commit or abort. */
  predicate RollsBack(slots: seq<Entry>, k: nat, hi: nat, g: nat)
    requires k < hi <= |slots|
  {
    slots[k].gen == g && slots[k].isStart && !HasFin(slots, k, hi, g)
  }

  /** Recovery of slots [lo..hi), all scanned with generation g, from the top down. */
  function RecoverSegment(mem: Memory, slots: seq<Entry>, lo: nat, hi: nat, g: nat): (r: Memory)
    requires lo <= hi <= |slots|
    ensures r.Keys == mem.Keys
    decreases hi
  {
    if hi == lo then mem
    else if slots[hi - 1].gen != g then RecoverSegment(mem, slots, lo, hi - 1, g)
    else
      var k := WalkBack(slots, lo, hi - 1, g);
      var m := if RollsBack(slots, k, hi, g) then UndoRange(mem, slots, k, hi, g) else mem;
      RecoverSegment(m, slots, lo, k, g)
  }

  /** Slots of [lo..hi) whose entries recovery writes back. */
  function UndoneSlots(slots: seq<Entry>, lo: nat, hi: nat, g: nat): (r: set<nat>)
    requires lo <= hi <= |slots|
    ensures forall i :: i in r ==> lo <= i < hi && slots[i].gen == g
    decreases hi
  {
    if hi == lo then {}
    else if slots[hi - 1].gen != g then UndoneSlots(slots, lo, hi - 1, g)
    else
      var k := WalkBack(slots, lo, hi - 1, g);
      (if RollsBack(slots, k, hi, g) then set i: nat | k <= i < hi && slots[i].gen == g else {})
      + UndoneSlots(slots, lo, k, g)
  }

  /** Memory after recovery of a persisted image (pmfs_recover_undo_journal). */
  function Recover(mem: Memory, slots: seq<Entry>, h: Header): (r: Memory)
    requires h.head <= |slots| && h.tail <= |slots|
    ensures r.Keys == mem.Keys
  {
    if h.head <= h.tail then RecoverSegment(mem, slots, h.head, h.tail, h.gen)
    else RecoverSegment(RecoverSegment(mem, slots, 0, h.tail, h.gen),
                        slots, h.head, |slots|, PrevGen(h.gen))
  }

  /** The ring after recovery: a lap scanned with MAX_GEN_ID is wiped, and with it the slots
      behind the tail when the current generation is MAX_GEN_ID. */
  function RecoveredSlots(slots: seq<Entry>, h: Header): (r: seq<Entry>)
    requires h.head <= |slots| && h.tail <= |slots|
    ensures |r| == |slots|
  {
    if h.gen == MAX_GEN_ID then Wiped(slots, if h.head <= h.tail then h.head else 0, |slots|)
    else if h.tail < h.head && PrevGen(h.gen) == MAX_GEN_ID then Wiped(slots, h.head, |slots|)
    else slots
  }

  /** The generation that recovery expects, in the older lap if `second`. */
  function LapGen(h: Header, second: bool): nat {
    if second then PrevGen(h.gen) else h.gen
  }

  /** Lowest slot of the lap under recovery. */
  function Floor(h: Header, second: bool): nat {
    if second || h.head <= h.tail then h.head else 0
  }

  /** What is left of recovery once the scan has come down to slot tl, in the older lap if `second`. */
  ghost function RestOfRecovery(mem: Memory, s: seq<Entry>, h: Header, tl: nat, second: bool): Memory
    requires h.head <= |s| && tl <= |s|
    requires second ==> h.head <= tl
    requires !second && h.head <= h.tail ==> h.head <= tl
  {
    if second then RecoverSegment(mem, s, h.head, tl, PrevGen(h.gen))
    else if h.head <= h.tail then RecoverSegment(mem, s, h.head, tl, h.gen)
    else RecoverSegment(RecoverSegment(mem, s, 0, tl, h.gen), s, h.head, |s|, PrevGen(h.gen))
  }

  /** The header between pmfs_forward_journal's two stores: generation advanced, head not yet. */
  function HalfForwarded(h: Header): Header {
    h.(gen := NextGen(h.gen), lap := h.lap + 1)
  }

  // ---- What one undo pass leaves at an address -------------------------------------------

  lemma {:induction false} UndoRangeKeeps(mem: Memory, slots: seq<Entry>, lo: nat, hi: nat, g: nat, a: nat, v: Byte)
    requires lo <= hi <= |slots|
    requires a in mem && mem[a] == v
    requires forall i :: lo <= i < hi && slots[i].gen == g && slots[i].Covers(a) ==>
      slots[i].data[a - slots[i].addr] == v
    ensures UndoRange(mem, slots, lo, hi, g)[a] == v
    decreases hi - lo
  {
    if hi > lo {
      var m := if slots[hi - 1].gen == g then UndoEntry(mem, slots[hi - 1]) else mem;
      UndoRangeKeeps(m, slots, lo, hi - 1, g, a, v);
    }
  }

  /** The lowest entry that covers an address decides: overlapping entries restore the oldest bytes. */
  lemma {:induction false} UndoRangeOldest(mem: Memory, slots: seq<Entry>, lo: nat, hi: nat, g: nat, a: nat, m: nat)
    requires lo <= m < hi <= |slots|
    requires a in mem
    requires slots[m].gen == g && slots[m].Covers(a)
    requires forall i :: lo <= i < m && slots[i].gen == g ==> !slots[i].Covers(a)
    ensures UndoRange(mem, slots, lo, hi, g)[a] == slots[m].data[a - slots[m].addr]
    decreases hi - lo
  {
    var mem1 := if slots[hi - 1].gen == g then UndoEntry(mem, slots[hi - 1]) else mem;
    if hi - 1 == m {
      UndoRangeKeeps(mem1, slots, lo, m, g, a, mem1[a]);
    } else {
      UndoRangeOldest(mem1, slots, lo, hi - 1, g, a, m);
    }
  }

  lemma {:induction false} RecoverKeeps(mem: Memory, slots: seq<Entry>, lo: nat, hi: nat, g: nat, a: nat, v: Byte)
    requires lo <= hi <= |slots|
    requires a in mem && mem[a] == v
    requires forall i :: i in UndoneSlots(slots, lo, hi, g) && slots[i].Covers(a) ==>
      slots[i].data[a - slots[i].addr] == v
    ensures RecoverSegment(mem, slots, lo, hi, g)[a] == v
    decreases hi
  {
    if hi == lo {
    } else if slots[hi - 1].gen != g {
      RecoverKeeps(mem, slots, lo, hi - 1, g, a, v);
    } else {
      var k := WalkBack(slots, lo, hi - 1, g);
      var m := mem;
      if RollsBack(slots, k, hi, g) {
        UndoRangeKeeps(mem, slots, k, hi, g, a, v);
        m := UndoRange(mem, slots, k, hi, g);
      }
      RecoverKeeps(m, slots, lo, k, g, a, v);
    }
  }

  /** Across groups, too, the lowest undone entry that covers an address decides. */
  lemma {:induction false} RecoverOldest(mem: Memory, slots: seq<Entry>, lo: nat, hi: nat, g: nat, a: nat, m: nat)
    requires lo <= hi <= |slots|
    requires a in mem
    requires m in UndoneSlots(slots, lo, hi, g) && slots[m].Covers(a)
    requires forall i :: i in UndoneSlots(slots, lo, hi, g) && i < m ==> !slots[i].Covers(a)
    ensures RecoverSegment(mem, slots, lo, hi, g)[a] == slots[m].data[a - slots[m].addr]
    decreases hi
  {
    if slots[hi - 1].gen != g {
      RecoverOldest(mem, slots, lo, hi - 1, g, a, m);
    } else {
      var k := WalkBack(slots, lo, hi - 1, g);
      if m < k {
        var m1 := if RollsBack(slots, k, hi, g) then UndoRange(mem, slots, k, hi, g) else mem;
        RecoverOldest(m1, slots, lo, k, g, a, m);
      } else {
        UndoRangeOldest(mem, slots, k, hi, g, a, m);
        var m1 := UndoRange(mem, slots, k, hi, g);
        RecoverKeeps(m1, slots, lo, k, g, a, m1[a]);
      }
    }
  }

  /** The group whose highest valid slot is the one below hi. */
  lemma GroupFrame(s1: seq<Entry>, s2: seq<Entry>, lo: nat, hi: nat, g: nat)
    requires lo < hi <= |s1| == |s2| && forall i :: lo <= i < hi ==> s1[i] == s2[i]
    ensures var k := WalkBack(s1, lo, hi - 1, g);
      k == WalkBack(s2, lo, hi - 1, g) && (RollsBack(s1, k, hi, g) <==> RollsBack(s2, k, hi, g))
  {
    WalkFrame(s1, s2, lo, hi - 1, g);
  }

  lemma {:induction false} WalkFrame(s1: seq<Entry>, s2: seq<Entry>, lo: nat, k: nat, g: nat)
    requires lo <= k < |s1| == |s2| && forall i :: lo <= i <= k ==> s1[i] == s2[i]
    ensures WalkBack(s1, lo, k, g) == WalkBack(s2, lo, k, g)
    decreases k
  {
    if k != lo {
      WalkFrame(s1, s2, lo, k - 1, g);
    }
  }

  // ---- Which slots recovery undoes ---------------------------------------------------------

  /** What a lap's share of a persisted journal looks like: region[i] names the first slot of
      the reservation that owns slot i, and a reservation in `closed` is finished as far as
      this image goes. */
  ghost predicate Structured(s: Segment, region: seq<int>, closed: set<int>) {
    && s.WellFormed() && |region| == |s.slots|
    // a reservation is contiguous and never reaches below its first slot
    && (forall i :: s.Valid(i) ==> region[i] <= i)
    && (forall i, j :: s.Valid(i) && s.lo <= j < s.hi && region[i] <= j <= i ==> region[j] == region[i])
    // only the first slot of a reservation is marked as start
    && (forall i :: s.ValidStart(i) ==> region[i] == i)
    // a commit or abort entry is the last one of its reservation, which is then closed
    && (forall i :: s.ValidFin(i) ==> region[i] in closed)
    && (forall i, j :: s.ValidFin(i) && s.Valid(j) && region[i] == region[j] ==> j <= i)
    // a closed reservation either shows start and commit, or has lost its start to the
    // cleaner together with every plain start below it
    && (forall i :: s.Valid(i) && region[i] in closed ==>
          (s.ValidStart(region[i]) && ShowsFin(s, region, region[i])) || NoPlainStart(s, i))
  }

  /** The reservation that starts at slot r shows a commit or abort. */
  ghost predicate ShowsFin(s: Segment, region: seq<int>, r: int)
    requires |region| == |s.slots|
  {
    exists f :: s.ValidFin(f) && region[f] == r
  }

  ghost predicate NoPlainStart(s: Segment, i: int) {
    forall j :: j <= i && s.ValidStart(j) ==> s.slots[j].Fin()
  }

  /** Position hi separates groups: no reservation with its start below hi has entries above. */
  ghost predicate Boundary(s: Segment, region: seq<int>, hi: nat)
    requires |region| == |s.slots|
  {
    forall i :: s.Valid(i) && i >= hi && s.ValidStart(region[i]) ==> region[i] >= hi
  }

  lemma {:induction false} WalkBackStops(slots: seq<Entry>, lo: nat, j: nat, g: nat)
    requires lo <= j < |slots|
    ensures var k := WalkBack(slots, lo, j, g);
            && (forall i :: k < i <= j && slots[i].gen == g ==> !slots[i].isStart)
            && (forall i :: k <= i < j && slots[i].gen == g ==> !slots[i].Fin())
            && ((slots[k].gen == g && slots[k].isStart) || k == lo || (slots[k - 1].gen == g && slots[k - 1].Fin()))
    decreases j
  {
    if !(slots[j].gen == g && slots[j].isStart) && j != lo && !(slots[j - 1].gen == g && slots[j - 1].Fin()) {
      WalkBackStops(slots, lo, j - 1, g);
    }
  }

  /** The walk leaves another boundary behind. */
  lemma WalkBackBoundary(s: Segment, region: seq<int>, closed: set<int>, hi: nat)
    requires Structured(s, region, closed)
    requires s.lo < hi <= s.hi && s.Valid(hi - 1) && Boundary(s, region, hi)
    ensures Boundary(s, region, WalkBack(s.slots, s.lo, hi - 1, s.gen))
  {
    var k := WalkBack(s.slots, s.lo, hi - 1, s.gen);
    WalkBackStops(s.slots, s.lo, hi - 1, s.gen);
    forall i | s.Valid(i) && i >= k && s.ValidStart(region[i])
      ensures region[i] >= k
    {
      assert s.ValidStart(k) || k == s.lo || s.ValidFin(k - 1);
    }
  }

  /** Nothing of a closed reservation is undone. */
  lemma {:induction false} ClosedStays(s: Segment, region: seq<int>, closed: set<int>, hi: nat, i: nat)
    requires Structured(s, region, closed)
    requires s.lo <= hi <= s.hi && Boundary(s, region, hi)
    requires i in UndoneSlots(s.slots, s.lo, hi, s.gen)
    ensures region[i] !in closed
    decreases hi
  {
    if s.slots[hi - 1].gen != s.gen {
      assert Boundary(s, region, hi - 1);
      ClosedStays(s, region, closed, hi - 1, i);
    } else {
      var k := WalkBack(s.slots, s.lo, hi - 1, s.gen);
      WalkBackBoundary(s, region, closed, hi);
      if i < k {
        ClosedStays(s, region, closed, k, i);
      } else if region[i] in closed {
        WalkBackStops(s.slots, s.lo, hi - 1, s.gen);
        assert s.ValidStart(k) && s.Valid(i);
        assert false;
      }
    }
  }

  /** A commit or abort in a group that goes down to a start closes that start's reservation. */
  lemma FinClosesGroup(s: Segment, region: seq<int>, closed: set<int>, hi: nat, k: nat, f: nat)
    requires Structured(s, region, closed)
    requires s.lo < hi <= s.hi && s.Valid(hi - 1) && k == WalkBack(s.slots, s.lo, hi - 1, s.gen)
    requires s.ValidStart(k) && k <= f < hi && s.ValidFin(f)
    ensures region[k] in closed
  {
    WalkBackStops(s.slots, s.lo, hi - 1, s.gen);
    assert region[f] in closed;
    assert s.ValidStart(region[f]) ==> region[f] <= k;
  }

  /** Everything valid of an open reservation whose start is valid is undone. */
  lemma {:induction false} OpenRollsBack(s: Segment, region: seq<int>, closed: set<int>, hi: nat, i: nat)
    requires Structured(s, region, closed)
    requires s.lo <= hi <= s.hi && Boundary(s, region, hi)
    requires s.Valid(i) && i < hi && s.ValidStart(region[i]) && region[i] !in closed
    ensures i in UndoneSlots(s.slots, s.lo, hi, s.gen)
    decreases hi
  {
    if s.slots[hi - 1].gen != s.gen {
      assert Boundary(s, region, hi - 1);
      OpenRollsBack(s, region, closed, hi - 1, i);
    } else {
      var k := WalkBack(s.slots, s.lo, hi - 1, s.gen);
      WalkBackBoundary(s, region, closed, hi);
      WalkBackStops(s.slots, s.lo, hi - 1, s.gen);
      if i < k {
        OpenRollsBack(s, region, closed, k, i);
      } else {
        var st := region[i];
        assert st == k;
        assert region[st] == st;
        if HasFin(s.slots, k, hi, s.gen) {
          var f :| k <= f < hi && s.slots[f].gen == s.gen && s.slots[f].Fin();
          FinClosesGroup(s, region, closed, hi, k, f);
        }
      }
    }
  }
}
