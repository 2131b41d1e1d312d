/** When a log with a MAX_GEN_ID lap stands any number of interrupted recoveries: exactly if one interrupted
    recovery cannot do harm during its scan, and nothing of the older lap can be left behind by its last steps. */
module RecoveryMany {
  import opened JournalRing
  import opened RecoveryExact
  import opened RecoveryGroups
  import opened RecoveryHazard
  import opened RecoveryLoss
  import opened RecoveryRestart
  import opened RecoverySequences
  import opened RecoverySteady
  import opened RecoverySteps
  import opened RecoverySweep
  import opened UndoRecovery

  // ---- What lies above an open group -----------------------------------------------------------------------------

  /** What can spoil a group lies above it. */
  lemma SpoiledIsAbove(slots: seq<Entry>, h: Header, mx: bool, pos: nat, ys: set<nat>)
    requires Bounds(slots, h) && NextSpoiled(slots, h, mx, pos, ys) && Divides(Lap(slots, h, mx), pos)
    ensures !ClearAbove(slots, h, mx)
  {
    hide Leaves, DecidedBelow, Divides, Restored;
    var b, y :| NextOpen(Lap(slots, h, mx), pos, b) && y in ys && Spoils(slots, h, mx, b, pos, y);
    OpenIsRestored(slots, h, mx, pos, b, b);
    EndsBelow(Lap(slots, h, mx), pos, y, b);
    assert IsAbove(slots, h, mx, b, y);
  }

  lemma ClearIsSafe(slots: seq<Entry>, h: Header, mx: bool)
    requires Bounds(slots, h) && IsMaxLap(h, mx) && ClearAbove(slots, h, mx)
    ensures Floor(h, mx) <= Lap(slots, h, mx).hi && !Risky(slots, h, mx, Lap(slots, h, mx).hi, {})
  {
    hide ClearAbove, NextSpoiled, Risky, Descends, Divides, WalkBack, Leftover;
    var s := Lap(slots, h, mx);
    if Risky(slots, h, mx, s.hi, {}) {
      var pos, loose := RiskIsReached(slots, h, mx, s.hi, {});
      TopDivides(s);
      DescendsDown(slots, h, mx, s.hi, {}, pos, loose);
      DescendsDivides(slots, h, mx, s.hi, {}, pos, loose);
      var k := WalkBack(slots, Floor(h, mx), pos - 1, s.gen);
      if NextSpoiled(slots, h, mx, pos, loose) {
        SpoiledIsAbove(slots, h, mx, pos, loose);
      } else {
        GroupDivides(s, pos);
        SpoiledIsAbove(slots, h, mx, k, Leftover(slots, k, pos, s.gen));
      }
    }
  }

  /** Every plain start of the lap has saved something, and no entry both starts and ends a transaction. */
  ghost predicate StartsSave(s: Segment) {
    forall b :: s.ValidStart(b) ==> !s.slots[b].Fin() && s.slots[b].data != []
  }

  /** Entry y, above the open group that starts at b, can spoil a group. */
  ghost predicate Spoiler(slots: seq<Entry>, h: Header, mx: bool, b: int, y: int)
    requires Bounds(slots, h)
  {
    && IsAbove(slots, h, mx, b, y)
    && (slots[y].Fin() || exists a: nat :: slots[y].Covers(a) && !Leaves(slots, h, a, Saved(slots[y], a)))
  }

  /** The open group next below position k. */
  lemma OpenBelow(s: Segment, k: nat, b: int) returns (c: int)
    requires b < k && s.ValidStart(b) && forall f :: b <= f < k ==> !s.ValidFin(f)
    ensures b <= c && NextOpen(s, k, c)
  {
    var j := k;
    while j > 0 && !s.ValidStart(j - 1)
      invariant b < j <= k && forall i :: j <= i < k ==> !s.ValidStart(i)
    {
      j := j - 1;
    }
    c := j - 1;
  }

  /** Another end entry above the open group spoils a group, too. */
  lemma FinSpoils(slots: seq<Entry>, h: Header, mx: bool, b: int, f: int)
    requires Bounds(slots, h) && StartsSave(Lap(slots, h, mx)) && Restored(slots, h, mx, b)
    requires Lap(slots, h, mx).ValidStart(b)
    requires b < f && Lap(slots, h, mx).ValidFin(f)
    ensures Spoiler(slots, h, mx, b, f)
  {
    var s := Lap(slots, h, mx);
    if StartOf(s, f, b) {
      assert FinAt(s, b, f);
    }
  }

  lemma GroupSpoils(slots: seq<Entry>, h: Header, mx: bool, k: nat, top: nat, b: int, y: nat)
    requires Bounds(slots, h) && OneWriter(slots, h) && StartsSave(Lap(slots, h, mx))
    requires GroupAtTop(slots, h, mx, k, top)
    requires Divides(Lap(slots, h, mx), top) && Spoiler(slots, h, mx, b, y) && b < k <= y < top
    requires forall f :: b < f < k ==> !Lap(slots, h, mx).ValidFin(f)
    ensures NextSpoiled(slots, h, mx, k, Leftover(slots, k, top, LapGen(h, mx)))
  {
    hide Leaves, DecidedBelow, OneWriter, Restored, Divides, WalkBack, RollsBack;
    var s := Lap(slots, h, mx);
    var c := OpenBelow(s, k, b);
    TopGroup(slots, h, mx, k, top);
    if s.ValidFin(top - 1) {
      assert HasFin(slots, k, top, s.gen);
      assert Spoils(slots, h, mx, c, k, top - 1);
    } else {
      NoFinIn(slots, h, mx, k, top);
      assert !slots[y].Fin();
      var a: nat :| slots[y].Covers(a) && !Leaves(slots, h, a, Saved(slots[y], a));
      assert s.ValidStart(k);
      OpenTop(slots, h, mx, k, top, y);
      OthersApart(slots, h, mx, k, y, a);
      assert Spoils(slots, h, mx, c, k, y);
    }
  }

  /** The slots [k..top) are the group below position top. */
  ghost predicate GroupAtTop(slots: seq<Entry>, h: Header, mx: bool, k: nat, top: nat)
    requires Bounds(slots, h)
  {
    var s := Lap(slots, h, mx);
    s.lo <= k < top <= s.hi && s.Valid(top - 1) && k == WalkBack(slots, s.lo, top - 1, s.gen)
  }

  lemma TopGroup(slots: seq<Entry>, h: Header, mx: bool, k: nat, top: nat)
    requires Bounds(slots, h) && GroupAtTop(slots, h, mx, k, top)
    ensures var s := Lap(slots, h, mx);
      && (forall i :: k < i < top ==> !s.ValidStart(i)) && (forall i :: k <= i < top - 1 ==> !s.ValidFin(i))
      && (s.ValidStart(k) || k == s.lo || s.ValidFin(k - 1))
  {
    WalkBackStops(slots, Lap(slots, h, mx).lo, top - 1, LapGen(h, mx));
  }

  lemma NoFinIn(slots: seq<Entry>, h: Header, mx: bool, k: nat, top: nat)
    requires Bounds(slots, h) && GroupAtTop(slots, h, mx, k, top) && !Lap(slots, h, mx).ValidFin(top - 1)
    ensures !HasFin(slots, k, top, LapGen(h, mx)) && forall i :: k <= i < top ==> !Lap(slots, h, mx).ValidFin(i)
  {
    TopGroup(slots, h, mx, k, top);
    forall i | k <= i < top ensures !(slots[i].gen == LapGen(h, mx) && slots[i].Fin()) {
      assert !Lap(slots, h, mx).ValidFin(i);
    }
  }

  lemma OpenTop(slots: seq<Entry>, h: Header, mx: bool, k: nat, top: nat, y: nat)
    requires Bounds(slots, h) && GroupAtTop(slots, h, mx, k, top) && !Lap(slots, h, mx).ValidFin(top - 1)
    requires Lap(slots, h, mx).ValidStart(k) && Divides(Lap(slots, h, mx), top) && k <= y < top
    requires Lap(slots, h, mx).Valid(y)
    ensures Restored(slots, h, mx, y) && StartOf(Lap(slots, h, mx), y, k)
  {
    TopGroup(slots, h, mx, k, top);
    NoFinIn(slots, h, mx, k, top);
    assert NextOpen(Lap(slots, h, mx), top, k);
    OpenIsRestored(slots, h, mx, top, k, y);
  }

  /** No other group restores a byte of the group that starts at k. */
  lemma OthersApart(slots: seq<Entry>, h: Header, mx: bool, k: nat, y: nat, a: nat)
    requires Bounds(slots, h) && OneWriter(slots, h) && Restored(slots, h, mx, y) && y < |slots| && slots[y].Covers(a)
    requires StartOf(Lap(slots, h, mx), y, k)
    ensures !DecidedBelow(slots, h, mx, k, a)
  {
    hide Restored, StartOf, OneWriter;
    var s := Lap(slots, h, mx);
    forall second: bool, i | Restored(slots, h, second, i) && (second != mx || i < k)
      ensures 0 <= i < |slots| && !slots[i].Covers(a)
    {
      RestoredBounds(slots, h, second, i);
      if slots[i].Covers(a) {
        SameWriter(slots, h, second, mx, i, y, a);
        var b :| StartOf(s, i, b) && StartOf(s, y, b);
        OneStart(s, y, b, k);
        StartsBelow(s, i, k);
      }
    }
  }

  lemma SameWriter(slots: seq<Entry>, h: Header, l1: bool, l2: bool, i: nat, j: nat, a: nat)
    requires Bounds(slots, h) && OneWriter(slots, h) && Restored(slots, h, l1, i) && Restored(slots, h, l2, j)
    requires i < |slots| && j < |slots| && slots[i].Covers(a) && slots[j].Covers(a)
    ensures l1 == l2 && SameGroup(Lap(slots, h, l1), i, j)
  {
  }

  lemma StartsBelow(s: Segment, i: int, b: int)
    requires StartOf(s, i, b)
    ensures b <= i
  {
  }

  /** If something above an open group can spoil it, recovery comes to where it, or something else, can. */
  lemma {:induction false} SpoilerIsRisky(slots: seq<Entry>, h: Header, mx: bool, top: nat, loose: set<nat>, b: int,
        y: nat)
    requires Bounds(slots, h) && OneWriter(slots, h) && StartsSave(Lap(slots, h, mx)) && IsMaxLap(h, mx)
    requires Floor(h, mx) <= top <= Lap(slots, h, mx).hi && Divides(Lap(slots, h, mx), top)
    requires Spoiler(slots, h, mx, b, y) && y < top
    ensures Risky(slots, h, mx, top, loose)
    decreases top
  {
    hide OneWriter, Divides, WalkBack, Spoiler, Leftover, Unfenced, NextSpoiled, Restored, Undoes;
    var s := Lap(slots, h, mx);
    SpoilerFacts(slots, h, mx, b, y);
    if slots[top - 1].gen != s.gen {
      StaleDivides(s, top);
      SpoilerIsRisky(slots, h, mx, top - 1, loose, b, y);
    } else {
      var k := WalkBack(slots, s.lo, top - 1, s.gen);
      assert GroupAtTop(slots, h, mx, k, top);
      GroupDivides(s, top);
      if y < k {
        SpoilerIsRisky(slots, h, mx, k, Unfenced(slots, k, top, top, loose), b, y);
      } else {
        NotInGroup(slots, h, mx, k, top, b, y);
        if f :| b < f < k && s.ValidFin(f) {
          FinSpoils(slots, h, mx, b, f);
          SpoilerIsRisky(slots, h, mx, k, Unfenced(slots, k, top, top, loose), b, f);
        } else {
          GroupSpoils(slots, h, mx, k, top, b, y);
        }
      }
    }
  }

  lemma SpoilerFacts(slots: seq<Entry>, h: Header, mx: bool, b: int, y: int)
    requires Bounds(slots, h) && Spoiler(slots, h, mx, b, y)
    ensures var s := Lap(slots, h, mx); s.lo <= b < y && s.ValidStart(b) && s.Valid(y) && Restored(slots, h, mx, b)
    ensures IsAbove(slots, h, mx, b, y)
  {
    hide Leaves;
  }

  lemma NotInGroup(slots: seq<Entry>, h: Header, mx: bool, k: nat, top: nat, b: int, y: nat)
    requires Bounds(slots, h) && GroupAtTop(slots, h, mx, k, top) && IsAbove(slots, h, mx, b, y) && k <= y < top
    ensures b < k
  {
    hide Restored;
    var s := Lap(slots, h, mx);
    TopGroup(slots, h, mx, k, top);
    assert b >= k ==> StartOf(s, y, b);
  }

  /** Where plain starts save something and no transaction consists of its end entry, the scan can do harm if and
      only if something above an open group can. */
  lemma RiskIsAbove(slots: seq<Entry>, h: Header, mx: bool)
    requires Bounds(slots, h) && IsMaxLap(h, mx) && OneWriter(slots, h) && StartsSave(Lap(slots, h, mx))
    ensures Floor(h, mx) <= Lap(slots, h, mx).hi
    ensures Risky(slots, h, mx, Lap(slots, h, mx).hi, {}) <==> !ClearAbove(slots, h, mx)
  {
    hide OneWriter, Risky, Leaves;
    if ClearAbove(slots, h, mx) {
      ClearIsSafe(slots, h, mx);
    } else {
      var b, y :| IsAbove(slots, h, mx, b, y) && (slots[y].Fin() || exists a: nat ::
          slots[y].Covers(a) && !Leaves(slots, h, a, Saved(slots[y], a)));
      assert Spoiler(slots, h, mx, b, y);
      TopDivides(Lap(slots, h, mx));
      SpoilerIsRisky(slots, h, mx, Lap(slots, h, mx).hi, {}, b, y);
    }
  }

  // ---- Undone and then wiped -----------------------------------------------------------------------------------

  /** Of the log only a start and a data entry of the older lap are left, in the last lap before the wrap. */
  ghost predicate TwoLeft(p: seq<Entry>, h: Header, b: nat, i: nat) {
    && Bounds(p, h) && h.gen == MAX_GEN_ID && h.tail < h.head <= b < i < |p|
    && p[b].gen == p[i].gen == MAX_GEN_ID - 1
    && PlainStart(p[b]) && !p[i].isStart && !p[i].Fin()
    && forall j :: 0 <= j < |p| && j != b && j != i ==> p[j].gen == 0
  }

  lemma OlderGen(h: Header)
    requires h.gen == MAX_GEN_ID
    ensures LapGen(h, true) == MAX_GEN_ID - 1 && LapGen(h, false) == MAX_GEN_ID
  {
  }

  lemma OneGroupLeft(p: seq<Entry>, h: Header, b: nat, i: nat)
    requires TwoLeft(p, h, b, i)
    ensures WalkBack(p, h.head, i, MAX_GEN_ID - 1) == b && RollsBack(p, b, i + 1, MAX_GEN_ID - 1)
  {
    WalkBackStops(p, h.head, i, MAX_GEN_ID - 1);
  }

  /** The scan comes to the two entries and has written nothing. */
  lemma {:induction false} ComesToTwo(m: Memory, p: seq<Entry>, h: Header, b: nat, i: nat, tl: nat, second: bool)
    returns (steps: seq<RStep>)
    requires TwoLeft(p, h, b, i) && InLap(|p|, h, tl, second) && (second ==> i < tl)
    ensures var img := Image(m, p, h);
      && Fits(Recovery(img, img, Seek(tl, second))) && Fits(Recovery(img, img, Undoing(b, i + 1, i + 1, true)))
      && Run(Recovery(img, img, Seek(tl, second)), steps) == Recovery(img, img, Undoing(b, i + 1, i + 1, true))
    decreases !second, tl
  {
    hide WalkBack, RollsBack, Run, LapGen;
    var img := Image(m, p, h);
    var r := Recovery(img, img, Seek(tl, second));
    OlderGen(h);
    OneGroupLeft(p, h, b, i);
    SeekFits(r);
    var sec, hi := second || tl == 0, if tl == 0 then |p| else tl;
    if sec && hi == i + 1 {
      assert Advance(r) == Recovery(img, img, Undoing(b, i + 1, i + 1, true));
      GoFirst(r, []);
      NoSteps(Advance(r));
      assert [Go] + [] == [Go];
      steps := [Go];
    } else {
      assert p[hi - 1].gen == 0;
      assert WithoutGen(p, hi - 1) == p;
      assert Advance(r) == Recovery(img, img, Seek(hi - 1, sec));
      var rest := ComesToTwo(m, p, h, b, i, hi - 1, sec);
      GoFirst(r, rest);
      steps := [Go] + rest;
    }
  }

  lemma NoSteps(r: Recovery)
    requires Fits(r)
    ensures Run(r, []) == r
  {
  }

  /** A crash after the data entry has been written back and its byte has left the cache, before the start has. */
  lemma UndoneHalf(m: Memory, p: seq<Entry>, h: Header, b: nat, i: nat, a: nat) returns (steps: seq<RStep>)
    requires TwoLeft(p, h, b, i) && a in m && p[i].Covers(a)
    ensures CrashImage(Image(m, p, h), steps) == Image(m[a := Saved(p[i], a)], p, h)
  {
    hide WalkBack, RollsBack, Run, InLap;
    var img := Image(m, p, h);
    assert InLap(|p|, h, h.tail, false) by {
      TailInLap(|p|, h);
    }
    var s1 := ComesToTwo(m, p, h, b, i, h.tail, false);
    var r := Recovery(img, img, Undoing(b, i + 1, i + 1, true));
    var r1 := Recovery(Image(UndoEntry(m, p[i]), p, h), img, Undoing(b, i, i + 1, true));
    OlderGen(h);
    assert Advance(r) == r1;
    GoFirst(r, [EvictByte(a)]);
    EvictsByte(r1, a);
    RunMore(Begin(m, p, h), s1, [Go] + [EvictByte(a)]);
    steps := s1 + ([Go] + [EvictByte(a)]);
  }

  lemma TailInLap(n: nat, h: Header)
    ensures h.tail < h.head ==> InLap(n, h, h.tail, false)
  {
  }

  lemma EvictsByte(r: Recovery, a: nat)
    requires Fits(r) && a in r.cur.mem
    ensures Run(r, [EvictByte(a)]).per == r.per.(mem := r.per.mem[a := r.cur.mem[a]])
  {
    TakeFits(r, EvictByte(a));
    assert [EvictByte(a)][1..] == [];
  }

  lemma TwoAreOne(p: seq<Entry>, h: Header, b: nat, i: nat)
    requires TwoLeft(p, h, b, i)
    ensures OneWriter(p, h) && Restored(p, h, true, b) && Restored(p, h, true, i)
    ensures forall second: bool, j :: Restored(p, h, second, j) ==> second && (j == b || j == i)
  {
    hide LapGen;
    OlderGen(h);
    var s := Lap(p, h, true);
    assert StartOf(s, b, b) && StartOf(s, i, b);
    assert forall f :: !s.ValidFin(f);
    assert forall j: int :: !Lap(p, h, false).Valid(j);
    assert SameGroup(s, b, b) && SameGroup(s, b, i) && SameGroup(s, i, b) && SameGroup(s, i, i);
  }

  /** If the start saved byte a, that value is what recovery of the two leaves. */
  lemma StartDecides(p: seq<Entry>, h: Header, b: nat, i: nat, a: nat)
    requires TwoLeft(p, h, b, i) && p[b].Covers(a)
    ensures Leaves(p, h, a, Saved(p[b], a))
  {
    hide Restored;
    TwoAreOne(p, h, b, i);
    assert LastOn(p, h, true, b, a);
  }

  lemma TwoKept(slots: seq<Entry>, p: seq<Entry>, h: Header, b: nat, i: nat, a: nat)
    requires Bounds(slots, h) && h.gen == MAX_GEN_ID && h.tail < h.head && OnlyKept(slots, p, {b, i}) && b != i
    requires WrongInOlderLap(slots, h, b, i, a) && !slots[i].isStart
    ensures TwoLeft(p, h, b, i) && p[i] == slots[i] && p[b] == slots[b]
  {
    hide Leaves;
  }

  /** Three crashes: one leaves the start and an entry of a finished transaction, one writes the entry's value back,
      and one loses the undo of that. */
  lemma LosesInThree(mem: Memory, slots: seq<Entry>, h: Header, b: nat, i: nat, a: nat) returns (runs: seq<seq<RStep>>)
    requires Bounds(slots, h) && h.gen == MAX_GEN_ID && h.tail < h.head && WrongInOlderLap(slots, h, b, i, a) && b != i
    requires !slots[i].isStart && slots[b].Covers(a) && Leaves(slots, h, a, Saved(slots[b], a)) && a in mem
    ensures Recovered(CrashImages(Image(mem, slots, h), runs)) != Recover(mem, slots, h)
  {
    hide Recover, Leaves, Run, OnlyKept, WrongInOlderLap, TwoLeft, OneWriter, Restored;
    var img := Image(mem, slots, h);
    WrongBounds(slots, h, b, i, a);
    var s1, m, p := SweepCrash(mem, slots, h, {b, i}, a);
    TwoKept(slots, p, h, b, i, a);
    BoundsLeft(p, h, b, i);
    assert a in m.Keys;
    var s2 := UndoneHalf(m, p, h, b, i, a);
    var m2 := m[a := Saved(p[i], a)];
    TwoAreOne(p, h, b, i);
    StartDecides(p, h, b, i, a);
    var v := LosesOlderUndo(p, h, b, a);
    LeavesValue(m2, p, h, a, v);
    LeavesValue(m2, p, h, a, Saved(p[b], a));
    LeavesValue(mem, slots, h, a, v);
    assert Loses(m2, p, h, a);
    var s3 :| LosesBy(m2, p, h, a, s3);
    runs := [s1, s2, s3];
    ThreeRuns(img, s1, s2, s3);
    assert CrashImage(img, s1) == Image(m, p, h);
    assert CrashImage(Image(m, p, h), s2) == Image(m2, p, h);
    OneCrash(m2, p, h, s3);
  }

  lemma WrongBounds(slots: seq<Entry>, h: Header, b: nat, i: nat, a: nat)
    requires Bounds(slots, h) && WrongInOlderLap(slots, h, b, i, a)
    ensures h.head <= b <= i < |slots| && slots[i].Covers(a) && !Leaves(slots, h, a, Saved(slots[i], a))
  {
    hide Leaves;
  }

  lemma BoundsLeft(p: seq<Entry>, h: Header, b: nat, i: nat)
    requires TwoLeft(p, h, b, i)
    ensures Bounds(p, h) && b < |p| && i < |p| && h.head != h.tail
  {
  }

  lemma ThreeRuns(img: Image, s1: seq<RStep>, s2: seq<RStep>, s3: seq<RStep>)
    requires Bounds(img.slots, img.hdr)
    ensures CrashImages(img, [s1, s2, s3]) == CrashImage(CrashImage(CrashImage(img, s1), s2), s3)
  {
    hide CrashImage;
    var i1 := CrashImage(img, s1);
    var i2 := CrashImage(i1, s2);
    assert [s1, s2, s3][1..] == [s2, s3] && [s2, s3][1..] == [s3] && [s3][1..] == [];
    assert CrashImages(i2, [s3]) == CrashImage(i2, s3);
    assert CrashImages(i1, [s2, s3]) == CrashImages(i2, [s3]);
  }

  lemma OneCrash(mem: Memory, slots: seq<Entry>, h: Header, steps: seq<RStep>)
    requires Bounds(slots, h) && h.head != h.tail
    ensures Recovered(CrashImage(Image(mem, slots, h), steps)) == Again(Run(Begin(mem, slots, h), steps))
  {
  }

  // ---- Any number of crashes ---------------------------------------------------------------------------------------

  /** Whatever memory holds, however many recoveries crash and wherever each of them does, the one that gets through
      ends with the memory that the first would have reached. */
  ghost predicate ManyCrashProof(slots: seq<Entry>, h: Header)
    requires Bounds(slots, h)
  {
    forall mem: Memory, runs :: Recovered(CrashImages(Image(mem, slots, h), runs)) == Recover(mem, slots, h)
  }

  lemma RiskHasLog(slots: seq<Entry>, h: Header)
    requires Bounds(slots, h) && (ScanRisk(slots, h) || SweepHazard(slots, h))
    ensures h.head != h.tail
  {
  }

  lemma OneCrashLoses(slots: seq<Entry>, h: Header, a: nat, v: Byte)
    requires Bounds(slots, h) && h.head != h.tail
    requires forall mem: Memory :: a in mem && mem[a] != v ==> Loses(mem, slots, h, a)
    ensures !ManyCrashProof(slots, h)
  {
    hide Recover, Again, Run;
    var w: Byte := if v == 0 then 1 else 0;
    var mem: Memory := map[a := w];
    var steps :| LosesBy(mem, slots, h, a, steps);
    var img := Image(mem, slots, h);
    assert CrashImages(img, [steps]) == CrashImage(img, steps) by {
      assert [steps][1..] == [];
    }
    OneCrash(mem, slots, h, steps);
    assert Recovered(CrashImages(img, [steps])) != Recover(mem, slots, h);
  }

  lemma SweepHazardLoses(slots: seq<Entry>, h: Header)
    requires Bounds(slots, h) && OneWriter(slots, h) && SweepHazard(slots, h)
    ensures !ManyCrashProof(slots, h)
  {
    hide OneWriter, Leaves, Recover, CrashImages, Loses;
    RiskHasLog(slots, h);
    if SweepRisk(slots, h) {
      var a, v := SweepLoses(slots, h);
      OneCrashLoses(slots, h, a, v);
    } else {
      var b, i, a :| WrongInOlderLap(slots, h, b, i, a);
      assert !LeftInOlderLap(slots, h, b, i, a);
      assert slots[i].isStart ==> WrongInOlderLap(slots, h, i, i, a) && LeftInOlderLap(slots, h, i, i, a);
      assert !LeftInOlderLap(slots, h, b, b, a);
      assert !WrongInOlderLap(slots, h, b, b, a);
      var mem: Memory := map[a := 0];
      var runs := LosesInThree(mem, slots, h, b, i, a);
    }
  }

  /** For any image whose unfinished transactions have no byte in common, whose starts have saved something, and in
      which no transaction consists of its end entry: recovery can crash any number of times without loss if and
      only if the scan of the MAX_GEN_ID lap can do no harm and nothing can be left behind by the last steps. */
  lemma ManyCrashProofExactly(slots: seq<Entry>, h: Header)
    requires Bounds(slots, h) && OneWriter(slots, h) && NothingLater(slots, h)
    requires forall mx :: IsMaxLap(h, mx) ==> StartsSave(Lap(slots, h, mx))
    ensures ManyCrashProof(slots, h) <==> !ScanRisk(slots, h) && !SweepHazard(slots, h)
  {
    hide OneWriter, NothingLater, SweepHazard, Recover, CrashImages, Risky, ClearAbove, StartsSave, Loses;
    if ScanRisk(slots, h) {
      RiskHasLog(slots, h);
      var a, v := ScanLoses(slots, h);
      OneCrashLoses(slots, h, a, v);
    } else if SweepHazard(slots, h) {
      SweepHazardLoses(slots, h);
    } else {
      forall mx | IsMaxLap(h, mx) ensures ClearAbove(slots, h, mx) {
        RiskIsAbove(slots, h, mx);
      }
      forall mem: Memory, runs ensures Recovered(CrashImages(Image(mem, slots, h), runs)) == Recover(mem, slots, h) {
        ManyCrashesInMaxLap(Image(mem, slots, h), runs);
      }
    }
  }
}
