/** The cleaner's loop as a whole: it is a run of the machine's cleaning steps, so that everything
    proved about those steps holds for it. */
module JournalCleanerRun {
  import opened JournalRing
  import opened JournalCleaner
  import opened JournalMachine
  import opened JournalInvariant
  import opened JournalCleaning
  import opened JournalSafety
  import opened JournalCode

  /** Transaction k is the last one of a lap and the only one of it that has not ended. */
  ghost predicate OnlyLastOpen(s: State, lap: int, k: int) {
    && 0 <= k < |s.txs| && InLog(s.cur.hdr, s.txs[k]) && s.txs[k].lap == lap && !s.txs[k].Ended()
    && forall j :: 0 <= j < |s.txs| && j != k && InLog(s.cur.hdr, s.txs[j]) && s.txs[j].lap == lap ==>
         s.txs[j].Ended() && s.txs[j].start < s.txs[k].start
  }

  /** What misleads the cleaner: the last transaction of the old lap, and no other one of it, is still
      open, and the slots reused since then show an end entry of that lap before any start of it. */
  ghost predicate Hazard(s: State)
    requires s.cleaner.Scan? && s.cur.hdr.tail <= |s.cur.ring.slots|
  {
    && s.cur.hdr.tail < s.cleaner.at && StaleEnd(s.cur.ring.slots, s.cur.hdr.tail, GenOf(s.cleaner.lap))
    && exists k :: OnlyLastOpen(s, s.cleaner.lap, k)
  }

  predicate IsCleaning(step: Step) {
    step.CleanBegin? || step.CleanSkip? || step.CleanTake? || step.CleanZero? || step.CleanDone?
  }

  predicate OnlyCleans(steps: seq<Step>) {
    forall i :: 0 <= i < |steps| ==> IsCleaning(steps[i])
  }

  /** s' follows s by cleaning steps alone. */
  ghost predicate CleansTo(s: State, s': State)
  {
    exists steps :: IsRun(s, steps) && After(s, steps) == s' && OnlyCleans(steps)
  }

  lemma CleansSelf(s: State)
    ensures CleansTo(s, s)
  {
    assert IsRun(s, []) && After(s, []) == s;
  }

  lemma CleansMore(s: State, step: Step, s': State)
    requires Shape(s) && Enabled(s, step) && IsCleaning(step)
    requires CleansTo(Apply(s, step), s')
    ensures CleansTo(s, s')
  {
    var rest :| IsRun(Apply(s, step), rest) && After(Apply(s, step), rest) == s' && OnlyCleans(rest);
    var steps := [step] + rest;
    assert steps[1..] == rest;
    assert IsRun(s, steps) && After(s, steps) == s';
  }

  lemma {:induction false} CleansJoin(s: State, s1: State, s2: State)
    requires CleansTo(s, s1) && CleansTo(s1, s2)
    ensures CleansTo(s, s2)
  {
    var a :| IsRun(s, a) && After(s, a) == s1 && OnlyCleans(a);
    JoinRun(s, a, s1, s2);
  }

  lemma {:induction false} JoinRun(s: State, a: seq<Step>, s1: State, s2: State)
    requires IsRun(s, a) && After(s, a) == s1 && CleansTo(s1, s2)
    requires OnlyCleans(a)
    ensures CleansTo(s, s2)
    decreases |a|
  {
    if a != [] {
      JoinRun(Apply(s, a[0]), a[1..], s1, s2);
      CleansMore(s, a[0], s2);
    }
  }

  /** s' differs from s only in the cleaner's progress. */
  ghost predicate SameTransactions(s: State, s': State) {
    && LogInv(s') && s'.txs == s.txs && s'.cur.hdr == s.cur.hdr && s'.cur.mem == s.cur.mem
    && s'.per.hdr == s.per.hdr && s'.per.mem == s.per.mem && s'.committed == s.committed
    && |s'.cur.ring.slots| == |s.cur.ring.slots|
  }

  /** Zeroing one transaction, slot by slot, is what Wiped says. */
  lemma {:induction false} ZeroRun(s: State) returns (s1: State)
    requires LogInv(s) && s.cleaner.Zero? && s.cleaner.last < |s.cur.ring.slots|
    ensures CleansTo(s, s1) && SameTransactions(s, s1)
    ensures s1.cleaner == NextScan(|s.cur.ring.slots|, s.cleaner.last, s.cleaner.lap)
    ensures s1.cur.ring.slots == Wiped(s.cur.ring.slots, s.cleaner.next, s.cleaner.last + 1)
    decreases s.cleaner.last - s.cleaner.next
  {
    hide AllSlots, AllKept, FencedKept, ZoneZeroed, ZonePersisted, AllPlaced, CleanerOk, Ordered, HeaderOk, CleansTo,
      TxShape;
    CleanZeroLog(s);
    var s' := Apply(s, CleanZero);
    if s.cleaner.next == s.cleaner.last {
      s1 := s';
      CleansSelf(s');
    } else {
      s1 := ZeroRun(s');
    }
    CleansMore(s, CleanZero, s1);
    assert s1.cur.ring.slots == Wiped(s.cur.ring.slots, s.cleaner.next, s.cleaner.last + 1);
  }

  /** Taking the ended transaction at the cleaner's position, and wiping it in the MAX_GEN_ID lap. */
  lemma TakeRun(s: State) returns (s1: State)
    requires LogInv(s) && Enabled(s, CleanTake)
    ensures CleansTo(s, s1) && SameTransactions(s, s1)
    ensures var c := s.cleaner; var r := ProcessOne(s.cur.ring.slots, c.at, s.cur.hdr.tail);
      && r.at != c.at
      && s1.cleaner == Scan(r.at, if r.at == 0 then c.lap + 1 else c.lap)
      && s1.cur.ring.slots == r.slots
    ensures forall i :: 0 <= i < s.cleaner.at ==> s1.cur.ring.slots[i] == s.cur.ring.slots[i]
  {
    hide AllSlots, AllKept, FencedKept, ZoneZeroed, ZonePersisted, AllPlaced, CleanerOk, Ordered, HeaderOk, CleansTo,
      TxShape;
    TakeEnded(s);
    CleanTakeLog(s);
    FindEndStays(s.cur.ring.slots, s.cleaner.at, s.cur.hdr.tail, GenOf(s.cleaner.lap));
    var s' := Apply(s, CleanTake);
    if s'.cleaner.Zero? {
      s1 := ZeroRun(s');
    } else {
      s1 := s';
      CleansSelf(s');
    }
    CleansMore(s, CleanTake, s1);
  }

  lemma SkipRun(s: State)
    requires LogInv(s) && Enabled(s, CleanSkip)
    ensures CleansTo(s, Apply(s, CleanSkip)) && SameTransactions(s, Apply(s, CleanSkip))
  {
    hide AllSlots, AllKept, FencedKept, ZoneZeroed, ZonePersisted, AllPlaced, CleanerOk, Ordered, HeaderOk, CleansTo,
      TxShape;
    CleanSkipLog(s);
    CleansSelf(Apply(s, CleanSkip));
    CleansMore(s, CleanSkip, Apply(s, CleanSkip));
  }

  /** The cleaner stands at a transaction that has not ended. */
  ghost predicate AtOpen(s: State) {
    && s.cleaner.Scan?
    && exists k :: 0 <= k < |s.txs| && !s.txs[k].Ended() && InLog(s.cur.hdr, s.txs[k])
                   && s.txs[k].lap == s.cleaner.lap && s.txs[k].start == s.cleaner.at
  }

  /** At a valid slot: a start entry, with an end ahead unless its transaction is open. */
  lemma ValidSlotCase(s: State)
    requires LogInv(s) && s.cleaner.Scan? && s.cleaner.at != s.cur.hdr.tail
    requires s.cur.ring.slots[s.cleaner.at].gen == GenOf(s.cleaner.lap)
    ensures s.cur.ring.slots[s.cleaner.at].isStart
    ensures FindEnd(s.cur.ring.slots, s.cleaner.at, s.cur.hdr.tail, GenOf(s.cleaner.lap)).None? ==> AtOpen(s)
    ensures FindEnd(s.cur.ring.slots, s.cleaner.at, s.cur.hdr.tail, GenOf(s.cleaner.lap)).Some? && !Hazard(s) ==>
      Enabled(s, CleanTake)
  {
    var at, lap := s.cleaner.at, s.cleaner.lap;
    OwnerAhead(s, at, lap, at);
    var k := s.cur.ring.own[at];
    CleanerVerdict(s, at, lap, k);
    if s.txs[k].Ended() {
      EndedIsFound(s, at, lap, k);
    } else if !LaterStart(s, at, lap) {
      LastOpen(s, at, lap, k);
    }
  }

  /** An open transaction at the cleaner's position with no start behind it is the last one of its
      lap; all others of that lap have been passed. */
  lemma LastOpen(s: State, at: nat, lap: int, k: nat)
    requires StartsAt(s, at, lap, k) && !s.txs[k].Ended() && !LaterStart(s, at, lap)
    ensures OnlyLastOpen(s, lap, k)
  {
    forall j | 0 <= j < |s.txs| && j != k && InLog(s.cur.hdr, s.txs[j]) && s.txs[j].lap == lap
      ensures s.txs[j].Ended() && s.txs[j].start < s.txs[k].start
    {
      assert TxShape(s.txs[j], j, |s.cur.ring.slots|) && TxShape(s.txs[k], k, |s.cur.ring.slots|);
      RegionsApartEither(s.txs, j, k);
      if s.txs[j].start > at {
        assert 1 <= |s.txs[j].log|;
        EntryAhead(s, at, lap, j, 0);
      }
    }
  }

  lemma ScanBounds(s: State)
    requires LogInv(s) && s.cleaner.Scan?
    ensures s.cleaner.at < |s.cur.ring.slots| && s.cur.hdr.tail < |s.cur.ring.slots|
    ensures s.cur.hdr.tail < s.cleaner.at ==>
      s.cur.hdr.tail < s.cur.hdr.head <= s.cleaner.at && s.cleaner.lap == s.cur.hdr.lap - 1
    ensures s.cleaner.at < s.cur.hdr.tail ==> s.cleaner.lap == s.cur.hdr.lap
  {
  }

  lemma StillNoHazard(s: State, s1: State)
    requires LogInv(s) && s.cleaner.Scan? && !Hazard(s) && SameTransactions(s, s1) && s1.cleaner.Scan?
    requires s1.cleaner.lap == s.cleaner.lap || s1.cleaner.at == 0
    requires forall i :: 0 <= i < s.cleaner.at ==> s1.cur.ring.slots[i] == s.cur.ring.slots[i]
    ensures !Hazard(s1)
  {
    ScanBounds(s);
    ScanBounds(s1);
    if s1.cur.hdr.tail < s1.cleaner.at && StaleEnd(s1.cur.ring.slots, s1.cur.hdr.tail, GenOf(s1.cleaner.lap)) {
      var f :| 0 <= f < s1.cur.hdr.tail && IsFirstEnd(s1.cur.ring.slots, f, GenOf(s1.cleaner.lap));
      assert IsFirstEnd(s.cur.ring.slots, f, GenOf(s.cleaner.lap));
      assert forall k :: OnlyLastOpen(s1, s1.cleaner.lap, k) ==> OnlyLastOpen(s, s.cleaner.lap, k);
    }
  }

  /** The cleaning loop is a run of cleaning steps; it stops at the tail or at a transaction that
      has not ended. */
  lemma {:induction false} CleanIsRun(s: State) returns (s': State)
    requires LogInv(s) && s.cleaner.Scan? && !Hazard(s)
    ensures CleansTo(s, s') && SameTransactions(s, s') && s'.cleaner.Scan?
    ensures s.cleaner.at < |s.cur.ring.slots| && s.cur.hdr.tail < |s.cur.ring.slots|
    ensures Clean(s.cur.ring.slots, s.cleaner.at, s.cur.hdr.tail, GenOf(s.cleaner.lap)) ==
      CleanResult(s'.cur.ring.slots, s'.cleaner.at)
    ensures s'.cleaner.at == s.cur.hdr.tail || AtOpen(s')
    ensures !Hazard(s')
    decreases if s.cleaner.at == s.cur.hdr.tail || s.cleaner.at >= |s.cur.ring.slots| ||
      s.cur.hdr.tail >= |s.cur.ring.slots|
              then 0 else RingDistance(|s.cur.ring.slots|, s.cleaner.at, s.cur.hdr.tail)
  {
    hide LogInv, CleansTo, Hazard, AtOpen, FindEnd, Wiped;
    InvShape(s);
    ScanBounds(s);
    GenFollowsLap(s.cleaner.lap);
    var slots := s.cur.ring.slots;
    var at, tl := s.cleaner.at, s.cur.hdr.tail;
    if at == tl {
      s' := s;
      CleansSelf(s);
    } else if slots[at].gen == GenOf(s.cleaner.lap) {
      ValidSlotCase(s);
      if FindEnd(slots, at, tl, GenOf(s.cleaner.lap)).None? {
        s' := s;
        CleansSelf(s);
      } else {
        var s1 := TakeRun(s);
        ProcessMoves(slots, at, tl);
        StillNoHazard(s, s1);
        s' := CleanIsRun(s1);
        CleansJoin(s, s1, s');
      }
    } else {
      SkipRun(s);
      var s1 := Apply(s, CleanSkip);
      StillNoHazard(s, s1);
      s' := CleanIsRun(s1);
      CleansJoin(s, s1, s');
    }
  }

  // ---- The other half: the hazard always misleads ---------------------------------------------------

  lemma {:induction false} FindEndWithin(s: seq<Entry>, i: nat, tl: nat, g: nat)
    requires i < tl < |s| && FindEnd(s, i, tl, g).Some?
    ensures i <= FindEnd(s, i, tl, g).value < tl
    decreases tl - i
  {
    if !(s[i].gen == g && s[i].Fin()) {
      FindEndWithin(s, i + 1, tl, g);
    }
  }

  /** In front of the tail the loop stays in front of it. */
  lemma {:induction false} CleanBehind(s: seq<Entry>, hd: nat, tl: nat, g: nat)
    requires hd <= tl < |s|
    ensures hd <= Clean(s, hd, tl, g).at <= tl
    decreases tl - hd
  {
    hide Wiped;
    if hd < tl {
      if s[hd].gen == g {
        var r := ProcessOne(s, hd, tl);
        if s[hd].isStart && FindEnd(s, hd, tl, g).Some? {
          FindEndWithin(s, hd, tl, g);
        }
        if r.at != hd {
          CleanBehind(r.slots, r.at, tl, g);
        }
      } else {
        CleanBehind(if g == MAX_GEN_ID then s[hd := s[hd].(gen := 0)] else s, hd + 1, tl, g);
      }
    }
  }

  /** At the open transaction the walk crosses the end of the ring and finds the stale end. */
  lemma FindsStaleEnd(s: State, k: nat)
    requires LogInv(s) && s.cleaner.Scan? && Hazard(s) && OnlyLastOpen(s, s.cleaner.lap, k)
    requires s.txs[k].start == s.cleaner.at
    ensures var slots, at, tl, g := s.cur.ring.slots, s.cleaner.at, s.cur.hdr.tail, GenOf(s.cleaner.lap);
      && at < |slots| && tl < at && slots[at].gen == g && slots[at].isStart
      && FindEnd(slots, at, tl, g).Some? && FindEnd(slots, at, tl, g).value < tl
  {
    hide Wiped, FindEnd, AllSlots, AllKept, FencedKept, ZoneZeroed, ZonePersisted, HeaderOk, Ordered;
    ScanBounds(s);
    var slots, at, lap, g := s.cur.ring.slots, s.cleaner.at, s.cleaner.lap, GenOf(s.cleaner.lap);
    assert TxShape(s.txs[k], k, |slots|);
    assert StartsAt(s, at, lap, k);
    EntryAhead(s, at, lap, k, 0);
    if LaterStart(s, at, lap) {
      var j :| at < j < LapLimit(s, lap) && j < |slots| && slots[j].gen == g && slots[j].isStart;
      OwnerAhead(s, at, lap, j);
    }
    CleanerVerdict(s, at, lap, k);
  }

  /** It takes the stale end for the transaction's. */
  lemma WalkMisled(s: State, k: nat)
    requires LogInv(s) && s.cleaner.Scan? && Hazard(s) && OnlyLastOpen(s, s.cleaner.lap, k)
    requires s.txs[k].start == s.cleaner.at
    ensures s.cleaner.at < |s.cur.ring.slots| && s.cur.hdr.tail < |s.cur.ring.slots|
    ensures Clean(s.cur.ring.slots, s.cleaner.at, s.cur.hdr.tail, GenOf(s.cleaner.lap)).at <= s.cur.hdr.tail
  {
    hide LogInv, Hazard, OnlyLastOpen, Wiped;
    FindsStaleEnd(s, k);
    var slots, at, tl, g := s.cur.ring.slots, s.cleaner.at, s.cur.hdr.tail, GenOf(s.cleaner.lap);
    var r := ProcessOne(slots, at, tl);
    CleanBehind(r.slots, r.at, tl, g);
  }

  /** Whenever the hazard is there, head moves past the open transaction: the condition is exact. */
  lemma {:induction false} HazardMisleads(s: State, k: nat)
    requires LogInv(s) && s.cleaner.Scan? && Hazard(s) && OnlyLastOpen(s, s.cleaner.lap, k)
    ensures s.cleaner.at < |s.cur.ring.slots| && s.cur.hdr.tail < |s.cur.ring.slots|
    ensures var r := Clean(s.cur.ring.slots, s.cleaner.at, s.cur.hdr.tail, GenOf(s.cleaner.lap));
      r.at <= s.cur.hdr.tail && !InLog(s.cur.hdr.(head := r.at), s.txs[k])
    decreases RingDistance(|s.cur.ring.slots|, s.cleaner.at, s.cur.hdr.tail)
  {
    hide LogInv, CleansTo, AtOpen, FindEnd, Wiped, StaleEnd, OnlyLastOpen, Hazard;
    InvShape(s);
    ScanBounds(s);
    HazardFacts(s, k);
    var slots, at, tl := s.cur.ring.slots, s.cleaner.at, s.cur.hdr.tail;
    GenFollowsLap(s.cleaner.lap);
    if s.txs[k].start == at {
      WalkMisled(s, k);
    } else if slots[at].gen == GenOf(s.cleaner.lap) {
      OtherIsTaken(s, k);
      var s1 := TakeRun(s);
      ProcessMoves(slots, at, tl);
      HazardStays(s, s1, k);
      ScanBounds(s1);
      HazardMisleads(s1, k);
    } else {
      SkipRun(s);
      var s1 := Apply(s, CleanSkip);
      HazardStays(s, s1, k);
      ScanBounds(s1);
      HazardMisleads(s1, k);
    }
  }

  lemma HazardFacts(s: State, k: nat)
    requires LogInv(s) && s.cleaner.Scan? && s.cur.hdr.tail <= |s.cur.ring.slots| && Hazard(s)
    requires OnlyLastOpen(s, s.cleaner.lap, k)
    ensures k < |s.txs| && s.cur.hdr.tail < s.cleaner.at <= s.txs[k].start && s.cleaner.lap == s.cur.hdr.lap - 1
  {
  }

  /** Any other transaction that starts at the cleaner's position has ended and is taken. */
  lemma OtherIsTaken(s: State, k: nat)
    requires LogInv(s) && s.cleaner.Scan? && s.cleaner.at != s.cur.hdr.tail && OnlyLastOpen(s, s.cleaner.lap, k)
    requires s.cleaner.at < |s.cur.ring.slots| && s.cur.hdr.tail < |s.cur.ring.slots| && s.txs[k].start != s.cleaner.at
    requires s.cur.ring.slots[s.cleaner.at].gen == GenOf(s.cleaner.lap)
    ensures s.cur.ring.slots[s.cleaner.at].isStart && Enabled(s, CleanTake)
  {
    var at, lap := s.cleaner.at, s.cleaner.lap;
    ValidSlotCase(s);
    OwnerAhead(s, at, lap, at);
    EndedIsFound(s, at, lap, s.cur.ring.own[at]);
  }

  /** The hazard does not go away while the cleaner passes ended transactions. */
  lemma HazardStays(s: State, s1: State, k: nat)
    requires LogInv(s) && s.cleaner.Scan? && Hazard(s) && OnlyLastOpen(s, s.cleaner.lap, k)
    requires SameTransactions(s, s1) && s1.cleaner.Scan?
    requires s1.cleaner.lap == s.cleaner.lap || (s1.cleaner.at == 0 && s1.cleaner.lap == s.cleaner.lap + 1)
    requires forall i :: 0 <= i < s.cleaner.at ==> s1.cur.ring.slots[i] == s.cur.ring.slots[i]
    ensures s1.cur.hdr.tail <= |s1.cur.ring.slots| && s1.cleaner.lap == s.cleaner.lap
    ensures Hazard(s1) && OnlyLastOpen(s1, s1.cleaner.lap, k)
  {
    ScanBounds(s);
    ScanBounds(s1);
    var f :| 0 <= f < s.cur.hdr.tail && IsFirstEnd(s.cur.ring.slots, f, GenOf(s.cleaner.lap));
    assert s1.cleaner.lap == s.cleaner.lap;
    assert IsFirstEnd(s1.cur.ring.slots, f, GenOf(s1.cleaner.lap));
    assert OnlyLastOpen(s1, s1.cleaner.lap, k);
  }

  // ---- Where the loop stops ---------------------------------------------------------------------------

  /** Where the first transaction without an end entry begins, or the tail if all have ended. */
  function FirstOpen(txs: seq<Tx>, tail: nat): nat {
    if txs == [] then tail else if !txs[0].Ended() then txs[0].start else FirstOpen(txs[1..], tail)
  }

  lemma {:induction false} FirstOpenIs(txs: seq<Tx>, tail: nat) returns (k: nat)
    ensures k <= |txs| && (forall j :: 0 <= j < k ==> txs[j].Ended())
    ensures k < |txs| ==> !txs[k].Ended() && FirstOpen(txs, tail) == txs[k].start
    ensures k == |txs| ==> FirstOpen(txs, tail) == tail
    decreases |txs|
  {
    k := 0;
    if txs != [] && txs[0].Ended() {
      var rest := FirstOpenIs(txs[1..], tail);
      assert forall j :: 0 < j < |txs| ==> txs[j] == txs[1..][j - 1];
      k := rest + 1;
    }
  }

  /** The loop stops at the first transaction without an end entry. */
  lemma StopsAtFirstOpen(s: State)
    requires LogInv(s) && s.cleaner.Scan? && (s.cleaner.at == s.cur.hdr.tail || AtOpen(s))
    ensures s.cleaner.at == FirstOpen(s.txs, s.cur.hdr.tail)
  {
    hide AllSlots, AllKept, FencedKept, ZoneZeroed, ZonePersisted;
    var k := FirstOpenIs(s.txs, s.cur.hdr.tail);
    if k < |s.txs| {
      assert Placed(s.cur.hdr, s.per.hdr, s.txs[k]) && TxShape(s.txs[k], k, |s.cur.ring.slots|);
      assert InLog(s.cur.hdr, s.txs[k]);
      assert !StartsBefore(s.txs[k], s.cleaner.at, s.cleaner.lap);
      var j :| 0 <= j < |s.txs| && !s.txs[j].Ended() && InLog(s.cur.hdr, s.txs[j])
               && s.txs[j].lap == s.cleaner.lap && s.txs[j].start == s.cleaner.at;
      assert TxShape(s.txs[j], j, |s.cur.ring.slots|);
      assert j > k ==> Precedes(s.txs[k], s.txs[j]);
    }
  }

  /** A second cleaning finds no hazard that the first one did not. */
  lemma HazardBefore(s: State, s1: State)
    requires LogInv(s) && s.cleaner.Scan? && s1 == Apply(s, CleanDone) && LogInv(s1)
    requires Enabled(s1, CleanBegin) && Hazard(Apply(s1, CleanBegin)) && s.cur.hdr.tail <= |s.cur.ring.slots|
    ensures Hazard(s)
  {
    hide AllSlots, AllKept, FencedKept, ZoneZeroed, ZonePersisted, StaleEnd, Ordered;
    ScanBounds(s);
    var b := Apply(s1, CleanBegin);
    var k :| OnlyLastOpen(b, b.cleaner.lap, k);
    assert Placed(s.cur.hdr, s.per.hdr, s.txs[k]);
    forall j | 0 <= j < |s.txs| && j != k && InLog(s.cur.hdr, s.txs[j]) && s.txs[j].lap == s.cleaner.lap
      ensures s.txs[j].Ended() && s.txs[j].start < s.txs[k].start
    {
      assert TxShape(s.txs[j], j, |s.cur.ring.slots|);
    }
    assert OnlyLastOpen(s, s.cleaner.lap, k);
  }

  /** The loop as a run, and the state in which it stops, before head is stored. */
  lemma WholeCleaning(s: State) returns (s': State, s1: State)
    requires LogInv(s) && Enabled(s, CleanBegin) && !Hazard(Apply(s, CleanBegin))
    ensures LogInv(s') && LogInv(s1) && s'.cleaner.Scan? && s1 == Apply(s', CleanDone) && CleansTo(s, s1)
    ensures s'.txs == s.txs && s'.cur.hdr == s.cur.hdr && s'.cur.mem == s.cur.mem && s'.per.mem == s.per.mem
    ensures s'.cleaner.at == FirstOpen(s.txs, s.cur.hdr.tail) && |s'.cur.ring.slots| == |s.cur.ring.slots|
    ensures s.cur.hdr.head < |s.cur.ring.slots| && s.cur.hdr.tail < |s.cur.ring.slots|
    ensures s.cur.hdr.gen == GenOf(s.cur.hdr.lap)
    ensures Clean(s.cur.ring.slots, s.cur.hdr.head, s.cur.hdr.tail, ScanGen(s.cur.hdr)) ==
      CleanResult(s'.cur.ring.slots, s'.cleaner.at)
    ensures Enabled(s1, CleanBegin) && !Hazard(Apply(s1, CleanBegin))
  {
    hide LogInv, CleansTo, Hazard, Clean, AtOpen, Apply, Enabled, ScanGen;
    var s0 := Begins(s);
    s' := CleanIsRun(s0);
    StopsAtFirstOpen(s');
    s1 := Ends(s');
    var again := Begins(s1);
    if Hazard(again) {
      HazardBefore(s', s1);
    }
    CleansSelf(s1);
    CleansMore(s', CleanDone, s1);
    CleansJoin(s0, s', s1);
    CleansMore(s, CleanBegin, s1);
  }

  lemma Begins(s: State) returns (s0: State)
    requires LogInv(s) && Enabled(s, CleanBegin)
    ensures s0 == Apply(s, CleanBegin) && LogInv(s0) && Shape(s) && s0.cleaner.Scan? && s0.cleaner.at == s.cur.hdr.head
    ensures s0.cur == s.cur && s0.per == s.per && s0.txs == s.txs && s0.committed == s.committed
    ensures GenOf(s0.cleaner.lap) == ScanGen(s.cur.hdr) && s.cur.hdr.gen == GenOf(s.cur.hdr.lap)
    ensures s.cur.hdr.head < |s.cur.ring.slots| && s.cur.hdr.tail < |s.cur.ring.slots| && AllStarted(s.txs)
  {
    s0 := Apply(s, CleanBegin);
    CleanBeginLog(s);
    GenFollowsLap(s.cur.hdr.lap - 1);
  }

  lemma Ends(s: State) returns (s1: State)
    requires LogInv(s) && s.cleaner.Scan?
    ensures Shape(s) && Enabled(s, CleanDone) && s1 == Apply(s, CleanDone) && LogInv(s1) && Shape(s1)
    ensures Enabled(s1, CleanBegin)
  {
    hide AllSlots, AllKept, FencedKept, ZoneZeroed, ZonePersisted, Ordered, AllPlaced, TxShape, InZone, PersistZone;
    CleanDoneLog(s);
    s1 := Apply(s, CleanDone);
  }

  lemma OpenInLog(s: State)
    requires LogInv(s)
    ensures forall k :: 0 <= k < |s.txs| && !s.txs[k].Ended() ==> InLog(s.cur.hdr, s.txs[k])
  {
    forall k | 0 <= k < |s.txs| && !s.txs[k].Ended() ensures InLog(s.cur.hdr, s.txs[k]) {
      assert Placed(s.cur.hdr, s.per.hdr, s.txs[k]);
    }
  }

  /** A cleaning run from any state in which every transaction has written its start entry: the loop's result
      never passes tail or the start of a transaction without an end, and it is the tail if every transaction in
      the log has ended. */
  lemma CleanerSafety(s: State) returns (s1: State)
    requires LogInv(s) && Enabled(s, CleanBegin) && !Hazard(Apply(s, CleanBegin))
    ensures LogInv(s1) && s1.txs == s.txs && s1.cleaner.Idle? && s1.cur.mem == s.cur.mem && s1.per.mem == s.per.mem
    ensures var h := s.cur.hdr;
      && h.head < |s.cur.ring.slots| && h.tail < |s.cur.ring.slots|
      && s1.cur.hdr == h.(head := Clean(s.cur.ring.slots, h.head, h.tail, ScanGen(h)).at) == s1.per.hdr
      && s1.cur.ring.slots == Clean(s.cur.ring.slots, h.head, h.tail, ScanGen(h)).slots
    ensures s1.cur.hdr.head == FirstOpen(s.txs, s.cur.hdr.tail) && CleansTo(s, s1)
    ensures forall k :: 0 <= k < |s.txs| && !s.txs[k].Ended() ==> InLog(s1.cur.hdr, s.txs[k])
    ensures forall i :: 0 <= i < |s.cur.ring.slots| && Live(s1.cur.hdr, i) ==> Live(s.cur.hdr, i)
    ensures (forall k :: 0 <= k < |s.txs| && InLog(s.cur.hdr, s.txs[k]) ==> s.txs[k].Ended()) ==>
      s1.cur.hdr.head == s1.cur.hdr.tail
    ensures Enabled(s1, CleanBegin) && !Hazard(Apply(s1, CleanBegin))
  {
    hide LogInv, CleansTo, Hazard, Clean, PersistZone, InLog, Live, ScanGen;
    var s';
    s', s1 := WholeCleaning(s);
    InvShape(s);
    HeadOrder(s, s', s1);
    OpenInLog(s1);
    OpenInLog(s);
    var k := FirstOpenIs(s.txs, s.cur.hdr.tail);
  }

  lemma HeadOrder(s: State, s': State, s1: State)
    requires LogInv(s) && LogInv(s') && s'.cleaner.Scan? && s1 == Apply(s', CleanDone)
    requires s'.cur.hdr == s.cur.hdr && |s'.cur.ring.slots| == |s.cur.ring.slots|
    requires s.cur.hdr.gen == GenOf(s.cur.hdr.lap)
    ensures forall i :: 0 <= i < |s.cur.ring.slots| && Live(s1.cur.hdr, i) ==> Live(s.cur.hdr, i)
    ensures ScanGen(s.cur.hdr) == GenOf(if s.cur.hdr.tail < s.cur.hdr.head then s.cur.hdr.lap - 1 else s.cur.hdr.lap)
  {
    GenFollowsLap(s.cur.hdr.lap);
    forall i | 0 <= i < |s.cur.ring.slots| && Live(s1.cur.hdr, i) ensures Live(s.cur.hdr, i) {
      HeadMoves(s'.cur.hdr, s'.cleaner, |s'.cur.ring.slots|, i);
    }
  }
}
