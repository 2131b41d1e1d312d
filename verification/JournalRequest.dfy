/** Reservations for which the cleaner has to make room: when they are safe, and that a safe call is a run of the
    machine. */
module JournalRequest {
  import opened JournalRing
  import opened JournalCleaner
  import opened JournalCleanerRun
  import opened JournalCleaning
  import opened JournalCode
  import opened JournalInvariant
  import opened JournalMachine
  import opened JournalSafety
  import opened JournalTheorems
  import opened UndoRecovery

  /** Without cleaning the code grants what the reservation function says. */
  lemma NoCleaningNeeded(s: seq<Entry>, h: Header, req: nat)
    requires h.head < |s| && h.tail < |s| && 1 <= req && Request(|s|, h, req).Granted?
    ensures var r := Request(|s|, h, req); Reservation(s, h, req) == Reserved(r.start, s, r.hdr)
  {
    ProceedUnfolds(s, h, h.head, req, 2);
    var hw := Header(h.head, 0, NextGen(h.gen), h.lap + 1);
    ProceedUnfolds(s, hw, h.head, req, 1);
  }

  // ---- Requests as large as the ring ---------------------------------------------------------------------------

  /** However often the code wraps, it does not grant a request that is as large as the ring. */
  lemma {:induction false} NeverReserved(s: seq<Entry>, h: Header, seen: nat, req: nat, turns: nat)
    requires h.head < |s| && h.tail < |s| && req >= |s|
    ensures !Proceed(s, h, seen, req, turns).Reserved?
    decreases turns
  {
    hide MadeRoom, NextGen;
    ProceedUnfolds(s, h, seen, req, turns);
    if turns > 0 {
      var c := MadeRoom(s, h, seen, req);
      NeverReserved(c.slots, Header(c.head, 0, NextGen(h.gen), h.lap + 1), seen, req, turns - 1);
    }
  }

  /** Two wraps do not suffice only for such a request. */
  lemma WrapsAgainIfTooLarge(s: seq<Entry>, h: Header, req: nat)
    requires h.head < |s| && h.tail < |s| && Reservation(s, h, req).WrapsAgain?
    ensures req >= |s|
  {
    hide MadeRoom, NextGen;
    var c := MadeRoom(s, h, h.head, req);
    var hw := Header(c.head, 0, NextGen(h.gen), h.lap + 1);
    ProceedUnfolds(s, h, h.head, req, 2);
    ProceedUnfolds(c.slots, hw, h.head, req, 1);
  }

  // ---- A call as a run -----------------------------------------------------------------------------------------

  /** The journal is in order, no cleaning is under way, and every open transaction has logged something. */
  ghost predicate Started(s: State) {
    LogInv(s) && Enabled(s, CleanBegin)
  }

  predicate OfCall(steps: seq<Step>) {
    forall i :: 0 <= i < |steps| ==> IsCleaning(steps[i]) || steps[i].Wrap? || steps[i].Reserve?
  }

  /** A run of cleaning steps, wraps and reservations leads from s to s'. */
  ghost predicate CallsTo(s: State, s': State) {
    exists steps :: IsRun(s, steps) && After(s, steps) == s' && OfCall(steps)
  }

  lemma CallsJoin(s: State, s1: State, s2: State)
    requires CallsTo(s, s1) && CallsTo(s1, s2)
    ensures CallsTo(s, s2)
  {
    var a :| IsRun(s, a) && After(s, a) == s1 && OfCall(a);
    var b :| IsRun(s1, b) && After(s1, b) == s2 && OfCall(b);
    RunsJoin(s, a, b);
    assert OfCall(a + b);
  }

  lemma CallsNothing(s: State)
    ensures CallsTo(s, s)
  {
    CleansSelf(s);
    CleaningCalls(s, s);
  }

  lemma CleaningCalls(s: State, s': State)
    requires CleansTo(s, s')
    ensures CallsTo(s, s')
  {
    var a :| IsRun(s, a) && After(s, a) == s' && OnlyCleans(a);
    assert OfCall(a);
  }

  lemma StepCalls(s: State, step: Step)
    requires Shape(s) && Enabled(s, step) && (step.Wrap? || step.Reserve?)
    ensures CallsTo(s, Apply(s, step))
  {
    hide Shape, Enabled, Apply;
    assert [step][1..] == [];
    assert IsRun(Apply(s, step), []) && After(Apply(s, step), []) == Apply(s, step);
    assert IsRun(s, [step]) && After(s, [step]) == Apply(s, step);
    assert OfCall([step]);
  }

  lemma StartedFacts(s: State)
    requires Started(s)
    ensures Shape(s) && s.cleaner.Idle? && s.cur.hdr.head < |s.cur.ring.slots| && s.cur.hdr.tail < |s.cur.ring.slots|
    ensures s.cur.hdr.gen == GenOf(s.cur.hdr.lap) && Apply(s, CleanBegin).cleaner.Scan?
    ensures Apply(s, CleanBegin).cur == s.cur
  {
  }

  /** What the cleaner meets on the way would mislead it. */
  ghost predicate Misled(s: State)
    requires Started(s)
  {
    StartedFacts(s);
    Hazard(Apply(s, CleanBegin))
  }

  /** s1 is s with head at the given slot, and slots wiped if need be. */
  ghost predicate HeadAt(s: State, s1: State, head: nat) {
    && Started(s1) && s1.txs == s.txs && s1.cur.hdr == s.cur.hdr.(head := head)
    && |s1.cur.ring.slots| == |s.cur.ring.slots| && s1.cur.mem == s.cur.mem && s1.per.mem == s.per.mem
  }

  lemma CleansOnce(s: State) returns (s1: State)
    requires Started(s) && !Misled(s)
    ensures Shape(s) && HeadAt(s, s1, FirstOpen(s.txs, s.cur.hdr.tail)) && !Misled(s1) && CallsTo(s, s1)
    ensures s.cur.hdr.head < |s.cur.ring.slots| && s.cur.hdr.tail < |s.cur.ring.slots|
    ensures Clean(s.cur.ring.slots, s.cur.hdr.head, s.cur.hdr.tail, ScanGen(s.cur.hdr)) ==
      CleanResult(s1.cur.ring.slots, s1.cur.hdr.head)
  {
    hide LogInv, CleansTo, Hazard, Clean, FirstOpen, InLog, Live, CallsTo, ScanGen;
    StartedFacts(s);
    s1 := CleanerSafety(s);
    CleaningCalls(s, s1);
  }

  /** However often it is repeated, cleaning ends at the first open transaction, or at the tail. */
  lemma {:induction false} CleansOn(s: State, avail: int, req: nat, freed: nat, tries: nat) returns (s1: State)
    requires Started(s) && !Misled(s) && 0 < tries && avail + freed < req
    ensures Shape(s) && HeadAt(s, s1, FirstOpen(s.txs, s.cur.hdr.tail)) && CallsTo(s, s1)
    ensures s.cur.hdr.head < |s.cur.ring.slots| && s.cur.hdr.tail < |s.cur.ring.slots|
    ensures var c := Retried(s.cur.ring.slots, s.cur.hdr, avail, req, freed, tries);
      c.slots == s1.cur.ring.slots && c.head == s1.cur.hdr.head
    decreases tries
  {
    hide Started, Misled, Clean, CleanCount, FirstOpen, CallsTo, ScanGen;
    var s2 := CleansOnce(s);
    var f := freed + CleanCount(s.cur.ring.slots, s.cur.hdr.head, s.cur.hdr.tail, ScanGen(s.cur.hdr));
    if tries > 1 && avail + f < req {
      s1 := CleansOn(s2, avail, req, f, tries - 1);
      CallsJoin(s, s2, s1);
    } else {
      s1 := s2;
    }
  }

  // ---- When a call is safe --------------------------------------------------------------------------------------

  predicate AllEnded(txs: seq<Tx>) {
    forall k :: 0 <= k < |txs| ==> txs[k].Ended()
  }

  /** The reserved slots lie in the log as new ones, and every transaction that has not ended stays in the log with
      slots of its own. */
  ghost predicate Safe(s: State, start: nat, req: nat, h: Header) {
    && h.head != h.tail
    && (forall i: nat :: start <= i < start + req ==> Live(h, i) && LapAt(h, i) == h.lap)
    && forall k :: 0 <= k < |s.txs| && !s.txs[k].Ended() ==>
         InLog(h, s.txs[k]) && (s.txs[k].End() <= start || start + req <= s.txs[k].start)
  }

  /** Where head will be when the code decides about a wrap. */
  function HeadThen(s: State, req: nat): nat
    requires s.cur.hdr.tail < |s.cur.ring.slots|
  {
    if Avail(s.cur.hdr, |s.cur.ring.slots|) < req then FirstOpen(s.txs, s.cur.hdr.tail) else s.cur.hdr.head
  }

  /** Whether there is room, told from the state before the call: nothing misleads the cleaner if it has to run; in
      front of the ring's end, the request fits up to the first open transaction; and a wrap leaves that one behind
      slot 0 and behind the request. Cleaning is tried again after a wrap only if the head that was read at the
      beginning seems to be in the way. */
  ghost predicate RoomFor(s: State, req: nat)
    requires Started(s)
  {
    StartedFacts(s);
    var h, n, head := s.cur.hdr, |s.cur.ring.slots|, HeadThen(s, req);
    && (Avail(h, n) < req ==> !Misled(s))
    && if h.tail + req < n then req <= Avail(h.(head := head), n)
       else
         && 0 < head <= h.tail
         && (req < head || (0 < h.head <= req && (AllEnded(s.txs) || req < FirstOpen(s.txs, h.tail))))
  }

  /** Taking req entries in front of the ring's end: the new ones are in the log if and only if so many are free. */
  lemma TakingIsSafe(n: nat, h: Header, req: nat)
    requires h.head < n && h.tail + req < n && 1 <= req
    ensures var h' := h.(tail := h.tail + req);
      (h'.head != h'.tail && forall i: nat :: h.tail <= i < h.tail + req ==> Live(h', i)) <==> req <= Avail(h, n)
  {
    var h' := h.(tail := h.tail + req);
    if h.tail < h.head && req > Avail(h, n) {
      assert h.tail < h.tail + req && (h.head < h.tail + req ==> !Live(h', h.tail));
    }
  }

  /** The first stage of the call, up to the decision about a wrap. */
  lemma FirstStage(s: State, req: nat) returns (s1: State)
    requires Started(s)
    requires (s.cur.hdr.tail < |s.cur.ring.slots| && Avail(s.cur.hdr, |s.cur.ring.slots|) < req ==> !Misled(s))
    ensures s.cur.hdr.head < |s.cur.ring.slots| && s.cur.hdr.tail < |s.cur.ring.slots|
    ensures HeadAt(s, s1, HeadThen(s, req)) && CallsTo(s, s1)
    ensures var c := MadeRoom(s.cur.ring.slots, s.cur.hdr, s.cur.hdr.head, req);
      c.slots == s1.cur.ring.slots && c.head == s1.cur.hdr.head
  {
    hide Started, Misled, Retried, CallsTo, FirstOpen;
    StartedFacts(s);
    var avail := Avail(s.cur.hdr, |s.cur.ring.slots|);
    if avail < req {
      s1 := CleansOn(s, avail, req, 0, 3);
    } else {
      s1 := s;
      CallsNothing(s);
    }
  }

  lemma WrapsTo(s: State, w: nat) returns (s1: State)
    requires Started(s) && s.cur.hdr.tail < |s.cur.ring.slots| && 0 < s.cur.hdr.head <= s.cur.hdr.tail
    requires w <= Avail(s.cur.hdr, |s.cur.ring.slots|) && s.cur.hdr.tail + w >= |s.cur.ring.slots|
    ensures Started(s1) && !Misled(s1) && CallsTo(s, s1) && s1.txs == s.txs && s1.cur.ring == s.cur.ring
    ensures s1.cur.hdr == Header(s.cur.hdr.head, 0, NextGen(s.cur.hdr.gen), s.cur.hdr.lap + 1)
    ensures s1.cur.mem == s.cur.mem && s1.per.mem == s.per.mem
  {
    hide CallsTo;
    WrapLog(s, w);
    StepCalls(s, Wrap(w));
    s1 := Apply(s, Wrap(w));
    NoHazardAtZero(s1);
  }

  lemma NoHazardAtZero(s: State)
    requires Started(s) && s.cur.hdr.tail == 0
    ensures !Misled(s)
  {
  }

  /** The second stage, after the wrap: with the head that was read at the beginning, `seen`. */
  lemma SecondStage(s: State, seen: nat, req: nat) returns (s1: State)
    requires Started(s) && s.cur.hdr.tail == 0 && seen < |s.cur.ring.slots|
    ensures s.cur.hdr.head < |s.cur.ring.slots|
    ensures HeadAt(s, s1, if Seeming(|s.cur.ring.slots|, 0, seen) < req then FirstOpen(s.txs, 0) else s.cur.hdr.head)
    ensures CallsTo(s, s1)
    ensures var c := MadeRoom(s.cur.ring.slots, s.cur.hdr, seen, req);
      c.slots == s1.cur.ring.slots && c.head == s1.cur.hdr.head
  {
    hide Started, Misled, Retried, CallsTo, FirstOpen;
    StartedFacts(s);
    NoHazardAtZero(s);
    var avail := Seeming(|s.cur.ring.slots|, 0, seen);
    if avail < req {
      s1 := CleansOn(s, avail, req, 0, 3);
    } else {
      s1 := s;
      CallsNothing(s);
    }
  }

  /** The state after a granted request: a new transaction at the end of the log. */
  ghost predicate Grants(s: State, s': State, r: Outcome)
    requires r.Reserved?
  {
    && LogInv(s') && s'.cur.hdr == r.hdr && s'.cur.ring.slots == r.slots && r.start <= r.hdr.tail
    && s'.txs == s.txs + [Tx(r.start, r.hdr.tail - r.start, r.hdr.lap, r.hdr.gen, [], 0, Running, map[])]
    && s'.cur.mem == s.cur.mem && s'.per.mem == s.per.mem
  }

  /** Once the room is there, the entries are taken by a step of the machine, and that is safe. */
  lemma Takes(s: State, s1: State, req: nat) returns (s2: State)
    requires Started(s1) && s1.txs == s.txs && 1 <= req && s1.cur.mem == s.cur.mem && s1.per.mem == s.per.mem
    requires s1.cur.hdr.tail + req < |s1.cur.ring.slots| && req <= Avail(s1.cur.hdr, |s1.cur.ring.slots|)
    ensures CallsTo(s1, s2)
    ensures var h := s1.cur.hdr.(tail := s1.cur.hdr.tail + req);
      Grants(s, s2, Reserved(s1.cur.hdr.tail, s1.cur.ring.slots, h)) && Safe(s, s1.cur.hdr.tail, req, h)
  {
    hide CallsTo;
    ReserveLog(s1, req);
    StepCalls(s1, Reserve(req));
    s2 := Apply(s1, Reserve(req));
    NewIsApart(s, s2, s1.cur.hdr.tail, req);
    TakingIsSafe(|s1.cur.ring.slots|, s1.cur.hdr, req);
  }

  lemma NewIsApart(s: State, s2: State, start: nat, req: nat)
    requires LogInv(s2) && |s2.txs| == |s.txs| + 1 && s2.txs[..|s.txs|] == s.txs && s2.cur.hdr.tail == start + req
    requires var t := s2.txs[|s.txs|]; t.start == start && t.size == req && t.lap == s2.cur.hdr.lap
    ensures forall k :: 0 <= k < |s.txs| && !s.txs[k].Ended() ==>
      InLog(s2.cur.hdr, s.txs[k]) && (s.txs[k].End() <= start || start + req <= s.txs[k].start)
  {
    hide AllSlots, AllKept, FencedKept, ZoneZeroed, ZonePersisted, CleanerOk, HeaderOk;
    forall k | 0 <= k < |s.txs| && !s.txs[k].Ended()
      ensures InLog(s2.cur.hdr, s.txs[k]) && (s.txs[k].End() <= start || start + req <= s.txs[k].start)
    {
      assert s2.txs[k] == s.txs[k];
      assert Placed(s2.cur.hdr, s2.per.hdr, s2.txs[k]);
      assert Precedes(s2.txs[k], s2.txs[|s.txs|]);
    }
  }

  // ---- In front of the ring's end ---------------------------------------------------------------------------------

  /** Once the cleaner is in front of the tail, it stays there. */
  lemma {:induction false} RetriesBehind(s: seq<Entry>, h: Header, avail: int, req: nat, freed: nat, tries: nat)
    requires h.head <= h.tail < |s|
    ensures Retried(s, h, avail, req, freed, tries).head <= h.tail
    decreases tries
  {
    hide Clean, CleanCount;
    if !(tries == 0 || avail + freed >= req) {
      CleanBehind(s, h.head, h.tail, h.gen);
      var c := Clean(s, h.head, h.tail, h.gen);
      RetriesBehind(c.slots, h.(head := c.at), avail, req, freed + CleanCount(s, h.head, h.tail, h.gen), tries - 1);
    }
  }

  /** Misled, the cleaner leaves head in front of the tail, past an open transaction of the older lap. */
  lemma MisledHead(s: State, req: nat) returns (k: nat)
    requires Started(s) && Misled(s)
    ensures s.cur.hdr.head < |s.cur.ring.slots| && s.cur.hdr.tail < |s.cur.ring.slots| && k < |s.txs|
    ensures !s.txs[k].Ended()
    ensures s.txs[k].lap == s.cur.hdr.lap - 1 && s.cur.hdr.tail < s.txs[k].start
    ensures Avail(s.cur.hdr, |s.cur.ring.slots|) < req ==>
      MadeRoom(s.cur.ring.slots, s.cur.hdr, s.cur.hdr.head, req).head <= s.cur.hdr.tail
  {
    hide Clean, CleanCount, LogInv, Retried, StaleEnd;
    StartedFacts(s);
    var b := Begins(s);
    k :| OnlyLastOpen(b, b.cleaner.lap, k);
    HazardFacts(b, k);
    HazardMisleads(b, k);
    var h, slots := s.cur.hdr, s.cur.ring.slots;
    var avail := Avail(h, |slots|);
    if avail < req {
      var c := Clean(slots, h.head, h.tail, ScanGen(h));
      var f := CleanCount(slots, h.head, h.tail, ScanGen(h));
      assert Retried(slots, h, avail, req, 0, 3) == Retried(c.slots, h.(head := c.at), avail, req, f, 2) by {
        RetriedUnfolds(slots, h, avail, req);
      }
      RetriesBehind(c.slots, h.(head := c.at), avail, req, f, 2);
    }
  }

  lemma RetriedUnfolds(s: seq<Entry>, h: Header, avail: int, req: nat)
    requires h.head < |s| && h.tail < |s| && avail < req
    ensures var c := Clean(s, h.head, h.tail, ScanGen(h));
      Retried(s, h, avail, req, 0, 3) ==
        Retried(c.slots, h.(head := c.at), avail, req, CleanCount(s, h.head, h.tail, ScanGen(h)), 2)
  {
    hide Clean, CleanCount;
  }

  /** The call, decided without a wrap. */
  lemma InFront(s: State, req: nat)
    requires Started(s) && 1 <= req
    requires s.cur.hdr.head < |s.cur.ring.slots| && s.cur.hdr.tail < |s.cur.ring.slots|
    requires s.cur.hdr.tail + req < |s.cur.ring.slots|
    requires Reservation(s.cur.ring.slots, s.cur.hdr, req).Reserved?
    ensures var r := Reservation(s.cur.ring.slots, s.cur.hdr, req);
      && r.start == s.cur.hdr.tail && r.start + req == r.hdr.tail
      && (Safe(s, r.start, req, r.hdr) <==> RoomFor(s, req))
      && (RoomFor(s, req) ==> exists s' :: CallsTo(s, s') && Grants(s, s', r))
  {
    hide Started, Misled, MadeRoom, CallsTo, Grants, Safe, FirstOpen, LogInv;
    var h, slots := s.cur.hdr, s.cur.ring.slots;
    var r := Reservation(slots, h, req);
    ProceedUnfolds(slots, h, h.head, req, 2);
    if Avail(h, |slots|) < req && Misled(s) {
      var k := MisledHead(s, req);
      LeftOut(s, r.start, req, r.hdr, k);
    } else {
      var s1 := FirstStage(s, req);
      if req <= Avail(s1.cur.hdr, |slots|) {
        var s2 := Takes(s, s1, req);
        CallsJoin(s, s1, s2);
        assert CallsTo(s, s2) && Grants(s, s2, r);
      } else {
        TooFar(s, |slots|, s1.cur.hdr, req);
      }
    }
  }

  /** An open transaction of the older lap is not in a log that begins and ends in front of it. */
  lemma LeftOut(s: State, start: nat, req: nat, h: Header, k: nat)
    requires k < |s.txs| && !s.txs[k].Ended() && h.head <= start <= h.tail
    requires s.txs[k].lap == h.lap - 1
    ensures !Safe(s, start, req, h)
  {
    assert !InLog(h, s.txs[k]);
  }

  lemma TooFar(s: State, n: nat, h: Header, req: nat)
    requires h.head < n && h.tail + req < n && 1 <= req && req > Avail(h, n)
    ensures !Safe(s, h.tail, req, h.(tail := h.tail + req))
  {
    TakingIsSafe(n, h, req);
  }

  // ---- Across the ring's end ---------------------------------------------------------------------------------------

  /** A wrap that does not leave the first open transaction behind slot 0 loses it. */
  lemma WrapLoses(s: State, req: nat, h: Header)
    requires Started(s) && 1 <= req && s.cur.hdr.head < |s.cur.ring.slots| && 0 < s.cur.hdr.tail < |s.cur.ring.slots|
    requires s.cur.hdr.tail + req >= |s.cur.ring.slots| && h.lap == s.cur.hdr.lap + 1
    requires !(0 < HeadThen(s, req) <= s.cur.hdr.tail)
    ensures !Safe(s, 0, req, h)
  {
    hide AllSlots, AllKept, FencedKept, ZoneZeroed, ZonePersisted, CleanerOk, Ordered;
    var k := FirstOpenIs(s.txs, s.cur.hdr.tail);
    if k < |s.txs| {
      assert Placed(s.cur.hdr, s.per.hdr, s.txs[k]) && TxShape(s.txs[k], k, |s.cur.ring.slots|);
      assert s.txs[k].start > 0 ==> !InLog(h, s.txs[k]);
    }
  }

  /** An open transaction of the older lap does not survive a wrap at all. */
  lemma OlderIsLost(s: State, req: nat, h: Header, k: nat)
    requires k < |s.txs| && !s.txs[k].Ended() && s.txs[k].lap == h.lap - 2
    ensures !Safe(s, 0, req, h)
  {
    assert !InLog(h, s.txs[k]);
  }

  /** After a wrap, the first open transaction is where it was. */
  lemma OpenAfterWrap(s: State, s1: State, tail: nat)
    requires Started(s1) && s1.txs == s.txs && s1.cur.hdr.tail == 0 && 0 < s1.cur.hdr.head
    ensures AllEnded(s.txs) ==> FirstOpen(s.txs, 0) == 0
    ensures !AllEnded(s.txs) ==> FirstOpen(s.txs, 0) == FirstOpen(s.txs, tail) && s1.cur.hdr.head <= FirstOpen(s.txs, 0)
  {
    hide AllSlots, AllKept, FencedKept, ZoneZeroed, ZonePersisted, CleanerOk, Ordered, FirstOpen;
    var k := FirstOpenIs(s.txs, tail);
    var k0 := FirstOpenIs(s.txs, 0);
    assert !(k < k0) && !(k0 < k);
    if k < |s.txs| {
      assert Placed(s1.cur.hdr, s1.per.hdr, s1.txs[k]);
    }
  }

  /** What the code has computed when it takes the entries behind a wrap. */
  lemma ReservedBehindWrap(slots: seq<Entry>, h: Header, req: nat)
    requires h.head < |slots| && h.tail < |slots| && h.tail + req >= |slots| && Reservation(slots, h, req).Reserved?
    ensures req < |slots| && 0 < h.tail
    ensures var c := MadeRoom(slots, h, h.head, req); var hw := Header(c.head, 0, NextGen(h.gen), h.lap + 1);
      var c2 := MadeRoom(c.slots, hw, h.head, req);
      Reservation(slots, h, req) == Reserved(0, c2.slots, hw.(head := c2.head, tail := req))
  {
    hide MadeRoom, NextGen;
    var c := MadeRoom(slots, h, h.head, req);
    var hw := Header(c.head, 0, NextGen(h.gen), h.lap + 1);
    ProceedUnfolds(slots, h, h.head, req, 2);
    ProceedUnfolds(c.slots, hw, h.head, req, 1);
    WrapsOnce(slots, h, req);
  }

  /** The states after the first stage, after the wrap and after the second stage. */
  lemma ThreeStages(s: State, req: nat) returns (w: State, s2: State)
    requires Started(s) && 1 <= req
    requires s.cur.hdr.head < |s.cur.ring.slots| && s.cur.hdr.tail < |s.cur.ring.slots|
    requires s.cur.hdr.tail + req >= |s.cur.ring.slots|
    requires Reservation(s.cur.ring.slots, s.cur.hdr, req).Reserved?
    requires (Avail(s.cur.hdr, |s.cur.ring.slots|) < req ==> !Misled(s)) && 0 < HeadThen(s, req) <= s.cur.hdr.tail
    ensures CallsTo(s, s2) && Started(s2) && s2.txs == s.txs && s2.cur.mem == s.cur.mem && s2.per.mem == s.per.mem
    ensures Started(w) && w.txs == s.txs && w.cur.hdr.tail == 0 && w.cur.hdr.head == HeadThen(s, req)
    ensures s2.cur.hdr ==
      w.cur.hdr.(head := if Seeming(|s.cur.ring.slots|, 0, s.cur.hdr.head) < req then FirstOpen(s.txs,
      0) else w.cur.hdr.head)
    ensures req < |s.cur.ring.slots| == |s2.cur.ring.slots|
    ensures Reservation(s.cur.ring.slots, s.cur.hdr, req) == Reserved(0, s2.cur.ring.slots, s2.cur.hdr.(tail := req))
  {
    hide Started, Misled, MadeRoom, CallsTo, FirstOpen, NextGen, Reservation;
    var h, n := s.cur.hdr, |s.cur.ring.slots|;
    ReservedBehindWrap(s.cur.ring.slots, h, req);
    var s1 := FirstStage(s, req);
    HeadKeeps(s, s1, HeadThen(s, req));
    w := WrapsTo(s1, n - h.tail);
    s2 := SecondStage(w, h.head, req);
    HeadKeeps(w, s2, s2.cur.hdr.head);
    CallsJoin(s, s1, w);
    CallsJoin(s, w, s2);
  }

  /** The call, decided by what a wrap leaves. */
  lemma AcrossEnd(s: State, req: nat)
    requires Started(s) && 1 <= req
    requires s.cur.hdr.head < |s.cur.ring.slots| && s.cur.hdr.tail < |s.cur.ring.slots|
    requires s.cur.hdr.tail + req >= |s.cur.ring.slots|
    requires Reservation(s.cur.ring.slots, s.cur.hdr, req).Reserved?
    ensures var r := Reservation(s.cur.ring.slots, s.cur.hdr, req);
      && r.start == 0 && r.start + req == r.hdr.tail
      && (Safe(s, r.start, req, r.hdr) <==> RoomFor(s, req))
      && (RoomFor(s, req) ==> exists s' :: CallsTo(s, s') && Grants(s, s', r))
  {
    hide Started, Misled, MadeRoom, CallsTo, Grants, Safe, FirstOpen, Reservation, NextGen, AllEnded;
    var h, n := s.cur.hdr, |s.cur.ring.slots|;
    var r := Reservation(s.cur.ring.slots, h, req);
    ReservedBehindWrap(s.cur.ring.slots, h, req);
    if Avail(h, n) < req && Misled(s) {
      var k := MisledHead(s, req);
      OlderIsLost(s, req, r.hdr, k);
    } else if !(0 < HeadThen(s, req) <= h.tail) {
      WrapLoses(s, req, r.hdr);
    } else {
      var w, s2 := ThreeStages(s, req);
      OpenAfterWrap(s, w, h.tail);
      if req <= Avail(s2.cur.hdr, n) {
        var s3 := Takes(s, s2, req);
        CallsJoin(s, s2, s3);
        assert CallsTo(s, s3) && Grants(s, s3, r);
      } else {
        TooFar(s, n, s2.cur.hdr, req);
      }
    }
  }

  lemma HeadKeeps(s: State, s1: State, head: nat)
    requires HeadAt(s, s1, head)
    ensures Started(s1) && s1.txs == s.txs && s1.cur.hdr == s.cur.hdr.(head := head)
    ensures s1.cur.hdr.tail == s.cur.hdr.tail
    ensures |s1.cur.ring.slots| == |s.cur.ring.slots| && s1.cur.mem == s.cur.mem && s1.per.mem == s.per.mem
  {
  }

  /** A granted request has not wrapped twice, and there is something to wrap. */
  lemma WrapsOnce(s: seq<Entry>, h: Header, req: nat)
    requires h.head < |s| && h.tail < |s| && h.tail + req >= |s| && Reservation(s, h, req).Reserved?
    ensures req < |s| && 0 < h.tail
  {
    hide Proceed;
    if req >= |s| {
      NeverReserved(s, h, h.head, req, 2);
    }
  }

  /** For every request that is granted: the reservation is safe if and only if there is room for it, as far as can
      be told before the call, and a safe call is a run of the machine's steps. */
  lemma ReservationSafety(s: State, req: nat)
    requires Started(s) && 1 <= req && s.cur.hdr.head < |s.cur.ring.slots| && s.cur.hdr.tail < |s.cur.ring.slots|
    requires Reservation(s.cur.ring.slots, s.cur.hdr, req).Reserved?
    ensures var r := Reservation(s.cur.ring.slots, s.cur.hdr, req);
      && r.start + req == r.hdr.tail
      && (Safe(s, r.start, req, r.hdr) <==> RoomFor(s, req))
      && (RoomFor(s, req) ==> exists s' :: CallsTo(s, s') && Grants(s, s', r))
  {
    hide Started, Reservation, CallsTo, Grants, Safe, RoomFor;
    if s.cur.hdr.tail + req < |s.cur.ring.slots| {
      InFront(s, req);
    } else {
      AcrossEnd(s, req);
    }
  }

  // ---- Why room may be missing -----------------------------------------------------------------------------------

  /** The slot holds the start of a transaction that shows no end before the tail or the next start. */
  predicate OpenStart(s: seq<Entry>, at: nat, tail: nat) {
    at < |s| && tail < |s| && s[at].isStart && FindEnd(s, at, tail, s[at].gen).None?
  }

  /** The cleaner stops at the tail or at such a transaction. */
  lemma {:induction false} CleanStops(s: seq<Entry>, hd: nat, tl: nat, g: nat)
    requires hd < |s| && tl < |s| && 2 <= |s|
    ensures var c := Clean(s, hd, tl, g); c.at == tl || OpenStart(c.slots, c.at, tl)
    decreases if hd == tl then 0 else RingDistance(|s|, hd, tl)
  {
    hide FindEnd, Wiped;
    if hd != tl {
      if s[hd].gen == g {
        var r := ProcessOne(s, hd, tl);
        ProcessMoves(s, hd, tl);
        if r.at == hd {
          StuckAtStart(s, hd, tl);
        } else {
          CleanStops(r.slots, r.at, tl, if r.at == 0 then NextGen(g) else g);
        }
      } else {
        var next := NextSlot(|s|, hd);
        CleanStops(if g == MAX_GEN_ID then s[hd := s[hd].(gen := 0)]
          else s, next, tl, if next == 0 then NextGen(g) else g);
      }
    }
  }

  lemma StuckAtStart(s: seq<Entry>, hd: nat, tl: nat)
    requires hd < |s| && tl < |s| && 2 <= |s| && hd != tl && ProcessOne(s, hd, tl).at == hd
    ensures OpenStart(s, hd, tl)
  {
    if s[hd].isStart && FindEnd(s, hd, tl, s[hd].gen).Some? {
      FindEndStays(s, hd, tl, s[hd].gen);
    }
  }

  lemma {:induction false} RetriesStop(s: seq<Entry>, h: Header, avail: int, req: nat, freed: nat, tries: nat)
    requires h.head < |s| && h.tail < |s| && 2 <= |s| && 0 < tries && avail + freed < req
    ensures var c := Retried(s, h, avail, req, freed, tries); c.head == h.tail || OpenStart(c.slots, c.head, h.tail)
    decreases tries
  {
    hide Clean, CleanCount, OpenStart;
    var c := Clean(s, h.head, h.tail, ScanGen(h));
    CleanStops(s, h.head, h.tail, ScanGen(h));
    var f := freed + CleanCount(s, h.head, h.tail, ScanGen(h));
    if tries > 1 && avail + f < req {
      RetriesStop(c.slots, h.(head := c.at), avail, req, f, tries - 1);
    }
  }

  /** Room that the code believes in is missing only if the cleaner has stopped at a transaction without an end,
      whose entries it has counted as freed, or if no cleaning was tried with a head that is out of date. */
  lemma MissingRoom(s: seq<Entry>, h: Header, seen: nat, req: nat)
    requires h.head < |s| && h.tail + req < |s| && seen < |s| && 2 <= |s|
    ensures var c := MadeRoom(s, h, seen, req);
      Seeming(|s|, h.tail, seen) + c.freed >= req && req > Avail(h.(head := c.head), |s|) ==>
        if Seeming(|s|, h.tail, seen) < req then OpenStart(c.slots, c.head, h.tail) else seen != h.head
  {
    hide Retried, OpenStart;
    var avail := Seeming(|s|, h.tail, seen);
    if avail < req {
      RetriesStop(s, h, avail, req, 0, 3);
    }
  }
}
