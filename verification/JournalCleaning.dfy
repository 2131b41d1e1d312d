/** The log cleaner against the log's invariant: what it takes for an ended transaction, and what
    every one of its steps keeps. */
module JournalCleaning {
  import opened JournalRing
  import opened JournalCleaner
  import opened JournalMachine
  import opened JournalInvariant

  // ---- One end for the current lap -----------------------------------------------------------------

  /** End of the slots that the lap of position (at, lap) can still hold. */
  function LapLimit(s: State, lap: int): nat {
    if lap == s.cur.hdr.lap then s.cur.hdr.tail else |s.cur.ring.slots|
  }

  /** The cleaner is about to read slot `at` of lap `lap`. */
  ghost predicate AtSlot(s: State, at: nat, lap: int) {
    LogInv(s) && s.cleaner == Scan(at, lap) && at != s.cur.hdr.tail
  }

  lemma AtSlotLive(s: State, at: nat, lap: int, i: nat)
    requires AtSlot(s, at, lap) && at <= i < LapLimit(s, lap)
    ensures Live(s.cur.hdr, i) && LapAt(s.cur.hdr, i) == lap && !InZone(s.cur.hdr, s.cleaner, i)
    ensures i < |s.cur.ring.slots| && at < LapLimit(s, lap)
  {
  }

  /** Entry j of a transaction the cleaner has not passed is in its slot. */
  lemma EntryAhead(s: State, at: nat, lap: int, k: nat, j: nat)
    requires AtSlot(s, at, lap) && k < |s.txs| && j < |s.txs[k].log|
    requires InLog(s.cur.hdr, s.txs[k]) && s.txs[k].lap == lap && at <= s.txs[k].start + j
    ensures var t := s.txs[k];
      && t.start + j < LapLimit(s, lap) && s.cur.ring.slots[t.start + j] == t.log[j]
      && s.cur.ring.own[t.start + j] == k && EntryShape(t, k, j) && t.gen == GenOf(lap)
  {
    var t := s.txs[k];
    var i := t.start + j;
    assert TxShape(t, k, |s.cur.ring.slots|);
    assert Placed(s.cur.hdr, s.per.hdr, t);
    RegionLive(s.cur.hdr, t, i);
    AtSlotLive(s, at, lap, i);
    assert Kept(s.cur.hdr, s.cleaner, t, k, |t.log|, s.cur.ring);
    assert SlotOk(s.cur.hdr, s.txs, s.cur.ring.slots[i], s.cur.ring.own[i], i);
  }

  /** A valid slot ahead of the cleaner belongs to a transaction that starts there or further on. */
  lemma OwnerAhead(s: State, at: nat, lap: int, i: nat)
    requires AtSlot(s, at, lap) && at <= i < LapLimit(s, lap)
    requires s.cur.ring.slots[i].gen == GenOf(lap)
    ensures 0 <= s.cur.ring.own[i] < |s.txs|
    ensures var k := s.cur.ring.own[i]; var t := s.txs[k];
      && t.lap == lap && InLog(s.cur.hdr, t) && at <= t.start <= i < t.start + |t.log|
      && s.cur.ring.slots[i] == t.log[i - t.start] && EntryShape(t, k, i - t.start)
  {
    AtSlotLive(s, at, lap, i);
    ValidOwner(s.cur.hdr, s.per.hdr, s.txs, s.cur.ring, i);
    var k := s.cur.ring.own[i];
    assert TxShape(s.txs[k], k, |s.cur.ring.slots|);
  }

  /** A valid end entry further on has a valid start entry before it. */
  lemma StartBeforeEnd(s: State, at: nat, lap: int, f: nat)
    requires AtSlot(s, at, lap) && at <= f < LapLimit(s, lap)
    requires s.cur.ring.slots[f].gen == GenOf(lap) && s.cur.ring.slots[f].Fin()
    ensures var t := s.txs[s.cur.ring.own[f]];
      && at <= t.start <= f && t.Ended() && t.start < |s.cur.ring.slots|
      && s.cur.ring.slots[t.start].gen == GenOf(lap) && s.cur.ring.slots[t.start].isStart
  {
    OwnerAhead(s, at, lap, f);
    EntryAhead(s, at, lap, s.cur.ring.own[f], 0);
  }

  /** The transaction that starts at the cleaner's position. */
  ghost predicate StartsAt(s: State, at: nat, lap: int, k: nat) {
    && AtSlot(s, at, lap) && k < |s.txs|
    && InLog(s.cur.hdr, s.txs[k]) && s.txs[k].lap == lap && s.txs[k].start == at && 1 <= |s.txs[k].log|
  }

  /** An ended transaction's end entry is found. */
  lemma EndedIsFound(s: State, at: nat, lap: int, k: nat)
    requires StartsAt(s, at, lap, k) && s.txs[k].Ended()
    ensures FindEnd(s.cur.ring.slots, at, s.cur.hdr.tail, GenOf(lap)) == Some(at + |s.txs[k].log| - 1)
  {
    var t := s.txs[k];
    var f := at + |t.log| - 1;
    EntryAhead(s, at, lap, k, |t.log| - 1);
    forall j | at <= j <= f ensures s.cur.ring.slots[j] == t.log[j - at] && EntryShape(t, k, j - at) {
      EntryAhead(s, at, lap, k, j - at);
    }
    FindEndHits(s.cur.ring.slots, at, f, s.cur.hdr.tail, GenOf(lap));
  }

  /** A later start entry of the same lap. */
  ghost predicate LaterStart(s: State, at: nat, lap: int) {
    exists j :: at < j < LapLimit(s, lap) && j < |s.cur.ring.slots|
                && s.cur.ring.slots[j].gen == GenOf(lap) && s.cur.ring.slots[j].isStart
  }

  lemma {:induction false} LeastStart(slots: seq<Entry>, lo: nat, hi: nat, g: nat) returns (st: nat)
    requires lo < hi < |slots| && slots[hi].gen == g && slots[hi].isStart
    ensures lo < st <= hi && slots[st].gen == g && slots[st].isStart
    ensures forall j :: lo < j < st ==> !(slots[j].gen == g && slots[j].isStart)
    decreases hi - lo
  {
    if slots[lo + 1].gen == g && slots[lo + 1].isStart {
      st := lo + 1;
    } else {
      st := LeastStart(slots, lo + 1, hi, g);
    }
  }

  /** An open transaction followed by another one in its lap stops the cleaner. */
  lemma OpenIsKeptByNext(s: State, at: nat, lap: int, k: nat)
    requires StartsAt(s, at, lap, k) && !s.txs[k].Ended() && LaterStart(s, at, lap)
    ensures FindEnd(s.cur.ring.slots, at, s.cur.hdr.tail, GenOf(lap)) == None
  {
    var slots := s.cur.ring.slots;
    var g := GenOf(lap);
    var j0 :| at < j0 < LapLimit(s, lap) && j0 < |slots| && slots[j0].gen == g && slots[j0].isStart;
    var st := LeastStart(slots, at, j0, g);
    forall j | at <= j < st ensures !(slots[j].gen == g && slots[j].Fin()) {
      NoEndBefore(s, at, lap, k, j, st);
    }
    FindEndBlocked(slots, at, st, s.cur.hdr.tail, g);
  }

  lemma NoEndBefore(s: State, at: nat, lap: int, k: nat, j: nat, st: nat)
    requires StartsAt(s, at, lap, k) && !s.txs[k].Ended() && at <= j < st <= LapLimit(s, lap) <= |s.cur.ring.slots|
    requires forall i :: at < i < st ==> !(s.cur.ring.slots[i].gen == GenOf(lap) && s.cur.ring.slots[i].isStart)
    ensures !(s.cur.ring.slots[j].gen == GenOf(lap) && s.cur.ring.slots[j].Fin())
  {
    if s.cur.ring.slots[j].gen == GenOf(lap) && s.cur.ring.slots[j].Fin() {
      StartBeforeEnd(s, at, lap, j);
      EntryAhead(s, at, lap, k, 0);
      assert s.txs[s.cur.ring.own[j]].start == at;
      OwnerAhead(s, at, lap, j);
      assert false;
    }
  }

  /** The cleaner takes the transaction at its position for finished exactly if it is, or if it
      is the last one of the old lap and the slots reused since then still show an end entry of
      that lap before any start of it. */
  lemma CleanerVerdict(s: State, at: nat, lap: int, k: nat)
    requires StartsAt(s, at, lap, k)
    ensures FindEnd(s.cur.ring.slots, at, s.cur.hdr.tail, GenOf(lap)).Some? <==>
      || s.txs[k].Ended()
      || (s.cur.hdr.tail < at && !LaterStart(s, at, lap) && StaleEnd(s.cur.ring.slots, s.cur.hdr.tail, GenOf(lap)))
    ensures !s.txs[k].Ended() && FindEnd(s.cur.ring.slots, at, s.cur.hdr.tail, GenOf(lap)).Some? ==>
      FindEnd(s.cur.ring.slots, at, s.cur.hdr.tail, GenOf(lap)).value < s.cur.hdr.tail < at
  {
    if s.txs[k].Ended() {
      EndedIsFound(s, at, lap, k);
    } else if LaterStart(s, at, lap) {
      OpenIsKeptByNext(s, at, lap, k);
    } else {
      var limit := LapLimit(s, lap);
      forall j | at <= j < limit
        ensures !(s.cur.ring.slots[j].gen == GenOf(lap) && s.cur.ring.slots[j].Fin())
      {
        NoEndBefore(s, at, lap, k, j, limit);
      }
      EntryAhead(s, at, lap, k, 0);
      if lap == s.cur.hdr.lap {
        FindEndRunsOut(s.cur.ring.slots, at, s.cur.hdr.tail, GenOf(lap));
      } else {
        FindEndAcrossWrap(s.cur.ring.slots, at, s.cur.hdr.tail, GenOf(lap));
      }
    }
  }

  // ---- The cleaner's steps ---------------------------------------------------------------------------

  lemma CleanBeginLog(s: State)
    requires LogInv(s) && Enabled(s, CleanBegin)
    ensures LogInv(Apply(s, CleanBegin))
  {
    var c := Apply(s, CleanBegin).cleaner;
    assert forall i :: 0 <= i < |s.cur.ring.slots| ==> !InZone(s.cur.hdr, c, i);
    ZoneChange(s.cur.hdr, s.cleaner, c, s.txs, s.cur.ring, s.per.ring);
  }

  /** Moving the cleaner's position so that its zone stays the same. */
  lemma ZoneChange(h: Header, c: Cleaner, c': Cleaner, txs: seq<Tx>, cur: Ring, per: Ring)
    requires |cur.slots| == |per.slots|
    requires forall i :: 0 <= i < |cur.slots| ==> (InZone(h, c', i) <==> InZone(h, c, i))
    requires AllKept(h, c, txs, cur) && FencedKept(h, c, txs, per) && ZoneZeroed(h, c, cur) && ZonePersisted(h, c, per)
    ensures AllKept(h, c', txs, cur) && FencedKept(h, c', txs, per) && ZoneZeroed(h, c', cur)
    ensures ZonePersisted(h, c', per)
  {
    forall k | 0 <= k < |txs|
      ensures Kept(h, c', txs[k], k, |txs[k].log|, cur) && Kept(h, c', txs[k], k, txs[k].fenced, per)
    {
      assert Kept(h, c, txs[k], k, |txs[k].log|, cur) && Kept(h, c, txs[k], k, txs[k].fenced, per);
    }
  }

  /** The zone grows by slot z. */
  ghost predicate Grows(h: Header, c: Cleaner, c': Cleaner, n: nat, z: nat) {
    z < n && forall i :: 0 <= i < n ==> (InZone(h, c', i) <==> InZone(h, c, i) || i == z)
  }

  lemma ZoneGrowsCached(h: Header, c: Cleaner, c': Cleaner, txs: seq<Tx>, cur: Ring, z: nat)
    requires |cur.slots| == |cur.own| && Grows(h, c, c', |cur.slots|, z)
    requires AllSlots(h, txs, cur) && AllKept(h, c, txs, cur) && ZoneZeroed(h, c, cur)
    ensures AllSlots(h, txs, ZeroSlot(cur, z)) && AllKept(h, c', txs, ZeroSlot(cur, z))
    ensures ZoneZeroed(h, c', ZeroSlot(cur, z))
  {
    forall k | 0 <= k < |txs| ensures Kept(h, c', txs[k], k, |txs[k].log|, ZeroSlot(cur, z)) {
      assert Kept(h, c, txs[k], k, |txs[k].log|, cur);
    }
  }

  lemma ZoneGrowsPersisted(h: Header, c: Cleaner, c': Cleaner, txs: seq<Tx>, per: Ring, per': Ring, z: nat)
    requires |per.slots| == |per.own| == |per'.slots| == |per'.own| && Grows(h, c, c', |per.slots|, z)
    requires AllSlots(h, txs, per) && FencedKept(h, c, txs, per) && ZonePersisted(h, c, per)
    requires forall i :: 0 <= i < |per.slots| && i != z ==> per'.slots[i] == per.slots[i] && per'.own[i] == per.own[i]
    requires per' == per || per'.slots[z].gen == 0
    requires per'.slots[z].gen == MAX_GEN_ID && per'.slots[z].isStart ==> per'.slots[z].Fin()
    ensures AllSlots(h, txs, per') && FencedKept(h, c', txs, per') && ZonePersisted(h, c', per')
  {
    forall k | 0 <= k < |txs| ensures Kept(h, c', txs[k], k, txs[k].fenced, per') {
      assert Kept(h, c, txs[k], k, txs[k].fenced, per);
    }
  }

  /** Nothing starts at a slot that the cleaner finds invalid. */
  lemma NothingStartsHere(s: State, k: nat)
    requires LogInv(s) && Enabled(s, CleanSkip) && k < |s.txs| && InLog(s.cur.hdr, s.txs[k])
    ensures !(s.txs[k].lap == s.cleaner.lap && s.txs[k].start == s.cleaner.at)
  {
    var c := s.cleaner;
    assert TxShape(s.txs[k], k, |s.cur.ring.slots|);
  }

  /** The skipped slot is not valid in the persisted ring either. */
  lemma SkippedInvalid(s: State)
    requires LogInv(s) && Enabled(s, CleanSkip)
    ensures s.per.ring.slots[s.cleaner.at].gen != GenOf(s.cleaner.lap)
  {
    var c := s.cleaner;
    AtSlotLive(s, c.at, c.lap, c.at);
    if s.per.ring.slots[c.at].gen == GenOf(c.lap) {
      ValidOwner(s.cur.hdr, s.per.hdr, s.txs, s.per.ring, c.at);
      NothingStartsHere(s, s.per.ring.own[c.at]);
      assert false;
    }
  }

  lemma SkipEnded(s: State)
    requires LogInv(s) && Enabled(s, CleanSkip)
    ensures CleanerOk(s.cur.hdr, Apply(s, CleanSkip).cleaner, s.txs)
  {
    var c := s.cleaner;
    forall k | 0 <= k < |s.txs| && InLog(s.cur.hdr, s.txs[k]) && StartsBefore(s.txs[k], c.at + 1, c.lap)
      ensures s.txs[k].Ended() && (s.txs[k].lap < c.lap || s.txs[k].start + |s.txs[k].log| <= c.at)
    {
      NothingStartsHere(s, k);
    }
    assert forall k :: 0 <= k < |s.txs| ==> TxShape(s.txs[k], k, |s.cur.ring.slots|);
  }

  lemma CleanSkipLog(s: State)
    requires LogInv(s) && Enabled(s, CleanSkip)
    ensures LogInv(Apply(s, CleanSkip))
  {
    var c := s.cleaner;
    var c' := Apply(s, CleanSkip).cleaner;
    SkipEnded(s);
    AtSlotLive(s, c.at, c.lap, c.at);
    SkippedInvalid(s);
    if GenOf(c.lap) == MAX_GEN_ID {
      ZoneGrowsCached(s.cur.hdr, c, c', s.txs, s.cur.ring, c.at);
      ZoneGrowsPersisted(s.cur.hdr, c, c', s.txs, s.per.ring, s.per.ring, c.at);
    } else {
      ZoneChange(s.cur.hdr, c, c', s.txs, s.cur.ring, s.per.ring);
    }
  }

  /** What the cleaner takes is an ended transaction that starts at its position. */
  lemma TakeEnded(s: State)
    requires LogInv(s) && Enabled(s, CleanTake)
    ensures var c := s.cleaner; var k := s.cur.ring.own[c.at];
      && 0 <= k < |s.txs| && StartsAt(s, c.at, c.lap, k) && s.txs[k].Ended()
      && FindEnd(s.cur.ring.slots, c.at, s.cur.hdr.tail, GenOf(c.lap)) == Some(c.at + |s.txs[k].log| - 1)
  {
    var c := s.cleaner;
    OwnerAhead(s, c.at, c.lap, c.at);
    var k := s.cur.ring.own[c.at];
    CleanerVerdict(s, c.at, c.lap, k);
    EndedIsFound(s, c.at, c.lap, k);
  }

  /** Past the last entry of an ended transaction everything before has ended. */
  lemma EndedPast(h: Header, txs: seq<Tx>, k: nat, n: nat)
    requires Ordered(txs) && k < |txs| && txs[k].Ended() && EndedBefore(h, txs, txs[k].start, txs[k].lap)
    requires forall j :: 0 <= j < |txs| ==> TxShape(txs[j], j, n)
    ensures EndedBefore(h, txs, txs[k].start + |txs[k].log|, txs[k].lap)
  {
    forall j | 0 <= j < |txs| && InLog(h, txs[j]) && StartsBefore(txs[j], txs[k].start + |txs[k].log|, txs[k].lap)
      ensures txs[j].Ended() && (txs[j].lap < txs[k].lap || txs[j].start + |txs[j].log| <= txs[k].start + |txs[k].log|)
    {
      assert TxShape(txs[j], j, n) && TxShape(txs[k], k, n);
      if j != k && txs[j].lap == txs[k].lap {
        RegionsApartEither(txs, j, k);
      }
    }
  }

  lemma RegionsApartEither(txs: seq<Tx>, j: nat, k: nat)
    requires Ordered(txs) && j < |txs| && k < |txs| && j != k && txs[j].lap == txs[k].lap
    ensures txs[j].End() <= txs[k].start || txs[k].End() <= txs[j].start
  {
  }

  lemma PastLast(h: Header, txs: seq<Tx>, last: nat, lap: int, n: nat)
    requires EndedBefore(h, txs, last + 1, lap) && AllStarted(txs) && last < n
    requires forall j :: 0 <= j < |txs| ==> TxShape(txs[j], j, n)
    requires h.head < n && h.tail < n && Between(h, last, lap) && last != h.tail
    ensures CleanerOk(h, NextScan(n, last, lap), txs)
  {
    assert forall j :: 0 <= j < |txs| ==> txs[j].start < n;
  }

  lemma TakeCleaner(s: State)
    requires LogInv(s) && Enabled(s, CleanTake)
    ensures CleanerOk(s.cur.hdr, Apply(s, CleanTake).cleaner, s.txs)
  {
    hide AllSlots, AllKept, FencedKept, ZoneZeroed, ZonePersisted, AllPlaced, HeaderOk;
    TakeEnded(s);
    var c := s.cleaner;
    var k := s.cur.ring.own[c.at];
    var last := c.at + |s.txs[k].log| - 1;
    EntryAhead(s, c.at, c.lap, k, |s.txs[k].log| - 1);
    if GenOf(c.lap) == MAX_GEN_ID {
      assert Zeroing(s.cur.hdr, s.txs, s.txs[k], c.at, last, c.lap);
    } else {
      EndedPast(s.cur.hdr, s.txs, k, |s.cur.ring.slots|);
      PastLast(s.cur.hdr, s.txs, last, c.lap, |s.cur.ring.slots|);
    }
  }

  lemma TakeZone(s: State, i: nat)
    requires LogInv(s) && Enabled(s, CleanTake) && i < |s.cur.ring.slots|
    ensures InZone(s.cur.hdr, Apply(s, CleanTake).cleaner, i) <==> InZone(s.cur.hdr, s.cleaner, i)
  {
    TakeEnded(s);
    var c := s.cleaner;
    var k := s.cur.ring.own[c.at];
    EntryAhead(s, c.at, c.lap, k, |s.txs[k].log| - 1);
  }

  lemma CleanTakeLog(s: State)
    requires LogInv(s) && Enabled(s, CleanTake)
    ensures LogInv(Apply(s, CleanTake))
  {
    TakeCleaner(s);
    forall i | 0 <= i < |s.cur.ring.slots|
      ensures InZone(s.cur.hdr, Apply(s, CleanTake).cleaner, i) <==> InZone(s.cur.hdr, s.cleaner, i)
    {
      TakeZone(s, i);
    }
    ZoneChange(s.cur.hdr, s.cleaner, Apply(s, CleanTake).cleaner, s.txs, s.cur.ring, s.per.ring);
  }

  /** The entry about to be zeroed, in both rings. */
  lemma ZeroedEntry(s: State, k: nat)
    requires LogInv(s) && Enabled(s, CleanZero) && k < |s.txs|
    requires Zeroing(s.cur.hdr, s.txs, s.txs[k], s.cleaner.next, s.cleaner.last, s.cleaner.lap)
    ensures var z := s.cleaner.next; var t := s.txs[k];
      && Live(s.cur.hdr, z) && LapAt(s.cur.hdr, z) == t.lap && s.cleaner.last < t.End()
      && s.cur.ring.slots[z] == t.log[z - t.start]
      && (s.per.ring.slots[z].gen == MAX_GEN_ID ==> s.per.ring.slots[z] == t.log[z - t.start])
  {
    var z := s.cleaner.next;
    var t := s.txs[k];
    assert TxShape(t, k, |s.cur.ring.slots|);
    assert Placed(s.cur.hdr, s.per.hdr, t);
    RegionLive(s.cur.hdr, t, z);
    assert Kept(s.cur.hdr, s.cleaner, t, k, |t.log|, s.cur.ring);
    assert SlotOk(s.cur.hdr, s.txs, s.cur.ring.slots[z], s.cur.ring.own[z], z);
    if s.per.ring.slots[z].gen == MAX_GEN_ID {
      ValidOwner(s.cur.hdr, s.per.hdr, s.txs, s.per.ring, z);
      assert TxShape(s.txs[s.per.ring.own[z]], s.per.ring.own[z], |s.cur.ring.slots|);
      RegionsApart(s.txs, k, s.per.ring.own[z], z);
    }
  }

  lemma ZeroCleaner(s: State, k: nat)
    requires LogInv(s) && Enabled(s, CleanZero) && k < |s.txs|
    requires Zeroing(s.cur.hdr, s.txs, s.txs[k], s.cleaner.next, s.cleaner.last, s.cleaner.lap)
    ensures CleanerOk(s.cur.hdr, Apply(s, CleanZero).cleaner, s.txs)
  {
    hide AllSlots, AllKept, FencedKept, ZoneZeroed, ZonePersisted, HeaderOk;
    var c := s.cleaner;
    var t := s.txs[k];
    assert TxShape(t, k, |s.cur.ring.slots|);
    assert Placed(s.cur.hdr, s.per.hdr, t);
    RegionLive(s.cur.hdr, t, c.last);
    if c.next == c.last {
      EndedPast(s.cur.hdr, s.txs, k, |s.cur.ring.slots|);
      PastLast(s.cur.hdr, s.txs, c.last, c.lap, |s.cur.ring.slots|);
    } else {
      assert Zeroing(s.cur.hdr, s.txs, t, c.next + 1, c.last, c.lap);
    }
  }

  lemma ZeroGrows(s: State)
    requires LogInv(s) && Enabled(s, CleanZero)
    requires Live(s.cur.hdr, s.cleaner.next) && LapAt(s.cur.hdr, s.cleaner.next) == s.cleaner.lap
    ensures Grows(s.cur.hdr, s.cleaner, Apply(s, CleanZero).cleaner, |s.cur.ring.slots|, s.cleaner.next)
  {
  }

  lemma ZeroPersisted(s: State)
    requires Shape(s) && Enabled(s, CleanZero)
    ensures var z := s.cleaner.next; var p := Apply(s, CleanZero).per.ring;
      && (forall i :: 0 <= i < |p.slots| && i != z ==>
         p.slots[i] == s.per.ring.slots[i] && p.own[i] == s.per.ring.own[i])
      && (p == s.per.ring || p.slots[z].gen == 0)
      && (s.cur.ring.slots[z].isStart && !s.cur.ring.slots[z].Fin() ==> p.slots[z].gen == 0)
  {
  }

  lemma ZeroRings(s: State, k: nat)
    requires LogInv(s) && Enabled(s, CleanZero) && k < |s.txs|
    requires Zeroing(s.cur.hdr, s.txs, s.txs[k], s.cleaner.next, s.cleaner.last, s.cleaner.lap)
    ensures var s' := Apply(s, CleanZero);
      && AllSlots(s.cur.hdr, s.txs, s'.cur.ring) && AllSlots(s.cur.hdr, s.txs, s'.per.ring)
      && AllKept(s.cur.hdr, s'.cleaner, s.txs, s'.cur.ring) && FencedKept(s.cur.hdr, s'.cleaner, s.txs, s'.per.ring)
      && ZoneZeroed(s.cur.hdr, s'.cleaner, s'.cur.ring) && ZonePersisted(s.cur.hdr, s'.cleaner, s'.per.ring)
  {
    var c := s.cleaner;
    ZeroedEntry(s, k);
    ZeroGrows(s);
    ZeroPersisted(s);
    var s' := Apply(s, CleanZero);
    ZoneGrowsCached(s.cur.hdr, c, s'.cleaner, s.txs, s.cur.ring, c.next);
    ZoneGrowsPersisted(s.cur.hdr, c, s'.cleaner, s.txs, s.per.ring, s'.per.ring, c.next);
  }

  lemma ZeroShape(s: State)
    requires LogInv(s) && Enabled(s, CleanZero)
    ensures Shape(Apply(s, CleanZero))
  {
  }

  lemma CleanZeroLog(s: State)
    requires LogInv(s) && Enabled(s, CleanZero)
    ensures LogInv(Apply(s, CleanZero))
  {
    var k :| 0 <= k < |s.txs| && Zeroing(s.cur.hdr, s.txs, s.txs[k], s.cleaner.next, s.cleaner.last, s.cleaner.lap);
    ZeroRings(s, k);
    ZeroCleaner(s, k);
    ZeroShape(s);
    var s' := Apply(s, CleanZero);
    assert s'.txs == s.txs && s'.cur.hdr == s.cur.hdr && s'.per.hdr == s.per.hdr;
  }

  // ---- Advancing the head ---------------------------------------------------------------------------------

  /** Setting head to the cleaner's position removes exactly the slots it has passed. */
  lemma HeadMoves(h: Header, c: Cleaner, n: nat, i: nat)
    requires c.Scan? && h.head < n && h.tail < n && c.at < n && Between(h, c.at, c.lap) && i < n
    ensures Live(h.(head := c.at), i) <==> Live(h, i) && !Before(h, c, i)
    ensures LapAt(h.(head := c.at), i) == LapAt(h, i)
  {
  }

  lemma HeadSlots(h: Header, c: Cleaner, txs: seq<Tx>, r: Ring, n: nat)
    requires c.Scan? && h.head < n && h.tail < n && c.at < n && Between(h, c.at, c.lap) && |r.slots| == n
    requires AllSlots(h, txs, r) && ZoneZeroed(h, c, r)
    ensures AllSlots(h.(head := c.at), txs, r)
  {
    forall i | 0 <= i < n ensures SlotOk(h.(head := c.at), txs, r.slots[i], r.own[i], i) {
      assert SlotOk(h, txs, r.slots[i], r.own[i], i);
      HeadMoves(h, c, n, i);
      GenFollowsLap(LapAt(h, i));
    }
  }

  lemma HeadPlaced(h: Header, p: Header, c: Cleaner, txs: seq<Tx>, n: nat)
    requires c.Scan? && h.head < n && h.tail < n && c.at < n && Between(h, c.at, c.lap)
    requires AllPlaced(h, p, txs) && EndedBefore(h, txs, c.at, c.lap)
    requires forall k :: 0 <= k < |txs| ==> TxShape(txs[k], k, n)
    ensures AllPlaced(h.(head := c.at), h.(head := c.at), txs)
  {
    var h' := h.(head := c.at);
    forall k | 0 <= k < |txs| ensures Placed(h', h', txs[k]) {
      var t := txs[k];
      assert TxShape(t, k, n) && Placed(h, p, t);
      HeadMoves(h, c, n, t.start);
      forall i | t.start <= i < t.start + |t.log| && t.lap == LapAt(h', i) && Live(h', i) ensures InLog(h', t) {
        HeadMoves(h, c, n, i);
      }
    }
  }

  lemma HeadKept(h: Header, c: Cleaner, t: Tx, k: nat, m: nat, r: Ring, r': Ring, n: nat)
    requires c.Scan? && h.head < n && h.tail < n && c.at < n && Between(h, c.at, c.lap)
    requires |r.slots| == |r.own| == |r'.slots| == |r'.own| == n
    requires Kept(h, c, t, k, m, r) && r'.own == r.own
    requires forall i :: 0 <= i < n && !InZone(h, c, i) ==> r'.slots[i] == r.slots[i]
    ensures Kept(h.(head := c.at), Idle, t, k, m, r')
  {
    forall i | 0 <= i < n && t.start <= i < t.start + m && t.lap == LapAt(h, i) && Live(h.(head := c.at), i)
      ensures r'.own[i] == k && r'.slots[i].gen != 0
    {
      HeadMoves(h, c, n, i);
    }
  }

  lemma CleanDoneLog(s: State)
    requires LogInv(s) && Enabled(s, CleanDone)
    ensures LogInv(Apply(s, CleanDone))
  {
    var h := s.cur.hdr;
    var c := s.cleaner;
    var n := |s.cur.ring.slots|;
    var p := PersistZone(s);
    HeadPlaced(h, s.per.hdr, c, s.txs, n);
    HeadSlots(h, c, s.txs, s.cur.ring, n);
    ZonePersistedSlots(s);
    HeadSlots(h, c, s.txs, p, n);
    forall k | 0 <= k < |s.txs|
      ensures Kept(h.(head := c.at), Idle, s.txs[k], k, |s.txs[k].log|, s.cur.ring)
      ensures Kept(h.(head := c.at), Idle, s.txs[k], k, s.txs[k].fenced, p)
    {
      assert Kept(h, c, s.txs[k], k, |s.txs[k].log|, s.cur.ring) &&
        Kept(h, c, s.txs[k], k, s.txs[k].fenced, s.per.ring);
      HeadKept(h, c, s.txs[k], k, |s.txs[k].log|, s.cur.ring, s.cur.ring, n);
      HeadKept(h, c, s.txs[k], k, s.txs[k].fenced, s.per.ring, p, n);
    }
  }

  lemma ZonePersistedSlots(s: State)
    requires LogInv(s)
    ensures AllSlots(s.cur.hdr, s.txs, PersistZone(s)) && ZoneZeroed(s.cur.hdr, s.cleaner, PersistZone(s))
  {
    var p := PersistZone(s);
    forall i | 0 <= i < |p.slots| ensures SlotOk(s.cur.hdr, s.txs, p.slots[i], p.own[i], i) {
      assert SlotOk(s.cur.hdr, s.txs, s.per.ring.slots[i], s.per.ring.own[i], i);
    }
  }
}
