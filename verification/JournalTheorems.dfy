/** Generation soundness, ring safety and restartable recovery. */
module JournalTheorems {
  import opened JournalRing
  import opened JournalCleaner
  import opened JournalMachine
  import opened JournalInvariant
  import opened JournalSafety
  import opened RecoveryGroups
  import opened UndoRecovery

  // ---- Generations -----------------------------------------------------------------------------

  /** Some transaction of slot i's present lap has written slot i. */
  ghost predicate WrittenThisLap(s: State, i: int) {
    exists k :: 0 <= k < |s.txs| && s.txs[k].lap == LapAt(s.cur.hdr, i)
                && s.txs[k].start <= i < s.txs[k].start + |s.txs[k].log|
  }

  /** In every reachable state a live slot that the running cleaner has not wiped carries its
      lap's generation exactly if it was written in that lap, however often the 16-bit
      generation has wrapped. */
  lemma GenerationSoundness(n: nat, mem: Memory, steps: seq<Step>, i: nat)
    requires 2 <= n && IsRun(Format(n, mem), steps)
    ensures var s := After(Format(n, mem), steps);
      i < |s.cur.ring.slots| && Live(s.cur.hdr, i) && !InZone(s.cur.hdr, s.cleaner, i) ==>
        (s.cur.ring.slots[i].gen == GenOf(LapAt(s.cur.hdr, i)) <==> WrittenThisLap(s, i))
  {
    ReachableInv(n, mem, steps);
    var s := After(Format(n, mem), steps);
    if i < |s.cur.ring.slots| && Live(s.cur.hdr, i) && !InZone(s.cur.hdr, s.cleaner, i) {
      LiveSlotGeneration(s, i);
    }
  }

  lemma LiveSlotGeneration(s: State, i: nat)
    requires LogInv(s) && i < |s.cur.ring.slots| && Live(s.cur.hdr, i) && !InZone(s.cur.hdr, s.cleaner, i)
    ensures s.cur.ring.slots[i].gen == GenOf(LapAt(s.cur.hdr, i)) <==> WrittenThisLap(s, i)
  {
    if s.cur.ring.slots[i].gen == GenOf(LapAt(s.cur.hdr, i)) {
      ValidOwner(s.cur.hdr, s.per.hdr, s.txs, s.cur.ring, i);
    }
    if WrittenThisLap(s, i) {
      var k :| 0 <= k < |s.txs| && s.txs[k].lap == LapAt(s.cur.hdr, i)
               && s.txs[k].start <= i < s.txs[k].start + |s.txs[k].log|;
      assert Kept(s.cur.hdr, s.cleaner, s.txs[k], k, |s.txs[k].log|, s.cur.ring);
      assert SlotOk(s.cur.hdr, s.txs, s.cur.ring.slots[i], s.cur.ring.own[i], i);
    }
  }

  // ---- Reservations ------------------------------------------------------------------------------

  datatype Grant = Full(hdr: Header) | Granted(start: nat, hdr: Header)

  /** Space for req entries without inline cleaning (pmfs_new_transaction): the request goes
      behind the tail, or after a wrap to slot 0 of the next lap. */
  function Request(n: nat, h: Header, req: nat): Grant
    requires h.head < n && h.tail < n
    decreases if h.tail < h.head then 0 else 1
  {
    if Avail(h, n) < req then Full(h)
    else if h.tail + req >= n then
      var h' := Header(h.head, 0, NextGen(h.gen), h.lap + 1);
      if h'.tail < h'.head then Request(n, h', req) else Full(h')
    else Granted(h.tail, h.(tail := h.tail + req))
  }

  /** A granted reservation is contiguous inside the ring, disjoint from everything between head
      and tail, becomes live as a whole, takes nothing live away, and never makes a non-empty
      journal look empty. A request that fits is granted unless the wrap itself leaves too little
      room; the wrap cannot happen with head at slot 0. */
  lemma RingSafety(n: nat, h: Header, req: nat)
    requires h.head < n && h.tail < n && 1 <= req && h.gen == GenOf(h.lap)
    ensures var r := Request(n, h, req); var h' := r.hdr;
      && h'.head == h.head && h'.tail < n && h'.gen == GenOf(h'.lap)
      && (forall i :: 0 <= i < n && Live(h, i) ==> Live(h', i) && LapAt(h', i) == LapAt(h, i))
      && (r.Granted? ==>
            && r.start + req == h'.tail && r.start + req < n && h'.tail != h'.head
            && (forall i :: r.start <= i < r.start + req ==> !Live(h, i) && Live(h', i) && LapAt(h', i) == h'.lap))
      && (r.Full? ==> h' == h || (h'.tail == 0 < h.head && h.tail + req >= n && h.head - 1 < req))
      && (r.Full? <==> Avail(h, n) < req || (h.tail + req >= n && h.head <= req))
  {
    GenFollowsLap(h.lap);
  }

  /** Granting a request is a Reserve step of the machine, after a Wrap step if it wraps. */
  lemma RequestIsSteps(s: State, req: nat)
    requires LogInv(s) && s.cleaner.Idle? && 1 <= req
    ensures var n := |s.cur.ring.slots|; var r := Request(n, s.cur.hdr, req);
      && (r == Granted(s.cur.hdr.tail, r.hdr) && s.cur.hdr.tail + req < n ==>
            Enabled(s, Reserve(req)) && Apply(s, Reserve(req)).cur.hdr == r.hdr)
      && (r.Granted? && s.cur.hdr.tail + req >= n ==>
            && IsRun(s, [Wrap(req), Reserve(req)])
            && After(s, [Wrap(req), Reserve(req)]).cur.hdr == r.hdr)
  {
    var n := |s.cur.ring.slots|;
    if Request(n, s.cur.hdr, req).Granted? && s.cur.hdr.tail + req >= n {
      WrapLog(s, req);
      var s1 := Apply(s, Wrap(req));
      assert Request(n, s1.cur.hdr, req) == Request(n, s.cur.hdr, req);
      assert Enabled(s1, Reserve(req));
      assert [Wrap(req), Reserve(req)][1..] == [Reserve(req)];
      assert [Reserve(req)][1..] == [];
      assert IsRun(s1, [Reserve(req)]);
      assert After(s1, [Reserve(req)]) == Apply(s1, Reserve(req));
    }
  }

  // ---- Images that recovery starts from ------------------------------------------------------------

  /** No live slot of the image carries a later generation of its lap's epoch. */
  lemma NothingLaterInImage(s: State)
    requires LogInv(s)
    ensures Bounds(s.per.ring.slots, s.per.hdr) && NothingLater(s.per.ring.slots, s.per.hdr)
  {
    var h, slots := s.per.hdr, s.per.ring.slots;
    GenFollowsLap(h.lap);
    GenFollowsLap(h.lap - 1);
    forall second: bool, i | InShare(Lap(slots, h, second), i) ensures slots[i].gen <= LapGen(h, second) {
      NotLater(s, i);
    }
  }

  lemma NotLater(s: State, i: nat)
    requires LogInv(s) && i < |s.per.ring.slots| && Live(s.per.hdr, i)
    ensures s.per.ring.slots[i].gen <= GenOf(LapAt(s.per.hdr, i))
  {
    SegmentLive(s, LapAt(s.per.hdr, i), i);
    assert SlotOk(s.cur.hdr, s.txs, s.per.ring.slots[i], s.per.ring.own[i], i);
    if s.per.ring.slots[i].gen != 0 {
      GenIsMonotone(s.txs[s.per.ring.own[i]].lap, LapAt(s.per.hdr, i));
    }
  }

  lemma GenIsMonotone(l1: int, l2: int)
    requires l1 <= l2 && Epoch(l2) <= Epoch(l1)
    ensures GenOf(l1) <= GenOf(l2)
  {
  }

  /** The scan for a lap's following generation finds nothing in the recovered ring: a lap of
      generation MAX_GEN_ID has been wiped, and a live slot of another never carries it. */
  lemma NothingNextInImage(s: State)
    requires LogInv(s)
    ensures Bounds(s.per.ring.slots, s.per.hdr) && NothingNext(s.per.ring.slots, s.per.hdr)
  {
    NothingLaterInImage(s);
    LaterThanNothing(s.per.ring.slots, s.per.hdr);
  }

  /** Recovery that starts again between the generation and the head update changes nothing. */
  lemma HalfForwardedIsHarmless(s: State, mem: Memory)
    requires LogInv(s)
    ensures Recover(mem, RecoveredSlots(s.per.ring.slots, s.per.hdr), HalfForwarded(s.per.hdr)) == mem
  {
    NothingNextInImage(s);
    NothingLeft(mem, s.per.ring.slots, s.per.hdr);
  }
}
