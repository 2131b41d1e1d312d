/** What every step of the journal keeps: the state of the log. */
module JournalInvariant {
  import opened JournalRing
  import opened JournalCleaner
  import opened JournalMachine

  /** Persisted header p is an earlier stage of the cached header h, with the same head. */
  ghost predicate HeaderOk(h: Header, p: Header) {
    && h.gen == GenOf(h.lap) && p.gen == GenOf(p.lap)
    && h.head == p.head
    && (|| (p.lap == h.lap && p.tail <= h.tail && (p.tail < h.head <==> h.tail < h.head))
        || (p.lap == h.lap - 1 && h.head <= p.tail && h.tail < h.head))
  }

  /** The transaction's reservation lies in the live region. */
  ghost predicate InLog(h: Header, t: Tx) {
    t.lap == LapAt(h, t.start) && Live(h, t.start)
  }

  ghost predicate Placed(h: Header, p: Header, t: Tx) {
    && Covered(h, t)
    && (!t.Ended() ==> InLog(h, t))
    && (0 < t.fenced && InLog(h, t) ==> Covered(p, t))
    // head never stops between a transaction's start and its last entry
    && (forall i :: t.start <= i < t.start + |t.log| && t.lap == LapAt(h, i) && Live(h, i) ==> InLog(h, t))
  }

  ghost predicate AllPlaced(h: Header, p: Header, txs: seq<Tx>) {
    forall k :: 0 <= k < |txs| ==> Placed(h, p, txs[k])
  }

  /** t1 was reserved before t2, in a slot range of its own. */
  ghost predicate Precedes(t1: Tx, t2: Tx) {
    t1.lap < t2.lap || (t1.lap == t2.lap && t1.End() <= t2.start)
  }

  ghost predicate Ordered(txs: seq<Tx>) {
    forall k1, k2 :: 0 <= k1 < k2 < |txs| ==> Precedes(txs[k1], txs[k2])
  }

  /** A non-zero generation in slot i tells which transaction wrote it, in which lap, and that
      no generation wrap lies between that lap and the slot's present one. */
  ghost predicate SlotOk(h: Header, txs: seq<Tx>, e: Entry, own: int, i: int) {
    e.gen != 0 ==>
      && 0 <= own < |txs|
      && var t := txs[own];
      && t.start <= i < t.start + |t.log|
      && e.gen == GenOf(t.lap)
      && t.lap <= LapAt(h, i)
      && Epoch(NextLap(h, i)) <= Epoch(t.lap)
      && (Live(h, i) && t.lap == LapAt(h, i) ==> e == t.log[i - t.start])
  }

  ghost predicate AllSlots(h: Header, txs: seq<Tx>, r: Ring) {
    && |r.slots| == |r.own|
    && forall i :: 0 <= i < |r.slots| ==> SlotOk(h, txs, r.slots[i], r.own[i], i)
  }

  /** The first n entries of transaction k are in their slots, unless the cleaner has been there. */
  ghost predicate Kept(h: Header, c: Cleaner, t: Tx, k: int, n: nat, r: Ring) {
    forall i :: 0 <= i < |r.slots| && i < |r.own| && t.start <= i < t.start + n
                && t.lap == LapAt(h, i) && Live(h, i) && !InZone(h, c, i)
                ==> r.own[i] == k && r.slots[i].gen != 0
  }

  ghost predicate AllKept(h: Header, c: Cleaner, txs: seq<Tx>, cur: Ring) {
    forall k :: 0 <= k < |txs| ==> Kept(h, c, txs[k], k, |txs[k].log|, cur)
  }

  ghost predicate FencedKept(h: Header, c: Cleaner, txs: seq<Tx>, per: Ring) {
    forall k :: 0 <= k < |txs| ==> Kept(h, c, txs[k], k, txs[k].fenced, per)
  }

  /** The running cleaner has zeroed what it passed in the MAX_GEN_ID lap. */
  ghost predicate ZoneZeroed(h: Header, c: Cleaner, cur: Ring) {
    forall i :: 0 <= i < |cur.slots| && InZone(h, c, i) ==> cur.slots[i].gen == 0
  }

  /** Zeroed slots may linger in the persisted view, but not a start without commit or abort. */
  ghost predicate ZonePersisted(h: Header, c: Cleaner, per: Ring) {
    forall i :: 0 <= i < |per.slots| && InZone(h, c, i) && per.slots[i].gen == MAX_GEN_ID && per.slots[i].isStart
                ==> per.slots[i].Fin()
  }

  /** Position (at, lap) lies between head and tail. */
  ghost predicate Between(h: Header, at: int, lap: int) {
    || (lap == h.lap && at <= h.tail && (h.head <= h.tail ==> h.head <= at))
    || (lap == h.lap - 1 && h.tail < h.head <= at)
  }

  ghost predicate StartsBefore(t: Tx, at: int, lap: int) {
    t.lap < lap || (t.lap == lap && t.start < at)
  }

  /** Everything in the log that starts before position (at, lap) has ended before it. */
  ghost predicate EndedBefore(h: Header, txs: seq<Tx>, at: int, lap: int) {
    forall k :: 0 <= k < |txs| && InLog(h, txs[k]) && StartsBefore(txs[k], at, lap) ==>
      txs[k].Ended() && (txs[k].lap < lap || txs[k].start + |txs[k].log| <= at)
  }

  /** The cleaner is zeroing the entries of the ended transaction t. */
  ghost predicate Zeroing(h: Header, txs: seq<Tx>, t: Tx, next: nat, last: nat, lap: int) {
    && t.Ended() && t.lap == lap && InLog(h, t)
    && t.start <= next <= last == t.start + |t.log| - 1
    && EndedBefore(h, txs, t.start, t.lap)
  }

  ghost predicate AllStarted(txs: seq<Tx>) {
    forall k :: 0 <= k < |txs| && !txs[k].status.Done? ==> 1 <= |txs[k].log|
  }

  ghost predicate CleanerOk(h: Header, c: Cleaner, txs: seq<Tx>) {
    match c
    case Idle => true
    case Scan(at, lap) =>
      Between(h, at, lap) && EndedBefore(h, txs, at, lap) && AllStarted(txs)
    case Zero(next, last, lap) =>
      && Between(h, next, lap) && GenOf(lap) == MAX_GEN_ID && AllStarted(txs)
      && exists k :: 0 <= k < |txs| && Zeroing(h, txs, txs[k], next, last, lap)
  }

  ghost predicate LogInv(s: State) {
    && Shape(s)
    && HeaderOk(s.cur.hdr, s.per.hdr)
    && Ordered(s.txs)
    && AllPlaced(s.cur.hdr, s.per.hdr, s.txs)
    && AllSlots(s.cur.hdr, s.txs, s.cur.ring)
    && AllSlots(s.cur.hdr, s.txs, s.per.ring)
    && AllKept(s.cur.hdr, s.cleaner, s.txs, s.cur.ring)
    && FencedKept(s.cur.hdr, s.cleaner, s.txs, s.per.ring)
    && ZoneZeroed(s.cur.hdr, s.cleaner, s.cur.ring)
    && ZonePersisted(s.cur.hdr, s.cleaner, s.per.ring)
    && CleanerOk(s.cur.hdr, s.cleaner, s.txs)
  }

  lemma FormatLog(n: nat, mem: Memory)
    requires 2 <= n
    ensures LogInv(Format(n, mem))
  {
  }

  // ---- The persisted view catches up ---------------------------------------------------------

  lemma EvictHeaderLog(s: State)
    requires LogInv(s)
    ensures LogInv(s.(per := s.per.(hdr := s.cur.hdr)))
  {
  }

  lemma CachedCovers(s: State, k: nat)
    requires LogInv(s) && k < |s.txs|
    ensures Covered(s.cur.hdr, s.txs[k])
  {
    assert Placed(s.cur.hdr, s.per.hdr, s.txs[k]);
  }

  lemma PersistedAt(per: Ring, cur: Ring, lo: nat, hi: nat)
    requires lo <= hi <= |cur.slots| == |per.slots| == |cur.own| == |per.own|
    ensures var r := PersistSlots(per, cur, lo, hi);
      forall i :: 0 <= i < |r.slots| ==>
        && r.slots[i] == (if lo <= i < hi then cur.slots[i] else per.slots[i])
        && r.own[i] == (if lo <= i < hi then cur.own[i] else per.own[i])
  {
  }

  lemma PersistParts(h: Header, c: Cleaner, txs: seq<Tx>, cur: Ring, per: Ring, lo: nat, hi: nat)
    requires lo <= hi <= |cur.slots| == |per.slots| == |cur.own| == |per.own|
    requires AllSlots(h, txs, cur) && AllSlots(h, txs, per)
    requires ZoneZeroed(h, c, cur) && ZonePersisted(h, c, per)
    ensures var r := PersistSlots(per, cur, lo, hi);
      AllSlots(h, txs, r) && ZonePersisted(h, c, r)
  {
    hide PersistSlots;
    PersistedAt(per, cur, lo, hi);
  }

  lemma PersistKept(h: Header, c: Cleaner, txs: seq<Tx>, cur: Ring, per: Ring, lo: nat, hi: nat)
    requires lo <= hi <= |cur.slots| == |per.slots| == |cur.own| == |per.own|
    requires AllKept(h, c, txs, cur) && FencedKept(h, c, txs, per)
    requires forall k :: 0 <= k < |txs| ==> txs[k].fenced <= |txs[k].log|
    ensures FencedKept(h, c, txs, PersistSlots(per, cur, lo, hi))
  {
    hide PersistSlots;
    PersistedAt(per, cur, lo, hi);
    var r := PersistSlots(per, cur, lo, hi);
    forall k | 0 <= k < |txs| ensures Kept(h, c, txs[k], k, txs[k].fenced, r) {
      assert Kept(h, c, txs[k], k, |txs[k].log|, cur) && Kept(h, c, txs[k], k, txs[k].fenced, per);
    }
  }

  lemma PersistSlotsLog(s: State, lo: nat, hi: nat)
    requires LogInv(s) && lo <= hi <= |s.cur.ring.slots|
    ensures LogInv(s.(per := s.per.(ring := PersistSlots(s.per.ring, s.cur.ring, lo, hi))))
  {
    hide AllSlots, AllKept, FencedKept, ZoneZeroed, ZonePersisted, AllPlaced, CleanerOk, Ordered, HeaderOk,
      PersistSlots;
    PersistParts(s.cur.hdr, s.cleaner, s.txs, s.cur.ring, s.per.ring, lo, hi);
    assert forall k :: 0 <= k < |s.txs| ==> TxShape(s.txs[k], k, |s.cur.ring.slots|);
    PersistKept(s.cur.hdr, s.cleaner, s.txs, s.cur.ring, s.per.ring, lo, hi);
  }

  // ---- A transaction moves on without new entries ----------------------------------------------

  ghost predicate SameEntries(t: Tx, t': Tx) {
    && t'.start == t.start && t'.size == t.size && t'.lap == t.lap && t'.gen == t.gen
    && t'.log == t.log && t'.Ended() == t.Ended()
  }

  lemma StageParts(h: Header, p: Header, c: Cleaner, txs: seq<Tx>, k: nat, t': Tx, cur: Ring, per: Ring)
    requires k < |txs| && SameEntries(txs[k], t')
    requires Ordered(txs) && AllPlaced(h, p, txs) && AllKept(h, c, txs, cur) && FencedKept(h, c, txs, per)
    requires Kept(h, c, t', k, t'.fenced, per)
    requires 0 < t'.fenced && InLog(h, t') ==> Covered(p, t')
    ensures var txs' := txs[k := t'];
      Ordered(txs') && AllPlaced(h, p, txs') && AllKept(h, c, txs', cur) && FencedKept(h, c, txs', per)
  {
    hide Kept;
    var txs' := txs[k := t'];
    assert Kept(h, c, txs[k], k, |t'.log|, cur) && Kept(h, c, t', k, |t'.log|, cur) by {
      StageKept(h, c, txs[k], t', k, |t'.log|, cur);
    }
    assert Placed(h, p, txs[k]);
    assert forall i :: 0 <= i < |txs| && i != k ==> txs'[i] == txs[i];
  }

  lemma StageKept(h: Header, c: Cleaner, t: Tx, t': Tx, k: nat, m: nat, r: Ring)
    requires SameEntries(t, t')
    ensures Kept(h, c, t', k, m, r) <==> Kept(h, c, t, k, m, r)
  {
  }

  lemma StageSlots(h: Header, txs: seq<Tx>, k: nat, t': Tx, r: Ring)
    requires k < |txs| && SameEntries(txs[k], t') && AllSlots(h, txs, r)
    ensures AllSlots(h, txs[k := t'], r)
  {
    forall i | 0 <= i < |r.slots| ensures SlotOk(h, txs[k := t'], r.slots[i], r.own[i], i) {
      assert SlotOk(h, txs, r.slots[i], r.own[i], i);
    }
  }

  lemma StageLog(s: State, k: nat, t': Tx)
    requires LogInv(s) && k < |s.txs| && SameEntries(s.txs[k], t')
    requires s.txs[k].status.Done? ==> t'.status.Done?
    requires Kept(s.cur.hdr, s.cleaner, t', k, t'.fenced, s.per.ring)
    requires 0 < t'.fenced && InLog(s.cur.hdr, t') ==> Covered(s.per.hdr, t')
    requires TxShape(t', k, |s.cur.ring.slots|)
    ensures LogInv(s.(txs := s.txs[k := t']))
  {
    hide AllSlots, AllKept, FencedKept, ZoneZeroed, ZonePersisted, AllPlaced, CleanerOk, Ordered, HeaderOk, Kept,
      TxShape;
    StageSlots(s.cur.hdr, s.txs, k, t', s.cur.ring);
    StageSlots(s.cur.hdr, s.txs, k, t', s.per.ring);
    StageParts(s.cur.hdr, s.per.hdr, s.cleaner, s.txs, k, t', s.cur.ring, s.per.ring);
    StageCleaner(s.cur.hdr, s.cleaner, s.txs, k, t');
  }

  lemma StageCleaner(h: Header, c: Cleaner, txs: seq<Tx>, k: nat, t': Tx)
    requires CleanerOk(h, c, txs) && k < |txs| && SameEntries(txs[k], t')
    requires txs[k].status.Done? ==> t'.status.Done?
    ensures CleanerOk(h, c, txs[k := t'])
  {
    var txs' := txs[k := t'];
    if c.Zero? {
      var j :| 0 <= j < |txs| && Zeroing(h, txs, txs[j], c.next, c.last, c.lap);
      assert Zeroing(h, txs', txs'[j], c.next, c.last, c.lap);
    }
  }

  /** A status change of a transaction that has not written its end entry. */
  lemma StatusLog(s: State, k: nat, st: Status)
    requires LogInv(s) && k < |s.txs| && !s.txs[k].Ended() && s.txs[k].fenced == |s.txs[k].log|
    requires !st.Closing? && !st.Done?
    ensures LogInv(s.(txs := s.txs[k := s.txs[k].(status := st)]))
  {
    var t := s.txs[k];
    var t' := t.(status := st);
    forall j | 0 <= j < |t.log| ensures EntryShape(t', k, j) {
      assert EntryShape(t, k, j);
    }
    assert Kept(s.cur.hdr, s.cleaner, t, k, t.fenced, s.per.ring);
    assert Placed(s.cur.hdr, s.per.hdr, t);
    StageLog(s, k, t');
  }

  lemma FencedShape(t: Tx, k: int, n: nat, st: Status)
    requires TxShape(t, k, n)
    requires st == t.status || (st.Done? && t.status.Closing?)
    ensures TxShape(t.(fenced := |t.log|, status := st), k, n)
  {
    var t' := t.(fenced := |t.log|, status := st);
    forall j | 0 <= j < |t.log| ensures EntryShape(t', k, j) {
      assert EntryShape(t, k, j);
    }
  }

  /** A fence brings transaction k's slots [lo..|log|) and, if need be, the header to the
      persisted view. */
  lemma FenceLogUpTo(s: State, k: nat, lo: nat, header: bool, st: Status)
    requires LogInv(s) && k < |s.txs| && lo <= s.txs[k].fenced
    requires header || Covered(s.per.hdr, s.txs[k])
    requires st == s.txs[k].status || (st.Done? && s.txs[k].status.Closing?)
    ensures var t := s.txs[k];
      LogInv(s.(per := s.per.(ring := PersistSlots(s.per.ring, s.cur.ring, t.start + lo, t.start + |t.log|),
                              hdr := if header then s.cur.hdr else s.per.hdr),
                txs := s.txs[k := t.(fenced := |t.log|, status := st)]))
  {
    hide LogInv;
    if header {
      EvictHeaderLog(s);
      assert Covered(s.cur.hdr, s.txs[k]) by {
        CachedCovers(s, k);
      }
      FenceSlots(s.(per := s.per.(hdr := s.cur.hdr)), k, lo, st);
    } else {
      FenceSlots(s, k, lo, st);
    }
  }

  /** After the fence the persisted ring holds all of transaction k's entries. */
  lemma FencedEntries(s: State, k: nat, lo: nat, t': Tx)
    requires LogInv(s) && k < |s.txs| && lo <= s.txs[k].fenced && SameEntries(s.txs[k], t') && t'.fenced == |t'.log|
    requires s.txs[k].start + |s.txs[k].log| <= |s.cur.ring.slots|
    ensures Kept(s.cur.hdr, s.cleaner, t', k, |t'.log|,
                 PersistSlots(s.per.ring, s.cur.ring, t'.start + lo, t'.start + |t'.log|))
  {
    hide AllSlots, ZoneZeroed, ZonePersisted, AllPlaced, CleanerOk, Ordered, HeaderOk, PersistSlots, Kept;
    var t := s.txs[k];
    assert TxShape(t, k, |s.cur.ring.slots|);
    assert Kept(s.cur.hdr, s.cleaner, t, k, |t.log|, s.cur.ring);
    assert Kept(s.cur.hdr, s.cleaner, t, k, t.fenced, s.per.ring);
    FenceKept(s.cur.hdr, s.cleaner, t, k, lo, s.cur.ring, s.per.ring);
    StageKept(s.cur.hdr, s.cleaner, t, t', k, |t.log|,
      PersistSlots(s.per.ring, s.cur.ring, t.start + lo, t.start + |t.log|));
  }

  lemma FenceSlots(s: State, k: nat, lo: nat, st: Status)
    requires LogInv(s) && k < |s.txs| && lo <= s.txs[k].fenced
    requires Covered(s.per.hdr, s.txs[k])
    requires st == s.txs[k].status || (st.Done? && s.txs[k].status.Closing?)
    ensures var t := s.txs[k];
      LogInv(s.(per := s.per.(ring := PersistSlots(s.per.ring, s.cur.ring, t.start + lo, t.start + |t.log|)),
                txs := s.txs[k := t.(fenced := |t.log|, status := st)]))
  {
    hide AllSlots, AllKept, FencedKept, ZoneZeroed, ZonePersisted, AllPlaced, CleanerOk, Ordered, HeaderOk, Kept,
      PersistSlots;
    var t := s.txs[k];
    var t' := t.(fenced := |t.log|, status := st);
    FencedShape(t, k, |s.cur.ring.slots|, st);
    FencedEntries(s, k, lo, t');
    PersistSlotsLog(s, t.start + lo, t.start + |t.log|);
    StageLog(s.(per := s.per.(ring := PersistSlots(s.per.ring, s.cur.ring, t.start + lo, t.start + |t.log|))), k, t');
  }

  lemma FenceKept(h: Header, c: Cleaner, t: Tx, k: nat, lo: nat, cur: Ring, per: Ring)
    requires t.start + |t.log| <= |cur.slots| == |per.slots| == |cur.own| == |per.own|
    requires lo <= t.fenced <= |t.log|
    requires Kept(h, c, t, k, |t.log|, cur) && Kept(h, c, t, k, t.fenced, per)
    ensures Kept(h, c, t, k, |t.log|, PersistSlots(per, cur, t.start + lo, t.start + |t.log|))
  {
    PersistedAt(per, cur, t.start + lo, t.start + |t.log|);
  }

  // ---- Reserving space ---------------------------------------------------------------------------

  /** The tail moves over free slots, or to slot 0 of the next lap. */
  ghost predicate TailMoves(n: nat, h: Header, h': Header) {
    && h.head < n && h.tail < n && h'.tail < n
    && h'.head == h.head && h'.gen == GenOf(h'.lap)
    && (|| (h'.tail == 0 && h'.lap == h.lap + 1 && 0 < h.head <= h.tail)
        || (h'.lap == h.lap && h.tail < h'.tail && (h.tail < h.head ==> h'.tail < h.head)))
  }

  lemma TailSlots(n: nat, h: Header, h': Header, txs: seq<Tx>, txs': seq<Tx>, r: Ring)
    requires TailMoves(n, h, h') && AllSlots(h, txs, r) && |r.slots| == n && txs <= txs'
    ensures AllSlots(h', txs', r)
  {
    forall i | 0 <= i < n ensures SlotOk(h', txs', r.slots[i], r.own[i], i) {
      assert SlotOk(h, txs, r.slots[i], r.own[i], i);
      assert NextLap(h', i) == NextLap(h, i) && LapAt(h, i) <= LapAt(h', i) <= LapAt(h, i) + 1;
      assert LapAt(h', i) != LapAt(h, i) ==> !Live(h, i);
    }
  }

  lemma TailTx(n: nat, h: Header, p: Header, h': Header, t: Tx)
    requires TailMoves(n, h, h') && Placed(h, p, t)
    requires 1 <= t.size && t.End() <= n && |t.log| <= t.size
    ensures Placed(h', p, t)
    ensures InLog(h', t) <==> InLog(h, t)
    ensures forall i :: t.start <= i < t.End() && i < n && t.lap == LapAt(h', i) && Live(h', i) ==>
      t.lap == LapAt(h, i) && Live(h, i)
  {
    assert forall i :: t.start <= i < t.End() && i < n && t.lap == LapAt(h', i) && Live(h', i) ==>
      t.lap == LapAt(h, i) && Live(h, i);
  }

  lemma TailTxs(n: nat, h: Header, p: Header, h': Header, txs: seq<Tx>, cur: Ring, per: Ring)
    requires TailMoves(n, h, h') && |cur.slots| == |cur.own| == |per.slots| == |per.own| == n
    requires forall k :: 0 <= k < |txs| ==> TxShape(txs[k], k, n)
    requires AllPlaced(h, p, txs) && AllKept(h, Idle, txs, cur) && FencedKept(h, Idle, txs, per)
    ensures AllPlaced(h', p, txs) && AllKept(h', Idle, txs, cur) && FencedKept(h', Idle, txs, per)
  {
    forall k | 0 <= k < |txs|
      ensures Placed(h', p, txs[k])
      ensures Kept(h', Idle, txs[k], k, |txs[k].log|, cur) && Kept(h', Idle, txs[k], k, txs[k].fenced, per)
    {
      assert TxShape(txs[k], k, n) && Placed(h, p, txs[k]);
      assert Kept(h, Idle, txs[k], k, |txs[k].log|, cur) && Kept(h, Idle, txs[k], k, txs[k].fenced, per);
      TailTx(n, h, p, h', txs[k]);
    }
  }

  lemma NewTx(h': Header, p: Header, txs: seq<Tx>, t: Tx, cur: Ring, per: Ring, n: nat)
    requires AllPlaced(h', p, txs) && AllKept(h', Idle, txs, cur) && FencedKept(h', Idle, txs, per) && Ordered(txs)
    requires forall k :: 0 <= k < |txs| ==> Precedes(txs[k], t) && TxShape(txs[k], k, n)
    requires Placed(h', p, t) && t.log == [] && t.fenced == 0 && TxShape(t, |txs|, n)
    ensures var txs' := txs + [t];
      && AllPlaced(h', p, txs') && AllKept(h', Idle, txs', cur) && FencedKept(h', Idle, txs', per) && Ordered(txs')
      && forall k :: 0 <= k < |txs'| ==> TxShape(txs'[k], k, n)
  {
    hide TxShape, Placed;
    var txs' := txs + [t];
    assert forall k :: 0 <= k < |txs| ==> txs'[k] == txs[k];
    assert Kept(h', Idle, t, |txs|, 0, cur) && Kept(h', Idle, t, |txs|, 0, per);
  }

  lemma WrapLog(s: State, req: nat)
    requires LogInv(s) && Enabled(s, Wrap(req))
    ensures LogInv(Apply(s, Wrap(req)))
  {
    hide AllSlots, AllKept, FencedKept, AllPlaced, Ordered, TxShape;
    var h' := Apply(s, Wrap(req)).cur.hdr;
    GenFollowsLap(s.cur.hdr.lap);
    var n := |s.cur.ring.slots|;
    TailSlots(n, s.cur.hdr, h', s.txs, s.txs, s.cur.ring);
    TailSlots(n, s.cur.hdr, h', s.txs, s.txs, s.per.ring);
    TailTxs(n, s.cur.hdr, s.per.hdr, h', s.txs, s.cur.ring, s.per.ring);
  }

  lemma ReserveLog(s: State, req: nat)
    requires LogInv(s) && Enabled(s, Reserve(req))
    ensures LogInv(Apply(s, Reserve(req)))
  {
    hide AllSlots, AllKept, FencedKept, AllPlaced, Ordered;
    var s' := Apply(s, Reserve(req));
    var h' := s'.cur.hdr;
    var n := |s.cur.ring.slots|;
    TailSlots(n, s.cur.hdr, h', s.txs, s'.txs, s.cur.ring);
    TailSlots(n, s.cur.hdr, h', s.txs, s'.txs, s.per.ring);
    TailTxs(n, s.cur.hdr, s.per.hdr, h', s.txs, s.cur.ring, s.per.ring);
    CoveredPrecede(s, s'.txs[|s.txs|]);
    NewTx(h', s.per.hdr, s.txs, s'.txs[|s.txs|], s.cur.ring, s.per.ring, n);
  }

  lemma CoveredPrecede(s: State, t: Tx)
    requires LogInv(s) && t.lap == s.cur.hdr.lap && t.start == s.cur.hdr.tail
    ensures forall k :: 0 <= k < |s.txs| ==> Precedes(s.txs[k], t)
  {
    forall k | 0 <= k < |s.txs| ensures Precedes(s.txs[k], t) {
      assert Placed(s.cur.hdr, s.per.hdr, s.txs[k]);
    }
  }

  // ---- Writing log entries -----------------------------------------------------------------------

  /** A reservation whose start is live is live as a whole, in one lap. */
  lemma RegionLive(h: Header, t: Tx, i: int)
    requires Covered(h, t) && InLog(h, t) && t.start <= i < t.End()
    ensures Live(h, i) && LapAt(h, i) == t.lap
  {
  }

  /** Two transactions of one lap share no slot. */
  lemma RegionsApart(txs: seq<Tx>, k1: nat, k2: nat, i: int)
    requires Ordered(txs) && k1 < |txs| && k2 < |txs| && txs[k1].lap == txs[k2].lap
    requires txs[k1].start <= i < txs[k1].End() && txs[k2].start <= i < txs[k2].End()
    ensures k1 == k2
  {
  }

  /** The cleaner has not reached the slots of a transaction that is still open. */
  lemma OpenAhead(s: State, k: nat, i: int)
    requires LogInv(s) && k < |s.txs| && !s.txs[k].Ended() && s.txs[k].start <= i < s.txs[k].End()
    ensures Live(s.cur.hdr, i) && LapAt(s.cur.hdr, i) == s.txs[k].lap && !InZone(s.cur.hdr, s.cleaner, i)
  {
    var t := s.txs[k];
    assert Placed(s.cur.hdr, s.per.hdr, t);
    RegionLive(s.cur.hdr, t, i);
    if s.cleaner.Zero? {
      var j :| 0 <= j < |s.txs| && Zeroing(s.cur.hdr, s.txs, s.txs[j], s.cleaner.next, s.cleaner.last, s.cleaner.lap);
      assert TxShape(s.txs[j], j, |s.cur.ring.slots|);
      assert j != k;
    }
  }

  /** The next free slot of an open transaction holds nothing of the present lap. */
  lemma NextSlotStale(s: State, k: nat, k': nat)
    requires LogInv(s) && k < |s.txs| && !s.txs[k].Ended() && |s.txs[k].log| < s.txs[k].size
    requires k' < |s.txs|
    ensures var i := s.txs[k].start + |s.txs[k].log|;
      s.txs[k'].start <= i < s.txs[k'].start + |s.txs[k'].log| ==> s.txs[k'].lap != s.txs[k].lap
  {
    var i := s.txs[k].start + |s.txs[k].log|;
    assert TxShape(s.txs[k'], k', |s.cur.ring.slots|);
    if s.txs[k'].start <= i < s.txs[k'].start + |s.txs[k'].log| && s.txs[k'].lap == s.txs[k].lap {
      RegionsApart(s.txs, k, k', i);
    }
  }

  lemma ScribbledSlot(s: State, k: nat, e: Entry)
    requires LogInv(s) && Enabled(s, Scribble(k, e))
    ensures var i := s.txs[k].start + |s.txs[k].log|;
      i < |s.cur.ring.slots| && i < |s.cur.ring.own| && SlotOk(s.cur.hdr, s.txs, e, s.cur.ring.own[i], i)
  {
    hide AllKept, FencedKept, ZoneZeroed, ZonePersisted, AllPlaced, CleanerOk, HeaderOk;
    var t := s.txs[k];
    var i := t.start + |t.log|;
    OpenAhead(s, k, i);
    var r := s.cur.ring;
    assert SlotOk(s.cur.hdr, s.txs, r.slots[i], r.own[i], i);
    if e.gen != 0 {
      NextSlotStale(s, k, r.own[i]);
    }
  }

  lemma ScribbleSlots(s: State, k: nat, e: Entry)
    requires LogInv(s) && Enabled(s, Scribble(k, e))
    ensures AllSlots(s.cur.hdr, s.txs, Apply(s, Scribble(k, e)).cur.ring)
  {
    hide SlotOk, AllKept, FencedKept, ZoneZeroed, ZonePersisted, AllPlaced, CleanerOk, HeaderOk, Ordered;
    ScribbledSlot(s, k, e);
  }

  lemma ScribbleLog(s: State, k: nat, e: Entry)
    requires LogInv(s) && Enabled(s, Scribble(k, e))
    ensures LogInv(Apply(s, Scribble(k, e)))
  {
    hide AllSlots, AllKept, FencedKept, ZoneZeroed, ZonePersisted, AllPlaced, CleanerOk, HeaderOk, Ordered, TxShape,
      SlotOk;
    ScribbledSlot(s, k, e);
    ScribbleSlots(s, k, e);
    var r := s.cur.ring;
    var r' := Apply(s, Scribble(k, e)).cur.ring;
    assert forall j :: 0 <= j < |r.slots| ==> r'.slots[j].gen == r.slots[j].gen;
    ScribbleKept(s.cur.hdr, s.cleaner, s.txs, r, r');
  }

  lemma ScribbleKept(h: Header, c: Cleaner, txs: seq<Tx>, r: Ring, r': Ring)
    requires AllKept(h, c, txs, r) && ZoneZeroed(h, c, r) && |r'.slots| == |r.slots| && r'.own == r.own
    requires forall j :: 0 <= j < |r.slots| ==> r'.slots[j].gen == r.slots[j].gen
    ensures AllKept(h, c, txs, r') && ZoneZeroed(h, c, r')
  {
    forall j | 0 <= j < |txs| ensures Kept(h, c, txs[j], j, |txs[j].log|, r') {
      assert Kept(h, c, txs[j], j, |txs[j].log|, r);
    }
  }

  /** t' is t with one more entry. */
  ghost predicate Appends(t: Tx, t': Tx, e: Entry) {
    && !t.Ended()
    && t'.start == t.start && t'.size == t.size && t'.lap == t.lap && t'.gen == t.gen
    && t'.fenced == t.fenced && t'.log == t.log + [e] && !t'.status.Done?
    && |t.log| < t.size && e.gen == t.gen
  }

  lemma AppendSlots(h: Header, txs: seq<Tx>, k: nat, t': Tx, e: Entry, r: Ring)
    requires AllSlots(h, txs, r) && k < |txs| && Appends(txs[k], t', e)
    ensures AllSlots(h, txs[k := t'], r)
  {
    forall j | 0 <= j < |r.slots| ensures SlotOk(h, txs[k := t'], r.slots[j], r.own[j], j) {
      assert SlotOk(h, txs, r.slots[j], r.own[j], j);
    }
  }

  lemma AppendCleaner(h: Header, c: Cleaner, txs: seq<Tx>, k: nat, t': Tx, e: Entry)
    requires CleanerOk(h, c, txs) && Ordered(txs) && k < |txs| && Appends(txs[k], t', e) && InLog(h, txs[k])
    ensures CleanerOk(h, c, txs[k := t'])
  {
    var txs' := txs[k := t'];
    if c.Zero? {
      var j :| 0 <= j < |txs| && Zeroing(h, txs, txs[j], c.next, c.last, c.lap);
      assert Zeroing(h, txs', txs'[j], c.next, c.last, c.lap);
    }
  }

  lemma AppendKept(s: State, k: nat, t': Tx, e: Entry, k': nat)
    requires LogInv(s) && k < |s.txs| && Appends(s.txs[k], t', e) && k' < |s.txs|
    requires e.gen != 0
    ensures var txs := s.txs[k := t'];
      Kept(s.cur.hdr, s.cleaner, txs[k'], k', |txs[k'].log|,
        PutEntry(s.cur.ring, s.txs[k].start + |s.txs[k].log|, e, k))
  {
    var t := s.txs[k];
    var i := t.start + |t.log|;
    assert TxShape(t, k, |s.cur.ring.slots|);
    OpenAhead(s, k, i);
    NextSlotStale(s, k, k');
    assert Kept(s.cur.hdr, s.cleaner, s.txs[k'], k', |s.txs[k'].log|, s.cur.ring);
  }

  lemma AppendPlaced(s: State, k: nat, t': Tx, e: Entry)
    requires LogInv(s) && k < |s.txs| && Appends(s.txs[k], t', e)
    ensures AllPlaced(s.cur.hdr, s.per.hdr, s.txs[k := t'])
    ensures FencedKept(s.cur.hdr, s.cleaner, s.txs[k := t'], s.per.ring)
    ensures Ordered(s.txs[k := t'])
  {
    forall k' | 0 <= k' < |s.txs|
      ensures Placed(s.cur.hdr, s.per.hdr, s.txs[k := t'][k'])
      ensures Kept(s.cur.hdr, s.cleaner, s.txs[k := t'][k'], k', s.txs[k'].fenced, s.per.ring)
    {
      assert Placed(s.cur.hdr, s.per.hdr, s.txs[k']);
      assert Kept(s.cur.hdr, s.cleaner, s.txs[k'], k', s.txs[k'].fenced, s.per.ring);
    }
  }

  lemma AppendRing(s: State, k: nat, t': Tx, e: Entry)
    requires LogInv(s) && k < |s.txs| && Appends(s.txs[k], t', e) && e == t'.log[|s.txs[k].log|]
    ensures var r := PutEntry(s.cur.ring, s.txs[k].start + |s.txs[k].log|, e, k);
      && AllSlots(s.cur.hdr, s.txs[k := t'], r)
      && ZoneZeroed(s.cur.hdr, s.cleaner, r)
  {
    var t := s.txs[k];
    var i := t.start + |t.log|;
    assert TxShape(t, k, |s.cur.ring.slots|);
    OpenAhead(s, k, i);
    AppendSlots(s.cur.hdr, s.txs, k, t', e, s.cur.ring);
  }

  /** Publishing entry e as transaction k's next one. */
  lemma AppendLog(s: State, k: nat, t': Tx, e: Entry)
    requires LogInv(s) && k < |s.txs| && Appends(s.txs[k], t', e)
    requires TxShape(t', k, |s.cur.ring.slots|)
    ensures LogInv(s.(cur := s.cur.(ring := PutEntry(s.cur.ring, s.txs[k].start + |s.txs[k].log|, e, k)),
                      txs := s.txs[k := t']))
  {
    AppendSlots(s.cur.hdr, s.txs, k, t', e, s.per.ring);
    assert Placed(s.cur.hdr, s.per.hdr, s.txs[k]);
    AppendCleaner(s.cur.hdr, s.cleaner, s.txs, k, t', e);
    AppendRing(s, k, t', e);
    AppendPlaced(s, k, t', e);
    var txs := s.txs[k := t'];
    var r := PutEntry(s.cur.ring, s.txs[k].start + |s.txs[k].log|, e, k);
    forall k' | 0 <= k' < |txs| ensures Kept(s.cur.hdr, s.cleaner, txs[k'], k', |txs[k'].log|, r)
    {
      AppendKept(s, k, t', e, k');
    }
  }

  // ---- What a valid slot means -------------------------------------------------------------------

  /** A live slot that carries its lap's generation was written in that lap, by a transaction
      that is in the log. */
  lemma ValidOwner(h: Header, p: Header, txs: seq<Tx>, r: Ring, i: nat)
    requires AllSlots(h, txs, r) && AllPlaced(h, p, txs) && i < |r.slots|
    requires Live(h, i) && r.slots[i].gen == GenOf(LapAt(h, i))
    ensures 0 <= r.own[i] < |txs|
    ensures var t := txs[r.own[i]];
      && t.lap == LapAt(h, i) && InLog(h, t)
      && t.start <= i < t.start + |t.log|
      && r.slots[i] == t.log[i - t.start]
  {
    assert SlotOk(h, txs, r.slots[i], r.own[i], i);
    var t := txs[r.own[i]];
    GenIdentifiesLap(t.lap, LapAt(h, i));
    assert Placed(h, p, t);
  }
}
