/** What the cleaner counts as freed, told from the transactions and the header, and with it which requests the code
    grants and which it refuses. */
module JournalFreed {
  import opened JournalRing
  import opened JournalCleaner
  import opened JournalCleanerRun
  import opened JournalCleaning
  import opened JournalCode
  import opened JournalInvariant
  import opened JournalMachine
  import opened JournalRequest
  import opened JournalSafety

  // ---- Transactions in the log -------------------------------------------------------------------------

  /** Index of the first transaction without an end entry, from i on, or the number of transactions. */
  function OpenFrom(txs: seq<Tx>, i: nat): (k: nat)
    requires i <= |txs|
    ensures i <= k <= |txs| && (forall j :: i <= j < k ==> txs[j].Ended()) && (k < |txs| ==> !txs[k].Ended())
    decreases |txs| - i
  {
    if i == |txs| || !txs[i].Ended() then i else OpenFrom(txs, i + 1)
  }

  /** Entries of those among the first n transactions that begin in the log. */
  ghost function Logged(txs: seq<Tx>, h: Header, n: nat): nat
    requires n <= |txs|
  {
    if n == 0 then 0 else Logged(txs, h, n - 1) + if InLog(h, txs[n - 1]) then |txs[n - 1].log| else 0
  }

  /** The first slot from i on, in front of `limit`, that shows a start entry of generation g, or `limit`. */
  function StartFrom(slots: seq<Entry>, i: nat, limit: nat, g: nat): (j: nat)
    requires i <= limit <= |slots|
    ensures i <= j <= limit && (j < limit ==> slots[j].gen == g && slots[j].isStart)
    ensures forall m :: i <= m < j ==> !(slots[m].gen == g && slots[m].isStart)
    decreases limit - i
  {
    if i == limit || (slots[i].gen == g && slots[i].isStart) then i else StartFrom(slots, i + 1, limit, g)
  }

  /** Distance from the start of transaction k to the next start of its lap; if there is none, to the tail, or, in
      the older lap, past the ring's end to what the newer lap has left of a start of that generation. */
  function ToNext(txs: seq<Tx>, k: nat, h: Header, slots: seq<Entry>): int
    requires k < |txs| && h.tail <= |slots|
  {
    var t := txs[k];
    if k + 1 < |txs| && txs[k + 1].lap == t.lap then txs[k + 1].start - t.start
    else if t.lap == h.lap then h.tail - t.start
    else |slots| - t.start + StartFrom(slots, 0, h.tail, t.gen)
  }

  /** Entries of the ended transactions that the cleaner passes. */
  ghost function Passed(txs: seq<Tx>, h: Header): nat {
    Logged(txs, h, OpenFrom(txs, 0))
  }

  /** Entries walked over at the open transaction where it stops, though none of them becomes free. */
  ghost function Walks(txs: seq<Tx>, h: Header, slots: seq<Entry>): int
    requires h.tail <= |slots|
  {
    var k := OpenFrom(txs, 0);
    if k < |txs| && InLog(h, txs[k]) then ToNext(txs, k, h, slots) else 0
  }

  // ---- From a position on --------------------------------------------------------------------------------

  /** Entries of those among the first n transactions that begin in the log at position (at, lap) or later. */
  ghost function LoggedFrom(txs: seq<Tx>, h: Header, at: int, lap: int, n: nat): nat
    requires n <= |txs|
  {
    if n == 0 then 0
    else LoggedFrom(txs, h, at, lap, n - 1)
         + if InLog(h, txs[n - 1]) && !StartsBefore(txs[n - 1], at, lap) then |txs[n - 1].log| else 0
  }

  lemma {:induction false} SameLogged(txs: seq<Tx>, h: Header, at: int, lap: int, at': int, lap': int, n: nat)
    requires n <= |txs|
    requires forall j :: 0 <= j < n && InLog(h, txs[j]) ==>
      (StartsBefore(txs[j], at, lap) <==> StartsBefore(txs[j], at', lap'))
    ensures LoggedFrom(txs, h, at, lap, n) == LoggedFrom(txs, h, at', lap', n)
  {
    hide InLog, StartsBefore;
    if n > 0 {
      SameLogged(txs, h, at, lap, at', lap', n - 1);
    }
  }

  /** Transaction k is the one that lies between two positions. */
  lemma {:induction false} OneLogged(txs: seq<Tx>, h: Header, at: int, lap: int, at': int, lap': int, n: nat, k: nat)
    requires k < n <= |txs| && InLog(h, txs[k])
    requires !StartsBefore(txs[k], at, lap) && StartsBefore(txs[k], at', lap')
    requires forall j :: 0 <= j < n && j != k && InLog(h, txs[j]) ==>
      (StartsBefore(txs[j], at, lap) <==> StartsBefore(txs[j], at', lap'))
    ensures LoggedFrom(txs, h, at, lap, n) == |txs[k].log| + LoggedFrom(txs, h, at', lap', n)
  {
    hide InLog, StartsBefore;
    if k == n - 1 {
      SameLogged(txs, h, at, lap, at', lap', n - 1);
    } else {
      OneLogged(txs, h, at, lap, at', lap', n - 1, k);
    }
  }

  lemma {:induction false} NoneLogged(txs: seq<Tx>, h: Header, at: int, lap: int, n: nat)
    requires n <= |txs| && forall j :: 0 <= j < n && InLog(h, txs[j]) ==> StartsBefore(txs[j], at, lap)
    ensures LoggedFrom(txs, h, at, lap, n) == 0
  {
    hide InLog, StartsBefore;
    if n > 0 {
      NoneLogged(txs, h, at, lap, n - 1);
    }
  }

  lemma {:induction false} AllLogged(txs: seq<Tx>, h: Header, at: int, lap: int, n: nat)
    requires n <= |txs| && forall j :: 0 <= j < n && InLog(h, txs[j]) ==> !StartsBefore(txs[j], at, lap)
    ensures LoggedFrom(txs, h, at, lap, n) == Logged(txs, h, n)
  {
    hide InLog, StartsBefore;
    if n > 0 {
      AllLogged(txs, h, at, lap, n - 1);
    }
  }

  lemma {:induction false} NothingLogged(txs: seq<Tx>, h: Header, n: nat)
    requires n <= |txs| && forall j :: 0 <= j < n ==> !InLog(h, txs[j])
    ensures Logged(txs, h, n) == 0
  {
    hide InLog;
    if n > 0 {
      NothingLogged(txs, h, n - 1);
    }
  }

  // ---- The forward walk -------------------------------------------------------------------------------------

  /** The walk that finds an end in front of the ring's end has gone over everything up to it. */
  lemma {:induction false} WalkedToEnd(s: seq<Entry>, i: nat, f: nat, tl: nat, g: nat)
    requires i <= f < |s| && tl < |s| && FindEnd(s, i, tl, g) == Some(f)
    ensures Walked(s, i, tl, g) == f - i + 1
    decreases f - i
  {
    if !(s[i].gen == g && s[i].Fin()) {
      if i < f {
        WalkedToEnd(s, i + 1, f, tl, g);
      }
    }
  }

  /** The walk that finds no end goes on to the next start, or to the tail. */
  lemma {:induction false} WalkedToNext(s: seq<Entry>, i: nat, st: nat, tl: nat, g: nat)
    requires i < st < |s| && tl < |s| && FindEnd(s, i, tl, g).None?
    requires tl <= i || st <= tl
    requires forall j :: i < j < st ==> !(s[j].gen == g && s[j].isStart)
    requires st == tl || (s[st].gen == g && s[st].isStart)
    ensures Walked(s, i, tl, g) == st - i
    decreases st - i
  {
    if i + 1 < st {
      assert FindEnd(s, i + 1, tl, g).None?;
      WalkedToNext(s, i + 1, st, tl, g);
    }
  }

  /** Past the ring's end. */
  lemma {:induction false} WalkedAround(s: seq<Entry>, i: nat, tl: nat, g: nat)
    requires tl <= i < |s| && FindEnd(s, i, tl, g).None?
    requires forall j :: i < j < |s| ==> !(s[j].gen == g && s[j].isStart)
    ensures Walked(s, i, tl, g) == |s| - i + StartFrom(s, 0, tl, g)
    decreases |s| - i
  {
    if i + 1 < |s| {
      assert FindEnd(s, i + 1, tl, g).None?;
      WalkedAround(s, i + 1, tl, g);
    } else if tl > 0 && !(s[0].gen == g && s[0].isStart) {
      assert FindEnd(s, 0, tl, g).None?;
      WalkedToNext(s, 0, StartFrom(s, 0, tl, g), tl, g);
    }
  }

  // ---- At the open transaction --------------------------------------------------------------------------------

  /** Transaction k stands at the cleaner's position and has not ended. */
  ghost predicate OpenHere(s: State, at: nat, lap: int, k: nat) {
    StartsAt(s, at, lap, k) && !s.txs[k].Ended() && AllStarted(s.txs)
  }

  /** No start entry of the lap between an open transaction and the next one of its lap. */
  lemma NoStartBetween(s: State, at: nat, lap: int, k: nat, j: nat)
    requires OpenHere(s, at, lap, k) && at < j < LapLimit(s, lap) <= |s.cur.ring.slots|
    requires s.cur.ring.slots[j].gen == GenOf(lap) && s.cur.ring.slots[j].isStart
    ensures k + 1 < |s.txs| && s.txs[k + 1].lap == lap && s.txs[k + 1].start <= j
  {
    hide AllSlots, AllKept, FencedKept, ZoneZeroed, ZonePersisted, HeaderOk, CleanerOk, AllPlaced;
    OwnerAhead(s, at, lap, j);
    var m := s.cur.ring.own[j];
    assert s.txs[m].start == j;
    assert TxShape(s.txs[m], m, |s.cur.ring.slots|) && TxShape(s.txs[k], k, |s.cur.ring.slots|);
    assert m < k ==> Precedes(s.txs[m], s.txs[k]);
    assert k < m;
    if m != k + 1 {
      assert Precedes(s.txs[k], s.txs[k + 1]) && Precedes(s.txs[k + 1], s.txs[m]);
      assert TxShape(s.txs[k + 1], k + 1, |s.cur.ring.slots|);
    }
  }

  /** The next transaction of the lap shows its start. */
  lemma NextShowsStart(s: State, at: nat, lap: int, k: nat)
    requires OpenHere(s, at, lap, k) && k + 1 < |s.txs| && s.txs[k + 1].lap == lap
    ensures var st := s.txs[k + 1].start;
      && at < st < LapLimit(s, lap) <= |s.cur.ring.slots|
      && s.cur.ring.slots[st].gen == GenOf(lap) && s.cur.ring.slots[st].isStart
  {
    hide AllSlots, AllKept, FencedKept, ZoneZeroed, ZonePersisted, CleanerOk;
    var t, u, n := s.txs[k], s.txs[k + 1], |s.cur.ring.slots|;
    assert TxShape(t, k, n) && TxShape(u, k + 1, n) && Precedes(t, u);
    assert Placed(s.cur.hdr, s.per.hdr, u) && Placed(s.cur.hdr, s.per.hdr, t);
    assert 1 <= |u.log|;
    AtSlotLive(s, at, lap, at);
    assert InLog(s.cur.hdr, u);
    EntryAhead(s, at, lap, k + 1, 0);
  }

  /** What the walk over an open transaction counts. */
  lemma WalkCounts(s: State, at: nat, lap: int, k: nat)
    requires OpenHere(s, at, lap, k)
    requires at < |s.cur.ring.slots| && s.cur.hdr.tail < |s.cur.ring.slots|
    requires FindEnd(s.cur.ring.slots, at, s.cur.hdr.tail, GenOf(lap)).None?
    ensures Walked(s.cur.ring.slots, at, s.cur.hdr.tail, GenOf(lap)) == ToNext(s.txs, k, s.cur.hdr, s.cur.ring.slots)
  {
    hide LogInv, FindEnd, Walked, TxShape;
    var slots, tl, g := s.cur.ring.slots, s.cur.hdr.tail, GenOf(lap);
    OpenBounds(s, at, lap, k);
    if k + 1 < |s.txs| && s.txs[k + 1].lap == lap {
      NextShowsStart(s, at, lap, k);
      var st := s.txs[k + 1].start;
      forall j | at < j < st ensures !(slots[j].gen == g && slots[j].isStart) {
        if slots[j].gen == g && slots[j].isStart {
          NoStartBetween(s, at, lap, k, j);
        }
      }
      WalkedToNext(slots, at, st, tl, g);
    } else {
      forall j | at < j < LapLimit(s, lap) ensures !(slots[j].gen == g && slots[j].isStart) {
        if slots[j].gen == g && slots[j].isStart {
          NoStartBetween(s, at, lap, k, j);
        }
      }
      if lap == s.cur.hdr.lap {
        WalkedToNext(slots, at, tl, tl, g);
      } else {
        WalkedAround(slots, at, tl, g);
      }
    }
  }

  lemma OpenBounds(s: State, at: nat, lap: int, k: nat)
    requires OpenHere(s, at, lap, k)
    ensures s.txs[k].start == at && s.txs[k].lap == lap && s.txs[k].gen == GenOf(lap)
    ensures LapLimit(s, lap) <= |s.cur.ring.slots|
    ensures if lap == s.cur.hdr.lap then at < s.cur.hdr.tail else s.cur.hdr.tail < at
  {
    AtSlotLive(s, at, lap, at);
    assert TxShape(s.txs[k], k, |s.cur.ring.slots|);
  }

  // ---- The loop ------------------------------------------------------------------------------------------------

  /** The cleaner's count from its position on. */
  ghost predicate Counts(s: State, count: nat)
    requires s.cleaner.Scan? && s.cur.hdr.tail <= |s.cur.ring.slots|
  {
    && Walks(s.txs, s.cur.hdr, s.cur.ring.slots) >= 0
    && count == LoggedFrom(s.txs, s.cur.hdr, s.cleaner.at, s.cleaner.lap, OpenFrom(s.txs, 0))
               + Walks(s.txs, s.cur.hdr, s.cur.ring.slots)
  }

  /** At the tail nothing is left: every transaction in the log has ended and has been passed. */
  lemma CountsAtTail(s: State)
    requires LogInv(s) && s.cleaner.Scan? && s.cleaner.at == s.cur.hdr.tail
    ensures s.cur.hdr.tail < |s.cur.ring.slots| && Counts(s, 0)
  {
    hide AllSlots, AllKept, FencedKept, ZoneZeroed, ZonePersisted, Ordered;
    ScanBounds(s);
    var h, at, lap, k := s.cur.hdr, s.cleaner.at, s.cleaner.lap, OpenFrom(s.txs, 0);
    forall j | 0 <= j < |s.txs| && InLog(h, s.txs[j]) ensures StartsBefore(s.txs[j], at, lap) {
      assert TxShape(s.txs[j], j, |s.cur.ring.slots|);
    }
    assert k < |s.txs| ==> Placed(h, s.per.hdr, s.txs[k]);
    NoneLogged(s.txs, h, at, lap, k);
  }

  /** The open transaction at which the cleaner stops is the first one. */
  lemma StopsAtOpen(s: State)
    requires LogInv(s) && AtOpen(s) && s.cleaner.at != s.cur.hdr.tail
    ensures var k := OpenFrom(s.txs, 0);
      k < |s.txs| && InLog(s.cur.hdr, s.txs[k]) && OpenHere(s, s.cleaner.at, s.cleaner.lap, k)
    ensures LoggedFrom(s.txs, s.cur.hdr, s.cleaner.at, s.cleaner.lap, OpenFrom(s.txs, 0)) == 0
  {
    hide AllSlots, AllKept, FencedKept, ZoneZeroed, ZonePersisted;
    var h, at, lap, k := s.cur.hdr, s.cleaner.at, s.cleaner.lap, OpenFrom(s.txs, 0);
    var m :| 0 <= m < |s.txs| && !s.txs[m].Ended() && InLog(h, s.txs[m]) && s.txs[m].lap == lap && s.txs[m].start == at;
    assert k <= m;
    assert Placed(h, s.per.hdr, s.txs[k]) && TxShape(s.txs[k], k, |s.cur.ring.slots|);
    assert TxShape(s.txs[m], m, |s.cur.ring.slots|);
    forall j | 0 <= j < m ensures StartsBefore(s.txs[j], at, lap) {
      assert Precedes(s.txs[j], s.txs[m]) && TxShape(s.txs[j], j, |s.cur.ring.slots|);
    }
    assert k == m;
    forall j | 0 <= j < k && InLog(h, s.txs[j]) ensures StartsBefore(s.txs[j], at, lap) {
      assert Precedes(s.txs[j], s.txs[k]) && TxShape(s.txs[j], j, |s.cur.ring.slots|);
    }
    NoneLogged(s.txs, h, at, lap, k);
  }

  lemma CountsAtOpen(s: State)
    requires LogInv(s) && AtOpen(s) && s.cleaner.Scan? && s.cleaner.at != s.cur.hdr.tail
    requires s.cleaner.at < |s.cur.ring.slots| && s.cur.hdr.tail < |s.cur.ring.slots|
    requires FindEnd(s.cur.ring.slots, s.cleaner.at, s.cur.hdr.tail, GenOf(s.cleaner.lap)).None?
    ensures Counts(s, Walked(s.cur.ring.slots, s.cleaner.at, s.cur.hdr.tail, GenOf(s.cleaner.lap)))
  {
    hide LogInv, FindEnd, Walked, OpenHere, ToNext, AtOpen;
    StopsAtOpen(s);
    WalkCounts(s, s.cleaner.at, s.cleaner.lap, OpenFrom(s.txs, 0));
  }

  /** Passing an invalid slot passes no transaction. */
  lemma SkipLogs(s: State)
    requires LogInv(s) && Enabled(s, CleanSkip)
    ensures var c, c' := s.cleaner, Apply(s, CleanSkip).cleaner; var k := OpenFrom(s.txs, 0);
      LoggedFrom(s.txs, s.cur.hdr, c.at, c.lap, k) == LoggedFrom(s.txs, s.cur.hdr, c'.at, c'.lap, k)
  {
    hide AllSlots, AllKept, FencedKept, ZoneZeroed, ZonePersisted, Ordered, HeaderOk, CleanerOk, AllPlaced;
    var c, c', k := s.cleaner, Apply(s, CleanSkip).cleaner, OpenFrom(s.txs, 0);
    forall j | 0 <= j < k && InLog(s.cur.hdr, s.txs[j])
      ensures StartsBefore(s.txs[j], c.at, c.lap) <==> StartsBefore(s.txs[j], c'.at, c'.lap)
    {
      NothingStartsHere(s, j);
      assert TxShape(s.txs[j], j, |s.cur.ring.slots|);
    }
    SameLogged(s.txs, s.cur.hdr, c.at, c.lap, c'.at, c'.lap, k);
  }

  /** Taking an ended transaction passes it and no other one. */
  lemma TakeLogs(s: State, at': nat, lap': int)
    requires LogInv(s) && Enabled(s, CleanTake)
    requires at' == ProcessOne(s.cur.ring.slots, s.cleaner.at, s.cur.hdr.tail).at
    requires lap' == if at' == 0 then s.cleaner.lap + 1 else s.cleaner.lap
    ensures var c := s.cleaner; var k := OpenFrom(s.txs, 0);
      LoggedFrom(s.txs, s.cur.hdr, c.at, c.lap, k) ==
        Processed(s.cur.ring.slots, c.at, s.cur.hdr.tail) + LoggedFrom(s.txs, s.cur.hdr, at', lap', k)
  {
    hide AllSlots, AllKept, FencedKept, ZoneZeroed, ZonePersisted, HeaderOk, FindEnd, Walked, Wiped;
    TakeEnded(s);
    var c, k, m, n := s.cleaner, OpenFrom(s.txs, 0), s.cur.ring.own[s.cleaner.at], |s.cur.ring.slots|;
    WalkedToEnd(s.cur.ring.slots, c.at, c.at + |s.txs[m].log| - 1, s.cur.hdr.tail, GenOf(c.lap));
    assert TxShape(s.txs[m], m, n);
    TakenBeforeOpen(s, m);
    forall j | 0 <= j < k && j != m && InLog(s.cur.hdr, s.txs[j])
      ensures StartsBefore(s.txs[j], c.at, c.lap) <==> StartsBefore(s.txs[j], at', lap')
    {
      assert TxShape(s.txs[j], j, n);
      if s.txs[j].lap == c.lap {
        RegionsApartEither(s.txs, j, m);
      }
    }
    OneLogged(s.txs, s.cur.hdr, c.at, c.lap, at', lap', k, m);
  }

  lemma TakenBeforeOpen(s: State, m: nat)
    requires LogInv(s) && s.cleaner.Scan? && s.cleaner.at != s.cur.hdr.tail
    requires StartsAt(s, s.cleaner.at, s.cleaner.lap, m) && s.txs[m].Ended()
    ensures m < OpenFrom(s.txs, 0)
  {
    hide AllSlots, AllKept, FencedKept, ZoneZeroed, ZonePersisted, HeaderOk;
    var k := OpenFrom(s.txs, 0);
    assert k < |s.txs| ==> Placed(s.cur.hdr, s.per.hdr, s.txs[k]);
    forall j | 0 <= j < m ensures StartsBefore(s.txs[j], s.cleaner.at, s.cleaner.lap) {
      assert Precedes(s.txs[j], s.txs[m]) && TxShape(s.txs[j], j, |s.cur.ring.slots|);
    }
  }

  /** What the walk over the first open transaction meets in the newer lap does not change in front of it. */
  lemma WalksStay(s: State, slots: seq<Entry>)
    requires LogInv(s) && s.cleaner.Scan? && |slots| == |s.cur.ring.slots|
    requires s.cur.hdr.tail < s.cleaner.at ==> forall i :: 0 <= i < s.cur.hdr.tail ==> slots[i] == s.cur.ring.slots[i]
    ensures s.cur.hdr.tail <= |slots|
    ensures Walks(s.txs, s.cur.hdr, slots) == Walks(s.txs, s.cur.hdr, s.cur.ring.slots)
  {
    hide AllSlots, AllKept, FencedKept, ZoneZeroed, ZonePersisted, HeaderOk, Ordered;
    ScanBounds(s);
    var h, k := s.cur.hdr, OpenFrom(s.txs, 0);
    if k < |s.txs| {
      assert Placed(h, s.per.hdr, s.txs[k]) && TxShape(s.txs[k], k, |slots|);
      if s.txs[k].lap != h.lap {
        assert !StartsBefore(s.txs[k], s.cleaner.at, s.cleaner.lap);
        StartSame(slots, s.cur.ring.slots, 0, h.tail, s.txs[k].gen);
      }
    }
  }

  lemma {:induction false} StartSame(s1: seq<Entry>, s2: seq<Entry>, i: nat, limit: nat, g: nat)
    requires i <= limit <= |s1| == |s2| && forall j :: i <= j < limit ==> s1[j] == s2[j]
    ensures StartFrom(s1, i, limit, g) == StartFrom(s2, i, limit, g)
    decreases limit - i
  {
    if i < limit {
      StartSame(s1, s2, i + 1, limit, g);
    }
  }

  lemma CountsOf(s: State, count: nat)
    requires s.cleaner.Scan? && s.cur.hdr.tail <= |s.cur.ring.slots| && Counts(s, count)
    ensures Walks(s.txs, s.cur.hdr, s.cur.ring.slots) >= 0
    ensures count == LoggedFrom(s.txs, s.cur.hdr, s.cleaner.at, s.cleaner.lap, OpenFrom(s.txs, 0))
                     + Walks(s.txs, s.cur.hdr, s.cur.ring.slots)
  {
  }

  lemma CleanUnfolds(s: seq<Entry>, hd: nat, tl: nat, g: nat)
    requires hd < |s| && tl < |s|
    ensures hd == tl ==> Clean(s, hd, tl, g) == CleanResult(s, hd) && CleanCount(s, hd, tl, g) == 0
    ensures hd != tl && s[hd].gen == g ==>
      var r := ProcessOne(s, hd, tl); var g' := if r.at == 0 then NextGen(g) else g;
      && Clean(s, hd, tl, g) == (if r.at == hd then r else Clean(r.slots, r.at, tl, g'))
      && CleanCount(s, hd, tl, g)
         == Processed(s, hd, tl) + (if r.at == hd then 0 else CleanCount(r.slots, r.at, tl, g'))
    ensures hd != tl && s[hd].gen == g && s[hd].isStart && FindEnd(s, hd, tl, g).None? ==>
      ProcessOne(s, hd, tl) == CleanResult(s, hd) && Processed(s, hd, tl) == Walked(s, hd, tl, g)
    ensures hd != tl && s[hd].gen != g ==>
      var next := NextSlot(|s|, hd); var g' := if next == 0 then NextGen(g) else g;
      var s' := if g == MAX_GEN_ID then s[hd := s[hd].(gen := 0)] else s;
      Clean(s, hd, tl, g) == Clean(s', next, tl, g') && CleanCount(s, hd, tl, g) == CleanCount(s', next, tl, g')
  {
    hide FindEnd, Walked, Wiped, NextGen;
  }

  /** The loop counts the entries of the transactions that it passes and those it walks over where it stops. */
  lemma {:induction false} CleanCounts(s: State)
    requires LogInv(s) && s.cleaner.Scan? && !Hazard(s)
    ensures s.cleaner.at < |s.cur.ring.slots| && s.cur.hdr.tail < |s.cur.ring.slots|
    ensures Counts(s, CleanCount(s.cur.ring.slots, s.cleaner.at, s.cur.hdr.tail, GenOf(s.cleaner.lap)))
    ensures Walks(s.txs, s.cur.hdr, Clean(s.cur.ring.slots, s.cleaner.at, s.cur.hdr.tail, GenOf(s.cleaner.lap)).slots)
      == Walks(s.txs, s.cur.hdr, s.cur.ring.slots)
    decreases if s.cleaner.at == s.cur.hdr.tail || s.cleaner.at >= |s.cur.ring.slots| ||
      s.cur.hdr.tail >= |s.cur.ring.slots|
              then 0 else RingDistance(|s.cur.ring.slots|, s.cleaner.at, s.cur.hdr.tail)
  {
    hide LogInv, CleansTo, Hazard, AtOpen, FindEnd, Wiped, Counts, Walks, Walked, LoggedFrom, OpenFrom, Clean,
      CleanCount,
      ProcessOne, Processed;
    InvShape(s);
    ScanBounds(s);
    GenFollowsLap(s.cleaner.lap);
    var slots := s.cur.ring.slots;
    var at, tl := s.cleaner.at, s.cur.hdr.tail;
    CleanUnfolds(slots, at, tl, GenOf(s.cleaner.lap));
    if at == tl {
      CountsAtTail(s);
    } else if slots[at].gen == GenOf(s.cleaner.lap) {
      ValidSlotCase(s);
      if FindEnd(slots, at, tl, GenOf(s.cleaner.lap)).None? {
        CountsAtOpen(s);
      } else {
        var s1 := TakeRun(s);
        ProcessMoves(slots, at, tl);
        StillNoHazard(s, s1);
        CleanCounts(s1);
        TakeLogs(s, s1.cleaner.at, s1.cleaner.lap);
        NextCounts(s, s1, Processed(slots, at, tl));
      }
    } else {
      SkipRun(s);
      var s1 := Apply(s, CleanSkip);
      StillNoHazard(s, s1);
      CleanCounts(s1);
      SkipLogs(s);
      NextCounts(s, s1, 0);
    }
  }

  /** From the count behind one slot to the count in front of it. */
  lemma NextCounts(s: State, s1: State, more: nat)
    requires LogInv(s) && s.cleaner.Scan? && s1.cleaner.Scan? && SameTransactions(s, s1)
    requires forall i :: 0 <= i < s.cleaner.at ==> s1.cur.ring.slots[i] == s.cur.ring.slots[i]
    requires LoggedFrom(s.txs, s.cur.hdr, s.cleaner.at, s.cleaner.lap, OpenFrom(s.txs, 0)) ==
      more + LoggedFrom(s.txs, s.cur.hdr, s1.cleaner.at, s1.cleaner.lap, OpenFrom(s.txs, 0))
    ensures s.cur.hdr.tail <= |s.cur.ring.slots| == |s1.cur.ring.slots|
    ensures Walks(s.txs, s.cur.hdr, s1.cur.ring.slots) == Walks(s.txs, s.cur.hdr, s.cur.ring.slots)
    ensures forall count: nat :: Counts(s1, count) ==> Counts(s, more + count)
  {
    hide Walks, LoggedFrom, LogInv;
    ScanBounds(s);
    WalksStay(s, s1.cur.ring.slots);
  }

  // ---- One cleaning ------------------------------------------------------------------------------------------------

  /** What the cleaner reports: the entries of the ended transactions that it passes, and those of the open one at
      which it stops. */
  lemma CleanerCounts(s: State)
    requires Started(s) && !Misled(s)
    ensures s.cur.hdr.head < |s.cur.ring.slots| && s.cur.hdr.tail < |s.cur.ring.slots|
    ensures var h, slots := s.cur.hdr, s.cur.ring.slots;
      && Walks(s.txs, h, slots) >= 0
      && CleanCount(slots, h.head, h.tail, ScanGen(h)) == Passed(s.txs, h) + Walks(s.txs, h, slots)
      && Walks(s.txs, h, Clean(slots, h.head, h.tail, ScanGen(h)).slots) == Walks(s.txs, h, slots)
  {
    hide LogInv, Clean, CleanCount, Walks, LoggedFrom, OpenFrom, Hazard, Logged, ScanGen;
    var s0 := Begins(s);
    CleanCounts(s0);
    CountsOf(s0, CleanCount(s.cur.ring.slots, s.cur.hdr.head, s.cur.hdr.tail, ScanGen(s.cur.hdr)));
    FromHead(s, s0);
  }

  /** Nothing in the log starts before its head. */
  lemma FromHead(s: State, s0: State)
    requires Shape(s) && s.cleaner.Idle? && Enabled(s, CleanBegin) && s0 == Apply(s, CleanBegin)
    ensures LoggedFrom(s0.txs, s0.cur.hdr, s0.cleaner.at, s0.cleaner.lap, OpenFrom(s0.txs, 0)) ==
      Passed(s.txs, s.cur.hdr)
  {
    hide OpenFrom;
    AllLogged(s0.txs, s0.cur.hdr, s0.cleaner.at, s0.cleaner.lap, OpenFrom(s0.txs, 0));
  }

  /** Cleaning again finds nothing to pass and walks over the same open transaction. */
  lemma CountsAgain(s: State, s1: State)
    requires HeadAt(s, s1, FirstOpen(s.txs, s.cur.hdr.tail)) && s.cur.hdr.tail < |s.cur.ring.slots| && Started(s)
    ensures Passed(s.txs, s1.cur.hdr) == 0
    ensures Walks(s.txs, s1.cur.hdr, s1.cur.ring.slots) == Walks(s.txs, s.cur.hdr, s1.cur.ring.slots)
  {
    hide AllSlots, AllKept, FencedKept, ZoneZeroed, ZonePersisted, HeaderOk, CleanerOk, FirstOpen;
    var k, h1 := OpenFrom(s.txs, 0), s1.cur.hdr;
    var m := FirstOpenIs(s.txs, s.cur.hdr.tail);
    assert !(m < k) && !(k < m);
    assert k < |s.txs| ==> Placed(h1, s1.per.hdr, s1.txs[k]) && Placed(s.cur.hdr, s.per.hdr, s.txs[k]);
    forall j | 0 <= j < k ensures !InLog(h1, s.txs[j]) {
      assert k < |s.txs| ==> Precedes(s.txs[j], s.txs[k]);
      assert TxShape(s.txs[j], j, |s.cur.ring.slots|);
    }
    NothingLogged(s.txs, h1, k);
  }

  // ---- Up to three cleanings -------------------------------------------------------------------------------------

  /** However often it is repeated, cleaning adds what the transactions passed are worth once, and the walk over the
      open one every time. */
  lemma {:induction false} CountsOn(s: State, avail: int, req: nat, freed: nat, tries: nat)
    requires Started(s) && !Misled(s)
    ensures s.cur.hdr.head < |s.cur.ring.slots| && s.cur.hdr.tail < |s.cur.ring.slots|
    ensures var p, w := Passed(s.txs, s.cur.hdr), Walks(s.txs, s.cur.hdr, s.cur.ring.slots);
      var c := Retried(s.cur.ring.slots, s.cur.hdr, avail, req, freed, tries);
      w >= 0 && (avail + c.freed >= req <==> avail + freed + (if tries == 0 then 0 else p + tries * w) >= req)
    decreases tries
  {
    hide Started, Misled, Clean, CleanCount, FirstOpen, CallsTo, ScanGen, Passed, Walks;
    CleanerCounts(s);
    var p, w := Passed(s.txs, s.cur.hdr), Walks(s.txs, s.cur.hdr, s.cur.ring.slots);
    if tries > 0 && avail + freed < req {
      var s2 := CleansOnce(s);
      CountsAgain(s, s2);
      CountsOn(s2, avail, req, freed + p + w, tries - 1);
      assert tries * w == w + (tries - 1) * w;
    } else {
      assert tries * w >= 0;
    }
  }

  /** There seems to be room for req entries: as many are free when head is taken to be `seen`, or are with those that
      three cleanings count. */
  predicate SeemsEnough(n: nat, h: Header, seen: nat, req: nat, passed: int, walked: int) {
    var free := Avail(h.(head := seen), n);
    free >= req || free + passed + 3 * walked >= req
  }

  lemma RoomCounts(s: State, seen: nat, req: nat)
    requires Started(s) && s.cur.hdr.head < |s.cur.ring.slots| && s.cur.hdr.tail < |s.cur.ring.slots|
    requires Seeming(|s.cur.ring.slots|, s.cur.hdr.tail, seen) < req ==> !Misled(s)
    ensures var h, n := s.cur.hdr, |s.cur.ring.slots|;
      (Seeming(n, h.tail, seen) + MadeRoom(s.cur.ring.slots, h, seen, req).freed >= req <==>
       SeemsEnough(n, h, seen, req, Passed(s.txs, h), Walks(s.txs, h, s.cur.ring.slots)))
  {
    hide Started, Misled, Passed, Walks, Retried;
    var avail := Seeming(|s.cur.ring.slots|, s.cur.hdr.tail, seen);
    if avail < req {
      CountsOn(s, avail, req, 0, 3);
    }
  }

  // ---- Which requests are granted -----------------------------------------------------------------------------------

  /** Behind a wrap that leaves no transaction to stop at, the cleaner counts nothing: the slots from head on belong
      to the lap before the one that it takes them for. */
  lemma {:induction false} CountsNothing(s: seq<Entry>, hd: nat, g: nat)
    requires hd < |s| && forall i :: hd <= i < |s| ==> s[i].gen != g
    ensures hd == 0 || (CleanCount(s, hd, 0, g) == 0 && Clean(s, hd, 0, g).at == 0)
    decreases |s| - hd
  {
    if 0 < hd {
      CleanUnfolds(s, hd, 0, g);
      if hd + 1 < |s| {
        var s' := if g == MAX_GEN_ID then s[hd := s[hd].(gen := 0)] else s;
        CountsNothing(s', hd + 1, g);
      } else {
        CleanUnfolds(if g == MAX_GEN_ID then s[hd := s[hd].(gen := 0)] else s, 0, 0, NextGen(g));
      }
    }
  }

  lemma {:induction false} RetriesNothing(s: seq<Entry>, h: Header, avail: int, req: nat, tries: nat)
    requires h.head < |s| && h.tail == 0
    requires h.head == 0 || forall i :: h.head <= i < |s| ==> s[i].gen != ScanGen(h)
    ensures Retried(s, h, avail, req, 0, tries).freed == 0
    decreases tries
  {
    hide Clean, CleanCount;
    if tries > 0 && avail < req {
      var c := Clean(s, h.head, 0, ScanGen(h));
      if h.head > 0 {
        CountsNothing(s, h.head, ScanGen(h));
      }
      CleanUnfolds(s, h.head, 0, ScanGen(h));
      RetriesNothing(c.slots, h.(head := c.at), avail, req, tries - 1);
    }
  }

  /** Slots of the older lap do not carry the newer lap's generation, except where that is the first one again. */
  lemma OlderSlots(s: State, i: nat)
    requires LogInv(s) && s.cur.hdr.tail < s.cur.hdr.head <= i < |s.cur.ring.slots| && GenOf(s.cur.hdr.lap) != 1
    ensures s.cur.ring.slots[i].gen != GenOf(s.cur.hdr.lap)
  {
    var h, e := s.cur.hdr, s.cur.ring.slots[i];
    assert SlotOk(h, s.txs, e, s.cur.ring.own[i], i);
    GenFollowsLap(h.lap - 1);
    if e.gen != 0 {
      SameEpoch(s.txs[s.cur.ring.own[i]].lap, h.lap);
    }
  }

  lemma SameEpoch(l1: int, l2: int)
    ensures l1 <= l2 - 1 && Epoch(l2 - 1) <= Epoch(l1) && GenOf(l2) != 1 ==> GenOf(l1) != GenOf(l2)
  {
  }

  /** The header after the wrap, with head where the first stage has left it. */
  function WrappedHeader(s: State, req: nat): Header
    requires s.cur.hdr.tail < |s.cur.ring.slots|
  {
    Header(HeadThen(s, req), 0, NextGen(s.cur.hdr.gen), s.cur.hdr.lap + 1)
  }

  /** A wrap that leaves no transaction in the log. */
  lemma NothingBehindWrap(s: State, h: Header)
    requires LogInv(s) && h.tail == 0 && h.lap == s.cur.hdr.lap + 1
    requires h.head == 0 || s.cur.hdr.tail < h.head
    ensures Passed(s.txs, h) == 0 && Walks(s.txs, h, s.cur.ring.slots) == 0
  {
    hide AllSlots, AllKept, FencedKept, ZoneZeroed, ZonePersisted, HeaderOk, CleanerOk;
    forall j | 0 <= j < |s.txs| ensures !InLog(h, s.txs[j]) {
      assert Placed(s.cur.hdr, s.per.hdr, s.txs[j]) && TxShape(s.txs[j], j, |s.cur.ring.slots|);
    }
    NothingLogged(s.txs, h, OpenFrom(s.txs, 0));
  }

  /** With an empty newer lap it does not matter what the slots show. */
  lemma WalksAtZero(txs: seq<Tx>, h: Header, s1: seq<Entry>, s2: seq<Entry>)
    requires h.tail == 0 && |s1| == |s2|
    ensures Walks(txs, h, s1) == Walks(txs, h, s2)
  {
  }

  /** Whether there seems to be room behind the wrap. */
  lemma RoomBehindWrap(s: State, req: nat)
    requires Started(s) && 1 <= req && s.cur.hdr.head < |s.cur.ring.slots| && s.cur.hdr.tail < |s.cur.ring.slots|
    requires Avail(s.cur.hdr, |s.cur.ring.slots|) < req ==> !Misled(s)
    requires s.cur.hdr.tail + req >= |s.cur.ring.slots|
    requires
      || HeadThen(s, req) <= s.cur.hdr.tail || GenOf(s.cur.hdr.lap) != 1
      || Seeming(|s.cur.ring.slots|, 0, s.cur.hdr.head) >= req
    ensures var h, n, slots, hw := s.cur.hdr, |s.cur.ring.slots|, s.cur.ring.slots, WrappedHeader(s, req);
      var c := MadeRoom(slots, h, h.head, req);
      && c.head == hw.head
      && (Seeming(n, 0, h.head) + MadeRoom(c.slots, hw, h.head, req).freed >= req <==>
          SeemsEnough(n, hw, h.head, req, Passed(s.txs, hw), Walks(s.txs, hw, slots)))
  {
    hide Started, Misled, MadeRoom, CallsTo, FirstOpen, NextGen, Passed, Walks, HeadThen;
    var h, n, hw := s.cur.hdr, |s.cur.ring.slots|, WrappedHeader(s, req);
    var s1 := FirstStage(s, req);
    HeadKeeps(s, s1, hw.head);
    StartedFacts(s1);
    if 0 < hw.head <= h.tail {
      var w := WrapsTo(s1, n - h.tail);
      RoomCounts(w, h.head, req);
      WalksAtZero(s.txs, hw, s1.cur.ring.slots, s.cur.ring.slots);
    } else {
      StartedLog(s);
      NothingBehindWrap(s, hw);
      FreesNothing(s1, h.head, req);
    }
  }

  lemma StartedLog(s: State)
    requires Started(s)
    ensures LogInv(s)
  {
  }

  /** Such a wrap makes the cleaner count nothing. */
  lemma FreesNothing(s: State, seen: nat, req: nat)
    requires Started(s) && s.cur.hdr.head < |s.cur.ring.slots| && s.cur.hdr.tail < |s.cur.ring.slots|
    requires s.cur.hdr.head == 0 || s.cur.hdr.tail < s.cur.hdr.head
    requires s.cur.hdr.head == 0 || GenOf(s.cur.hdr.lap) != 1 || Seeming(|s.cur.ring.slots|, 0, seen) >= req
    ensures var h := s.cur.hdr; var hw := Header(h.head, 0, NextGen(h.gen), h.lap + 1);
      MadeRoom(s.cur.ring.slots, hw, seen, req).freed == 0
  {
    hide LogInv, Retried, GenOf, NextGen, PrevGen;
    StartedFacts(s);
    var h, slots := s.cur.hdr, s.cur.ring.slots;
    var hw := Header(h.head, 0, NextGen(h.gen), h.lap + 1);
    GenFollowsLap(h.lap);
    GenFollowsLap(h.lap + 1);
    assert ScanGen(hw) == if 0 < h.head then GenOf(h.lap) else GenOf(h.lap + 1);
    var avail := Seeming(|slots|, 0, seen);
    if avail < req {
      forall i | h.head <= i < |slots| && h.head > 0 ensures slots[i].gen != ScanGen(hw) {
        OlderSlots(s, i);
      }
      RetriesNothing(slots, hw, avail, req, 3);
    }
  }

  /** Which requests are granted and which are refused, told from the transactions and the header: one that does not
      reach the ring's end, exactly if there seems to be room for it; one that does, exactly if there still seems to
      be after the wrap, unless it is as large as the ring. The header that the wrap leaves may keep a head that is no
      longer in the log; then nothing more is counted, except that in the first lap after the generations have begun
      again this is not said. */
  lemma WhichRequests(s: State, req: nat)
    requires Started(s) && 1 <= req && s.cur.hdr.head < |s.cur.ring.slots| && s.cur.hdr.tail < |s.cur.ring.slots|
    requires Avail(s.cur.hdr, |s.cur.ring.slots|) < req ==> !Misled(s)
    ensures var h, n, slots, hw := s.cur.hdr, |s.cur.ring.slots|, s.cur.ring.slots, WrappedHeader(s, req);
      var r := Reservation(slots, h, req);
      if !SeemsEnough(n, h, h.head, req, Passed(s.txs, h), Walks(s.txs, h, slots)) then
        r.Refused? && r.hdr == h.(head := hw.head)
      else if h.tail + req < n then r.Reserved? && r.start == h.tail &&
        r.hdr == h.(head := hw.head, tail := h.tail + req)
      else hw.head <= h.tail || GenOf(h.lap) != 1 || Avail(hw.(head := h.head), n) >= req ==>
        if !SeemsEnough(n, hw, h.head, req, Passed(s.txs, hw), Walks(s.txs, hw, slots)) then r.Refused? &&
          r.hdr.tail == 0
        else if req < n then r.Reserved? && r.start == 0 && r.hdr.tail == req else r.WrapsAgain?
  {
    hide Started, Misled, MadeRoom, Passed, Walks, HeadThen, NextGen, GenOf, Reservation, FirstOpen, CallsTo;
    var h, n, slots, hw := s.cur.hdr, |s.cur.ring.slots|, s.cur.ring.slots, WrappedHeader(s, req);
    RoomCounts(s, h.head, req);
    var s1 := FirstStage(s, req);
    HeadKeeps(s, s1, hw.head);
    var c := MadeRoom(slots, h, h.head, req);
    Unfolded(slots, h, req);
    if SeemsEnough(n, h, h.head, req, Passed(s.txs, h), Walks(s.txs, h, slots)) && h.tail + req >= n {
      if hw.head <= h.tail || GenOf(h.lap) != 1 || Avail(hw.(head := h.head), n) >= req {
        RoomBehindWrap(s, req);
      }
    }
  }

  /** The call, with both turns written out. */
  lemma Unfolded(s: seq<Entry>, h: Header, req: nat)
    requires h.head < |s| && h.tail < |s|
    ensures var c := MadeRoom(s, h, h.head, req); var hw := Header(c.head, 0, NextGen(h.gen), h.lap + 1);
      var c2 := MadeRoom(c.slots, hw, h.head, req); var r := Reservation(s, h, req);
      if Seeming(|s|, h.tail, h.head) + c.freed < req then r == Refused(c.slots, h.(head := c.head))
      else if h.tail + req < |s| then r == Reserved(h.tail, c.slots, h.(head := c.head, tail := h.tail + req))
      else if Seeming(|s|, 0, h.head) + c2.freed < req then r == Refused(c2.slots, hw.(head := c2.head))
      else if req < |s| then r == Reserved(0, c2.slots, hw.(head := c2.head, tail := req))
      else r.WrapsAgain?
  {
    hide MadeRoom, NextGen, Proceed;
    var c := MadeRoom(s, h, h.head, req);
    var hw := Header(c.head, 0, NextGen(h.gen), h.lap + 1);
    ProceedUnfolds(s, h, h.head, req, 2);
    ProceedUnfolds(c.slots, hw, h.head, req, 1);
    var c2 := MadeRoom(c.slots, hw, h.head, req);
    ProceedUnfolds(c2.slots, Header(c2.head, 0, NextGen(hw.gen), hw.lap + 1), h.head, req, 0);
  }
}
