/** Where the journal's code does not meet its promises: runs that every ring has, of any size that mounting accepts
    and of some that are smaller. */
module JournalLimits {
  import opened JournalRing
  import opened JournalCleaner
  import opened JournalCleanerRun
  import opened JournalCode
  import JournalInvariant
  import opened JournalMachine
  import opened JournalRequest
  import opened JournalRuns
  import opened JournalSafety
  import opened RecoveryGroups
  import opened UndoRecovery

  const M0: Memory := map[0 := 0, 1 := 0]
  const M1: Memory := map[0 := 0, 1 := 7]

  const START0: Entry := DataEntry(0, 1, true, 0, 0)
  const COMMIT0: Entry := Entry(0, 0, 1, false, true, false, [])
  const START1: Entry := DataEntry(1, 1, true, 1, 0)
  const START2: Entry := DataEntry(2, 2, true, 0, 0)

  const H0: Header := Header(0, 0, 1, 0)

  /** Transaction 0 has logged byte 0 and committed. */
  function Done0(size: nat): Tx {
    CommittedTx(OpenTx(0, H0, size, 0, 0), 0)
  }

  /** Transaction 1, behind it, has logged byte 1 and is open. */
  function Open1(at: nat): Tx {
    OpenTx(1, Header(0, at, 1, 0), 2, 1, 0)
  }

  /** Transaction 2, in the next lap, has logged byte 0 and is open. */
  function Open2(head: nat): Tx {
    OpenTx(2, Header(head, 0, 2, 1), 2, 0, 0)
  }

  /** The ring with transaction 0's two entries. */
  ghost predicate OneDone(slots: seq<Entry>, n: nat) {
    && 8 <= n == |slots| && slots[0] == START0 && slots[1] == COMMIT0
    && forall i :: 2 <= i < n ==> slots[i] == BLANK
  }

  /** With transaction 1's entry, near the ring's end, and `first` in slot 0. */
  ghost predicate OneOpen(slots: seq<Entry>, n: nat, first: Entry) {
    && 8 <= n == |slots| && slots[0] == first && slots[1] == COMMIT0 && slots[n - 3] == START1
    && forall i :: 2 <= i < n && i != n - 3 ==> slots[i] == BLANK
  }

  lemma AfterFirst(n: nat, size: nat) returns (s: State)
    requires 8 <= n && 2 <= size < n
    ensures Reaches(Format(n, M0), s) && InOrder(s, n, Header(0, size, 1, 0), [Done0(size)], M0, M0)
    ensures OneDone(s.cur.ring.slots, n)
  {
    hide InOrder, Reaches;
    var s0 := Formatted(n, M0);
    var s1 := RunsOpen(s0, s0, n, H0, [], M0, M0, size, 0);
    assert [] + [OpenTx(0, H0, size, 0, 0)] == [OpenTx(0, H0, size, 0, 0)];
    s := RunsCommit(s0, s1, n, Header(0, size, 1, 0), [OpenTx(0, H0, size, 0, 0)], M0, M0, 0);
    assert [OpenTx(0, H0, size, 0, 0)][0 := Done0(size)] == [Done0(size)];
    CopySame(M0, [OpenTx(0, H0, size, 0, 0)][0].before.Keys);
  }

  lemma CopySame(mem: Memory, keys: set<nat>)
    ensures CopyBytes(mem, mem, keys) == mem
  {
  }

  /** Transaction 1 has changed its byte, the cache has written that back, and the cleaner has freed transaction 0. */
  lemma BeforeWrap(n: nat) returns (s: State)
    requires 8 <= n
    ensures Reaches(Format(n, M0), s) && InOrder(s, n, Header(n - 3, n - 1, 1, 0), [Done0(n - 3), Open1(n - 3)], M1, M1)
    ensures OneOpen(s.cur.ring.slots, n, START0)
  {
    hide InOrder, Reaches, Clean;
    var s0 := Format(n, M0);
    var s1 := AfterFirst(n, n - 3);
    var h := Header(0, n - 3, 1, 0);
    var s2 := RunsOpen(s0, s1, n, h, [Done0(n - 3)], M0, M0, 2, 1);
    var txs := [Done0(n - 3), Open1(n - 3)];
    assert [Done0(n - 3)] + [Open1(n - 3)] == txs;
    h := Header(0, n - 1, 1, 0);
    assert txs[1].log[0].Covers(1);
    var s3 := RunsWrite(s0, s2, n, h, txs, M0, M0, 1, 1, 7);
    assert M0[1 := 7] == M1;
    s := RunsCleaner(s0, s3, n, h, txs, M1, M1);
    assert FirstOpen(txs, n - 1) == n - 3 by {
      assert txs[1..] == [Open1(n - 3)];
    }
    assert ScanGen(h) == 1;
    CleanLeaves(s3.cur.ring.slots, 0, n - 1, 1);
  }

  /** Transaction 2 has wrapped to slot 0; slot 1 still shows transaction 0's commit. */
  lemma AfterWrap(n: nat) returns (s: State)
    requires 8 <= n
    ensures Reaches(Format(n, M0), s)
    ensures InOrder(s, n, Header(n - 3, 2, 2, 1), [Done0(n - 3), Open1(n - 3), Open2(n - 3)], M1, M1)
    ensures OneOpen(s.cur.ring.slots, n, START2)
  {
    hide InOrder, Reaches;
    var s0 := Format(n, M0);
    var s1 := BeforeWrap(n);
    var txs := [Done0(n - 3), Open1(n - 3)];
    var s2 := RunsWrap(s0, s1, n, Header(n - 3, n - 1, 1, 0), txs, M1, M1);
    var h := Header(n - 3, 0, 2, 1);
    s := RunsOpen(s0, s2, n, h, txs, M1, M1, 2, 0);
    assert txs + [Open2(n - 3)] == [Done0(n - 3), Open1(n - 3), Open2(n - 3)];
  }

  // ---- A stale end misleads the cleaner
  // ------------------------------------------------------------------------------

  /** From transaction 1's start the walk crosses the ring's end and finds transaction 0's commit. */
  lemma WalksAcross(slots: seq<Entry>, n: nat)
    requires OneOpen(slots, n, START2)
    ensures FindEnd(slots, n - 3, 2, 1) == Some(1) && Walked(slots, n - 3, 2, 1) == 5
  {
    assert FindEnd(slots, 1, 2, 1) == Some(1) && Walked(slots, 1, 2, 1) == 1;
    assert FindEnd(slots, 0, 2, 1) == FindEnd(slots, 1, 2, 1) && Walked(slots, 0, 2, 1) == 2;
    assert FindEnd(slots, n - 1, 2, 1) == FindEnd(slots, 0, 2, 1) && Walked(slots, n - 1, 2, 1) == 3;
    assert FindEnd(slots, n - 2, 2, 1) == FindEnd(slots, n - 1, 2, 1) && Walked(slots, n - 2, 2, 1) == 4;
  }

  /** A reachable state in which the cleaner takes the open transaction 1 for committed, because the reused slot 1
      still shows a commit entry of the old lap. Head would become slot 2, which is the tail: recovery would find an
      empty journal and leave transaction 1's change in place. */
  lemma StaleEndMisleadsCleaner(n: nat) returns (s: State)
    requires 8 <= n
    ensures Reaches(Format(n, M0), s) && Shape(s) && |s.cur.ring.slots| == n && |s.txs| == 3
    ensures s.cleaner == Scan(n - 3, 0) && s.txs[1].start == n - 3 && !s.txs[1].Ended()
    ensures s.cur.hdr.tail == 2 && FindEnd(s.cur.ring.slots, n - 3, 2, GenOf(0)) == Some(1)
    ensures var moved := s.per.hdr.(head := NextSlot(n, 1));
      && moved.head == moved.tail && 1 in s.per.mem && 1 in s.txs[1].before
      && Recover(s.per.mem, s.per.ring.slots, moved)[1] == 7 != s.txs[1].before[1]
  {
    hide Reaches, FindEnd, InOrder, Inv, TxShape;
    var s0 := Format(n, M0);
    var s1 := AfterWrap(n);
    var h, txs := Header(n - 3, 2, 2, 1), [Done0(n - 3), Open1(n - 3), Open2(n - 3)];
    OrderFacts(s1, n, h, txs, M1, M1);
    OrderParts(s1, n, h, txs, M1, M1);
    s := Does(s0, s1, CleanBegin);
    WalksAcross(s.cur.ring.slots, n);
  }

  // ---- Reservations that overlap the log
  // -------------------------------------------------------------------------------

  /** In the same state a request for all but five entries has the cleaner make room: it gives transaction 1's slots
      away, and recovery leaves transaction 1's change in place. */
  lemma MisledRequest(n: nat) returns (s: State)
    requires 8 <= n
    ensures Reaches(Format(n, M0), s) && |s.txs| == 3 && s.txs[1].start == n - 3 && !s.txs[1].Ended()
    ensures |s.cur.ring.slots| == |s.per.ring.slots| == n && s.cur.hdr == Header(n - 3, 2, 2, 1)
    ensures Reservation(s.cur.ring.slots, s.cur.hdr, n - 5) == Reserved(2, s.cur.ring.slots, Header(2, n - 3, 2, 1))
    ensures 1 in s.per.mem && 1 in s.txs[1].before
    ensures Recover(s.per.mem, s.per.ring.slots, Header(2, n - 3, 2, 1))[1] == 7 != s.txs[1].before[1]
  {
    hide Reaches, InOrder, OneOpen;
    s := AfterWrap(n);
    var h, txs := Header(n - 3, 2, 2, 1), [Done0(n - 3), Open1(n - 3), Open2(n - 3)];
    OrderFacts(s, n, h, txs, M1, M1);
    OrderParts(s, n, h, txs, M1, M1);
    MisledReservation(s.cur.ring.slots, n);
    forall i: nat | 2 <= i < n - 3 ensures s.per.ring.slots[i].gen != 2 {
      EmptyBetween(s, n, h, txs, M1, M1, i);
    }
    var r := Header(2, n - 3, 2, 1);
    NothingValidBetween(s.per.ring.slots, n, r);
    NothingValid(M1, s.per.ring.slots, r);
  }

  /** A slot of the log that no transaction has written in its lap does not carry the lap's generation. */
  lemma EmptyBetween(s: State, n: nat, h: Header, txs: seq<Tx>, mem: Memory, durable: Memory, i: nat)
    requires InOrder(s, n, h, txs, mem, durable) && i < |s.per.ring.slots| == |s.per.ring.own|
    requires forall k :: 0 <= k < |txs| ==> !(txs[k].start <= i < txs[k].start + |txs[k].log|)
    ensures s.per.ring.slots[i].gen == 0
  {
    assert JournalInvariant.SlotOk(s.cur.hdr, s.txs, s.per.ring.slots[i], s.per.ring.own[i], i);
  }

  lemma NothingValidBetween(slots: seq<Entry>, n: nat, h: Header)
    requires 8 <= n == |slots| && h == Header(2, n - 3, 2, 1) && forall i: nat :: 2 <= i < n - 3 ==> slots[i].gen != 2
    ensures forall second: bool, i: int :: !Lap(slots, h, second).Valid(i)
  {
  }

  lemma MisledCleaning(slots: seq<Entry>, n: nat, h: Header)
    requires OneOpen(slots, n, START2) && h == Header(n - 3, 2, 2, 1)
    ensures Retried(slots, h, n - 6, n - 5, 0, 3) == Cleaning(slots, 2, 5)
  {
    hide FindEnd, Walked;
    WalksAcross(slots, n);
    assert ScanGen(h) == 1;
    assert ProcessOne(slots, n - 3, 2) == CleanResult(slots, 2) && Processed(slots, n - 3, 2) == 5;
    assert Clean(slots, 2, 2, 1) == CleanResult(slots, 2) && CleanCount(slots, 2, 2, 1) == 0;
    assert Clean(slots, n - 3, 2, 1) == CleanResult(slots, 2) && CleanCount(slots, n - 3, 2, 1) == 5;
    assert Retried(slots, h, n - 6, n - 5, 0, 3) == Retried(slots, h.(head := 2), n - 6, n - 5, 5, 2) ==
      Cleaning(slots, 2, 5);
  }

  lemma MisledReservation(slots: seq<Entry>, n: nat)
    requires OneOpen(slots, n, START2)
    ensures Reservation(slots, Header(n - 3, 2, 2, 1), n - 5) == Reserved(2, slots, Header(2, n - 3, 2, 1))
  {
    hide Retried, OneOpen;
    RingLength(slots, n, START2);
    var h := Header(n - 3, 2, 2, 1);
    MisledCleaning(slots, n, h);
    ProceedUnfolds(slots, h, n - 3, n - 5, 2);
  }

  lemma RingLength(slots: seq<Entry>, n: nat, first: Entry)
    requires OneOpen(slots, n, first)
    ensures |slots| == n && 8 <= n
  {
  }

  /** A request that wraps has the cleaner stop at the open transaction 1 and count its slots as freed; the tail is
      moved up to head. In persistent memory the journal then looks empty, and recovery leaves transaction 1's change
      in place. */
  lemma CountedAsFreed(n: nat) returns (s: State)
    requires 8 <= n
    ensures Reaches(Format(n, M0), s) && |s.txs| == 2 && s.txs[1].start == n - 3 && !s.txs[1].Ended()
    ensures |s.cur.ring.slots| == |s.per.ring.slots| == n && s.cur.hdr == Header(n - 3, n - 1, 1, 0)
    ensures var r := Header(n - 3, n - 3, 2, 1);
      && Reservation(s.cur.ring.slots, s.cur.hdr, n - 3) == Reserved(0, s.cur.ring.slots, r)
      && 1 in s.per.mem && 1 in s.txs[1].before
      && Recover(s.per.mem, s.per.ring.slots, r)[1] == 7 != s.txs[1].before[1]
  {
    hide Reaches, InOrder, OneOpen;
    s := BeforeWrap(n);
    OrderFacts(s, n, Header(n - 3, n - 1, 1, 0), [Done0(n - 3), Open1(n - 3)], M1, M1);
    OrderParts(s, n, Header(n - 3, n - 1, 1, 0), [Done0(n - 3), Open1(n - 3)], M1, M1);
    CountedReservation(s.cur.ring.slots, n);
  }

  lemma CountedCleaning(slots: seq<Entry>, n: nat, h: Header)
    requires OneOpen(slots, n, START0) && h == Header(n - 3, 0, 2, 1)
    ensures Retried(slots, h, n - 4, n - 3, 0, 3) == Cleaning(slots, n - 3, 3)
  {
    hide FindEnd, Walked;
    WalksToEnd(slots, n);
    assert ScanGen(h) == 1;
    assert ProcessOne(slots, n - 3, 0) == CleanResult(slots, n - 3) && Processed(slots, n - 3, 0) == 3;
    assert Clean(slots, n - 3, 0, 1) == CleanResult(slots, n - 3) && CleanCount(slots, n - 3, 0, 1) == 3;
    assert Retried(slots, h, n - 4, n - 3, 0, 3) == Retried(slots, h, n - 4, n - 3, 3, 2) == Cleaning(slots, n - 3, 3);
  }

  lemma CountedReservation(slots: seq<Entry>, n: nat)
    requires OneOpen(slots, n, START0)
    ensures Reservation(slots, Header(n - 3, n - 1, 1, 0), n - 3) == Reserved(0, slots, Header(n - 3, n - 3, 2, 1))
  {
    hide Retried, OneOpen;
    RingLength(slots, n, START0);
    var h, hw := Header(n - 3, n - 1, 1, 0), Header(n - 3, 0, 2, 1);
    CountedCleaning(slots, n, hw);
    ProceedUnfolds(slots, h, n - 3, n - 3, 2);
    ProceedUnfolds(slots, hw, n - 3, n - 3, 1);
  }

  lemma WalksToEnd(slots: seq<Entry>, n: nat)
    requires OneOpen(slots, n, START0)
    ensures FindEnd(slots, n - 3, 0, 1) == None && Walked(slots, n - 3, 0, 1) == 3
  {
    assert FindEnd(slots, n - 1, 0, 1) == None && Walked(slots, n - 1, 0, 1) == 1;
    assert FindEnd(slots, n - 2, 0, 1) == FindEnd(slots, n - 1, 0, 1) && Walked(slots, n - 2, 0, 1) == 2;
  }

  /** Nothing is open, but head was read before the cleaner moved it: after the wrap the ring seems to be empty, and
      the transaction that gets the slots from 0 on begins outside the log. */
  lemma HeadOutOfDate(n: nat) returns (s: State)
    requires 8 <= n
    ensures Reaches(Format(n, M0), s) && AllEnded(s.txs)
    ensures |s.cur.ring.slots| == n && s.cur.hdr == Header(0, 2, 1, 0)
    ensures Reservation(s.cur.ring.slots, s.cur.hdr, n - 2) == Reserved(0, s.cur.ring.slots, Header(2, n - 2, 2, 1))
    ensures !Live(Header(2, n - 2, 2, 1), 0)
  {
    hide Reaches, InOrder;
    s := AfterFirst(n, 2);
    OrderParts(s, n, Header(0, 2, 1, 0), [Done0(2)], M0, M0);
    OutOfDateReservation(s.cur.ring.slots, n);
  }

  lemma OutOfDateReservation(slots: seq<Entry>, n: nat)
    requires OneDone(slots, n)
    ensures Reservation(slots, Header(0, 2, 1, 0), n - 2) == Reserved(0, slots, Header(2, n - 2, 2, 1))
  {
    var h, hw := Header(0, 2, 1, 0), Header(2, 0, 2, 1);
    ProceedUnfolds(slots, h, 0, n - 2, 2);
    ProceedUnfolds(slots, hw, 0, n - 2, 1);
    assert FindEnd(slots, 1, 2, 1) == Some(1) && FindEnd(slots, 0, 2, 1) == FindEnd(slots, 1, 2, 1);
    assert Walked(slots, 1, 2, 1) == 1 && Walked(slots, 0, 2, 1) == 2;
    assert ProcessOne(slots, 0, 2) == CleanResult(slots, 2) && Clean(slots, 2, 2, 1) == CleanResult(slots, 2);
    assert Clean(slots, 0, 2, 1) == CleanResult(slots, 2) && CleanCount(slots, 0, 2, 1) == 2;
    assert Retried(slots, h, n - 3, n - 2, 0, 3) == Cleaning(slots, 2, 2);
  }
}
