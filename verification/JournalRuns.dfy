/** Runs of the journal, put together from whole transactions, cleanings and wraps. */
module JournalRuns {
  import opened JournalRing
  import opened JournalCleaner
  import opened JournalCleanerRun
  import opened JournalCode
  import opened JournalInvariant
  import opened JournalMachine
  import opened JournalMemory
  import opened JournalRequest
  import opened JournalSafety

  /** Some run leads from s to s'. */
  ghost predicate Reaches(s: State, s': State) {
    exists steps :: IsRun(s, steps) && After(s, steps) == s'
  }

  lemma ReachesItself(s: State)
    ensures Reaches(s, s)
  {
    assert IsRun(s, []) && After(s, []) == s;
  }

  lemma ReachesOn(s: State, s1: State, s2: State)
    requires Reaches(s, s1) && Reaches(s1, s2)
    ensures Reaches(s, s2)
  {
    var a :| IsRun(s, a) && After(s, a) == s1;
    var b :| IsRun(s1, b) && After(s1, b) == s2;
    RunsJoin(s, a, b);
  }

  /** A formatted journal is where runs begin. */
  lemma Formatted(n: nat, mem: Memory) returns (s: State)
    requires 2 <= n
    ensures s == Format(n, mem) && Reaches(s, s) && InOrder(s, n, s.cur.hdr, [], mem, mem)
  {
    s := Format(n, mem);
    ReachesItself(s);
    FormatLog(n, mem);
    FormatMem(n, mem);
  }

  /** The journal is in order, nothing is being cleaned, and the header is durable; the rest of the state. */
  ghost predicate InOrder(s: State, n: nat, h: Header, txs: seq<Tx>, mem: Memory, durable: Memory) {
    && Inv(s) && s.cleaner.Idle? && |s.cur.ring.slots| == n
    && s.cur.hdr == h == s.per.hdr && s.txs == txs && s.cur.mem == mem && s.per.mem == durable
  }

  lemma OrderFacts(s: State, n: nat, h: Header, txs: seq<Tx>, mem: Memory, durable: Memory)
    requires InOrder(s, n, h, txs, mem, durable)
    ensures Inv(s) && Shape(s) && h.head < n && h.tail < n && h.gen == GenOf(h.lap)
    ensures |s.cur.ring.own| == |s.per.ring.slots| == |s.per.ring.own| == n
    ensures mem.Keys == durable.Keys == s.committed.Keys
    ensures forall k :: 0 <= k < |txs| ==> TxShape(txs[k], k, n)
  {
  }

  lemma OrderParts(s: State, n: nat, h: Header, txs: seq<Tx>, mem: Memory, durable: Memory)
    requires InOrder(s, n, h, txs, mem, durable)
    ensures s.cur.hdr == h == s.per.hdr && s.txs == txs && s.cur.mem == mem && s.per.mem == durable
    ensures |s.cur.ring.slots| == n
    ensures s.cleaner.Idle? && Inv(s)
  {
  }

  lemma Does(s0: State, s: State, step: Step) returns (s1: State)
    requires Reaches(s0, s) && Inv(s) && Shape(s) && Enabled(s, step)
    ensures s1 == Apply(s, step) && Inv(s1) && Shape(s1) && Reaches(s0, s1)
  {
    hide LogInv, MemInv, Apply, Enabled;
    LogStep(s, step);
    MemStep(s, step);
    s1 := Apply(s, step);
    InvShape(s1);
    assert [step][1..] == [];
    assert IsRun(s1, []) && After(s1, []) == s1;
    assert IsRun(s, [step]) && After(s, [step]) == s1;
    ReachesOn(s0, s, s1);
  }

  // ---- Transactions ------------------------------------------------------------------------------------------------

  /** A transaction that has only reserved its entries. */
  function FreshTx(h: Header, req: nat): Tx {
    Tx(h.tail, req, h.lap, h.gen, [], 0, Running, map[])
  }

  lemma RunsReserve(s0: State, s: State, n: nat, h: Header, txs: seq<Tx>, mem: Memory, durable: Memory, req: nat)
    returns (s': State)
    requires Reaches(s0, s) && InOrder(s, n, h, txs, mem, durable)
    requires h.head < n && h.tail < n && 1 <= req <= Avail(h, n) && h.tail + req < n
    ensures Reaches(s0, s') && InOrder(s', n, h.(tail := h.tail + req), txs + [FreshTx(h, req)], mem, durable)
    ensures s'.cur.ring == s.cur.ring
  {
    hide Inv, Reaches, TxShape;
    OrderFacts(s, n, h, txs, mem, durable);
    var s1 := Does(s0, s, Reserve(req));
    s' := Does(s0, s1, EvictHeader);
  }

  function LoneEnd(k: nat, gen: nat): Entry {
    Entry(0, k, gen, true, true, false, [])
  }

  /** A transaction that logs nothing and commits: its end entry is all it writes. */
  function EmptyTx(k: nat, h: Header, req: nat): Tx {
    Tx(h.tail, req, h.lap, h.gen, [LoneEnd(k, h.gen)], 1, Done, map[])
  }

  lemma NoBytes(m1: Memory, m2: Memory)
    requires m1.Keys == m2.Keys
    ensures CopyBytes(m1, m2, {}) == m1
  {
  }

  lemma RunsEmpty(s0: State, s: State, n: nat, h: Header, txs: seq<Tx>, mem: Memory, durable: Memory, req: nat)
    returns (s': State)
    requires Reaches(s0, s) && InOrder(s, n, h, txs, mem, durable)
    requires h.head < n && h.tail < n && 1 <= req <= Avail(h, n) && h.tail + req < n
    ensures Reaches(s0, s') && InOrder(s', n, h.(tail := h.tail + req), txs + [EmptyTx(|txs|, h, req)], mem, durable)
    ensures |s.cur.ring.own| == n && s'.cur.ring == PutEntry(s.cur.ring, h.tail, LoneEnd(|txs|, h.gen), |txs|)
  {
    hide Reaches, InOrder;
    OrderFacts(s, n, h, txs, mem, durable);
    NoBytes(durable, mem);
    var k, t := |txs|, FreshTx(h, req);
    var s1 := RunsReserve(s0, s, n, h, txs, mem, durable, req);
    s' := RunsCommit(s0, s1, n, h.(tail := h.tail + req), txs + [t], mem, durable, k);
    assert t.before.Keys == {} && [] + [LoneEnd(k, h.gen)] == [LoneEnd(k, h.gen)];
    assert (txs + [t])[k := CommittedTx(t, k)] == txs + [EmptyTx(k, h, req)];
  }

  function DataEntry(k: nat, gen: nat, first: bool, a: nat, v: Byte): Entry {
    Entry(a, k, gen, first, false, false, [v])
  }

  /** A transaction that has saved byte a, durably, and is still running. */
  function OpenTx(k: nat, h: Header, req: nat, a: nat, v: Byte): Tx {
    Tx(h.tail, req, h.lap, h.gen, [DataEntry(k, h.gen, true, a, v)], 1, Running, map[a := v])
  }

  ghost predicate Unlogged(txs: seq<Tx>, a: nat) {
    forall j :: 0 <= j < |txs| && !txs[j].status.Done? ==> a !in txs[j].before
  }

  lemma OneByte(mem: Memory, a: nat)
    requires a in mem
    ensures Bytes(mem, a, 1) == [mem[a]] && Remember(map[], mem, a, 1) == map[a := mem[a]]
  {
    assert forall b :: a <= b < a + 1 ==> b in mem;
  }

  lemma RunsOpen(s0: State, s: State, n: nat, h: Header, txs: seq<Tx>, mem: Memory, durable: Memory, req: nat, a: nat)
    returns (s': State)
    requires Reaches(s0, s) && InOrder(s, n, h, txs, mem, durable) && a in mem && Unlogged(txs, a)
    requires h.head < n && h.tail < n && 2 <= req <= Avail(h, n) && h.tail + req < n
    ensures Reaches(s0, s')
    ensures InOrder(s', n, h.(tail := h.tail + req), txs + [OpenTx(|txs|, h, req, a, mem[a])], mem, durable)
    ensures |s.cur.ring.own| == n
    ensures s'.cur.ring == PutEntry(s.cur.ring, h.tail, DataEntry(|txs|, h.gen, true, a, mem[a]), |txs|)
  {
    hide Inv, Reaches, TxShape;
    OrderFacts(s, n, h, txs, mem, durable);
    OneByte(mem, a);
    var k := |txs|;
    var s1 := RunsReserve(s0, s, n, h, txs, mem, durable, req);
    OrderFacts(s1, n, h.(tail := h.tail + req), txs + [FreshTx(h, req)], mem, durable);
    assert FreeFor(s1, k, a);
    var s2 := Does(s0, s1, Publish(k, a, 1));
    var s3 := Does(s0, s2, Fence(k, true));
    assert s3.txs == txs + [OpenTx(k, h, req, a, mem[a])] by {
      assert [] + [DataEntry(k, h.gen, true, a, mem[a])] == [DataEntry(k, h.gen, true, a, mem[a])];
    }
    s' := s3;
  }

  /** Transaction k changes byte a, and the cache writes the change back. */
  lemma RunsWrite(s0: State, s: State, n: nat, h: Header, txs: seq<Tx>, mem: Memory, durable: Memory, k: nat, a: nat,
        v: Byte)
    returns (s': State)
    requires Reaches(s0, s) && InOrder(s, n, h, txs, mem, durable) && k < |txs| && a in mem
    requires txs[k].status.Running? && txs[k].fenced <= |txs[k].log| && txs[k].Logged(a, txs[k].fenced)
    ensures Reaches(s0, s') && InOrder(s', n, h, txs, mem[a := v], durable[a := v]) && s'.cur.ring == s.cur.ring
  {
    hide Inv, Reaches, TxShape;
    OrderFacts(s, n, h, txs, mem, durable);
    var s1 := Does(s0, s, Write(k, a, v));
    s' := Does(s0, s1, EvictByte(a));
  }

  /** Transaction t has saved byte a, too, or once more. */
  function MoreTx(t: Tx, k: nat, a: nat, v: Byte): Tx {
    t.(log := t.log + [DataEntry(k, t.gen, |t.log| == 0, a, v)], fenced := |t.log| + 1,
      before := map[a := v] + t.before)
  }

  lemma RunsMore(s0: State, s: State, n: nat, h: Header, txs: seq<Tx>, mem: Memory, durable: Memory, k: nat, a: nat)
    returns (s': State)
    requires Reaches(s0, s) && InOrder(s, n, h, txs, mem, durable) && k < |txs| && a in mem
    requires txs[k].status.Running? && |txs[k].log| + 1 < txs[k].size && Unlogged(txs[k := txs[k].(before := map[])], a)
    ensures Reaches(s0, s') && InOrder(s', n, h, txs[k := MoreTx(txs[k], k, a, mem[a])], mem, durable)
    ensures txs[k].start + |txs[k].log| < n == |s.cur.ring.own| == |s.cur.ring.slots|
    ensures s'.cur.ring ==
      PutEntry(s.cur.ring, txs[k].start + |txs[k].log|, DataEntry(k, txs[k].gen, |txs[k].log| == 0, a, mem[a]), k)
  {
    hide Inv, Reaches;
    OrderFacts(s, n, h, txs, mem, durable);
    assert TxShape(txs[k], k, n);
    OneByte(mem, a);
    assert forall j :: 0 <= j < |txs| && j != k ==> txs[k := txs[k].(before := map[])][j] == txs[j];
    assert FreeFor(s, k, a);
    var s1 := Does(s0, s, Publish(k, a, 1));
    assert Remember(txs[k].before, mem, a, 1) == map[a := mem[a]] + txs[k].before;
    var s2 := Does(s0, s1, Fence(k, true));
    assert s2.txs == txs[k := MoreTx(txs[k], k, a, mem[a])];
    s' := s2;
  }

  /** Transaction t has committed, durably. */
  function CommittedTx(t: Tx, k: nat): Tx {
    t.(log := t.log + [Entry(0, k, t.gen, |t.log| == 0, true, false, [])], fenced := |t.log| + 1, status := Done)
  }

  lemma RunsCommit(s0: State, s: State, n: nat, h: Header, txs: seq<Tx>, mem: Memory, durable: Memory, k: nat)
    returns (s': State)
    requires Reaches(s0, s) && InOrder(s, n, h, txs, mem, durable) && k < |txs|
    requires txs[k].status.Running? && txs[k].fenced == |txs[k].log| < txs[k].size
    ensures mem.Keys == durable.Keys
    ensures Reaches(s0, s')
    ensures InOrder(s', n, h, txs[k := CommittedTx(txs[k], k)], mem, CopyBytes(durable, mem, txs[k].before.Keys))
    ensures txs[k].start + |txs[k].log| < n == |s.cur.ring.own| == |s.cur.ring.slots|
    ensures s'.cur.ring ==
      PutEntry(s.cur.ring, txs[k].start + |txs[k].log|, Entry(0, k, txs[k].gen, |txs[k].log| == 0, true, false, []), k)
  {
    hide Inv, Reaches;
    OrderFacts(s, n, h, txs, mem, durable);
    assert TxShape(txs[k], k, n);
    var s1 := Does(s0, s, FlushData(k));
    var s2 := Does(s0, s1, Close(k));
    var s3 := Does(s0, s2, CloseFence(k, true));
    assert s3.txs == txs[k := CommittedTx(txs[k], k)];
    s' := s3;
  }

  /** The cache writes slot i back. */
  lemma RunsEvict(s0: State, s: State, n: nat, h: Header, txs: seq<Tx>, mem: Memory, durable: Memory, i: nat)
    returns (s': State)
    requires Reaches(s0, s) && InOrder(s, n, h, txs, mem, durable) && i < n
    ensures Reaches(s0, s') && InOrder(s', n, h, txs, mem, durable) && s'.cur.ring == s.cur.ring
    ensures |s'.per.ring.slots| == n == |s.cur.ring.slots| && s'.per.ring.slots[i] == s.cur.ring.slots[i]
  {
    hide Inv, Reaches, TxShape;
    OrderFacts(s, n, h, txs, mem, durable);
    s' := Does(s0, s, EvictSlot(i));
  }

  // ---- The cleaner and the wrap
  // --------------------------------------------------------------------------------------

  lemma InOrderStarts(s: State, n: nat, h: Header, txs: seq<Tx>, mem: Memory, durable: Memory)
    requires InOrder(s, n, h, txs, mem, durable)
    requires forall k :: 0 <= k < |txs| && !txs[k].status.Done? ==> 1 <= |txs[k].log|
    ensures Started(s) && (AllEnded(txs) || h.head <= h.tail ==> !Misled(s))
  {
    hide MemInv, AllSlots, AllKept, FencedKept, ZoneZeroed, ZonePersisted, AllPlaced, Ordered, HeaderOk, TxShape;
  }

  /** The cleaner moves head to the first open transaction, or to the tail. */
  lemma RunsCleaner(s0: State, s: State, n: nat, h: Header, txs: seq<Tx>, mem: Memory, durable: Memory)
    returns (s': State)
    requires Reaches(s0, s) && InOrder(s, n, h, txs, mem, durable)
    requires forall k :: 0 <= k < |txs| && !txs[k].status.Done? ==> 1 <= |txs[k].log|
    requires AllEnded(txs) || h.head <= h.tail
    ensures Reaches(s0, s') && InOrder(s', n, h.(head := FirstOpen(txs, h.tail)), txs, mem, durable)
    ensures h.head < n && h.tail < n && s'.cur.ring.slots == Clean(s.cur.ring.slots, h.head, h.tail, ScanGen(h)).slots
  {
    hide LogInv, MemInv, Reaches, Clean, ScanGen, Hazard, CleansTo, AllEnded;
    InOrderStarts(s, n, h, txs, mem, durable);
    s' := CleanerSafety(s);
    var steps := CleaningSteps(s, s');
    RunKeepsInv(s, steps);
    assert Reaches(s, s') by {
      ReachesBy(s, steps, s');
    }
    ReachesOn(s0, s, s');
    InvShape(s');
    CleanedLength(s, h);
  }

  lemma CleanedLength(s: State, h: Header)
    requires h.head < |s.cur.ring.slots| && h.tail < |s.cur.ring.slots|
    ensures |Clean(s.cur.ring.slots, h.head, h.tail, ScanGen(h)).slots| == |s.cur.ring.slots|
  {
  }

  lemma CleaningSteps(s: State, s': State) returns (steps: seq<Step>)
    requires CleansTo(s, s')
    ensures IsRun(s, steps) && After(s, steps) == s'
  {
    steps :| IsRun(s, steps) && After(s, steps) == s' && OnlyCleans(steps);
  }

  lemma ReachesBy(s: State, steps: seq<Step>, s': State)
    requires IsRun(s, steps) && After(s, steps) == s'
    ensures Reaches(s, s')
  {
  }

  function WrappedHeader(h: Header): Header {
    Header(h.head, 0, NextGen(h.gen), h.lap + 1)
  }

  lemma RunsWrap(s0: State, s: State, n: nat, h: Header, txs: seq<Tx>, mem: Memory, durable: Memory) returns (s': State)
    requires Reaches(s0, s) && InOrder(s, n, h, txs, mem, durable) && 0 < h.head <= h.tail < n
    ensures Reaches(s0, s') && InOrder(s', n, WrappedHeader(h), txs, mem, durable) && s'.cur.ring == s.cur.ring
  {
    hide Inv, Reaches, TxShape;
    OrderFacts(s, n, h, txs, mem, durable);
    var s1 := Does(s0, s, Wrap(n - h.tail));
    s' := Does(s0, s1, EvictHeader);
  }

  /** Outside the lap of MAX_GEN_ID the cleaner changes nothing in front of the tail. */
  lemma {:induction false} CleanLeaves(s: seq<Entry>, hd: nat, tl: nat, g: nat)
    requires hd <= tl < |s| && g != MAX_GEN_ID
    ensures Clean(s, hd, tl, g).slots == s
    decreases tl - hd
  {
    hide Wiped;
    if hd < tl {
      if s[hd].gen == g {
        var r := ProcessOne(s, hd, tl);
        if s[hd].isStart && FindEnd(s, hd, tl, g).Some? {
          FindEndWithin(s, hd, tl, g);
        }
        if r.at != hd {
          CleanLeaves(s, r.at, tl, g);
        }
      } else {
        CleanLeaves(s, hd + 1, tl, g);
      }
    }
  }

  /** Nor on its way to slot 0, if the log has wrapped. */
  lemma {:induction false} CleanLeavesOlder(s: seq<Entry>, hd: nat, g: nat)
    requires hd < |s| && g != MAX_GEN_ID
    ensures Clean(s, hd, 0, g).slots == s
    decreases if hd == 0 then 0 else |s| - hd
  {
    hide Wiped;
    if hd != 0 {
      var r := ProcessOne(s, hd, 0);
      ProcessMoves(s, hd, 0);
      if s[hd].gen == g {
        if r.at != hd && r.at != 0 {
          CleanLeavesOlder(s, r.at, g);
        }
      } else if hd + 1 < |s| {
        CleanLeavesOlder(s, hd + 1, g);
      }
    }
  }

  // ---- Laps go by --------------------------------------------------------------------------------------------------

  /** An empty log at the beginning of lap l. */
  function LapBegin(l: nat): Header {
    Header(0, 0, GenOf(l), l)
  }

  ghost predicate AllDone(txs: seq<Tx>) {
    forall k :: 0 <= k < |txs| ==> txs[k].status.Done?
  }

  /** Each transaction wrote its end entry to slot 0, and no more. */
  ghost predicate Spent(txs: seq<Tx>) {
    forall k :: 0 <= k < |txs| ==> txs[k].status.Done? && txs[k].start == 0 && |txs[k].log| == 1
  }

  lemma DoneIsEnded(txs: seq<Tx>)
    requires AllDone(txs)
    ensures AllEnded(txs) && forall k :: 0 <= k < |txs| && !txs[k].status.Done? ==> 1 <= |txs[k].log|
    ensures forall tail: nat :: FirstOpen(txs, tail) == tail
  {
    forall tail: nat ensures FirstOpen(txs, tail) == tail {
      var k := FirstOpenIs(txs, tail);
    }
  }

  /** Behind slot 0 the two rings are alike. */
  ghost predicate SameBehind(slots: seq<Entry>, slots': seq<Entry>) {
    |slots'| == |slots| && forall i :: 0 < i < |slots| ==> slots'[i] == slots[i]
  }

  /** One empty transaction, two cleanings and a wrap: the next lap. */
  lemma LapGoesBy(s0: State, s: State, n: nat, l: nat, txs: seq<Tx>, mem: Memory) returns (s': State, txs': seq<Tx>)
    requires 8 <= n && Reaches(s0, s) && InOrder(s, n, LapBegin(l), txs, mem, mem) && AllDone(txs)
    ensures Reaches(s0, s') && InOrder(s', n, LapBegin(l + 1), txs', mem, mem) && AllDone(txs')
    ensures Spent(txs) ==> Spent(txs')
    ensures GenOf(l) != MAX_GEN_ID ==> SameBehind(s.cur.ring.slots, s'.cur.ring.slots)
  {
    hide Reaches, InOrder, AllEnded, GenOf, Clean, FirstOpen;
    var h := LapBegin(l);
    GenFollowsLap(l);
    var s1 := RunsEmpty(s0, s, n, h, txs, mem, mem, 1);
    txs' := txs + [EmptyTx(|txs|, h, 1)];
    DoneIsEnded(txs');
    var s2 := RunsCleaner(s0, s1, n, h.(tail := 1), txs', mem, mem);
    var s3 := RunsWrap(s0, s2, n, h.(tail := 1, head := 1), txs', mem, mem);
    s' := RunsCleaner(s0, s3, n, Header(1, 0, GenOf(l + 1), l + 1), txs', mem, mem);
    if GenOf(l) != MAX_GEN_ID {
      GenFollowsLap(l + 1);
      OrderParts(s, n, h, txs, mem, mem);
      OrderParts(s1, n, h.(tail := 1), txs', mem, mem);
      OrderParts(s3, n, Header(1, 0, GenOf(l + 1), l + 1), txs', mem, mem);
      CleanLeaves(s1.cur.ring.slots, 0, 1, GenOf(l));
      CleanLeavesOlder(s3.cur.ring.slots, 1, GenOf(l));
    }
  }

  /** Laps in front of that of MAX_GEN_ID leave the slots behind slot 0 as they are. */
  lemma {:induction false} LapsGoBy(s0: State, s: State, n: nat, l: nat, last: nat, txs: seq<Tx>, mem: Memory)
    returns (s': State, txs': seq<Tx>)
    requires 8 <= n && Reaches(s0, s) && InOrder(s, n, LapBegin(l), txs, mem, mem) && AllDone(txs) && l <= last <= 65534
    ensures Reaches(s0, s') && InOrder(s', n, LapBegin(last), txs', mem, mem) && AllDone(txs')
    ensures Spent(txs) ==> Spent(txs')
    ensures SameBehind(s.cur.ring.slots, s'.cur.ring.slots)
    decreases last - l
  {
    hide Reaches, InOrder, AllDone, Spent;
    if l == last {
      s', txs' := s, txs;
    } else {
      assert GenOf(l) == l + 1;
      var s1, txs1 := LapGoesBy(s0, s, n, l, txs, mem);
      s', txs' := LapsGoBy(s0, s1, n, l + 1, last, txs1, mem);
    }
  }

  /** Every lap up to that of MAX_GEN_ID is reached with an empty log. */
  lemma ReachesLap(n: nat, mem: Memory, l: nat) returns (s: State, txs: seq<Tx>)
    requires 8 <= n && l <= 65534
    ensures Reaches(Format(n, mem), s) && InOrder(s, n, LapBegin(l), txs, mem, mem) && Spent(txs)
  {
    var s0 := Formatted(n, mem);
    s, txs := LapsGoBy(s0, s0, n, 0, l, [], mem);
  }
}
