/** From one mount to the next: the machine crashes, the journal is recovered, and goes on from there. */
module JournalMount {
  import opened JournalRing
  import opened JournalCrash
  import opened JournalInvariant
  import opened JournalMachine
  import opened JournalMemory
  import opened JournalSafety
  import opened JournalTheorems
  import opened RecoveryRestart
  import opened UndoRecovery

  // ---- What a mount does
  // ---------------------------------------------------------------------------------------------

  /** A transaction of the last mount: nothing of it is still to come. One that has no end entry is given one here,
      which no memory holds. */
  function Over(t: Tx, k: nat): Tx {
    if t.Ended() then t.(fenced := |t.log|, status := Done)
    else t.(log := t.log + [Entry(0, k, t.gen, |t.log| == 0, false, true, [])], fenced := |t.log| + 1, status := Done)
  }

  function AllOver(txs: seq<Tx>): (r: seq<Tx>)
    ensures |r| == |txs|
  {
    seq(|txs|, k requires 0 <= k < |txs| => Over(txs[k], k))
  }

  /** How many of the transactions header h accounts for. */
  function Accounted(h: Header, txs: seq<Tx>): (c: nat)
    ensures c <= |txs| && (forall k :: 0 <= k < c ==> Covered(h, txs[k])) && (c < |txs| ==> !Covered(h, txs[c]))
  {
    if txs == [] || !Covered(h, txs[0]) then 0
    else
      assert forall k :: 0 < k < |txs| ==> txs[k] == txs[1..][k - 1];
      1 + Accounted(h, txs[1..])
  }

  /** The machine crashes and the file system is mounted again: a log that is not empty is recovered and emptied, and
      the next generation begins; an empty one is left alone, with whatever the cache has written behind its tail. */
  function Remount(s: State): State
    requires Shape(s)
  {
    var h := s.per.hdr;
    if h.head == h.tail then State(s.per, s.per, s.per.mem, AllOver(s.txs[..Accounted(h, s.txs)]), Idle)
    else
      var v := View(CrashRecovered(s), s.per.ring.(slots := RecoveredSlots(s.per.ring.slots, h)), Forwarded(h));
      State(v, v, v.mem, AllOver(s.txs), Idle)
  }

  /** When the new mount can go on as from a formatted journal. A log recovered in the last generation but one has no
      generation left in front of its tail, because the lap of MAX_GEN_ID, in which slots are wiped, begins behind
      them. Behind an empty log no slot carries the generation in which it will be used next. */
  predicate MountSafe(slots: seq<Entry>, h: Header) {
    if h.head == h.tail then forall i :: 0 <= i < |slots| ==> slots[i].gen != if i < h.tail then NextGen(h.gen)
      else h.gen
    else h.gen == MAX_GEN_ID - 1 ==> forall i :: 0 <= i < h.tail && i < |slots| ==> slots[i].gen == 0
  }

  lemma OverShape(t: Tx, k: nat, n: nat)
    requires TxShape(t, k, n)
    ensures TxShape(Over(t, k), k, n) && Over(t, k).start == t.start && Over(t, k).size == t.size
    ensures Over(t, k).lap == t.lap
    ensures t.log <= Over(t, k).log && Over(t, k).status.Done?
  {
    var t' := Over(t, k);
    forall j | 0 <= j < |t'.log| ensures EntryShape(t', k, j) {
      assert j < |t.log| ==> EntryShape(t, k, j);
    }
  }

  lemma MountShape(s: State)
    requires Shape(s)
    ensures Shape(Remount(s))
  {
    hide TxShape, RecoveredSlots, CrashRecovered;
    var s' := Remount(s);
    forall k | 0 <= k < |s'.txs| ensures TxShape(s'.txs[k], k, |s'.cur.ring.slots|) {
      OverShape(s.txs[k], k, |s.cur.ring.slots|);
    }
    KeysStay(s);
    RecoveredLength(s.per.ring.slots, s.per.hdr);
  }

  lemma KeysStay(s: State)
    requires Shape(s)
    ensures CrashRecovered(s).Keys == s.per.mem.Keys
  {
  }

  lemma RecoveredLength(slots: seq<Entry>, h: Header)
    requires h.head <= |slots| && h.tail <= |slots|
    ensures |RecoveredSlots(slots, h)| == |slots|
  {
  }

  // ---- The transactions after a mount
  // ---------------------------------------------------------------------------------

  /** The durable tail does not lie inside a reservation. */
  ghost predicate AtBoundary(s: State) {
    forall k :: 0 <= k < |s.txs| && s.txs[k].lap == s.per.hdr.lap ==>
      s.txs[k].End() <= s.per.hdr.tail || s.per.hdr.tail <= s.txs[k].start
  }

  lemma StepKeepsBoundary(s: State, step: Step)
    requires LogInv(s) && AtBoundary(s) && Enabled(s, step)
    ensures AtBoundary(Apply(s, step))
  {
    hide AllSlots, AllKept, FencedKept, ZoneZeroed, ZonePersisted, CleanerOk, Ordered, TxShape, FreeFor, PersistSlots,
      CopyBytes, PersistZone, UndoRange, Bytes, Remember;
    forall k | 0 <= k < |s.txs| ensures Covered(s.cur.hdr, s.txs[k]) {
      assert Placed(s.cur.hdr, s.per.hdr, s.txs[k]);
    }
  }

  /** A transaction that the durable header accounts for was reserved before every one that it does not. */
  lemma AccountedExactly(s: State, k: nat)
    requires LogInv(s) && AtBoundary(s) && k < |s.txs|
    ensures Covered(s.per.hdr, s.txs[k]) <==> k < Accounted(s.per.hdr, s.txs)
  {
    var c := Accounted(s.per.hdr, s.txs);
    if k > c {
      assert Precedes(s.txs[c], s.txs[k]);
    }
  }

  lemma MountTxs(s: State)
    requires LogInv(s) && AtBoundary(s)
    ensures Shape(Remount(s)) && AtBoundary(Remount(s))
    ensures var s' := Remount(s);
      && Ordered(s'.txs) && AllPlaced(s'.cur.hdr, s'.per.hdr, s'.txs)
      && AllKept(s'.cur.hdr, Idle, s'.txs, s'.cur.ring) && FencedKept(s'.cur.hdr, Idle, s'.txs, s'.per.ring)
  {
    hide AllSlots, AllKept, FencedKept, ZoneZeroed, ZonePersisted, CleanerOk, RecoveredSlots, CrashRecovered, TxShape,
      Accounted;
    MountShape(s);
    var s' := Remount(s);
    var h := s'.cur.hdr;
    assert forall i :: !Live(h, i);
    forall k | 0 <= k < |s'.txs|
      ensures Covered(h, s'.txs[k]) && s'.txs[k].lap == s.txs[k].lap && s'.txs[k].status.Done?
    {
      OverShape(s.txs[k], k, |s.cur.ring.slots|);
      MountCovers(s, k);
    }
    forall k1, k2 | 0 <= k1 < k2 < |s'.txs| ensures Precedes(s'.txs[k1], s'.txs[k2]) {
      OverShape(s.txs[k1], k1, |s.cur.ring.slots|);
      OverShape(s.txs[k2], k2, |s.cur.ring.slots|);
      assert Precedes(s.txs[k1], s.txs[k2]);
    }
    NothingKept(h, s'.txs, s'.cur.ring);
  }

  lemma MountCovers(s: State, k: nat)
    requires LogInv(s) && AtBoundary(s) && Shape(Remount(s)) && k < |Remount(s).txs|
    ensures k < |s.txs| && Covered(Remount(s).cur.hdr, s.txs[k])
  {
    hide AllSlots, AllKept, FencedKept, ZoneZeroed, ZonePersisted, CleanerOk, RecoveredSlots, CrashRecovered, Ordered;
    assert Placed(s.cur.hdr, s.per.hdr, s.txs[k]);
  }

  lemma NothingKept(h: Header, txs: seq<Tx>, r: Ring)
    requires forall i :: !Live(h, i)
    ensures AllKept(h, Idle, txs, r) && FencedKept(h, Idle, txs, r)
  {
  }

  // ---- The slots after a mount
  // ----------------------------------------------------------------------------------------

  /** The owner that the slot had is still its owner. */
  lemma OwnerStays(s: State, own: int, i: nat)
    requires LogInv(s) && 0 <= own < |Remount(s).txs|
    ensures own < |s.txs| && var t, t' := s.txs[own], Remount(s).txs[own];
      t'.lap == t.lap && t'.start == t.start && (i < t.start + |t.log| ==> i < t'.start + |t'.log|)
  {
    hide AllSlots, AllKept, FencedKept, ZoneZeroed, ZonePersisted, CleanerOk, RecoveredSlots, CrashRecovered, Ordered,
      Accounted;
    OverShape(s.txs[own], own, |s.cur.ring.slots|);
  }

  /** A recovered log. */
  lemma RecoveredSlotOk(s: State, i: nat)
    requires LogInv(s) && AtBoundary(s) && s.per.hdr.head != s.per.hdr.tail && i < |s.per.ring.slots|
    requires MountSafe(s.per.ring.slots, s.per.hdr)
    ensures i < |Remount(s).cur.ring.slots| && i < |Remount(s).cur.ring.own|
    ensures var s' := Remount(s); SlotOk(s'.cur.hdr, s'.txs, s'.cur.ring.slots[i], s'.cur.ring.own[i], i)
  {
    hide AllKept, FencedKept, ZoneZeroed, ZonePersisted, CleanerOk, CrashRecovered, Ordered, AllPlaced;
    var p, e, own := s.per.hdr, s.per.ring.slots[i], s.per.ring.own[i];
    assert SlotOk(s.cur.hdr, s.txs, e, own, i);
    GenFollowsLap(p.lap);
    GenFollowsLap(p.lap - 1);
    GenFollowsLap(p.lap + 1);
    if Remount(s).cur.ring.slots[i].gen != 0 {
      OwnerStays(s, own, i);
      MountedEpoch(s, i);
    }
  }

  /** A slot that recovery has not wiped was written in the epoch in which it will be used next. */
  lemma MountedEpoch(s: State, i: nat)
    requires LogInv(s) && s.per.hdr.head != s.per.hdr.tail && i < |s.per.ring.slots| && i < |s.per.ring.own|
    requires MountSafe(s.per.ring.slots, s.per.hdr) && RecoveredSlots(s.per.ring.slots, s.per.hdr)[i].gen != 0
    ensures 0 <= s.per.ring.own[i] < |s.txs|
    ensures var p := s.per.hdr; var lap := s.txs[s.per.ring.own[i]].lap;
      lap <= LapAt(Forwarded(p), i) && Epoch(LapAt(Forwarded(p), i) + 1) <= Epoch(lap)
  {
    hide AllKept, FencedKept, ZoneZeroed, ZonePersisted, CleanerOk, Ordered, AllPlaced, TxShape;
    var p := s.per.hdr;
    assert SlotOk(s.cur.hdr, s.txs, s.per.ring.slots[i], s.per.ring.own[i], i);
    GenFollowsLap(p.lap);
    GenFollowsLap(p.lap - 1);
    GenFollowsLap(p.lap + 1);
  }

  /** An empty log. */
  lemma EmptySlotOk(s: State, i: nat)
    requires LogInv(s) && AtBoundary(s) && s.per.hdr.head == s.per.hdr.tail && i < |s.per.ring.slots|
    requires MountSafe(s.per.ring.slots, s.per.hdr)
    ensures i < |Remount(s).cur.ring.slots| && i < |Remount(s).cur.ring.own|
    ensures var s' := Remount(s); SlotOk(s'.cur.hdr, s'.txs, s'.cur.ring.slots[i], s'.cur.ring.own[i], i)
  {
    hide AllKept, FencedKept, ZoneZeroed, ZonePersisted, CleanerOk, CrashRecovered, Ordered, AllPlaced;
    var p, e, own := s.per.hdr, s.per.ring.slots[i], s.per.ring.own[i];
    assert SlotOk(s.cur.hdr, s.txs, e, own, i);
    if e.gen != 0 {
      EmptyLap(s, i);
      AccountedExactly(s, own);
      OwnerStays(s, own, i);
    }
  }

  lemma EmptyLap(s: State, i: nat)
    requires LogInv(s) && AtBoundary(s) && s.per.hdr.head == s.per.hdr.tail && i < |s.per.ring.slots|
    requires i < |s.per.ring.own|
    requires MountSafe(s.per.ring.slots, s.per.hdr) && s.per.ring.slots[i].gen != 0
    ensures 0 <= s.per.ring.own[i] < |s.txs|
    ensures var p, t := s.per.hdr, s.txs[s.per.ring.own[i]];
      t.lap <= LapAt(p, i) && Epoch(NextLap(p, i)) <= Epoch(t.lap) && Covered(p, t)
  {
    hide AllKept, FencedKept, ZoneZeroed, ZonePersisted, CleanerOk, Ordered;
    var p := s.per.hdr;
    var own := s.per.ring.own[i];
    assert SlotOk(s.cur.hdr, s.txs, s.per.ring.slots[i], own, i);
    assert Placed(s.cur.hdr, s.per.hdr, s.txs[own]) && TxShape(s.txs[own], own, |s.cur.ring.slots|);
    GenFollowsLap(p.lap);
    GenIdentifiesLap(s.txs[own].lap, NextLap(p, i));
  }

  /** A slot whose next use would take it for valid has no owner. */
  lemma UnsafeSlot(h: Header, txs: seq<Tx>, e: Entry, own: int, i: int)
    requires e.gen != 0 && (e.gen == GenOf(NextLap(h, i)) || Epoch(NextLap(h, i)) > Epoch(LapAt(h, i)))
    requires !Live(h, i)
    ensures !SlotOk(h, txs, e, own, i)
  {
    if 0 <= own < |txs| {
      EpochGrows(txs[own].lap, LapAt(h, i));
      EpochGrows(txs[own].lap, NextLap(h, i));
      if Epoch(txs[own].lap) == Epoch(NextLap(h, i)) {
        GenIdentifiesLap(txs[own].lap, NextLap(h, i));
      }
    }
  }

  lemma EpochGrows(l1: int, l2: int)
    ensures l1 <= l2 ==> Epoch(l1) <= Epoch(l2)
  {
  }

  lemma UnsafeMount(s: State)
    requires LogInv(s) && !MountSafe(s.per.ring.slots, s.per.hdr)
    ensures !AllSlots(Remount(s).cur.hdr, Remount(s).txs, Remount(s).cur.ring)
  {
    hide AllSlots, AllKept, FencedKept, ZoneZeroed, ZonePersisted, CleanerOk, CrashRecovered, Ordered, AllPlaced,
      SlotOk, Accounted, TxShape;
    var p, s' := s.per.hdr, Remount(s);
    GenFollowsLap(p.lap);
    GenFollowsLap(p.lap + 1);
    var i: nat;
    if p.head == p.tail {
      i :| i < |s.per.ring.slots| && s.per.ring.slots[i].gen == if i < p.tail then NextGen(p.gen) else p.gen;
    } else {
      i :| i < p.tail && i < |s.per.ring.slots| && s.per.ring.slots[i].gen != 0;
    }
    UnsafeSlot(s'.cur.hdr, s'.txs, s'.cur.ring.slots[i], s'.cur.ring.own[i], i);
    SlotOf(s'.cur.hdr, s'.txs, s'.cur.ring, i);
  }

  lemma SlotOf(h: Header, txs: seq<Tx>, r: Ring, i: nat)
    requires i < |r.slots| && i < |r.own| && !SlotOk(h, txs, r.slots[i], r.own[i], i)
    ensures !AllSlots(h, txs, r)
  {
  }

  // ---- The invariant over a mount
  // ------------------------------------------------------------------------------------

  /** After the mount everything that holds of every run from format holds again if and only if the mount is safe. */
  lemma MountKeepsInv(s: State)
    requires Inv(s) && AtBoundary(s)
    ensures Shape(s) && (Inv(Remount(s)) <==> MountSafe(s.per.ring.slots, s.per.hdr)) && AtBoundary(Remount(s))
  {
    hide AllSlots, AllKept, FencedKept, AllPlaced, Ordered, TxShape, MemInv, SlotOk, RecoveredSlots, CrashRecovered,
      Accounted, MountSafe;
    MountTxs(s);
    var s' := Remount(s);
    if MountSafe(s.per.ring.slots, s.per.hdr) {
      forall i | 0 <= i < |s'.cur.ring.slots|
        ensures SlotOk(s'.cur.hdr, s'.txs, s'.cur.ring.slots[i], s'.cur.ring.own[i], i)
      {
        if s.per.hdr.head == s.per.hdr.tail {
          EmptySlotOk(s, i);
        } else {
          RecoveredSlotOk(s, i);
        }
      }
      AllSlotsFrom(s'.cur.hdr, s'.txs, s'.cur.ring);
      MountMemory(s);
      MountHeader(s);
    } else {
      UnsafeMount(s);
    }
  }

  lemma AllSlotsFrom(h: Header, txs: seq<Tx>, r: Ring)
    requires |r.slots| == |r.own| && forall i :: 0 <= i < |r.slots| ==> SlotOk(h, txs, r.slots[i], r.own[i], i)
    ensures AllSlots(h, txs, r)
  {
  }

  lemma MountMemory(s: State)
    requires Shape(s)
    ensures MemInv(Remount(s))
  {
    hide RecoveredSlots, CrashRecovered, Accounted, TxShape;
  }

  lemma MountHeader(s: State)
    requires LogInv(s)
    ensures var s' := Remount(s);
      && HeaderOk(s'.cur.hdr, s'.per.hdr) && CleanerOk(s'.cur.hdr, s'.cleaner, s'.txs)
      && ZoneZeroed(s'.cur.hdr, s'.cleaner, s'.cur.ring) && ZonePersisted(s'.cur.hdr, s'.cleaner, s'.per.ring)
  {
    hide AllSlots, AllKept, FencedKept, AllPlaced, Ordered, TxShape, RecoveredSlots, CrashRecovered, Accounted;
    GenFollowsLap(s.per.hdr.lap);
  }

  // ---- Any number of mounts
  // -------------------------------------------------------------------------------------------

  /** A step of the running journal, or a crash and the next mount. */
  datatype Event = Do(step: Step) | Mount

  ghost predicate IsHistory(s: State, events: seq<Event>)
    decreases |events|
  {
    events == [] || (Shape(s) && match events[0]
      case Do(step) => Enabled(s, step) && IsHistory(Apply(s, step), events[1..])
      case Mount => IsHistory(Remount(s), events[1..]))
  }

  ghost function Then(s: State, events: seq<Event>): State
    requires IsHistory(s, events)
    decreases |events|
  {
    if events == [] then s
    else match events[0]
      case Do(step) => Then(Apply(s, step), events[1..])
      case Mount => Then(Remount(s), events[1..])
  }

  /** Every mount of the history is safe. */
  ghost predicate SafeMounts(s: State, events: seq<Event>)
    requires IsHistory(s, events)
    decreases |events|
  {
    events == [] || match events[0]
      case Do(step) => SafeMounts(Apply(s, step), events[1..])
      case Mount => MountSafe(s.per.ring.slots, s.per.hdr) && SafeMounts(Remount(s), events[1..])
  }

  lemma {:induction false} HistoryKeepsInv(s: State, events: seq<Event>)
    requires Inv(s) && AtBoundary(s) && IsHistory(s, events) && SafeMounts(s, events)
    ensures Inv(Then(s, events)) && Then(s, events).cur.mem.Keys == s.cur.mem.Keys
    decreases |events|
  {
    hide LogInv, MemInv, Apply, Enabled, Remount, MountSafe, AtBoundary;
    if events != [] {
      match events[0] {
        case Do(step) =>
          LogStep(s, step);
          MemStep(s, step);
          BoundaryLater(s, step);
          StepKeys(s, step);
          HistoryKeepsInv(Apply(s, step), events[1..]);
        case Mount =>
          MountKeepsInv(s);
          MountKeys(s);
          HistoryKeepsInv(Remount(s), events[1..]);
      }
    }
  }

  lemma BoundaryLater(s: State, step: Step)
    requires Inv(s) && AtBoundary(s) && Shape(s) && Enabled(s, step)
    ensures AtBoundary(Apply(s, step))
  {
    hide LogInv, MemInv, Apply, Enabled, AtBoundary;
    StepKeepsBoundary(s, step);
  }

  lemma StepKeys(s: State, step: Step)
    requires Shape(s) && Enabled(s, step)
    ensures Apply(s, step).cur.mem.Keys == s.cur.mem.Keys
  {
    hide FreeFor, PersistSlots, CopyBytes, PersistZone, Bytes, Remember, TxShape;
  }

  lemma MountKeys(s: State)
    requires Shape(s)
    ensures Remount(s).cur.mem.Keys == s.cur.mem.Keys
  {
    hide RecoveredSlots, CrashRecovered, Accounted, TxShape;
    KeysStay(s);
  }

  /** The invariant holds after every history whose mounts are safe. */
  lemma HistoryInv(n: nat, mem: Memory, events: seq<Event>)
    requires 2 <= n && IsHistory(Format(n, mem), events) && SafeMounts(Format(n, mem), events)
    ensures Inv(Then(Format(n, mem), events)) && Then(Format(n, mem), events).cur.mem.Keys == mem.Keys
  {
    hide LogInv, MemInv, IsHistory, SafeMounts, Then;
    var s0 := Format(n, mem);
    FormatLog(n, mem);
    FormatMem(n, mem);
    assert AtBoundary(s0);
    HistoryKeepsInv(s0, events);
  }

  /** Generations are sound over any number of mounts that are safe. */
  lemma GenerationOverMounts(n: nat, mem: Memory, events: seq<Event>, i: nat)
    requires 2 <= n && IsHistory(Format(n, mem), events) && SafeMounts(Format(n, mem), events)
    ensures var s := Then(Format(n, mem), events);
      i < |s.cur.ring.slots| && Live(s.cur.hdr, i) && !InZone(s.cur.hdr, s.cleaner, i) ==>
        (s.cur.ring.slots[i].gen == GenOf(LapAt(s.cur.hdr, i)) <==> WrittenThisLap(s, i))
  {
    hide LogInv, MemInv, IsHistory, SafeMounts, Then, InZone, WrittenThisLap;
    HistoryInv(n, mem, events);
    var s := Then(Format(n, mem), events);
    if i < |s.cur.ring.slots| && Live(s.cur.hdr, i) && !InZone(s.cur.hdr, s.cleaner, i) {
      LiveSlotGeneration(s, i);
    }
  }

  /** Crash atomicity over any number of mounts that are safe: after any history from format, recovery rolls every
      unfinished transaction of the present mount back and keeps every other byte as it was. */
  lemma AtomicityOverMounts(n: nat, mem: Memory, events: seq<Event>, a: nat)
    requires 2 <= n && IsHistory(Format(n, mem), events) && SafeMounts(Format(n, mem), events) && a in mem
    ensures var s := Then(Format(n, mem), events);
      && Shape(s) && a in CrashRecovered(s) && a in s.cur.mem
      && (forall k :: Unfinished(s, k) && a in s.txs[k].before ==> CrashRecovered(s)[a] == s.txs[k].before[a])
      && ((forall k :: Unfinished(s, k) ==> a !in s.txs[k].before) ==> CrashRecovered(s)[a] == s.cur.mem[a])
  {
    hide LogInv, MemInv, CrashRecovered, FinishedInImage, IsHistory, SafeMounts, Then;
    HistoryInv(n, mem, events);
    var s := Then(Format(n, mem), events);
    InvShape(s);
    assert a in s.cur.mem.Keys;
    KeysStay(s);
    assert a in s.per.mem.Keys;
    forall k | Unfinished(s, k) && a in s.txs[k].before ensures CrashRecovered(s)[a] == s.txs[k].before[a] {
      CrashRestores(s, k, a);
    }
    if forall k :: Unfinished(s, k) ==> a !in s.txs[k].before {
      CrashKeeps(s, a);
    }
  }

  /** The same histories against the specification machine, in which a mount begins with the memory that recovery has
      left: recovery yields the committed memory, up to commits whose entry was not fenced yet. */
  lemma CommittedOverMounts(n: nat, mem: Memory, events: seq<Event>, a: nat)
    requires 2 <= n && IsHistory(Format(n, mem), events) && SafeMounts(Format(n, mem), events) && a in mem
    ensures var s := Then(Format(n, mem), events);
      && Shape(s) && a in CrashRecovered(s) && a in s.committed
      && (CrashRecovered(s)[a] == s.committed[a]
          || exists k :: Unfinished(s, k) && s.txs[k].status == Closing(false) && a in s.txs[k].before
                         && CrashRecovered(s)[a] == s.txs[k].before[a])
  {
    hide LogInv, MemInv, CrashRecovered, FinishedInImage, IsHistory, SafeMounts, Then;
    HistoryInv(n, mem, events);
    var s := Then(Format(n, mem), events);
    InvShape(s);
    assert a in s.cur.mem.Keys && s.cur.mem.Keys == s.committed.Keys;
    CrashIsAtomic(s, a);
  }
}
