/** The journal's operations as the code runs them, in place on the ring, against the
    specification functions that the crash proofs are about. */
module JournalCode {
  import opened JournalRing
  import opened JournalCleaner
  import opened JournalMachine
  import opened JournalTheorems
  import opened UndoRecovery

  // ---- Log entries of one call -----------------------------------------------------------------------

  datatype Kind = Data | Commit | Abort

  /** size bytes from addr in entries of at most 48 bytes. */
  function Chunks(mem: Memory, addr: nat, size: nat, tid: nat, gen: nat, first: bool): seq<Entry>
    requires forall a :: addr <= a < addr + size ==> a in mem
    decreases size
  {
    if size == 0 then []
    else
      var c := if size < MAX_DATA_PER_LENTRY then size else MAX_DATA_PER_LENTRY;
      [Entry(addr, tid, gen, first, false, false, Bytes(mem, addr, c))] +
        Chunks(mem, addr + c, size - c, tid, gen, false)
  }

  function EndEntry(tid: nat, gen: nat, first: bool, kind: Kind): Entry {
    Entry(0, tid, gen, first, kind.Commit?, kind.Abort?, [])
  }

  function Entries(mem: Memory, addr: nat, size: nat, tid: nat, gen: nat, first: bool, kind: Kind): seq<Entry>
    requires forall a :: addr <= a < addr + size ==> a in mem
  {
    if size > 0 then Chunks(mem, addr, size, tid, gen, first)
    else if kind.Data? then [] else [EndEntry(tid, gen, first, kind)]
  }

  /** es written to consecutive slots from at on. */
  function WriteAt(s: seq<Entry>, at: nat, es: seq<Entry>): (r: seq<Entry>)
    requires at + |es| <= |s|
    ensures |r| == |s|
  {
    s[..at] + es + s[at + |es|..]
  }

  lemma {:induction false} EntryCount(mem: Memory, addr: nat, size: nat, tid: nat, gen: nat, first: bool)
    requires forall a :: addr <= a < addr + size ==> a in mem
    ensures |Chunks(mem, addr, size, tid, gen, first)| == (size + 47) / MAX_DATA_PER_LENTRY
    decreases size
  {
    if size > MAX_DATA_PER_LENTRY {
      EntryCount(mem, addr + MAX_DATA_PER_LENTRY, size - MAX_DATA_PER_LENTRY, tid, gen, false);
    }
  }

  /** e is a data entry above addr, the start entry if `start`; if it covers byte a, it saves a's
      value. */
  ghost predicate ChunkOk(e: Entry, mem: Memory, addr: nat, start: bool, a: nat) {
    && 1 <= |e.data| <= MAX_DATA_PER_LENTRY && addr <= e.addr
    && (e.isStart <==> start) && !e.Fin()
    && (e.Covers(a) ==> a in mem && e.data[a - e.addr] == mem[a])
  }

  /** Number of entries among es that cover byte a. */
  ghost function CoverCount(es: seq<Entry>, a: nat): nat {
    if es == [] then 0 else (if es[0].Covers(a) then 1 else 0) + CoverCount(es[1..], a)
  }

  /** The entries of one call save every byte of the range exactly once, at its present value, and
      no byte outside it. */
  lemma {:induction false} ChunksSaveRange(mem: Memory, addr: nat, size: nat, tid: nat, gen: nat, first: bool, a: nat)
    requires forall b :: addr <= b < addr + size ==> b in mem
    ensures var es := Chunks(mem, addr, size, tid, gen, first);
      && CoverCount(es, a) == (if addr <= a < addr + size then 1 else 0)
      && (forall i :: 0 <= i < |es| ==> ChunkOk(es[i], mem, addr, first && i == 0, a))
    decreases size
  {
    if size > 0 {
      var c := if size < MAX_DATA_PER_LENTRY then size else MAX_DATA_PER_LENTRY;
      var es := Chunks(mem, addr, size, tid, gen, first);
      var rest := Chunks(mem, addr + c, size - c, tid, gen, false);
      ChunksSaveRange(mem, addr + c, size - c, tid, gen, false, a);
      assert es[1..] == rest;
      forall i | 1 <= i < |es| ensures ChunkOk(es[i], mem, addr, false, a) {
        assert ChunkOk(rest[i - 1], mem, addr + c, false, a);
      }
    }
  }

  /** First entry of what is left to write, and what is left after it. */
  lemma NextEntry(mem: Memory, at: nat, left: nat, tid: nat, gen: nat, first: bool, kind: Kind, es: seq<Entry>, i: nat)
    requires forall b :: at <= b < at + left ==> b in mem
    requires kind.Data? || left == 0
    requires i < |es| && es[i..] == Entries(mem, at, left, tid, gen, first, kind)
    ensures var c := if i == |es| - 1 then left else MAX_DATA_PER_LENTRY;
      && c <= left && (i == |es| - 1 || c < left)
      && es[i] == Entry(if left == 0 then 0 else at, tid, gen, first, kind.Commit?, kind.Abort?, Bytes(mem, at, c))
      && (i < |es| - 1 ==> es[i + 1..] == Entries(mem, at + c, left - c, tid, gen, false, kind))
  {
    assert es[i] == es[i..][0] && es[i + 1..] == es[i..][1..];
    if left == 0 {
      assert Bytes(mem, at, 0) == [];
    } else {
      EntryCount(mem, at, left, tid, gen, first);
    }
  }

  lemma CallCount(mem: Memory, addr: nat, size: nat, tid: nat, gen: nat, first: bool, kind: Kind)
    requires forall a :: addr <= a < addr + size ==> a in mem
    ensures var es := Entries(mem, addr, size, tid, gen, first, kind);
      && |es| == (if size == 0 then (if kind.Data? then 0 else 1) else (size + 47) / MAX_DATA_PER_LENTRY)
      && es[0..] == es
  {
    EntryCount(mem, addr, size, tid, gen, first);
  }

  lemma WriteNothing(s: seq<Entry>, at: nat, es: seq<Entry>)
    requires at <= |s|
    ensures WriteAt(s, at, es[..0]) == s
  {
  }

  lemma WriteOne(s: seq<Entry>, at: nat, e: Entry)
    requires at < |s|
    ensures WriteAt(s, at, [e]) == s[at := e]
  {
  }

  lemma WriteNext(s: seq<Entry>, at: nat, es: seq<Entry>, i: nat)
    requires at + |es| <= |s| && i < |es|
    ensures WriteAt(s, at, es[..i])[at + i := es[i]] == WriteAt(s, at, es[..i + 1])
  {
  }

  // ---- What the backward walk depends on ---------------------------------------------------------

  ghost predicate SameSlots(s1: seq<Entry>, s2: seq<Entry>, lo: nat, hi: nat) {
    |s1| == |s2| && hi <= |s1| && forall i :: lo <= i < hi ==> s1[i] == s2[i]
  }

  lemma {:induction false} UndoFrame(mem: Memory, s1: seq<Entry>, s2: seq<Entry>, lo: nat, hi: nat, g: nat)
    requires lo <= hi && SameSlots(s1, s2, lo, hi)
    ensures UndoRange(mem, s1, lo, hi, g) == UndoRange(mem, s2, lo, hi, g)
    decreases hi - lo
  {
    if lo < hi {
      UndoFrame(if s1[hi - 1].gen == g then UndoEntry(mem, s1[hi - 1]) else mem, s1, s2, lo, hi - 1, g);
    }
  }

  /** The effect of one group, read off any ring that agrees on its slots. */
  lemma SameGroupEffect(mem: Memory, s1: seq<Entry>, s2: seq<Entry>, lo: nat, hi: nat, g: nat)
    requires lo < hi && SameSlots(s1, s2, lo, hi)
    ensures var k := WalkBack(s1, lo, hi - 1, g);
      && k == WalkBack(s2, lo, hi - 1, g)
      && (RollsBack(s1, k, hi, g) <==> RollsBack(s2, k, hi, g))
      && UndoRange(mem, s1, k, hi, g) == UndoRange(mem, s2, k, hi, g)
  {
    GroupFrame(s1, s2, lo, hi, g);
    UndoFrame(mem, s1, s2, WalkBack(s1, lo, hi - 1, g), hi, g);
  }

  // ---- The journal in memory ------------------------------------------------------------------------

  class Transaction {
    const tid: nat
    const start: nat
    const numEntries: nat
    const gen: nat
    var numUsed: nat

    constructor (tid: nat, start: nat, numEntries: nat, gen: nat)
      ensures this.tid == tid && this.start == start && this.numEntries == numEntries && this.gen == gen && numUsed == 0
    {
      this.tid, this.start, this.numEntries, this.gen, this.numUsed := tid, start, numEntries, gen, 0;
    }
  }

  class Journal {
    const slots: array<Entry>
    var mem: Memory
    var head: nat
    var tail: nat
    var gen: nat
    var nextTid: nat
    ghost var lap: int

    ghost predicate Valid()
      reads this
    {
      2 <= slots.Length && head < slots.Length && tail < slots.Length && gen == GenOf(lap)
    }

    ghost function Hdr(): Header
      reads this
    {
      Header(head, tail, gen, lap)
    }

    /** Formats the journal (pmfs_journal_hard_init). */
    constructor (n: nat, mem: Memory)
      requires 2 <= n
      ensures Valid() && fresh(slots)
      ensures slots.Length == n && Hdr() == Format(n, mem).cur.hdr && slots[..] == Format(n, mem).cur.ring.slots
      ensures this.mem == mem
    {
      slots := new Entry[n](i => BLANK);
      this.mem := mem;
      head, tail, gen, nextTid, lap := 0, 0, 1, 0, 0;
    }

    /** Runs the cleaner, up to three times, until avail entries and those counted as freed are enough. */
    method MakeRoom(avail: int, req: nat) returns (freed: nat)
      requires Valid()
      modifies this`head, slots
      ensures Valid()
      ensures Cleaning(slots[..], head, freed) == Retried(old(slots[..]), old(Hdr()), avail, req, 0, 3)
    {
      hide Clean, CleanCount;
      freed := 0;
      var retry := 0;
      ghost var h := Hdr();
      while retry < 3 && avail + freed < req
        invariant Valid() && retry <= 3 && Hdr() == h.(head := head)
        invariant Retried(old(slots[..]), h, avail, req, 0, 3) ==
          Retried(slots[..], Hdr(), avail, req, freed, 3 - retry)
      {
        var total := CleanJournal();
        freed := freed + total;
        retry := retry + 1;
      }
    }

    /** Reserves room for maxEntries data entries and the end entry. Without enough room the cleaner runs, up to
        three times, and what it counts as freed is believed; head is read once, before. `wrapsAgain` says that
        two wraps did not suffice. */
    method NewTransaction(maxEntries: nat) returns (t: Transaction?, wrapsAgain: bool)
      requires Valid()
      modifies this`head, this`tail, this`gen, this`lap, this`nextTid, slots
      ensures Valid() && nextTid == old(nextTid) + 1
      ensures var r := Reservation(old(slots[..]), old(Hdr()), maxEntries + 1);
        && slots[..] == r.slots && Hdr() == r.hdr
        && (t != null <==> r.Reserved?) && (wrapsAgain <==> r.WrapsAgain?)
      ensures t != null ==>
        && fresh(t) && t.start == Reservation(old(slots[..]), old(Hdr()), maxEntries + 1).start
        && t.gen == gen && t.numEntries == maxEntries + 1 && t.numUsed == 0 && t.tid == old(nextTid)
    {
      hide Clean, CleanCount, Retried, Proceed, NextGen, GenOf;
      var n := slots.Length;
      var req := maxEntries + 1;
      var tid := nextTid;
      nextTid := nextTid + 1;
      var seen, tl: nat := head, tail;
      t, wrapsAgain := null, false;
      ghost var goal := Reservation(slots[..], Hdr(), req);
      var wraps := 0;
      while wraps < 2
        invariant Valid() && tl == tail && seen == old(head) && nextTid == old(nextTid) + 1 && t == null && !wrapsAgain
        invariant wraps <= 2 && (wraps > 0 ==> tl == 0)
        invariant goal == Proceed(slots[..], Hdr(), seen, req, 2 - wraps)
      {
        var avail := (if tl >= seen then n - (tl - seen) else seen - tl) - 1;
        var freed: nat := 0;
        ghost var s1, h1 := slots[..], Hdr();
        ProceedUnfolds(s1, h1, seen, req, 2 - wraps);
        if avail < req {
          freed := MakeRoom(avail, req);
        }
        assert Cleaning(slots[..], head, freed) == MadeRoom(s1, h1, seen, req) && Hdr() == h1.(head := head);
        if avail + freed < req {
          return;
        }
        if tl + req >= n {
          GenFollowsLap(lap);
          tl := 0;
          tail, gen, lap := 0, NextGen(gen), lap + 1;
          wraps := wraps + 1;
        } else {
          var base := tl;
          tl := tl + req;
          tail := tl;
          t := new Transaction(tid, base, req, gen);
          return;
        }
      }
      ProceedUnfolds(slots[..], Hdr(), seen, req, 0);
      wrapsAgain := true;
    }

    /** Logs size bytes from addr in entries of at most 48 bytes, or with size 0 the end entry. */
    method AddLogEntry(t: Transaction, addr: nat, size: nat, kind: Kind) returns (ok: bool)
      requires Valid() && t.start + t.numEntries <= slots.Length && t.numUsed <= t.numEntries
      requires kind.Data? || size == 0
      requires forall a :: addr <= a < addr + size ==> a in mem
      modifies t`numUsed, slots
      ensures var es := Entries(mem, addr, size, t.tid, t.gen, old(t.numUsed) == 0, kind);
        && ok == (old(t.numUsed) + |es| <= t.numEntries)
        && t.numUsed == (if ok then old(t.numUsed) + |es| else old(t.numUsed))
        && slots[..] == (if ok then WriteAt(old(slots[..]), t.start + old(t.numUsed), es) else old(slots[..]))
    {
      hide Chunks, Entries, Bytes, WriteAt;
      var num := if size == 0 then (if kind.Data? then 0 else 1) else (size + 47) / MAX_DATA_PER_LENTRY;
      ghost var es := Entries(mem, addr, size, t.tid, t.gen, t.numUsed == 0, kind);
      ghost var first := t.start + t.numUsed;
      CallCount(mem, addr, size, t.tid, t.gen, t.numUsed == 0, kind);
      if t.numUsed + num > t.numEntries {
        return false;
      }
      var i, at: nat, left: nat := 0, addr, size;
      WriteNothing(slots[..], first, es);
      while i < num
        invariant i <= num == |es| && addr <= at && at + left == addr + size && t.numUsed == old(t.numUsed) + i
        invariant left == 0 && i < num ==> size == 0
        invariant i < num ==> es[i..] == Entries(mem, at, left, t.tid, t.gen, t.numUsed == 0, kind)
        invariant slots[..] == WriteAt(old(slots[..]), first, es[..i])
      {
        NextEntry(mem, at, left, t.tid, t.gen, t.numUsed == 0, kind, es, i);
        WriteNext(old(slots[..]), first, es, i);
        var c := if i == num - 1 then left else MAX_DATA_PER_LENTRY;
        slots[t.start + t.numUsed] :=
          Entry(if size == 0 then 0
            else at, t.tid, t.gen, i == 0 && t.numUsed == 0, kind.Commit?, kind.Abort?, Bytes(mem, at, c));
        t.numUsed := t.numUsed + 1;
        at, left, i := at + c, left - c, i + 1;
      }
      assert es[..num] == es;
      ok := true;
    }

    /** Commit: the end entry follows the data entries, in the slot kept free for it. */
    method CommitTransaction(t: Transaction)
      requires Valid() && t.start + t.numEntries <= slots.Length && t.numUsed < t.numEntries
      modifies t`numUsed, slots
      ensures slots[..] ==
        old(slots[..])[t.start + old(t.numUsed) := EndEntry(t.tid, t.gen, old(t.numUsed) == 0, Commit)]
    {
      WriteOne(slots[..], t.start + t.numUsed, EndEntry(t.tid, t.gen, t.numUsed == 0, Commit));
      var ok := AddLogEntry(t, 0, 0, Commit);
    }

    /** Abort: the logged bytes go back first, then the end entry is written. */
    method AbortTransaction(t: Transaction)
      requires Valid() && t.start + t.numEntries <= slots.Length && t.numUsed < t.numEntries
      modifies t`numUsed, slots, this`mem
      ensures mem == UndoRange(old(mem), old(slots[..]), t.start, t.start + old(t.numUsed), t.gen)
      ensures slots[..] ==
        old(slots[..])[t.start + old(t.numUsed) := EndEntry(t.tid, t.gen, old(t.numUsed) == 0, Abort)]
    {
      UndoTransaction(t.start, t.numUsed, t.gen);
      WriteOne(slots[..], t.start + t.numUsed, EndEntry(t.tid, t.gen, t.numUsed == 0, Abort));
      var ok := AddLogEntry(t, 0, 0, Abort);
    }

    /** Writes the valid entries of [t.start..t.start+t.numUsed) back, newest first. */
    method UndoTransaction(start: nat, numUsed: nat, g: nat)
      requires start + numUsed <= slots.Length
      modifies this`mem
      ensures mem == UndoRange(old(mem), slots[..], start, start + numUsed, g)
    {
      var i: int := numUsed - 1;
      while i >= 0
        invariant -1 <= i < numUsed
        invariant UndoRange(mem, slots[..], start, start + i + 1, g) ==
          UndoRange(old(mem), slots[..], start, start + numUsed, g)
      {
        if g == slots[start + i].gen {
          mem := UndoEntry(mem, slots[start + i]);
        }
        i := i - 1;
      }
    }

    /** gen_id := 0 in num entries from start on. */
    method InvalidateLogentries(start: nat, num: nat)
      requires start + num <= slots.Length
      modifies slots
      ensures slots[..] == Wiped(old(slots[..]), start, start + num)
    {
      var i := 0;
      while i < num
        invariant i <= num
        invariant forall j :: 0 <= j < slots.Length ==>
          slots[j] == if start <= j < start + i then old(slots[j]).(gen := 0) else old(slots[j])
      {
        slots[start + i] := slots[start + i].(gen := 0);
        i := i + 1;
      }
    }

    /** Recovers the transaction that ends at valid slot tl and returns where the walk stopped. */
    method RecoverTransaction(hd: nat, tl: nat) returns (r: nat)
      requires tl < slots.Length && hd < slots.Length
      modifies this`mem, slots
      ensures var lo := if hd <= tl then hd else 0; var s := old(slots[..]); var g := s[tl].gen;
        && r == WalkBack(s, lo, tl, g)
        && mem == (if RollsBack(s, r, tl + 1, g) then UndoRange(old(mem), s, r, tl + 1, g) else old(mem))
        && slots[..] == (if g == MAX_GEN_ID then Wiped(s, r, tl + 1) else s)
    {
      var g := slots[tl].gen;
      var finFound, startFound := false, false;
      var le, num := tl, 0;
      ghost var lo := if hd <= tl then hd else 0;
      while true
        invariant lo <= le <= tl && num == tl - le
        invariant !startFound && finFound == HasFin(slots[..], le + 1, tl + 1, g)
        invariant WalkBack(slots[..], lo, le, g) == WalkBack(slots[..], lo, tl, g)
        decreases le
      {
        num := num + 1;
        if g == slots[le].gen {
          if slots[le].isCommit || slots[le].isAbort {
            finFound := true;
          }
          if slots[le].isStart {
            startFound := true;
            break;
          }
        }
        if le == 0 || le == hd {
          break;
        }
        le := le - 1;
        if g == slots[le].gen && (slots[le].isCommit || slots[le].isAbort) {
          le := le + 1;
          break;
        }
      }
      r := le;
      if startFound && !finFound {
        UndoTransaction(le, num, g);
      }
      if g == MAX_GEN_ID {
        InvalidateLogentries(le, num);
      }
    }

    /** Wipes what is left of the current lap if the generation is about to wrap, then moves to the
        next generation and empties the log. */
    method ForwardJournal()
      requires Valid()
      modifies this`head, this`gen, this`lap, slots
      ensures Valid() && Hdr() == HalfForwarded(old(Hdr())).(head := tail)
      ensures slots[..] == if old(gen) == MAX_GEN_ID then Wiped(old(slots[..]), tail, slots.Length) else old(slots[..])
    {
      if gen == MAX_GEN_ID {
        InvalidateLogentries(tail, slots.Length - tail);
      }
      GenFollowsLap(lap);
      gen, lap := NextGen(gen), lap + 1;
      head := tail;
    }

    /** Backward recovery of the whole log. Memory ends as Recover says, whose crash safety is
        proved separately; the ring keeps no generation that a later lap could mistake. */
    method RecoverUndoJournal()
      requires Valid()
      modifies this`mem, this`head, this`gen, this`lap, slots
      ensures Valid() && mem == Recover(old(mem), old(slots[..]), old(Hdr()))
      ensures slots[..] == RecoveredSlots(old(slots[..]), old(Hdr()))
      ensures Hdr() == HalfForwarded(old(Hdr())).(head := tail)
    {
      hide Descended, ScannedSlots, RestOfRecovery, Recover, RecoveredSlots, UndoRange, WalkBack, RollsBack, SameSlots,
        Wiped, GenOf;
      var n := slots.Length;
      ghost var s0 := slots[..];
      ghost var h := Hdr();
      var tl: nat := tail;
      var g := gen;
      ghost var second := false;
      DescendedInit(mem, s0, h);
      while head != tl
        invariant Hdr() == h && Valid() && tl < n && g == LapGen(h, second)
        invariant Descended(old(mem), s0, h, mem, slots[..], tl, second)
        decreases !second, tl
      {
        if tl == 0 {
          g := PrevGen(g);
          DescendedBounds(old(mem), s0, h, mem, slots[..], tl, second);
          CrossLap(old(mem), s0, h, mem, slots[..]);
          second := true;
        }
        ghost var hi := if tl == 0 then n else tl;
        DescendedBounds(old(mem), s0, h, mem, slots[..], hi, second);
        tl := PrevSlot(n, tl);
        ghost var m1, s1 := mem, slots[..];
        assert s1[tl] == slots[tl];
        if g == slots[tl].gen {
          SameGroupEffect(mem, s0, s1, Floor(h, second), hi, g);
          tl := RecoverTransaction(head, tl);
          GroupStep(old(mem), s0, h, m1, s1, hi, second, mem, slots[..]);
        } else {
          if g == MAX_GEN_ID {
            slots[tl] := slots[tl].(gen := 0);
          }
          StaleStep(old(mem), s0, h, m1, s1, hi, second, slots[..]);
        }
      }
      DescendedEnd(old(mem), s0, h, mem, slots[..], second);
      ForwardJournal();
    }

    /** Looks for the end of the transaction at slot hd and returns the slot behind it, or hd if
        there is none before the tail or the next start. */
    method ProcessTransaction(hd: nat, tl: nat) returns (r: nat, processed: nat)
      requires hd < slots.Length && tl < slots.Length && hd != tl
      modifies slots
      ensures r < slots.Length
      ensures CleanResult(slots[..], r) == ProcessOne(old(slots[..]), hd, tl)
      ensures processed == Processed(old(slots[..]), hd, tl)
    {
      var n := slots.Length;
      var g := slots[hd].gen;
      var newHead := hd;
      processed := 0;
      if !slots[hd].isStart {
        return NextSlot(n, newHead), 0;
      }
      r := hd;
      var le := hd;
      var again := true;
      while again
        invariant le < n && newHead == le && r == hd && slots[..] == old(slots[..])
        invariant again ==> le != tl && FindEnd(slots[..], le, tl, g) == FindEnd(slots[..], hd, tl, g)
        invariant again ==> processed + Walked(slots[..], le, tl, g) == Walked(slots[..], hd, tl, g)
        invariant !again ==> FindEnd(slots[..], hd, tl, g) == None && processed == Walked(slots[..], hd, tl, g)
        decreases again, RingDistance(n, le, tl)
      {
        newHead := NextSlot(n, newHead);
        processed := processed + 1;
        if g == slots[le].gen && (slots[le].isCommit || slots[le].isAbort) {
          r := newHead;
          if g == MAX_GEN_ID {
            InvalidateLogentries(hd, (if hd <= le then le + 1 else n) - hd);
          }
          return;
        }
        le := NextSlot(n, le);
        if newHead == tl || (g == slots[le].gen && slots[le].isStart) {
          again := false;
        }
      }
    }

    /** The log cleaner: passes stale slots and ended transactions, stops at the first one without
        an end, and advances head. It counts the entries walked over, also those of the one it stops at. */
    method CleanJournal() returns (total: nat)
      requires Valid()
      modifies this`head, slots
      ensures Valid()
      ensures total == CleanCount(old(slots[..]), old(head), tail, ScanGen(old(Hdr())))
      ensures var r := Clean(old(slots[..]), old(head), tail, ScanGen(old(Hdr())));
        slots[..] == r.slots && head == r.at
    {
      var n := slots.Length;
      var hd: nat := head;
      var tl := tail;
      var g: nat := if tl < hd then PrevGen(gen) else gen;
      var stuck := false;
      ghost var goal, count := Clean(slots[..], hd, tl, g), CleanCount(slots[..], hd, tl, g);
      total := 0;
      while hd != tl && !stuck
        invariant hd < n && head == old(head)
        invariant count == total + if stuck then 0 else CleanCount(slots[..], hd, tl, g)
        invariant stuck ==> goal == CleanResult(slots[..], hd)
        invariant !stuck ==> goal == Clean(slots[..], hd, tl, g)
        decreases !stuck, if hd == tl then 0 else RingDistance(n, hd, tl)
      {
        if g == slots[hd].gen {
          ghost var s1 := slots[..];
          var newHead, processed := ProcessTransaction(hd, tl);
          total := total + processed;
          ProcessMoves(s1, hd, tl);
          if newHead == hd {
            stuck := true;
          }
          hd := newHead;
        } else {
          if g == MAX_GEN_ID {
            slots[hd] := slots[hd].(gen := 0);
          }
          hd := NextSlot(n, hd);
        }
        if hd == 0 && !stuck {
          g := NextGen(g);
        }
      }
      head := hd;
    }
  }

  datatype CleanResult = CleanResult(slots: seq<Entry>, at: nat)

  /** One call of pmfs_process_transaction: the ring and the head it proposes. */
  function ProcessOne(s: seq<Entry>, hd: nat, tl: nat): (r: CleanResult)
    requires hd < |s| && tl < |s|
    ensures |r.slots| == |s| && r.at < |s|
  {
    var g := s[hd].gen;
    if !s[hd].isStart then CleanResult(s, NextSlot(|s|, hd))
    else match FindEnd(s, hd, tl, g)
      case None => CleanResult(s, hd)
      case Some(f) =>
        CleanResult(if g == MAX_GEN_ID then Wiped(s, hd, if hd <= f then f + 1 else |s|) else s, NextSlot(|s|, f))
  }

  /** The walk never gets past the tail. */
  lemma {:induction false} FindEndStays(s: seq<Entry>, i: nat, tl: nat, g: nat)
    requires i < |s| && tl < |s| && i != tl && FindEnd(s, i, tl, g).Some?
    ensures var f := FindEnd(s, i, tl, g).value;
      && f != tl
      && (NextSlot(|s|, f) != tl ==> RingDistance(|s|, NextSlot(|s|, f), tl) < RingDistance(|s|, i, tl))
      && (f == i || RingDistance(|s|, f, tl) < RingDistance(|s|, i, tl))
    decreases RingDistance(|s|, i, tl)
  {
    if !(s[i].gen == g && s[i].Fin()) {
      FindEndStays(s, NextSlot(|s|, i), tl, g);
    }
  }

  lemma ProcessMoves(s: seq<Entry>, hd: nat, tl: nat)
    requires hd < |s| && tl < |s| && hd != tl
    ensures var r := ProcessOne(s, hd, tl);
      r.at == hd || r.at == tl || RingDistance(|s|, r.at, tl) < RingDistance(|s|, hd, tl)
    ensures ProcessOne(s, hd, tl).at == hd ==> ProcessOne(s, hd, tl).slots == s
  {
    if s[hd].isStart && FindEnd(s, hd, tl, s[hd].gen).Some? {
      FindEndStays(s, hd, tl, s[hd].gen);
    }
  }

  /** The generation the cleaner starts with. */
  function ScanGen(h: Header): nat {
    if h.tail < h.head then PrevGen(h.gen) else h.gen
  }

  /** The whole cleaning loop from slot hd on: the ring it leaves and where it stops. */
  function Clean(s: seq<Entry>, hd: nat, tl: nat, g: nat): (r: CleanResult)
    requires hd < |s| && tl < |s|
    ensures |r.slots| == |s| && r.at < |s|
    decreases if hd == tl then 0 else RingDistance(|s|, hd, tl)
  {
    if hd == tl then CleanResult(s, hd)
    else if s[hd].gen == g then
      var r := ProcessOne(s, hd, tl);
      ProcessMoves(s, hd, tl);
      if r.at == hd then r
      else Clean(r.slots, r.at, tl, if r.at == 0 then NextGen(g) else g)
    else
      var next := NextSlot(|s|, hd);
      Clean(if g == MAX_GEN_ID then s[hd := s[hd].(gen := 0)] else s, next, tl, if next == 0 then NextGen(g) else g)
  }

  // ---- Reserving with the cleaner's help --------------------------------------------------------------

  /** Entries that the walk from slot i goes over, whether or not it finds an end. */
  function Walked(s: seq<Entry>, i: nat, tl: nat, g: nat): (r: nat)
    requires i < |s| && tl < |s|
    ensures 1 <= r
    decreases RingDistance(|s|, i, tl)
  {
    if s[i].gen == g && s[i].Fin() then 1
    else
      var next := NextSlot(|s|, i);
      if next == tl || (s[next].gen == g && s[next].isStart) then 1 else 1 + Walked(s, next, tl, g)
  }

  /** The count that one call of pmfs_process_transaction reports. */
  function Processed(s: seq<Entry>, hd: nat, tl: nat): nat
    requires hd < |s| && tl < |s|
  {
    if s[hd].isStart then Walked(s, hd, tl, s[hd].gen) else 0
  }

  /** The count that the cleaning loop reports. */
  function CleanCount(s: seq<Entry>, hd: nat, tl: nat, g: nat): nat
    requires hd < |s| && tl < |s|
    decreases if hd == tl then 0 else RingDistance(|s|, hd, tl)
  {
    if hd == tl then 0
    else if s[hd].gen == g then
      var r := ProcessOne(s, hd, tl);
      ProcessMoves(s, hd, tl);
      Processed(s, hd, tl) + if r.at == hd then 0
        else CleanCount(r.slots, r.at, tl, if r.at == 0 then NextGen(g) else g)
    else
      var next := NextSlot(|s|, hd);
      CleanCount(if g == MAX_GEN_ID then s[hd := s[hd].(gen := 0)] else s, next, tl, if next == 0 then NextGen(g)
        else g)
  }

  datatype Cleaning = Cleaning(slots: seq<Entry>, head: nat, freed: nat)

  /** Cleaning again, at most `tries` times, until avail entries and what has been counted are enough. */
  function Retried(s: seq<Entry>, h: Header, avail: int, req: nat, freed: nat, tries: nat): (r: Cleaning)
    requires h.head < |s| && h.tail < |s|
    ensures |r.slots| == |s| && r.head < |s|
    decreases tries
  {
    if tries == 0 || avail + freed >= req then Cleaning(s, h.head, freed)
    else
      var c := Clean(s, h.head, h.tail, ScanGen(h));
      Retried(c.slots, h.(head := c.at), avail, req, freed + CleanCount(s, h.head, h.tail, ScanGen(h)), tries - 1)
  }

  datatype Outcome =
    | Refused(slots: seq<Entry>, hdr: Header)
    | WrapsAgain(slots: seq<Entry>, hdr: Header)
    | Reserved(start: nat, slots: seq<Entry>, hdr: Header)

  /** Entries that seem to be free if head is taken to be `seen`. */
  function Seeming(n: nat, tail: nat, seen: nat): int {
    (if tail >= seen then n - (tail - seen) else seen - tail) - 1
  }

  /** The log once the cleaner has been asked for the missing room. */
  function MadeRoom(s: seq<Entry>, h: Header, seen: nat, req: nat): (r: Cleaning)
    requires h.head < |s| && h.tail < |s|
    ensures |r.slots| == |s| && r.head < |s|
  {
    var avail := Seeming(|s|, h.tail, seen);
    if avail < req then Retried(s, h, avail, req, 0, 3) else Cleaning(s, h.head, 0)
  }

  /** The rest of pmfs_new_transaction, from its label on. */
  function Proceed(s: seq<Entry>, h: Header, seen: nat, req: nat, turns: nat): (r: Outcome)
    requires h.head < |s| && h.tail < |s|
    ensures |r.slots| == |s| && r.hdr.head < |s| && r.hdr.tail < |s|
    decreases turns
  {
    if turns == 0 then WrapsAgain(s, h)
    else
      var c := MadeRoom(s, h, seen, req);
      if Seeming(|s|, h.tail, seen) + c.freed < req then Refused(c.slots, h.(head := c.head))
      else if h.tail +
        req >= |s| then Proceed(c.slots, Header(c.head, 0, NextGen(h.gen), h.lap + 1), seen, req, turns - 1)
      else Reserved(h.tail, c.slots, h.(head := c.head, tail := h.tail + req))
  }

  lemma ProceedUnfolds(s: seq<Entry>, h: Header, seen: nat, req: nat, turns: nat)
    requires h.head < |s| && h.tail < |s|
    ensures Proceed(s, h, seen, req, turns) ==
      if turns == 0 then WrapsAgain(s, h)
      else
        var c := MadeRoom(s, h, seen, req);
        if Seeming(|s|, h.tail, seen) + c.freed < req then Refused(c.slots, h.(head := c.head))
        else if h.tail +
          req >= |s| then Proceed(c.slots, Header(c.head, 0, NextGen(h.gen), h.lap + 1), seen, req, turns - 1)
        else Reserved(h.tail, c.slots, h.(head := c.head, tail := h.tail + req))
  {
  }

  /** A request for req entries (pmfs_new_transaction). */
  function Reservation(s: seq<Entry>, h: Header, req: nat): (r: Outcome)
    requires h.head < |s| && h.tail < |s|
    ensures |r.slots| == |s| && r.hdr.head < |s| && r.hdr.tail < |s|
  {
    Proceed(s, h, h.head, req, 2)
  }

  /** Recovery has come down to slot hi: memory and ring m, s are what the slots from hi on make
      of m0, s0, and what is left to do completes the recovery. */
  ghost predicate Descended(m0: Memory, s0: seq<Entry>, h: Header, m: Memory, s: seq<Entry>, hi: nat, second: bool) {
    && |s| == |s0| && hi <= |s0| && h.head < |s0| && h.tail < |s0|
    && (if second then h.tail < h.head else hi <= h.tail) && Floor(h, second) <= hi
    && s == ScannedSlots(s0, h, hi, second)
    && Recover(m0, s0, h) == RestOfRecovery(m, s0, h, hi, second)
  }

  lemma DescendedInit(m0: Memory, s0: seq<Entry>, h: Header)
    requires h.head < |s0| && h.tail < |s0|
    ensures Descended(m0, s0, h, m0, s0, h.tail, false)
  {
  }

  lemma DescendedBounds(m0: Memory, s0: seq<Entry>, h: Header, m: Memory, s: seq<Entry>, hi: nat, second: bool)
    requires Descended(m0, s0, h, m, s, hi, second)
    ensures |s| == |s0| && Floor(h, second) <= hi <= |s0|
    ensures hi != h.head ==> Floor(h, second) < hi || (hi == 0 && !second && h.tail < h.head)
    ensures forall i :: Floor(h, second) <= i < hi ==> s[i] == s0[i]
    ensures SameSlots(s0, s, Floor(h, second), hi)
    ensures second ==> h.tail < h.head
    ensures !second ==> hi <= h.tail
  {
  }

  /** At the head everything is done but for what pmfs_forward_journal wipes. */
  lemma DescendedEnd(m0: Memory, s0: seq<Entry>, h: Header, m: Memory, s: seq<Entry>, second: bool)
    requires Descended(m0, s0, h, m, s, h.head, second)
    ensures m == Recover(m0, s0, h)
    ensures |s| == |s0| && h.head <= |s0| && h.tail <= |s0|
    ensures (if h.gen == MAX_GEN_ID then Wiped(s, h.tail, |s|) else s) == RecoveredSlots(s0, h)
  {
  }

  /** Wrapping from slot 0 to the end of the ring enters the older lap. */
  lemma CrossLap(m0: Memory, s0: seq<Entry>, h: Header, m: Memory, s: seq<Entry>)
    requires Descended(m0, s0, h, m, s, 0, false) && h.head != 0
    ensures Descended(m0, s0, h, m, s, |s0|, true)
  {
    assert h.gen == MAX_GEN_ID ==> PrevGen(h.gen) != MAX_GEN_ID;
    assert Wiped(s0, |s0|, |s0|) == s0;
  }

  /** One group is recovered. */
  lemma GroupStep(m0: Memory, s0: seq<Entry>, h: Header, m: Memory, s: seq<Entry>, hi: nat, second: bool,
                  m': Memory, s': seq<Entry>)
    requires Descended(m0, s0, h, m, s, hi, second) && Floor(h, second) < hi
    requires s0[hi - 1].gen == LapGen(h, second)
    requires var g := LapGen(h, second); var k := WalkBack(s0, Floor(h, second), hi - 1, g);
      && m' == (if RollsBack(s0, k, hi, g) then UndoRange(m, s0, k, hi, g) else m)
      && s' == (if g == MAX_GEN_ID then Wiped(s, k, hi) else s)
    ensures Descended(m0, s0, h, m', s', WalkBack(s0, Floor(h, second), hi - 1, LapGen(h, second)), second)
  {
    var g := LapGen(h, second);
    var k := WalkBack(s0, Floor(h, second), hi - 1, g);
    assert s' == ScannedSlots(s0, h, k, second);
  }

  /** A slot without the lap's generation is passed. */
  lemma StaleStep(m0: Memory, s0: seq<Entry>, h: Header, m: Memory, s: seq<Entry>, hi: nat, second: bool,
        s': seq<Entry>)
    requires Descended(m0, s0, h, m, s, hi, second) && Floor(h, second) < hi
    requires s0[hi - 1].gen != LapGen(h, second)
    requires s' == if LapGen(h, second) == MAX_GEN_ID then s[hi - 1 := s[hi - 1].(gen := 0)] else s
    ensures Descended(m0, s0, h, m, s', hi - 1, second)
  {
    assert s' == ScannedSlots(s0, h, hi - 1, second);
  }

  /** The ring once recovery has come down to slot tl, in the older lap if `second`. */
  ghost function ScannedSlots(s: seq<Entry>, h: Header, tl: nat, second: bool): seq<Entry>
    requires h.tail <= |s|
  {
    if second then
      if h.gen == MAX_GEN_ID then Wiped(s, 0, h.tail)
      else if PrevGen(h.gen) == MAX_GEN_ID then Wiped(s, tl, |s|) else s
    else if h.gen == MAX_GEN_ID then Wiped(s, tl, h.tail) else s
  }
}
