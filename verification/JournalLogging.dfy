/** The calls of a transaction as runs of the machine: logging a range is a Publish step for each of its entries,
    commit and abort are their flushes and fences in order. */
module JournalLogging {
  import opened JournalRing
  import opened JournalInvariant
  import opened JournalMachine
  import opened JournalMemory
  import opened JournalSafety
  import opened JournalCode

  /** A transaction that logs keeps its shape. */
  lemma PublishShape(s: State, k: nat, addr: nat, len: nat)
    requires Shape(s) && Enabled(s, Publish(k, addr, len))
    ensures Shape(Apply(s, Publish(k, addr, len)))
  {
    var s', t, t' := Apply(s, Publish(k, addr, len)), s.txs[k], Apply(s, Publish(k, addr, len)).txs[k];
    assert TxShape(t, k, |s.cur.ring.slots|);
    forall j | 0 <= j < |t'.log| ensures EntryShape(t', k, j) {
      assert j < |t.log| ==> EntryShape(t, k, j);
    }
    forall i | 0 <= i < |s'.txs| ensures TxShape(s'.txs[i], i, |s'.cur.ring.slots|) {
      assert TxShape(s.txs[i], i, |s.cur.ring.slots|);
    }
  }

  lemma WriteFirst(s: seq<Entry>, at: nat, e: Entry, es: seq<Entry>)
    requires at + 1 + |es| <= |s|
    ensures WriteAt(s[at := e], at + 1, es) == WriteAt(s, at, [e] + es)
  {
  }

  lemma StillFree(s: State, k: nat, addr: nat, len: nat, a: nat)
    requires Shape(s) && Enabled(s, Publish(k, addr, len)) && FreeFor(s, k, a)
    ensures FreeFor(Apply(s, Publish(k, addr, len)), k, a)
  {
    var s' := Apply(s, Publish(k, addr, len));
    forall j | Unreleased(s', j) && j != k ensures a !in s'.txs[j].before {
      assert Unreleased(s, j);
    }
  }

  /** One entry: what the step does to the ring and to the transaction. */
  lemma PublishFacts(s: State, k: nat, addr: nat, len: nat)
    requires Shape(s) && k < |s.txs| && s.txs[k].status.Running? && |s.txs[k].log| + 1 < s.txs[k].size
    requires 1 <= len <= MAX_DATA_PER_LENTRY
    requires forall a :: addr <= a < addr + len ==> a in s.cur.mem && FreeFor(s, k, a)
    ensures Enabled(s, Publish(k, addr, len))
    ensures var t, s1 := s.txs[k], Apply(s, Publish(k, addr, len));
      var e := Entry(addr, k, t.gen, |t.log| == 0, false, false, Bytes(s.cur.mem, addr, len));
      && Shape(s1) && |s1.txs| == |s.txs| && s1.cur.mem == s.cur.mem
      && t.start + |t.log| < |s.cur.ring.slots| && s1.cur.ring.slots == s.cur.ring.slots[t.start + |t.log| := e]
      && s1.txs[k].log == t.log + [e] && s1.txs[k].start == t.start && s1.txs[k].size == t.size
      && s1.txs[k].gen == t.gen && s1.txs[k].status == t.status
      && s1.per == s.per && s1.cur.hdr == s.cur.hdr && s1.txs[k].lap == t.lap
  {
    hide FreeFor;
    TxBounds(s, k);
    PublishShape(s, k, addr, len);
  }

  lemma ChunksSplit(mem: Memory, addr: nat, size: nat, tid: nat, gen: nat, first: bool)
    requires size > 0 && forall a :: addr <= a < addr + size ==> a in mem
    ensures var c := if size < MAX_DATA_PER_LENTRY then size else MAX_DATA_PER_LENTRY;
      && Chunks(mem, addr, size, tid, gen, first)
         == [Entry(addr, tid, gen, first, false, false, Bytes(mem, addr, c))] +
           Chunks(mem, addr + c, size - c, tid, gen, false)
      && (size + 47) / MAX_DATA_PER_LENTRY == 1 + (size - c + 47) / MAX_DATA_PER_LENTRY
  {
  }

  lemma FirstStep(s: State, step: Step, rest: seq<Step>)
    requires Shape(s) && Enabled(s, step) && IsRun(Apply(s, step), rest)
    ensures IsRun(s, [step] + rest) && After(s, [step] + rest) == After(Apply(s, step), rest)
  {
    assert ([step] + rest)[1..] == rest;
  }

  /** The entries of a range, one Publish step each. */
  lemma {:induction false} PublishingIsRun(s: State, k: nat, addr: nat, size: nat) returns (steps: seq<Step>)
    requires Shape(s) && k < |s.txs| && s.txs[k].status.Running?
    requires |s.txs[k].log| + (size + 47) / MAX_DATA_PER_LENTRY + 1 <= s.txs[k].size
    requires forall a :: addr <= a < addr + size ==> a in s.cur.mem && FreeFor(s, k, a)
    ensures IsRun(s, steps) && forall i :: 0 <= i < |steps| ==> steps[i].Publish? && steps[i].k == k
    ensures var t := s.txs[k];
      var es := Chunks(s.cur.mem, addr, size, k, t.gen, |t.log| == 0); var s' := After(s, steps);
      && |steps| == |es| && t.start + |t.log| + |es| < |s.cur.ring.slots|
      && s'.cur.ring.slots == WriteAt(s.cur.ring.slots, t.start + |t.log|, es)
      && |s'.txs| == |s.txs| && s'.txs[k].log == t.log + es && s'.cur.mem == s.cur.mem
      && Shape(s') && s'.per == s.per && s'.cur.hdr == s.cur.hdr
      && s'.txs[k].start == t.start && s'.txs[k].size == t.size && s'.txs[k].lap == t.lap &&
         s'.txs[k].status == t.status
    decreases size
  {
    hide Shape, FreeFor, WriteAt, Apply, Enabled, Bytes, Chunks;
    EntryCount(s.cur.mem, addr, size, k, s.txs[k].gen, |s.txs[k].log| == 0);
    TxBounds(s, k);
    if size == 0 {
      steps := [];
      NoChunks(s.cur.mem, addr, k, s.txs[k].gen, |s.txs[k].log| == 0);
      WriteNone(s.cur.ring.slots, s.txs[k].start + |s.txs[k].log|);
      assert s.txs[k].log + [] == s.txs[k].log;
    } else {
      var t := s.txs[k];
      var c := if size < MAX_DATA_PER_LENTRY then size else MAX_DATA_PER_LENTRY;
      var step := Publish(k, addr, c);
      ChunksSplit(s.cur.mem, addr, size, k, t.gen, |t.log| == 0);
      PublishFacts(s, k, addr, c);
      var s1 := Apply(s, step);
      forall a | addr + c <= a < addr + size ensures a in s1.cur.mem && FreeFor(s1, k, a) {
        StillFree(s, k, addr, c, a);
      }
      var rest := PublishingIsRun(s1, k, addr + c, size - c);
      steps := [step] + rest;
      FirstStep(s, step, rest);
      var e := Entry(addr, k, t.gen, |t.log| == 0, false, false, Bytes(s.cur.mem, addr, c));
      var es := Chunks(s.cur.mem, addr + c, size - c, k, t.gen, false);
      WriteFirst(s.cur.ring.slots, t.start + |t.log|, e, es);
      assert (t.log + [e]) + es == t.log + ([e] + es);
    }
  }

  /** What pmfs_add_logentry writes for a range (Chunks, against which Journal.AddLogEntry is proved) is what the
      machine's steps write, and the fence that ends the call makes it durable; the crash theorems cover every
      prefix of the call. */
  lemma LoggingIsRun(s: State, k: nat, addr: nat, size: nat, header: bool) returns (steps: seq<Step>)
    requires Shape(s) && k < |s.txs| && s.txs[k].status.Running? && (header || Covered(s.per.hdr, s.txs[k]))
    requires |s.txs[k].log| + (size + 47) / MAX_DATA_PER_LENTRY + 1 <= s.txs[k].size
    requires forall a :: addr <= a < addr + size ==> a in s.cur.mem && FreeFor(s, k, a)
    ensures IsRun(s, steps) && |steps| > 0 && steps[|steps| - 1] == Fence(k, header)
    ensures forall i :: 0 <= i < |steps| - 1 ==> steps[i].Publish? && steps[i].k == k
    ensures var t := s.txs[k];
      var es := Chunks(s.cur.mem, addr, size, k, t.gen, |t.log| == 0); var s' := After(s, steps);
      && |steps| == |es| + 1 && t.start + |t.log| + |es| < |s.cur.ring.slots| == |s'.per.ring.slots|
      && s'.cur.ring.slots == WriteAt(s.cur.ring.slots, t.start + |t.log|, es)
      && |s'.txs| == |s.txs| && s'.txs[k].log == t.log + es && s'.txs[k].fenced == |t.log| + |es| &&
         s'.cur.mem == s.cur.mem
      && s'.per.mem == s.per.mem && s'.per.hdr == (if header then s.cur.hdr else s.per.hdr)
      && forall i :: t.start <= i < t.start + |t.log| + |es| ==> s'.per.ring.slots[i] == s'.cur.ring.slots[i]
  {
    hide FreeFor, WriteAt, Bytes, Chunks, Apply, Enabled, Shape, IsRun, After, Covered;
    var more := PublishingIsRun(s, k, addr, size);
    var s1 := After(s, more);
    StillCovered(s, s1, k, header);
    FenceFacts(s1, k, header);
    OneStep(s1, Fence(k, header));
    RunsJoin(s, more, [Fence(k, header)]);
    steps := more + [Fence(k, header)];
  }

  lemma StillCovered(s: State, s1: State, k: nat, header: bool)
    requires k < |s.txs| && k < |s1.txs| && s1.per == s.per && (header || Covered(s.per.hdr, s.txs[k]))
    requires s1.txs[k].start == s.txs[k].start && s1.txs[k].size == s.txs[k].size && s1.txs[k].lap == s.txs[k].lap
    ensures header || Covered(s1.per.hdr, s1.txs[k])
  {
  }

  lemma FenceFacts(s: State, k: nat, header: bool)
    requires Shape(s) && k < |s.txs| && s.txs[k].status.Running? && (header || Covered(s.per.hdr, s.txs[k]))
    ensures Enabled(s, Fence(k, header))
    ensures var t, s' := s.txs[k], Apply(s, Fence(k, header));
      && s'.cur == s.cur && |s'.txs| == |s.txs| && s'.txs[k] == t.(fenced := |t.log|)
      && s'.per.mem == s.per.mem && s'.per.hdr == (if header then s.cur.hdr else s.per.hdr)
      && t.start + |t.log| <= |s'.per.ring.slots| == |s.cur.ring.slots|
      && forall i :: t.start <= i < t.start + |t.log| ==> s'.per.ring.slots[i] == s.cur.ring.slots[i]
  {
    TxBounds(s, k);
  }

  lemma NoChunks(mem: Memory, addr: nat, tid: nat, gen: nat, first: bool)
    ensures Chunks(mem, addr, 0, tid, gen, first) == []
  {
  }

  lemma TxBounds(s: State, k: nat)
    requires Shape(s) && k < |s.txs|
    ensures s.txs[k].start + s.txs[k].size <= |s.cur.ring.slots| && |s.txs[k].log| <= s.txs[k].size
    ensures |s.cur.ring.slots| == |s.cur.ring.own|
  {
    assert TxShape(s.txs[k], k, |s.cur.ring.slots|);
  }

  lemma WriteNone(s: seq<Entry>, at: nat)
    requires at <= |s|
    ensures WriteAt(s, at, []) == s
  {
  }

  // ---- Commit and abort --------------------------------------------------------------------------------

  /** One step of a run keeps the invariant. */
  lemma NextState(s: State, step: Step)
    requires Inv(s) && Shape(s) && Enabled(s, step)
    ensures Inv(Apply(s, step)) && Shape(Apply(s, step))
  {
    hide LogInv, MemInv;
    LogStep(s, step);
    MemStep(s, step);
    InvShape(Apply(s, step));
  }

  lemma ThreeSteps(s: State, a: Step, b: Step, c: Step)
    requires Shape(s) && Enabled(s, a)
    requires var s1 := Apply(s, a); Shape(s1) && Enabled(s1, b) && var s2 := Apply(s1, b); Shape(s2) && Enabled(s2, c)
    ensures IsRun(s, [a, b, c]) && After(s, [a, b, c]) == Apply(Apply(Apply(s, a), b), c)
  {
    hide Apply, Enabled, Shape;
    assert [a, b, c][1..] == [b, c] && [b, c][1..] == [c] && [c][1..] == [];
    var s1, s2 := Apply(s, a), Apply(Apply(s, a), b);
    assert IsRun(s2, [c]) && After(s2, [c]) == Apply(s2, c);
    assert IsRun(s1, [b, c]) && After(s1, [b, c]) == Apply(s2, c);
  }

  /** Transaction k of s has its end entry in the slot behind its log, written and fenced; nothing else in the
      cached ring has changed. */
  ghost predicate EndFenced(s: State, s': State, k: nat, kind: Kind) {
    && k < |s.txs| && k < |s'.txs| && s'.txs[k].status.Done?
    && var t := s.txs[k]; var end := t.start + |t.log|;
       && end < |s.cur.ring.slots| == |s'.per.ring.slots|
       && s'.cur.ring.slots == s.cur.ring.slots[end := EndEntry(k, t.gen, |t.log| == 0, kind)]
       && s'.per.ring.slots[end] == s'.cur.ring.slots[end]
  }

  /** The bytes that transaction t logged are as persistent memory m has them. */
  ghost predicate Persisted(t: Tx, m: Memory, s: State) {
    forall a :: a in t.before && a in m ==> a in s.per.mem && s.per.mem[a] == m[a]
  }

  /** Writing the end entry of a transaction whose data is flushed, and fencing it. */
  lemma EndIsRun(s: State, k: nat, header: bool) returns (s1: State, s2: State)
    requires Inv(s) && Shape(s) && k < |s.txs| && s.txs[k].status.Flushed? && |s.txs[k].log| < s.txs[k].size
    requires header || Covered(s.per.hdr, s.txs[k])
    ensures Enabled(s, Close(k)) && Apply(s, Close(k)) == s1 && Shape(s1) && s1.per == s.per
    ensures Enabled(s1, CloseFence(k, header)) && Apply(s1, CloseFence(k, header)) == s2
    ensures EndFenced(s, s2, k, if s.txs[k].status.aborted then Abort else Commit)
    ensures s2.cur.mem == s.cur.mem && s2.per.mem == s.per.mem
    ensures s2.committed == if s.txs[k].status.aborted then s.committed
      else CopyBytes(s.committed, s.cur.mem, s.txs[k].before.Keys)
  {
    hide Inv;
    TxBounds(s, k);
    NextState(s, Close(k));
    s1 := Apply(s, Close(k));
    s2 := Apply(s1, CloseFence(k, header));
  }

  lemma FlushFacts(s: State, k: nat)
    requires Inv(s) && Shape(s) && k < |s.txs| && s.txs[k].status.Running? && s.txs[k].fenced == |s.txs[k].log|
    ensures Enabled(s, FlushData(k))
    ensures var s1 := Apply(s, FlushData(k));
      && Inv(s1) && Shape(s1) && s1.cur == s.cur && s1.per.ring == s.per.ring && s1.per.hdr == s.per.hdr
      && s1.committed == s.committed && s1.txs == s.txs[k := s.txs[k].(status := Flushed(false))]
      && Persisted(s.txs[k], s.cur.mem, s1)
  {
    hide Inv;
    NextState(s, FlushData(k));
  }

  lemma UndoFacts(s: State, k: nat)
    requires Inv(s) && Shape(s) && k < |s.txs| && s.txs[k].status.Running? && s.txs[k].fenced == |s.txs[k].log|
    requires s.txs[k].start + |s.txs[k].log| <= |s.cur.ring.slots|
    ensures Enabled(s, UndoAll(k))
    ensures var s1 := Apply(s, UndoAll(k)); var t := s.txs[k];
      && Inv(s1) && Shape(s1)
      && s1.cur == s.cur.(mem := UndoRange(s.cur.mem, s.cur.ring.slots, t.start, t.start + |t.log|, t.gen))
      && s1.per == s.per && s1.committed == s.committed && s1.txs == s.txs[k := t.(status := Undone)]
  {
    hide Inv;
    NextState(s, UndoAll(k));
  }

  lemma FlushUndoFacts(s: State, k: nat)
    requires Inv(s) && Shape(s) && k < |s.txs| && s.txs[k].status.Undone?
    ensures Enabled(s, FlushUndo(k))
    ensures var s1 := Apply(s, FlushUndo(k));
      && Inv(s1) && Shape(s1) && s1.cur == s.cur && s1.per.ring == s.per.ring && s1.per.hdr == s.per.hdr
      && s1.committed == s.committed && s1.txs == s.txs[k := s.txs[k].(status := Flushed(true))]
      && Persisted(s.txs[k], s.cur.mem, s1)
  {
    hide Inv;
    NextState(s, FlushUndo(k));
  }

  /** The commit call: the data is flushed and fenced while no end entry exists, then the commit entry is
      written to the slot behind the log, as Journal.CommitTransaction writes it, then it is fenced. */
  lemma CommitIsRun(s: State, k: nat, header: bool) returns (s1: State, s': State)
    requires Inv(s) && Shape(s) && k < |s.txs| && s.txs[k].status.Running?
    requires s.txs[k].fenced == |s.txs[k].log| < s.txs[k].size
    requires header || Covered(s.per.hdr, s.txs[k])
    ensures IsRun(s, [FlushData(k)]) && After(s, [FlushData(k)]) == s1
    ensures s1.cur == s.cur && s1.per.ring == s.per.ring && Persisted(s.txs[k], s.cur.mem, s1)
    ensures IsRun(s, [FlushData(k), Close(k), CloseFence(k, header)])
    ensures After(s, [FlushData(k), Close(k), CloseFence(k, header)]) == s'
    ensures EndFenced(s, s', k, Commit) && s'.cur.mem == s.cur.mem && s'.per.mem == s1.per.mem
    ensures s'.committed == CopyBytes(s.committed, s.cur.mem, s.txs[k].before.Keys)
  {
    hide Inv, Apply, Enabled, Shape;
    FlushFacts(s, k);
    s1 := Apply(s, FlushData(k));
    assert s1.txs[k] == s.txs[k].(status := Flushed(false));
    var s2;
    s2, s' := EndIsRun(s1, k, header);
    ThreeSteps(s, FlushData(k), Close(k), CloseFence(k, header));
    OneStep(s, FlushData(k));
  }

  lemma OneStep(s: State, a: Step)
    requires Shape(s) && Enabled(s, a)
    ensures IsRun(s, [a]) && After(s, [a]) == Apply(s, a)
  {
    hide Apply, Enabled, Shape;
    assert [a][1..] == [];
  }

  /** The abort call: the logged bytes go back, newest first, as Journal.AbortTransaction puts them back, and
      are fenced while no end entry exists; then the abort entry is written and fenced. */
  lemma AbortIsRun(s: State, k: nat, header: bool) returns (s2: State, s': State)
    requires Inv(s) && Shape(s) && k < |s.txs| && s.txs[k].status.Running?
    requires s.txs[k].fenced == |s.txs[k].log| < s.txs[k].size
    requires header || Covered(s.per.hdr, s.txs[k])
    ensures s.txs[k].start + |s.txs[k].log| <= |s.cur.ring.slots|
    ensures IsRun(s, [UndoAll(k), FlushUndo(k)]) && After(s, [UndoAll(k), FlushUndo(k)]) == s2
    ensures var t := s.txs[k];
      s2.cur == s.cur.(mem := UndoRange(s.cur.mem, s.cur.ring.slots, t.start, t.start + |t.log|, t.gen))
    ensures s2.per.ring == s.per.ring && Persisted(s.txs[k], s2.cur.mem, s2)
    ensures IsRun(s, [UndoAll(k), FlushUndo(k), Close(k), CloseFence(k, header)])
    ensures After(s, [UndoAll(k), FlushUndo(k), Close(k), CloseFence(k, header)]) == s'
    ensures EndFenced(s, s', k, Abort) && s'.cur.mem == s2.cur.mem && s'.per.mem == s2.per.mem
    ensures s'.committed == s.committed
  {
    hide Inv, Apply, Enabled, Shape, UndoRange;
    TxBounds(s, k);
    UndoFacts(s, k);
    var s1 := Apply(s, UndoAll(k));
    assert s1.txs[k] == s.txs[k].(status := Undone);
    FlushUndoFacts(s1, k);
    s2 := Apply(s1, FlushUndo(k));
    assert s2.txs[k] == s.txs[k].(status := Flushed(true));
    var s3;
    s3, s' := EndIsRun(s2, k, header);
    ThreeSteps(s1, FlushUndo(k), Close(k), CloseFence(k, header));
    FirstStep(s, UndoAll(k), [FlushUndo(k), Close(k), CloseFence(k, header)]);
    assert [UndoAll(k)] +
      [FlushUndo(k), Close(k), CloseFence(k, header)] == [UndoAll(k), FlushUndo(k), Close(k), CloseFence(k, header)];
    OneStep(s1, FlushUndo(k));
    FirstStep(s, UndoAll(k), [FlushUndo(k)]);
    assert [UndoAll(k)] + [FlushUndo(k)] == [UndoAll(k), FlushUndo(k)];
  }
}
