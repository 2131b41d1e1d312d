/** What every step of the journal keeps: the journalled bytes. */
module JournalMemory {
  import opened JournalRing
  import opened JournalMachine
  import opened UndoRecovery

  /** Entry m is the first one to cover byte a and saved the value remembered for it. */
  ghost predicate SavedAt(t: Tx, a: nat, m: int)
    requires a in t.before
  {
    && 0 <= m < |t.log| && t.log[m].Covers(a)
    && t.log[m].data[a - t.log[m].addr] == t.before[a]
    && forall j :: 0 <= j < m ==> !t.log[j].Covers(a)
  }

  ghost predicate Saved(t: Tx, a: nat)
    requires a in t.before
  {
    exists m :: SavedAt(t, a, m)
  }

  /** Every entry that covers byte a saved the same value. */
  ghost predicate Uniform(t: Tx, a: nat)
    requires a in t.before
  {
    forall j :: 0 <= j < |t.log| && t.log[j].Covers(a) ==> t.log[j].data[a - t.log[j].addr] == t.before[a]
  }

  /** before remembers exactly the bytes that the entries cover. */
  ghost predicate Remembers(t: Tx) {
    && t.fenced <= |t.log|
    && (forall j, a :: 0 <= j < |t.log| && t.log[j].Covers(a) ==> a in t.before)
    && (forall a :: a in t.before ==> Saved(t, a))
  }

  /** c, p and m are the cached, persisted and committed values of byte a, logged by t. */
  ghost predicate StageOk(t: Tx, a: nat, c: Byte, p: Byte, m: Byte)
    requires a in t.before && t.fenced <= |t.log|
  {
    var v := t.before[a];
    // not yet protected by a fenced entry: not yet written, and every copy is the original
    && (!t.Logged(a, t.fenced) ==> c == p == v && Uniform(t, a))
    && (t.status.Undone? || ((t.status.Flushed? || t.status.Closing?) && t.status.aborted) ==> c == v)
    && (t.status.Flushed? || t.status.Closing? ==> p == c)
    && m == if t.status == Closing(false) then c else v
  }

  ghost predicate TxBytesOk(cur: Memory, per: Memory, committed: Memory, t: Tx)
    requires cur.Keys == per.Keys == committed.Keys
  {
    !t.status.Done? ==>
      Remembers(t) && forall a :: a in t.before ==> a in cur && StageOk(t, a, cur[a], per[a], committed[a])
  }

  /** Unreleased transactions have logged disjoint bytes. */
  ghost predicate Disjoint(txs: seq<Tx>) {
    forall j, k :: 0 <= j < |txs| && 0 <= k < |txs| && j != k && !txs[j].status.Done? && !txs[k].status.Done? ==>
      txs[j].before.Keys !! txs[k].before.Keys
  }

  ghost predicate Owned(txs: seq<Tx>, a: nat) {
    exists k :: 0 <= k < |txs| && !txs[k].status.Done? && a in txs[k].before
  }

  ghost predicate AgreeWhereFree(cur: Memory, per: Memory, committed: Memory, txs: seq<Tx>)
    requires cur.Keys == per.Keys == committed.Keys
  {
    forall a :: a in cur && !Owned(txs, a) ==> cur[a] == per[a] == committed[a]
  }

  ghost predicate MemOk(cur: Memory, per: Memory, committed: Memory, txs: seq<Tx>) {
    && cur.Keys == per.Keys == committed.Keys
    && (forall k :: 0 <= k < |txs| ==> TxBytesOk(cur, per, committed, txs[k]))
    && Disjoint(txs)
    && AgreeWhereFree(cur, per, committed, txs)
  }

  ghost predicate MemInv(s: State) {
    MemOk(s.cur.mem, s.per.mem, s.committed, s.txs)
  }

  lemma FormatMem(n: nat, mem: Memory)
    requires 2 <= n
    ensures MemInv(Format(n, mem))
  {
  }

  lemma OwnedUpdate(txs: seq<Tx>, k: nat, t': Tx, a: nat)
    requires k < |txs| && a !in t'.before && a !in txs[k].before
    ensures Owned(txs[k := t'], a) <==> Owned(txs, a)
  {
    var txs' := txs[k := t'];
    if Owned(txs, a) {
      var j :| 0 <= j < |txs| && !txs[j].status.Done? && a in txs[j].before;
      assert txs'[j] == txs[j];
    }
    if Owned(txs', a) {
      var j :| 0 <= j < |txs'| && !txs'[j].status.Done? && a in txs'[j].before;
      assert txs'[j] == txs[j];
    }
  }

  /** The three memories differ from their successors only on bytes that t' owns. */
  ghost predicate ChangesWithin(cur: Memory, per: Memory, committed: Memory,
                                cur': Memory, per': Memory, committed': Memory, t': Tx) {
    && cur'.Keys == per'.Keys == committed'.Keys == cur.Keys == per.Keys == committed.Keys
    && forall a :: a in cur && a !in t'.before ==>
       cur'[a] == cur[a] && per'[a] == per[a] && committed'[a] == committed[a]
  }

  lemma OthersUnchanged(cur: Memory, per: Memory, committed: Memory, cur': Memory, per': Memory, committed': Memory,
                        t': Tx, u: Tx)
    requires ChangesWithin(cur, per, committed, cur', per', committed', t')
    requires TxBytesOk(cur, per, committed, u) && u.before.Keys !! t'.before.Keys
    ensures TxBytesOk(cur', per', committed', u)
  {
    if !u.status.Done? {
      forall a | a in u.before ensures a in cur' && StageOk(u, a, cur'[a], per'[a], committed'[a]) {
        assert a in u.before.Keys;
        assert StageOk(u, a, cur[a], per[a], committed[a]);
      }
    }
  }

  lemma FreeUnchanged(cur: Memory, per: Memory, committed: Memory, cur': Memory, per': Memory, committed': Memory,
                      txs: seq<Tx>, k: nat, t': Tx)
    requires ChangesWithin(cur, per, committed, cur', per', committed', t')
    requires AgreeWhereFree(cur, per, committed, txs) && k < |txs| && !t'.status.Done?
    requires txs[k].before.Keys <= t'.before.Keys
    ensures AgreeWhereFree(cur', per', committed', txs[k := t'])
  {
    hide Owned;
    forall a | a in cur' && !Owned(txs[k := t'], a) ensures cur'[a] == per'[a] == committed'[a] {
      OwnerOwns(txs[k := t'], k, a);
      assert a !in t'.before.Keys;
      OwnedUpdate(txs, k, t', a);
    }
  }

  lemma OwnerOwns(txs: seq<Tx>, k: nat, a: nat)
    requires k < |txs| && !txs[k].status.Done?
    ensures a in txs[k].before ==> Owned(txs, a)
  {
  }

  lemma DisjointUpdate(txs: seq<Tx>, k: nat, t': Tx)
    requires Disjoint(txs) && k < |txs| && !txs[k].status.Done? && t'.before.Keys == txs[k].before.Keys
    ensures Disjoint(txs[k := t'])
  {
  }

  /** Bytes change only where transaction k owns them, and its own stay in order. */
  lemma OwnerChanges(cur: Memory, per: Memory, committed: Memory, cur': Memory, per': Memory, committed': Memory,
                     txs: seq<Tx>, k: nat, t': Tx)
    requires MemOk(cur, per, committed, txs) && k < |txs| && !txs[k].status.Done? && !t'.status.Done?
    requires t'.before.Keys == txs[k].before.Keys
    requires ChangesWithin(cur, per, committed, cur', per', committed', t')
    requires TxBytesOk(cur', per', committed', t')
    ensures MemOk(cur', per', committed', txs[k := t'])
  {
    FreeUnchanged(cur, per, committed, cur', per', committed', txs, k, t');
    DisjointUpdate(txs, k, t');
    hide TxBytesOk, AgreeWhereFree;
    var txs' := txs[k := t'];
    forall j | 0 <= j < |txs'| ensures TxBytesOk(cur', per', committed', txs'[j]) {
      if j != k {
        UnreleasedOther(cur, per, committed, cur', per', committed', txs, k, t', j);
      }
    }
  }

  lemma UnreleasedOther(cur: Memory, per: Memory, committed: Memory, cur': Memory, per': Memory, committed': Memory,
                        txs: seq<Tx>, k: nat, t': Tx, j: nat)
    requires MemOk(cur, per, committed, txs) && k < |txs| && j < |txs| && j != k && !txs[k].status.Done?
    requires t'.before.Keys == txs[k].before.Keys && ChangesWithin(cur, per, committed, cur', per', committed', t')
    ensures TxBytesOk(cur', per', committed', txs[j])
  {
    hide StageOk, Remembers, AgreeWhereFree;
    assert TxBytesOk(cur, per, committed, txs[j]);
    if !txs[j].status.Done? {
      OthersUnchanged(cur, per, committed, cur', per', committed', t', txs[j]);
    }
  }

  // ---- Steps -------------------------------------------------------------------------------------------

  lemma EvictByteTx(cur: Memory, per: Memory, committed: Memory, t: Tx, a: nat)
    requires cur.Keys == per.Keys == committed.Keys && a in cur && TxBytesOk(cur, per, committed, t)
    ensures TxBytesOk(cur, per[a := cur[a]], committed, t)
  {
    var per' := per[a := cur[a]];
    if !t.status.Done? {
      forall b | b in t.before ensures b in cur && StageOk(t, b, cur[b], per'[b], committed[b]) {
        assert StageOk(t, b, cur[b], per[b], committed[b]);
      }
    }
  }

  lemma EvictByteMem(cur: Memory, per: Memory, committed: Memory, txs: seq<Tx>, a: nat)
    requires MemOk(cur, per, committed, txs) && a in cur
    ensures MemOk(cur, per[a := cur[a]], committed, txs)
  {
    hide TxBytesOk, Disjoint, Owned;
    forall k | 0 <= k < |txs| ensures TxBytesOk(cur, per[a := cur[a]], committed, txs[k]) {
      EvictByteTx(cur, per, committed, txs[k], a);
    }
  }

  lemma ReserveFree(cur: Memory, per: Memory, committed: Memory, txs: seq<Tx>, t: Tx)
    requires cur.Keys == per.Keys == committed.Keys && AgreeWhereFree(cur, per, committed, txs)
    ensures AgreeWhereFree(cur, per, committed, txs + [t])
  {
    hide Owned;
    forall a | a in cur && !Owned(txs + [t], a) ensures cur[a] == per[a] == committed[a] {
      OwnedPrefix(txs, t, a);
    }
  }

  lemma ReserveTx(cur: Memory, per: Memory, committed: Memory, t: Tx)
    requires cur.Keys == per.Keys == committed.Keys && t.before == map[] && t.log == [] && t.fenced == 0
    ensures TxBytesOk(cur, per, committed, t)
  {
  }

  lemma ReserveMem(cur: Memory, per: Memory, committed: Memory, txs: seq<Tx>, t: Tx)
    requires MemOk(cur, per, committed, txs) && t.before == map[] && t.log == [] && t.fenced == 0
    ensures MemOk(cur, per, committed, txs + [t])
  {
    hide TxBytesOk, AgreeWhereFree;
    ReserveFree(cur, per, committed, txs, t);
    ReserveTx(cur, per, committed, t);
    assert forall k :: 0 <= k < |txs| ==> (txs + [t])[k] == txs[k];
  }

  lemma OwnedPrefix(txs: seq<Tx>, t: Tx, a: nat)
    ensures Owned(txs, a) ==> Owned(txs + [t], a)
  {
    if Owned(txs, a) {
      var j :| 0 <= j < |txs| && !txs[j].status.Done? && a in txs[j].before;
      assert (txs + [t])[j] == txs[j];
    }
  }

  /** t' is t after logging the bytes [addr..addr+len) of memory cur. */
  ghost predicate LogsRange(cur: Memory, t: Tx, t': Tx, addr: nat, len: nat) {
    && (forall a :: addr <= a < addr + len ==> a in cur)
    && t'.fenced == t.fenced && t'.status == t.status == Running
    && t'.before == Remember(t.before, cur, addr, len)
    && |t'.log| == |t.log| + 1 && t.log == t'.log[..|t.log|]
    && t'.log[|t.log|].addr == addr && t'.log[|t.log|].data == Bytes(cur, addr, len)
  }

  lemma LoggedSame(cur: Memory, t: Tx, t': Tx, addr: nat, len: nat, a: nat)
    requires LogsRange(cur, t, t', addr, len) && t.fenced <= |t.log|
    ensures t'.Logged(a, t.fenced) <==> t.Logged(a, t.fenced)
  {
    assert forall j :: 0 <= j < |t.log| ==> t'.log[j] == t.log[j];
  }

  lemma RangeRemembered(cur: Memory, t: Tx, t': Tx, addr: nat, len: nat)
    requires LogsRange(cur, t, t', addr, len) && Remembers(t)
    ensures Remembers(t')
  {
    assert forall j :: 0 <= j < |t.log| ==> t'.log[j] == t.log[j];
    forall a | a in t'.before ensures Saved(t', a) {
      if a in t.before {
        var m :| SavedAt(t, a, m);
        assert SavedAt(t', a, m);
      } else {
        assert SavedAt(t', a, |t.log|);
      }
    }
  }

  lemma RangeStage(cur: Memory, per: Memory, committed: Memory, t: Tx, t': Tx, addr: nat, len: nat, a: nat)
    requires cur.Keys == per.Keys == committed.Keys
    requires LogsRange(cur, t, t', addr, len) && Remembers(t) && a in t'.before && a in cur
    requires a in t.before ==> StageOk(t, a, cur[a], per[a], committed[a])
    requires a !in t.before ==> cur[a] == per[a] == committed[a]
    ensures StageOk(t', a, cur[a], per[a], committed[a])
  {
    LoggedSame(cur, t, t', addr, len, a);
    assert forall j :: 0 <= j < |t.log| ==> t'.log[j] == t.log[j];
  }

  lemma PublishTx(cur: Memory, per: Memory, committed: Memory, txs: seq<Tx>, k: nat, t': Tx, addr: nat, len: nat)
    requires cur.Keys == per.Keys == committed.Keys && AgreeWhereFree(cur, per, committed, txs)
    requires k < |txs| && LogsRange(cur, txs[k], t', addr, len) && TxBytesOk(cur, per, committed, txs[k])
    requires forall a, j :: addr <= a < addr + len && 0 <= j < |txs| && j != k && !txs[j].status.Done? ==>
      a !in txs[j].before
    ensures TxBytesOk(cur, per, committed, t')
  {
    var t := txs[k];
    RangeRemembered(cur, t, t', addr, len);
    hide Remembers, StageOk;
    forall a | a in t'.before ensures a in cur && StageOk(t', a, cur[a], per[a], committed[a]) {
      if a !in t.before {
        assert !Owned(txs, a);
      }
      RangeStage(cur, per, committed, t, t', addr, len, a);
    }
  }

  lemma PublishDisjoint(cur: Memory, txs: seq<Tx>, k: nat, t': Tx, addr: nat, len: nat)
    requires Disjoint(txs) && k < |txs| && LogsRange(cur, txs[k], t', addr, len)
    requires forall a, j :: addr <= a < addr + len && 0 <= j < |txs| && j != k && !txs[j].status.Done? ==>
      a !in txs[j].before
    ensures Disjoint(txs[k := t'])
  {
    assert forall a :: a in t'.before.Keys ==> a in txs[k].before.Keys || addr <= a < addr + len;
    forall j | 0 <= j < |txs| && j != k && !txs[j].status.Done? ensures txs[j].before.Keys !! t'.before.Keys {
      assert txs[j].before.Keys !! txs[k].before.Keys;
    }
  }

  lemma PublishMem(cur: Memory, per: Memory, committed: Memory, txs: seq<Tx>, k: nat, t': Tx, addr: nat, len: nat)
    requires MemOk(cur, per, committed, txs) && k < |txs| && LogsRange(cur, txs[k], t', addr, len)
    requires forall a, j :: addr <= a < addr + len && 0 <= j < |txs| && j != k && !txs[j].status.Done? ==>
      a !in txs[j].before
    ensures MemOk(cur, per, committed, txs[k := t'])
  {
    PublishDisjoint(cur, txs, k, t', addr, len);
    hide TxBytesOk, Disjoint, AgreeWhereFree;
    PublishTx(cur, per, committed, txs, k, t', addr, len);
    FreeUnchanged(cur, per, committed, cur, per, committed, txs, k, t');
  }

  lemma StageMem(cur: Memory, per: Memory, committed: Memory, t: Tx, t': Tx)
    requires cur.Keys == per.Keys == committed.Keys
    requires TxBytesOk(cur, per, committed, t) && !t.status.Done?
    requires t' == t.(fenced := |t.log|)
    ensures TxBytesOk(cur, per, committed, t')
  {
    forall a | a in t.before ensures StageOk(t', a, cur[a], per[a], committed[a]) && Saved(t', a) {
      assert StageOk(t, a, cur[a], per[a], committed[a]);
      AllProtected(t, a);
      var m :| SavedAt(t, a, m);
      assert SavedAt(t', a, m);
      assert t'.log[m].Covers(a);
    }
  }

  /** Every remembered byte is covered by some entry. */
  lemma AllProtected(t: Tx, a: nat)
    requires Remembers(t) && a in t.before
    ensures t.Logged(a, |t.log|)
  {
    assert Saved(t, a);
    var m :| SavedAt(t, a, m);
    assert t.log[m].Covers(a);
  }

  lemma FenceMem(cur: Memory, per: Memory, committed: Memory, txs: seq<Tx>, k: nat)
    requires MemOk(cur, per, committed, txs) && k < |txs| && !txs[k].status.Done?
    ensures MemOk(cur, per, committed, txs[k := txs[k].(fenced := |txs[k].log|)])
  {
    var t' := txs[k].(fenced := |txs[k].log|);
    StageMem(cur, per, committed, txs[k], t');
    OwnerChanges(cur, per, committed, cur, per, committed, txs, k, t');
  }

  lemma WriteMem(cur: Memory, per: Memory, committed: Memory, txs: seq<Tx>, k: nat, a: nat, v: Byte)
    requires MemOk(cur, per, committed, txs) && k < |txs| && a in cur
    requires txs[k].status.Running? && txs[k].fenced <= |txs[k].log| && txs[k].Logged(a, txs[k].fenced)
    ensures MemOk(cur[a := v], per, committed, txs)
  {
    hide Disjoint, AgreeWhereFree, Owned;
    var t := txs[k];
    var cur' := cur[a := v];
    assert TxBytesOk(cur, per, committed, t);
    var j :| 0 <= j < t.fenced && t.log[j].Covers(a);
    assert a in t.before;
    forall b | b in t.before ensures b in cur' && StageOk(t, b, cur'[b], per[b], committed[b]) {
      assert StageOk(t, b, cur[b], per[b], committed[b]);
    }
    OwnerChanges(cur, per, committed, cur', per, committed, txs, k, t);
    assert txs[k := t] == txs;
  }

  /** The values that byte a of t must have for t to be in stage st. */
  ghost predicate StageValues(t: Tx, st: Status, a: nat, c: Byte, p: Byte, m: Byte)
    requires a in t.before
  {
    && (st.Undone? || ((st.Flushed? || st.Closing?) && st.aborted) ==> c == t.before[a])
    && (st.Flushed? || st.Closing? ==> p == c)
    && m == if st == Closing(false) then c else t.before[a]
  }

  lemma StatusTx(cur: Memory, per: Memory, committed: Memory, t: Tx, t': Tx)
    requires cur.Keys == per.Keys == committed.Keys
    requires Remembers(t) && t.fenced == |t.log| && t' == t.(status := t'.status)
    requires forall a :: a in t.before ==> a in cur && StageValues(t, t'.status, a, cur[a], per[a], committed[a])
    ensures TxBytesOk(cur, per, committed, t')
  {
    forall a | a in t.before ensures a in cur && Saved(t', a) && StageOk(t', a, cur[a], per[a], committed[a]) {
      assert StageValues(t, t'.status, a, cur[a], per[a], committed[a]);
      AllProtected(t, a);
      var m :| SavedAt(t, a, m);
      assert SavedAt(t', a, m);
      assert t'.log[m].Covers(a);
    }
  }

  /** A transaction with all its entries fenced moves to a later stage before its release. */
  lemma StatusMem(cur: Memory, per: Memory, committed: Memory, cur': Memory, per': Memory, committed': Memory,
                  txs: seq<Tx>, k: nat, st: Status)
    requires MemOk(cur, per, committed, txs) && k < |txs|
    requires txs[k].fenced == |txs[k].log| && !txs[k].status.Done? && !st.Done?
    requires ChangesWithin(cur, per, committed, cur', per', committed', txs[k])
    requires forall a :: a in txs[k].before && a in cur' ==> StageValues(txs[k], st, a, cur'[a], per'[a], committed'[a])
    ensures MemOk(cur', per', committed', txs[k := txs[k].(status := st)])
  {
    hide Disjoint, AgreeWhereFree, Owned, StageValues, StageOk;
    var t' := txs[k].(status := st);
    assert TxBytesOk(cur, per, committed, txs[k]);
    StatusTx(cur', per', committed', txs[k], t');
    OwnerChanges(cur, per, committed, cur', per', committed', txs, k, t');
  }

  lemma EndEntryTx(cur: Memory, per: Memory, committed: Memory, t: Tx, e: Entry)
    requires cur.Keys == per.Keys == committed.Keys
    requires TxBytesOk(cur, per, committed, t) && !t.status.Done? && e.data == []
    ensures TxBytesOk(cur, per, committed, t.(log := t.log + [e]))
  {
    var t' := t.(log := t.log + [e]);
    assert forall j :: 0 <= j < |t.log| ==> t'.log[j] == t.log[j];
    forall a | a in t.before ensures Saved(t', a) && StageOk(t', a, cur[a], per[a], committed[a]) {
      assert StageOk(t, a, cur[a], per[a], committed[a]);
      assert t'.Logged(a, t.fenced) <==> t.Logged(a, t.fenced);
      var m :| SavedAt(t, a, m);
      assert SavedAt(t', a, m);
    }
  }

  /** Writing the end entry, which saves no bytes. */
  lemma EndEntryMem(cur: Memory, per: Memory, committed: Memory, txs: seq<Tx>, k: nat, e: Entry)
    requires MemOk(cur, per, committed, txs) && k < |txs| && txs[k].status.Closing? && e.data == []
    ensures MemOk(cur, per, committed, txs[k := txs[k].(log := txs[k].log + [e])])
  {
    hide Disjoint, AgreeWhereFree, Owned, TxBytesOk;
    EndEntryTx(cur, per, committed, txs[k], e);
    OwnerChanges(cur, per, committed, cur, per, committed, txs, k, txs[k].(log := txs[k].log + [e]));
  }

  lemma ReleaseFree(cur: Memory, per: Memory, committed: Memory, txs: seq<Tx>, k: nat, t': Tx)
    requires cur.Keys == per.Keys == committed.Keys && AgreeWhereFree(cur, per, committed, txs)
    requires k < |txs| && txs[k].status.Closing? && TxBytesOk(cur, per, committed, txs[k]) && t'.status.Done?
    ensures AgreeWhereFree(cur, per, committed, txs[k := t'])
  {
    hide Owned;
    forall a | a in cur && !Owned(txs[k := t'], a) ensures cur[a] == per[a] == committed[a] {
      if a in txs[k].before {
        assert StageOk(txs[k], a, cur[a], per[a], committed[a]);
      } else {
        OwnedElsewhere(txs, k, t', a);
      }
    }
  }

  lemma DoneTx(cur: Memory, per: Memory, committed: Memory, t: Tx)
    requires cur.Keys == per.Keys == committed.Keys && t.status.Done?
    ensures TxBytesOk(cur, per, committed, t)
  {
  }

  /** A transaction whose end entry is fenced gives its bytes up: all views agree on them. */
  lemma ReleaseMem(cur: Memory, per: Memory, committed: Memory, txs: seq<Tx>, k: nat, t': Tx)
    requires MemOk(cur, per, committed, txs) && k < |txs| && txs[k].status.Closing? && t'.status.Done?
    ensures MemOk(cur, per, committed, txs[k := t'])
  {
    hide TxBytesOk, AgreeWhereFree;
    DoneTx(cur, per, committed, t');
    ReleaseFree(cur, per, committed, txs, k, t');
  }

  lemma OwnedElsewhere(txs: seq<Tx>, k: nat, t': Tx, a: nat)
    requires k < |txs| && a !in txs[k].before
    ensures Owned(txs, a) ==> Owned(txs[k := t'], a)
  {
    if Owned(txs, a) {
      var j :| 0 <= j < |txs| && !txs[j].status.Done? && a in txs[j].before;
      assert txs[k := t'][j] == txs[j];
    }
  }

  /** Undoing the entries of t, which sit in slots [lo..hi), puts every byte it logged back to the
      first saved value and touches no other byte. */
  lemma UndoRestores(mem: Memory, slots: seq<Entry>, lo: nat, t: Tx, a: nat)
    requires Remembers(t) && lo + |t.log| <= |slots| && a in mem
    requires forall j :: 0 <= j < |t.log| ==> slots[lo + j] == t.log[j] && t.log[j].gen == t.gen
    ensures UndoRange(mem, slots, lo, lo + |t.log|, t.gen)[a] == if a in t.before then t.before[a] else mem[a]
  {
    var hi := lo + |t.log|;
    assert forall i :: lo <= i < hi ==> slots[i] == t.log[i - lo];
    if a in t.before {
      assert Saved(t, a);
      var m :| SavedAt(t, a, m);
      UndoRangeOldest(mem, slots, lo, hi, t.gen, a, lo + m);
    } else {
      UndoRangeKeeps(mem, slots, lo, hi, t.gen, a, mem[a]);
    }
  }
}
