/** The undo journal as a state machine over cached and persisted memory.

    Every store goes to `cur`; a cache line (here: a byte of file system memory, a log entry, or
    the header line) reaches `per` when a fence waits for it or when the cache evicts it, which
    may happen at any moment. A crash leaves `per`. Threads interleave at the granularity of the
    steps below; the journal mutex is modelled by `cleaner`. */
module JournalMachine {
  import opened JournalRing
  import opened JournalCleaner

  /** Progress of a transaction: open, rolled back by abort, data flushed, end entry written,
      end entry fenced. */
  datatype Status = Running | Undone | Flushed(aborted: bool) | Closing(aborted: bool) | Done

  /** A transaction with its reserved slots [start..start+size), the entries published so far,
      how many of them are fenced, and the bytes it logged, as they were when first logged. */
  datatype Tx = Tx(start: nat, size: nat, lap: int, gen: nat,
                   log: seq<Entry>, fenced: nat, status: Status, before: Memory)
  {
    predicate Ended() {
      status.Closing? || status.Done?
    }

    function End(): nat {
      start + size
    }

    /** Byte a is covered by an entry among the first n. */
    predicate Logged(a: nat, n: nat)
      requires n <= |log|
    {
      exists j :: 0 <= j < n && log[j].Covers(a)
    }
  }

  /** The ring of log entries; own[i] is the transaction that last gave slot i its generation. */
  datatype Ring = Ring(slots: seq<Entry>, own: seq<int>)

  datatype View = View(mem: Memory, ring: Ring, hdr: Header)

  datatype Cleaner = Idle | Scan(at: nat, lap: int) | Zero(next: nat, last: nat, lap: int)

  /** committed is the memory a reader expects after the transactions committed so far. */
  datatype State = State(cur: View, per: View, committed: Memory, txs: seq<Tx>, cleaner: Cleaner)

  /** The lap that slot i belongs to at present. */
  function LapAt(h: Header, i: int): int {
    if i < h.tail then h.lap else h.lap - 1
  }

  /** Slot i lies between head and tail. */
  predicate Live(h: Header, i: int) {
    if h.head <= h.tail then h.head <= i < h.tail else h.head <= i || i < h.tail
  }

  /** The lap in which slot i is live, or will be once it is reserved again. */
  function NextLap(h: Header, i: int): int {
    if Live(h, i) then LapAt(h, i) else LapAt(h, i) + 1
  }

  /** Free entries, less the one that keeps a full ring from looking empty. */
  function Avail(h: Header, n: nat): int {
    (if h.tail >= h.head then n - (h.tail - h.head) else h.head - h.tail) - 1
  }

  /** Header h already accounts for transaction t's reservation. */
  predicate Covered(h: Header, t: Tx) {
    t.lap < h.lap || (t.lap == h.lap && t.End() <= h.tail)
  }

  predicate Unreleased(s: State, k: int) {
    0 <= k < |s.txs| && !s.txs[k].status.Done?
  }

  /** No other unreleased transaction has logged byte a. */
  ghost predicate FreeFor(s: State, k: int, a: nat) {
    forall j :: Unreleased(s, j) && j != k ==> a !in s.txs[j].before
  }

  // ---- Steps ---------------------------------------------------------------------------------

  datatype Step =
    | EvictByte(a: nat)
    | EvictSlot(i: nat)
    | EvictHeader
    | Wrap(req: nat)
    | Reserve(req: nat)
    | Scribble(k: nat, e: Entry)
    | Publish(k: nat, addr: nat, len: nat)
    | Fence(k: nat, header: bool)
    | Write(k: nat, a: nat, v: Byte)
    | FlushData(k: nat)
    | UndoAll(k: nat)
    | FlushUndo(k: nat)
    | Close(k: nat)
    | CloseFence(k: nat, header: bool)
    | CleanBegin
    | CleanSkip
    | CleanTake
    | CleanZero
    | CleanDone

  /** Array bounds: all four slot sequences are the ring, every reservation lies inside it. */
  predicate Shape(s: State) {
    var n := |s.cur.ring.slots|;
    && n == |s.cur.ring.own| == |s.per.ring.slots| == |s.per.ring.own|
    && s.cur.hdr.head < n && s.cur.hdr.tail < n && s.per.hdr.head < n && s.per.hdr.tail < n
    && s.cur.mem.Keys == s.per.mem.Keys == s.committed.Keys
    && (forall k :: 0 <= k < |s.txs| ==> TxShape(s.txs[k], k, n))
    && (s.cleaner.Scan? ==> s.cleaner.at < n)
    && (s.cleaner.Zero? ==> s.cleaner.next <= s.cleaner.last < n)
  }

  predicate TxShape(t: Tx, k: int, n: nat) {
    && 1 <= t.size && t.End() <= n
    && t.fenced <= |t.log| <= t.size && (!t.Ended() ==> |t.log| < t.size)
    && t.gen == GenOf(t.lap)
    && (forall j :: 0 <= j < |t.log| ==> EntryShape(t, k, j))
    && (t.Ended() ==> 1 <= |t.log| <= t.fenced + 1)
    && ((t.status.Undone? || t.status.Flushed? || t.status.Done?) ==> t.fenced == |t.log|)
  }

  /** Entry j of transaction k: the first one is the start, the last one of an ended transaction
      its commit or abort; the others save something. */
  predicate EntryShape(t: Tx, k: int, j: int)
    requires 0 <= j < |t.log|
  {
    && t.log[j].gen == t.gen && t.log[j].tid == k
    && (t.log[j].isStart <==> j == 0)
    && (t.log[j].Fin() <==> t.Ended() && j == |t.log| - 1)
    && (t.log[j].Fin() || t.log[j].data != [])
  }

  ghost predicate Enabled(s: State, step: Step)
    requires Shape(s)
  {
    var n := |s.cur.ring.slots|;
    match step
    case EvictByte(a) => a in s.cur.mem
    case EvictSlot(i) => i < n
    case EvictHeader => true
    case Wrap(req) =>
      s.cleaner.Idle? && req <= Avail(s.cur.hdr, n) && s.cur.hdr.tail + req >= n
    case Reserve(req) =>
      s.cleaner.Idle? && 1 <= req <= Avail(s.cur.hdr, n) && s.cur.hdr.tail + req < n
    case Scribble(k, e) =>
      && k < |s.txs| && !s.txs[k].Ended() && |s.txs[k].log| < s.txs[k].size
      && e.gen == s.cur.ring.slots[s.txs[k].start + |s.txs[k].log|].gen
    case Publish(k, addr, len) =>
      && k < |s.txs| && s.txs[k].status.Running? && |s.txs[k].log| + 1 < s.txs[k].size
      && 1 <= len <= MAX_DATA_PER_LENTRY
      && forall a :: addr <= a < addr + len ==> a in s.cur.mem && FreeFor(s, k, a)
    case Fence(k, header) =>
      k < |s.txs| && s.txs[k].status.Running? && (header || Covered(s.per.hdr, s.txs[k]))
    case Write(k, a, v) =>
      && k < |s.txs| && s.txs[k].status.Running? && a in s.cur.mem
      && s.txs[k].Logged(a, s.txs[k].fenced)
    case FlushData(k) =>
      k < |s.txs| && s.txs[k].status.Running? && s.txs[k].fenced == |s.txs[k].log|
    case UndoAll(k) =>
      k < |s.txs| && s.txs[k].status.Running? && s.txs[k].fenced == |s.txs[k].log|
    case FlushUndo(k) =>
      k < |s.txs| && s.txs[k].status.Undone?
    case Close(k) =>
      k < |s.txs| && s.txs[k].status.Flushed? && |s.txs[k].log| < s.txs[k].size
    case CloseFence(k, header) =>
      k < |s.txs| && s.txs[k].status.Closing? && (header || Covered(s.per.hdr, s.txs[k]))
    case CleanBegin =>
      s.cleaner.Idle? && forall k :: Unreleased(s, k) ==> 1 <= |s.txs[k].log|
    case CleanSkip =>
      && s.cleaner.Scan? && s.cleaner.at < n && s.cleaner.at != s.cur.hdr.tail
      && s.cur.ring.slots[s.cleaner.at].gen != GenOf(s.cleaner.lap)
    case CleanTake =>
      && s.cleaner.Scan? && s.cleaner.at < n && s.cleaner.at != s.cur.hdr.tail && s.cur.hdr.tail < n
      && s.cur.ring.slots[s.cleaner.at].gen == GenOf(s.cleaner.lap)
      && s.cur.ring.slots[s.cleaner.at].isStart
      && FindEnd(s.cur.ring.slots, s.cleaner.at, s.cur.hdr.tail, GenOf(s.cleaner.lap)).Some?
      && s.cleaner.at <= FindEnd(s.cur.ring.slots, s.cleaner.at, s.cur.hdr.tail, GenOf(s.cleaner.lap)).value
    case CleanZero =>
      s.cleaner.Zero? && s.cleaner.next < n
    case CleanDone =>
      s.cleaner.Scan?
  }

  /** Copies the bytes in `keys` from one memory to another. */
  function CopyBytes(to: Memory, from: Memory, keys: set<nat>): (r: Memory)
    requires to.Keys == from.Keys
    ensures r.Keys == to.Keys
  {
    map a | a in to :: if a in keys then from[a] else to[a]
  }

  /** Slots [lo..hi) of the persisted ring catch up with the cached ones. */
  function PersistSlots(per: Ring, cur: Ring, lo: nat, hi: nat): (r: Ring)
    requires lo <= hi <= |cur.slots| == |per.slots| == |cur.own| == |per.own|
    ensures |r.slots| == |r.own| == |per.slots|
  {
    Ring(per.slots[..lo] + cur.slots[lo..hi] + per.slots[hi..],
         per.own[..lo] + cur.own[lo..hi] + per.own[hi..])
  }

  function PutEntry(r: Ring, i: nat, e: Entry, k: int): Ring
    requires i < |r.slots| == |r.own|
  {
    Ring(r.slots[i := e], r.own[i := k])
  }

  /** gen_id := 0 in slot i. */
  function ZeroSlot(r: Ring, i: nat): Ring
    requires i < |r.slots|
  {
    r.(slots := r.slots[i := r.slots[i].(gen := 0)])
  }

  function Bytes(mem: Memory, addr: nat, len: nat): (r: seq<Byte>)
    requires forall a :: addr <= a < addr + len ==> a in mem
    ensures |r| == len
  {
    seq(len, i requires 0 <= i < len => mem[addr + i])
  }

  /** The bytes of [addr..addr+len) join those already saved; saved ones keep their value. */
  function Remember(before: Memory, mem: Memory, addr: nat, len: nat): (r: Memory)
    requires forall a :: addr <= a < addr + len ==> a in mem
  {
    (map a | addr <= a < addr + len :: mem[a]) + before
  }

  function NextScan(n: nat, at: nat, lap: int): Cleaner {
    Scan(NextSlot(n, at), if NextSlot(n, at) == 0 then lap + 1 else lap)
  }

  /** Slot i comes before the cleaner's position in log order. */
  predicate Before(h: Header, c: Cleaner, i: int) {
    match c
    case Idle => false
    case Scan(at, lap) => LapAt(h, i) < lap || (LapAt(h, i) == lap && i < at)
    case Zero(next, last, lap) => LapAt(h, i) < lap || (LapAt(h, i) == lap && i < next)
  }

  /** Slot i belongs to the MAX_GEN_ID lap and the running cleaner has passed it. */
  predicate InZone(h: Header, c: Cleaner, i: int) {
    Live(h, i) && GenOf(LapAt(h, i)) == MAX_GEN_ID && Before(h, c, i)
  }

  function Apply(s: State, step: Step): State
    requires Shape(s) && Enabled(s, step)
  {
    var n := |s.cur.ring.slots|;
    var h := s.cur.hdr;
    match step
    case EvictByte(a) => s.(per := s.per.(mem := s.per.mem[a := s.cur.mem[a]]))
    case EvictSlot(i) => s.(per := s.per.(ring := PersistSlots(s.per.ring, s.cur.ring, i, i + 1)))
    case EvictHeader => s.(per := s.per.(hdr := h))
    case Wrap(_) => s.(cur := s.cur.(hdr := Header(h.head, 0, NextGen(h.gen), h.lap + 1)))
    case Reserve(req) =>
      s.(cur := s.cur.(hdr := h.(tail := h.tail + req)),
         txs := s.txs + [Tx(h.tail, req, h.lap, h.gen, [], 0, Running, map[])])
    case Scribble(k, e) =>
      var i := s.txs[k].start + |s.txs[k].log|;
      s.(cur := s.cur.(ring := s.cur.ring.(slots := s.cur.ring.slots[i := e])))
    case Publish(k, addr, len) =>
      var t := s.txs[k];
      var e := Entry(addr, k, t.gen, |t.log| == 0, false, false, Bytes(s.cur.mem, addr, len));
      s.(cur := s.cur.(ring := PutEntry(s.cur.ring, t.start + |t.log|, e, k)),
         txs := s.txs[k := t.(log := t.log + [e], before := Remember(t.before, s.cur.mem, addr, len))])
    case Fence(k, header) =>
      var t := s.txs[k];
      s.(per := s.per.(ring := PersistSlots(s.per.ring, s.cur.ring, t.start, t.start + |t.log|),
                       hdr := if header then h else s.per.hdr),
         txs := s.txs[k := t.(fenced := |t.log|)])
    case Write(k, a, v) => s.(cur := s.cur.(mem := s.cur.mem[a := v]))
    case FlushData(k) =>
      s.(per := s.per.(mem := CopyBytes(s.per.mem, s.cur.mem, s.txs[k].before.Keys)),
         txs := s.txs[k := s.txs[k].(status := Flushed(false))])
    case UndoAll(k) =>
      var t := s.txs[k];
      s.(cur := s.cur.(mem := UndoRange(s.cur.mem, s.cur.ring.slots, t.start, t.start + |t.log|, t.gen)),
         txs := s.txs[k := t.(status := Undone)])
    case FlushUndo(k) =>
      s.(per := s.per.(mem := CopyBytes(s.per.mem, s.cur.mem, s.txs[k].before.Keys)),
         txs := s.txs[k := s.txs[k].(status := Flushed(true))])
    case Close(k) =>
      var t := s.txs[k];
      var aborted := t.status.aborted;
      var e := Entry(0, k, t.gen, |t.log| == 0, !aborted, aborted, []);
      s.(cur := s.cur.(ring := PutEntry(s.cur.ring, t.start + |t.log|, e, k)),
         committed := if aborted then s.committed else CopyBytes(s.committed, s.cur.mem, t.before.Keys),
         txs := s.txs[k := t.(log := t.log + [e], status := Closing(aborted))])
    case CloseFence(k, header) =>
      var t := s.txs[k];
      s.(per := s.per.(ring := PersistSlots(s.per.ring, s.cur.ring, t.start + |t.log| - 1, t.start + |t.log|),
                       hdr := if header then h else s.per.hdr),
         txs := s.txs[k := t.(fenced := |t.log|, status := Done)])
    case CleanBegin =>
      s.(cleaner := Scan(h.head, if h.tail < h.head then h.lap - 1 else h.lap))
    case CleanSkip =>
      var c := s.cleaner;
      s.(cur := if GenOf(c.lap) == MAX_GEN_ID then s.cur.(ring := ZeroSlot(s.cur.ring, c.at)) else s.cur,
         cleaner := NextScan(n, c.at, c.lap))
    case CleanTake =>
      var c := s.cleaner;
      var f := FindEnd(s.cur.ring.slots, c.at, h.tail, GenOf(c.lap)).value;
      s.(cleaner := if GenOf(c.lap) == MAX_GEN_ID && c.at <= f then Zero(c.at, f, c.lap)
                    else NextScan(n, f, c.lap))
    case CleanZero =>
      var c := s.cleaner;
      var e := s.cur.ring.slots[c.next];
      var zeroed := ZeroSlot(s.cur.ring, c.next);
      s.(cur := s.cur.(ring := zeroed),
         per := if e.isStart && !e.Fin()
                then s.per.(ring := PersistSlots(s.per.ring, zeroed, c.next, c.next + 1)) else s.per,
         cleaner := if c.next == c.last then NextScan(n, c.last, c.lap) else c.(next := c.next + 1))
    case CleanDone =>
      var h' := h.(head := s.cleaner.at);
      s.(cur := s.cur.(hdr := h'),
         per := s.per.(ring := PersistZone(s), hdr := h'),
         cleaner := Idle)
  }

  /** The persisted ring once the cleaner's last fence has waited for every slot it zeroed. */
  function PersistZone(s: State): (r: Ring)
    requires Shape(s)
    ensures |r.slots| == |r.own| == |s.per.ring.slots|
  {
    var n := |s.per.ring.slots|;
    Ring(seq(n, i requires 0 <= i < n =>
               if InZone(s.cur.hdr, s.cleaner, i) then s.cur.ring.slots[i] else s.per.ring.slots[i]),
         s.per.ring.own)
  }

  /** A formatted journal over a memory without open transactions. */
  function Format(n: nat, mem: Memory): State
    requires 2 <= n
  {
    var v := View(mem, Ring(seq(n, i => BLANK), seq(n, i => 0)), Header(0, 0, 1, 0));
    State(v, v, mem, [], Idle)
  }
}
