/** Log entries, ring arithmetic and generation numbers of the undo journal. */
module JournalRing {

  const MAX_GEN_ID: nat := 65535
  const MAX_DATA_PER_LENTRY: nat := 48

  type Byte = b: int | 0 <= b < 256

  /** The journalled part of persistent memory, byte by byte. */
  type Memory = map<nat, Byte>

  /** One 64-byte log entry; the three flags are the bits of its type byte. */
  datatype Entry = Entry(addr: nat, tid: nat, gen: nat,
                         isStart: bool, isCommit: bool, isAbort: bool,
                         data: seq<Byte>)
  {
    predicate Fin() {
      isCommit || isAbort
    }

    predicate Covers(a: nat) {
      addr <= a < addr + |data|
    }
  }

  /** A zeroed slot, as format leaves it. */
  const BLANK: Entry := Entry(0, 0, 0, false, false, false, [])

  /** The journal's header line; head and tail count entries from the ring's base. lap is not
      stored anywhere: it is the unbounded number of which gen keeps 16 bits. */
  datatype Header = Header(head: nat, tail: nat, gen: nat, lap: int)

  function NextSlot(n: nat, i: nat): nat {
    if i + 1 >= n then 0 else i + 1
  }

  function PrevSlot(n: nat, i: nat): nat
    requires 0 < n
  {
    if i == 0 then n - 1 else i - 1
  }

  /** gen_id++ on 16 bits, skipping zero. */
  function NextGen(g: nat): nat {
    var g1 := (g + 1) % 65536;
    if g1 == 0 then 1 else g1
  }

  /** gen_id-- on 16 bits, skipping zero. */
  function PrevGen(g: nat): nat {
    var g1 := (g - 1) % 65536;
    if g1 == 0 then 65535 else g1
  }

  /** Lap numbers are unbounded; the generation is what 16 bits keep of them. */
  function GenOf(lap: int): (g: nat)
    ensures 1 <= g <= MAX_GEN_ID
  {
    lap % 65535 + 1
  }

  /** Laps between two uses of generation 1. */
  function Epoch(lap: int): int {
    lap / 65535
  }

  lemma GenFollowsLap(lap: int)
    ensures NextGen(GenOf(lap)) == GenOf(lap + 1)
    ensures PrevGen(GenOf(lap)) == GenOf(lap - 1)
    ensures GenOf(lap) == MAX_GEN_ID <==> Epoch(lap + 1) != Epoch(lap)
    ensures GenOf(lap) == MAX_GEN_ID ==> Epoch(lap + 1) == Epoch(lap) + 1
  {
  }

  /** Inside one epoch a generation identifies its lap. */
  lemma GenIdentifiesLap(l1: int, l2: int)
    requires Epoch(l1) == Epoch(l2)
    ensures GenOf(l1) == GenOf(l2) <==> l1 == l2
  {
  }

  /** Slots [lo..hi) with their generation zeroed. */
  function Wiped(slots: seq<Entry>, lo: nat, hi: nat): (r: seq<Entry>)
    requires hi <= |slots|
    ensures |r| == |slots|
  {
    seq(|slots|, i requires 0 <= i < |slots| => if lo <= i < hi then slots[i].(gen := 0) else slots[i])
  }

  /** Copies an entry's saved bytes back to where they came from. */
  function UndoEntry(mem: Memory, e: Entry): (r: Memory)
    ensures r.Keys == mem.Keys
  {
    map a | a in mem :: if e.Covers(a) then e.data[a - e.addr] else mem[a]
  }

  /** Undoes the entries of slots [lo..hi) that carry generation g, highest first. */
  function UndoRange(mem: Memory, slots: seq<Entry>, lo: nat, hi: nat, g: nat): (r: Memory)
    requires lo <= hi <= |slots|
    ensures r.Keys == mem.Keys
    decreases hi - lo
  {
    if hi == lo then mem
    else
      var m := if slots[hi - 1].gen == g then UndoEntry(mem, slots[hi - 1]) else mem;
      UndoRange(m, slots, lo, hi - 1, g)
  }
}
