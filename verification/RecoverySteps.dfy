/** The undo journal's recovery step by step, with a crash possible at every point: the scan from tail to
    head, the undo of a group entry by entry, the wiping of the MAX_GEN_ID lap slot by slot, the barriers,
    and the move to the next generation. Stores go to the cached image; a byte, a log slot or the header line
    reaches the persistent one at a barrier, or earlier when the cache evicts it. */
module RecoverySteps {
  import opened JournalRing
  import opened RecoveryGroups
  import opened UndoRecovery

  datatype Image = Image(mem: Memory, slots: seq<Entry>, hdr: Header)

  /** Where the code is: at the head of the scan's loop, having come down to slot tl, in the older lap if
      second; undoing the group [lo..hi) whose entries from `at` on are done; wiping it, done below `at`, with
      a barrier due; wiping the slots behind the tail, done below `at`; about to store the generation, then
      the head, then to flush both; finished. */
  datatype Phase =
    | Seek(tl: nat, second: bool)
    | Undoing(lo: nat, at: nat, hi: nat, second: bool)
    | Wiping(lo: nat, at: nat, hi: nat, second: bool, barrier: bool)
    | Sweep(at: nat)
    | Renumber
    | Rehead
    | Flush
    | Finished

  datatype Recovery = Recovery(cur: Image, per: Image, phase: Phase)

  /** The scan stands at slot tl of the given lap. */
  predicate InLap(n: nat, h: Header, tl: nat, second: bool) {
    if second then h.tail < h.head <= tl <= n else Floor(h, false) <= tl <= h.tail
  }

  predicate PhaseFits(n: nat, h: Header, p: Phase) {
    match p
    case Seek(tl, second) => InLap(n, h, tl, second)
    case Undoing(lo, at, hi, second) => InLap(n, h, lo, second) && InLap(n, h, hi, second) && lo <= at <= hi && lo < hi
    case Wiping(lo, at, hi, second, _) =>
      InLap(n, h, lo, second) && InLap(n, h, hi, second) && lo <= at <= hi && lo < hi
    case Sweep(at) => h.tail <= at <= n
    case _ => true
  }

  predicate Fits(r: Recovery) {
    && Bounds(r.cur.slots, r.cur.hdr) && Bounds(r.per.slots, r.per.hdr) && |r.per.slots| == |r.cur.slots|
    && r.per.mem.Keys == r.cur.mem.Keys
    && PhaseFits(|r.cur.slots|, r.cur.hdr, r.phase)
  }

  /** gen_id := 0 in slot i. */
  function WithoutGen(slots: seq<Entry>, i: nat): (r: seq<Entry>)
    requires i < |slots|
    ensures |r| == |slots|
  {
    slots[i := slots[i].(gen := 0)]
  }

  /** A slot whose type byte says start and nothing else, whatever its generation: wiping it is followed by a
      barrier. */
  predicate PlainStart(e: Entry) {
    e.isStart && !e.Fin()
  }

  /** The next thing that the code does. */
  function Advance(r: Recovery): (r': Recovery)
    requires Fits(r)
  {
    var c, h, n := r.cur, r.cur.hdr, |r.cur.slots|;
    match r.phase
    case Seek(tl, second) =>
      if tl == h.head then r.(phase := Sweep(h.tail))
      else
        var sec := second || tl == 0;
        var hi := if tl == 0 then n else tl;
        var g := LapGen(h, sec);
        if c.slots[hi - 1].gen != g then
          Recovery(if g == MAX_GEN_ID then c.(slots := WithoutGen(c.slots, hi - 1)) else c, r.per, Seek(hi - 1, sec))
        else
          var k := WalkBack(c.slots, Floor(h, sec), hi - 1, g);
          if RollsBack(c.slots, k, hi, g) then r.(phase := Undoing(k, hi, hi, sec))
          else if g == MAX_GEN_ID then r.(phase := Wiping(k, k, hi, sec, false))
          else r.(phase := Seek(k, sec))
    case Undoing(lo, at, hi, sec) =>
      var g := LapGen(h, sec);
      if at == lo then r.(phase := if g == MAX_GEN_ID then Wiping(lo, lo, hi, sec, true) else Seek(lo, sec))
      else
        var e := c.slots[at - 1];
        Recovery(if e.gen == g then c.(mem := UndoEntry(c.mem, e)) else c, r.per, Undoing(lo, at - 1, hi, sec))
    case Wiping(lo, at, hi, sec, barrier) =>
      if barrier then Recovery(c, c, Wiping(lo, at, hi, sec, false))
      else if at == hi then r.(phase := Seek(lo, sec))
      else Recovery(c.(slots := WithoutGen(c.slots, at)), r.per, Wiping(lo, at + 1, hi, sec, PlainStart(c.slots[at])))
    case Sweep(at) =>
      if h.gen == MAX_GEN_ID && at < n then Recovery(c.(slots := WithoutGen(c.slots, at)), r.per, Sweep(at + 1))
      else Recovery(c, c, Renumber)
    case Renumber => Recovery(c.(hdr := HalfForwarded(h)), r.per, Rehead)
    case Rehead => Recovery(c.(hdr := h.(head := h.tail)), r.per, Flush)
    case Flush => Recovery(c, c, Finished)
    case Finished => r
  }

  datatype RStep = Go | EvictByte(a: nat) | EvictSlot(i: nat) | EvictHeader

  function Take(r: Recovery, step: RStep): (r': Recovery)
    requires Fits(r)
  {
    match step
    case Go => Advance(r)
    case EvictByte(a) => if a in r.cur.mem then r.(per := r.per.(mem := r.per.mem[a := r.cur.mem[a]])) else r
    case EvictSlot(i) => if i < |r.cur.slots| then r.(per := r.per.(slots := r.per.slots[i := r.cur.slots[i]])) else r
    case EvictHeader => r.(per := r.per.(hdr := r.cur.hdr))
  }

  lemma AdvanceFits(r: Recovery)
    requires Fits(r)
    ensures Fits(Advance(r))
  {
    hide WalkBack, RollsBack, UndoEntry, Floor, LapGen;
    if r.phase.Seek? {
      SeekFits(r);
    }
  }

  lemma SeekFits(r: Recovery)
    requires Fits(r) && r.phase.Seek?
    ensures Fits(Advance(r)) && |Advance(r).cur.slots| == |r.cur.slots|
    ensures Advance(r).cur.mem == r.cur.mem && Advance(r).cur.hdr == r.cur.hdr && Advance(r).per == r.per
    ensures var h, n, tl, second := r.cur.hdr, |r.cur.slots|, r.phase.tl, r.phase.second;
      if tl == h.head then Advance(r).phase == Sweep(h.tail) && Advance(r).cur == r.cur
      else
        var sec := second || tl == 0; var hi := if tl == 0 then n else tl; var g := LapGen(h, sec);
        && InLap(n, h, hi, sec) && Floor(h, sec) < hi
        && if r.cur.slots[hi - 1].gen != g then
             && Advance(r).phase == Seek(hi - 1, sec)
             && Advance(r).cur.slots == if g == MAX_GEN_ID then WithoutGen(r.cur.slots, hi - 1) else r.cur.slots
           else
             var k := WalkBack(r.cur.slots, Floor(h, sec), hi - 1, g);
             && Advance(r).cur == r.cur && InLap(n, h, k, sec)
             && Advance(r).phase ==
                if RollsBack(r.cur.slots, k, hi, g) then Undoing(k, hi, hi, sec)
                else if g == MAX_GEN_ID then Wiping(k, k, hi, sec, false) else Seek(k, sec)
  {
    hide WalkBack, RollsBack, LapGen;
    if r.phase.tl != r.cur.hdr.head {
      SeekBounds(|r.cur.slots|, r.cur.hdr, r.phase.tl, r.phase.second);
    }
  }

  /** The slot below the scan's position, across the wrap. */
  lemma SeekBounds(n: nat, h: Header, tl: nat, second: bool)
    requires h.head < n && h.tail < n && InLap(n, h, tl, second) && tl != h.head
    ensures var sec := second || tl == 0; var hi := if tl == 0 then n else tl;
      && InLap(n, h, hi, sec) && InLap(n, h, hi - 1, sec) && Floor(h, sec) <= hi - 1
      && forall k :: Floor(h, sec) <= k <= hi ==> InLap(n, h, k, sec)
  {
  }

  lemma TakeFits(r: Recovery, step: RStep)
    requires Fits(r)
    ensures Fits(Take(r, step))
  {
    if step.Go? {
      AdvanceFits(r);
    }
  }

  /** Recovery of an image, before its first step. */
  function Begin(mem: Memory, slots: seq<Entry>, h: Header): (r: Recovery)
    requires Bounds(slots, h)
    ensures Fits(r)
  {
    Recovery(Image(mem, slots, h), Image(mem, slots, h), Seek(h.tail, false))
  }

  function Run(r: Recovery, steps: seq<RStep>): (r': Recovery)
    requires Fits(r)
    ensures Fits(r')
    decreases |steps|
  {
    if steps == [] then r
    else
      TakeFits(r, steps[0]);
      Run(Take(r, steps[0]), steps[1..])
  }

  lemma {:induction false} RunMore(r: Recovery, s1: seq<RStep>, s2: seq<RStep>)
    requires Fits(r)
    ensures Run(r, s1 + s2) == Run(Run(r, s1), s2)
    decreases |s1|
  {
    hide Fits, Take;
    if s1 == [] {
      assert s1 + s2 == s2;
    } else {
      assert (s1 + s2)[0] == s1[0] && (s1 + s2)[1..] == s1[1..] + s2;
      TakeFits(r, s1[0]);
      RunMore(Take(r, s1[0]), s1[1..], s2);
    }
  }

  /** Recovery, started again from what a crash leaves. */
  function Again(r: Recovery): (m: Memory)
    requires Fits(r)
    ensures m.Keys == r.per.mem.Keys
  {
    Recover(r.per.mem, r.per.slots, r.per.hdr)
  }

  // ---- What is still to be done ---------------------------------------------------------------------------

  /** Memory once the recovery that has come to phase p is complete, from the log as it was at first. */
  ghost function Completed(mem: Memory, slots: seq<Entry>, h: Header, p: Phase): (m: Memory)
    requires Bounds(slots, h) && PhaseFits(|slots|, h, p)
  {
    match p
    case Seek(tl, second) => RestOfRecovery(mem, slots, h, tl, second)
    case Undoing(lo, at, hi, second) =>
      RestOfRecovery(UndoRange(mem, slots, lo, at, LapGen(h, second)), slots, h, lo, second)
    case Wiping(lo, _, _, second, _) => RestOfRecovery(mem, slots, h, lo, second)
    case _ => mem
  }

  lemma CompletedFirst(mem: Memory, slots: seq<Entry>, h: Header)
    requires Bounds(slots, h)
    ensures Completed(mem, slots, h, Seek(h.tail, false)) == Recover(mem, slots, h)
  {
  }

  /** Slots that the scan has not reached yet are as they were. */
  ghost predicate AheadSame(slots: seq<Entry>, cur: seq<Entry>, h: Header, p: Phase) {
    |cur| == |slots| && match p
    case Seek(tl, second) => forall i :: 0 <= i < |slots| && Ahead(h, tl, second, i) ==> cur[i] == slots[i]
    case Undoing(lo, at, hi, second) => forall i :: 0 <= i < |slots| && Ahead(h, hi, second, i) ==> cur[i] == slots[i]
    case _ => true
  }

  /** Slot i is still to be scanned from position tl. */
  predicate Ahead(h: Header, tl: nat, second: bool, i: int) {
    if second || h.head <= h.tail then h.head <= i < tl
    else 0 <= i < tl || h.head <= i
  }

  /** Every step of the scan does what completing the recovery needs. */
  lemma StepCompletes(r: Recovery, slots: seq<Entry>, h: Header)
    requires Fits(r) && r.cur.hdr == h && Bounds(slots, h) && AheadSame(slots, r.cur.slots, h, r.phase)
    requires r.phase.Seek? || r.phase.Undoing? || r.phase.Wiping?
    ensures PhaseFits(|slots|, h, Advance(r).phase)
    ensures Completed(Advance(r).cur.mem, slots, h, Advance(r).phase) == Completed(r.cur.mem, slots, h, r.phase)
  {
    AdvanceFits(r);
    match r.phase {
      case Seek(tl, second) => SeekCompletes(r, slots, h, tl, second);
      case Undoing(lo, at, hi, second) => UndoCompletes(r, slots, h);
      case _ =>
    }
  }

  lemma UndoCompletes(r: Recovery, slots: seq<Entry>, h: Header)
    requires Fits(r) && r.cur.hdr == h && Bounds(slots, h) && AheadSame(slots, r.cur.slots, h, r.phase)
    requires r.phase.Undoing?
    ensures PhaseFits(|slots|, h, Advance(r).phase)
    ensures Completed(Advance(r).cur.mem, slots, h, Advance(r).phase) == Completed(r.cur.mem, slots, h, r.phase)
  {
    hide RestOfRecovery, WalkBack, RollsBack;
    var p := r.phase;
    if p.at > p.lo {
      assert Ahead(h, p.hi, p.second, p.at - 1);
      assert r.cur.slots[p.at - 1] == slots[p.at - 1];
    }
  }

  lemma SeekCompletes(r: Recovery, slots: seq<Entry>, h: Header, tl: nat, second: bool)
    requires Fits(r) && r.cur.hdr == h && Bounds(slots, h) && r.phase == Seek(tl, second)
    requires AheadSame(slots, r.cur.slots, h, r.phase)
    ensures PhaseFits(|slots|, h, Advance(r).phase)
    ensures Completed(Advance(r).cur.mem, slots, h, Advance(r).phase) == Completed(r.cur.mem, slots, h, r.phase)
  {
    hide WalkBack, RollsBack, RecoverSegment, UndoRange, Advance, RestOfRecovery, LapGen;
    SeekFits(r);
    if tl == h.head {
      RestIsDone(r.cur.mem, slots, h, second);
    } else {
      SeekBounds(|slots|, h, tl, second);
      var sec := second || tl == 0;
      var hi := if tl == 0 then |slots| else tl;
      var g, lo := LapGen(h, sec), Floor(h, sec);
      RestAcross(r.cur.mem, slots, h, tl, second);
      assert forall i :: lo <= i < hi ==> Ahead(h, tl, second, i);
      GroupFrame(slots, r.cur.slots, lo, hi, g);
      RestUnfolds(r.cur.mem, slots, h, hi, sec);
    }
  }

  lemma RestIsDone(mem: Memory, slots: seq<Entry>, h: Header, second: bool)
    requires Bounds(slots, h) && InLap(|slots|, h, h.head, second)
    ensures RestOfRecovery(mem, slots, h, h.head, second) == mem
  {
  }

  /** At slot 0 the scan goes on at the end of the ring. */
  lemma RestAcross(mem: Memory, slots: seq<Entry>, h: Header, tl: nat, second: bool)
    requires Bounds(slots, h) && InLap(|slots|, h, tl, second) && tl != h.head
    ensures InLap(|slots|, h, if tl == 0 then |slots| else tl, second || tl == 0)
    ensures RestOfRecovery(mem, slots, h, tl, second) == RestOfRecovery(mem, slots, h, if tl == 0 then |slots|
      else tl, second || tl == 0)
  {
  }

  lemma RestUnfolds(mem: Memory, slots: seq<Entry>, h: Header, hi: nat, sec: bool)
    requires Bounds(slots, h) && InLap(|slots|, h, hi, sec) && Floor(h, sec) < hi
    ensures InLap(|slots|, h, hi - 1, sec)
    ensures var g := LapGen(h, sec); var k := WalkBack(slots, Floor(h, sec), hi - 1, g);
      && InLap(|slots|, h, k, sec)
      && RestOfRecovery(mem, slots, h, hi, sec) ==
         if slots[hi - 1].gen != g then RestOfRecovery(mem, slots, h, hi - 1, sec)
         else if RollsBack(slots, k, hi, g) then RestOfRecovery(UndoRange(mem, slots, k, hi, g), slots, h, k, sec)
         else RestOfRecovery(mem, slots, h, k, sec)
  {
    hide WalkBack, RollsBack, UndoRange;
  }
}
