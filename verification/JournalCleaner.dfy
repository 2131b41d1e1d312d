/** The log cleaner's forward walk over the ring. */
module JournalCleaner {
  import opened JournalRing

  datatype Option<T> = None | Some(value: T)

  /** Entries between position i and the tail, going forward; a full turn when i is the tail. */
  function RingDistance(n: nat, i: nat, tail: nat): (d: nat)
    requires i < n && tail < n
    ensures 1 <= d <= n
  {
    if i < tail then tail - i else n - i + tail
  }

  /** The slot of the commit or abort entry that ends the walk begun at slot i, or None when a
      start entry of the same generation or the tail comes first (pmfs_process_transaction). */
  function FindEnd(slots: seq<Entry>, i: nat, tail: nat, g: nat): (r: Option<nat>)
    requires i < |slots| && tail < |slots|
    ensures r.Some? ==> r.value < |slots| && slots[r.value].gen == g && slots[r.value].Fin()
    decreases RingDistance(|slots|, i, tail)
  {
    if slots[i].gen == g && slots[i].Fin() then Some(i)
    else
      var next := NextSlot(|slots|, i);
      if next == tail || (slots[next].gen == g && slots[next].isStart) then None
      else FindEnd(slots, next, tail, g)
  }

  predicate Marked(e: Entry, g: nat) {
    e.gen == g && (e.isStart || e.Fin())
  }

  /** The reused part [0..tail) of the ring still shows a commit or abort of the previous lap's
      generation g before it shows any start of it. */
  ghost predicate StaleEnd(slots: seq<Entry>, tail: nat, g: nat)
    requires tail <= |slots|
  {
    exists f :: 0 <= f < tail && IsFirstEnd(slots, f, g)
  }

  ghost predicate IsFirstEnd(slots: seq<Entry>, f: nat, g: nat)
    requires f < |slots|
  {
    slots[f].gen == g && slots[f].Fin() && !slots[f].isStart && forall j :: 0 <= j < f ==> !Marked(slots[j], g)
  }

  /** Without marked entries up to slot f the walk gets there. */
  lemma {:induction false} FindEndSkips(slots: seq<Entry>, i: nat, f: nat, tail: nat, g: nat)
    requires i <= f < |slots| && tail < |slots|
    requires tail <= i || f < tail
    requires forall j :: i <= j < f ==> !(slots[j].gen == g && slots[j].Fin())
    requires forall j :: i < j <= f ==> !(slots[j].gen == g && slots[j].isStart)
    ensures FindEnd(slots, i, tail, g) == FindEnd(slots, f, tail, g)
    decreases f - i
  {
    if i < f {
      assert FindEnd(slots, i, tail, g) == FindEnd(slots, i + 1, tail, g);
      FindEndSkips(slots, i + 1, f, tail, g);
    }
  }

  /** An end entry ahead with nothing marked in between is what the walk finds. */
  lemma FindEndHits(slots: seq<Entry>, i: nat, f: nat, tail: nat, g: nat)
    requires i <= f < |slots| && tail < |slots|
    requires tail <= i || f < tail
    requires slots[f].gen == g && slots[f].Fin()
    requires forall j :: i <= j < f ==> !(slots[j].gen == g && slots[j].Fin())
    requires forall j :: i < j <= f ==> !(slots[j].gen == g && slots[j].isStart)
    ensures FindEnd(slots, i, tail, g) == Some(f)
  {
    FindEndSkips(slots, i, f, tail, g);
  }

  /** A start entry ahead with no end in between stops the walk. */
  lemma {:induction false} FindEndBlocked(slots: seq<Entry>, i: nat, st: nat, tail: nat, g: nat)
    requires i < st < |slots| && tail < |slots|
    requires tail <= i || st < tail
    requires slots[st].gen == g && slots[st].isStart
    requires forall j :: i <= j < st ==> !(slots[j].gen == g && slots[j].Fin())
    ensures FindEnd(slots, i, tail, g) == None
    decreases st - i
  {
    if i + 1 < st && !(slots[i + 1].gen == g && slots[i + 1].isStart) {
      assert FindEnd(slots, i, tail, g) == FindEnd(slots, i + 1, tail, g);
      FindEndBlocked(slots, i + 1, st, tail, g);
    }
  }

  /** Neither start nor end up to the tail: no end found. */
  lemma {:induction false} FindEndRunsOut(slots: seq<Entry>, i: nat, tail: nat, g: nat)
    requires i < tail < |slots|
    requires forall j :: i <= j < tail ==> !(slots[j].gen == g && slots[j].Fin())
    ensures FindEnd(slots, i, tail, g) == None
    decreases tail - i
  {
    if i + 1 < tail && !(slots[i + 1].gen == g && slots[i + 1].isStart) {
      assert FindEnd(slots, i, tail, g) == FindEnd(slots, i + 1, tail, g);
      FindEndRunsOut(slots, i + 1, tail, g);
    }
  }

  /** In the reused part the walk finds an end exactly if a stale end comes first. */
  lemma {:induction false} FindEndInReusedPart(slots: seq<Entry>, i: nat, tail: nat, g: nat)
    requires i < tail < |slots|
    requires forall j :: 0 <= j < i ==> !Marked(slots[j], g)
    requires !(slots[i].gen == g && slots[i].isStart)
    ensures FindEnd(slots, i, tail, g).Some? <==> StaleEnd(slots, tail, g)
    ensures FindEnd(slots, i, tail, g).Some? ==> FindEnd(slots, i, tail, g).value < tail
    decreases tail - i
  {
    if slots[i].gen == g && slots[i].Fin() {
      assert IsFirstEnd(slots, i, g);
    } else if i + 1 == tail {
      FindEndRunsOut(slots, i, tail, g);
    } else if slots[i + 1].gen == g && slots[i + 1].isStart {
      assert Marked(slots[i + 1], g);
      if StaleEnd(slots, tail, g) {
        var f :| 0 <= f < tail && IsFirstEnd(slots, f, g);
        assert Marked(slots[f], g);
        assert false;
      }
    } else {
      FindEndInReusedPart(slots, i + 1, tail, g);
    }
  }

  /** The walk from an entry of the old lap with nothing marked behind it in that lap finds an
      end exactly if the reused part shows a stale one first. */
  lemma {:induction false} FindEndAcrossWrap(slots: seq<Entry>, i: nat, tail: nat, g: nat)
    requires tail <= i < |slots| && tail < |slots|
    requires !(slots[i].gen == g && slots[i].Fin())
    requires forall j :: i < j < |slots| ==> !Marked(slots[j], g)
    ensures FindEnd(slots, i, tail, g).Some? <==> StaleEnd(slots, tail, g)
    ensures FindEnd(slots, i, tail, g).Some? ==> FindEnd(slots, i, tail, g).value < tail
    decreases |slots| - i
  {
    if i + 1 < |slots| {
      FindEndAcrossWrap(slots, i + 1, tail, g);
    } else if tail == 0 {
    } else if slots[0].gen == g && slots[0].isStart {
      assert Marked(slots[0], g);
      if StaleEnd(slots, tail, g) {
        var f :| 0 <= f < tail && IsFirstEnd(slots, f, g);
        assert false;
      }
    } else {
      FindEndInReusedPart(slots, 0, tail, g);
    }
  }
}
