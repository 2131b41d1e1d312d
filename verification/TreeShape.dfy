/** Height of the tree: which file blocks it reaches, and what growing or shrinking it by one
    level changes. */
module TreeShape {
  import opened BlockTree
  import opened Indexing
  import opened TreeTruncate

  /** Device block of file block k; the tree holds nothing beyond its capacity (pmfs_find_data_block). */
  ghost function FileLookup(nodes: Nodes, root: nat, h: nat, k: nat): nat {
    if k < Cap(h) then Lookup(nodes, root, h, k) else 0
  }

  /** Number of 9-bit shifts until block number x is zero. */
  function HeightOf(x: nat): nat {
    if x == 0 then 0 else 1 + HeightOf(x / FANOUT)
  }

  /** It is the least height whose tree reaches block x. */
  lemma {:induction false} HeightReaches(x: nat)
    ensures x < Cap(HeightOf(x)) && (HeightOf(x) > 0 ==> Cap(HeightOf(x) - 1) <= x)
  {
    if x > 0 {
      HeightReaches(x / FANOUT);
    }
  }

  lemma {:induction false} CapMono(h1: nat, h2: nat)
    requires h1 <= h2
    ensures Cap(h1) <= Cap(h2)
  {
    if h1 < h2 {
      CapMono(h1, h2 - 1);
    }
  }

  lemma CapZero()
    ensures Cap(0) == 1
  {
  }

  lemma HeightLeast(x: nat, h: nat)
    requires x < Cap(h)
    ensures HeightOf(x) <= h
  {
    hide Cap, HeightOf;
    HeightReaches(x);
    if HeightOf(x) > h {
      CapMono(h, HeightOf(x) - 1);
    }
  }

  /** A node whose only pointer is its first one adds a level and nothing else. */
  lemma OnlyFirst(n: Nodes, b: nat, h: nat)
    requires h > 0 && b != 0 && b in n && |n[b]| == FANOUT && forall i :: 1 <= i < FANOUT ==> n[b][i] == 0
    ensures Tally(n, b, h) == multiset{b} + Tally(n, n[b][0], h - 1)
    ensures Leaves(n, b, h) == Leaves(n, n[b][0], h - 1)
    ensures forall k :: FileLookup(n, b, h, k) == FileLookup(n, n[b][0], h - 1, k)
  {
    OnlyFirstTotals(n, b, h);
    forall k: nat ensures FileLookup(n, b, h, k) == FileLookup(n, n[b][0], h - 1, k) {
      FirstOnly(n, b, h, k);
    }
  }

  lemma OnlyFirstTotals(n: Nodes, b: nat, h: nat)
    requires h > 0 && b != 0 && b in n && |n[b]| == FANOUT && forall i :: 1 <= i < FANOUT ==> n[b][i] == 0
    ensures Tally(n, b, h) == multiset{b} + Tally(n, n[b][0], h - 1)
    ensures Leaves(n, b, h) == Leaves(n, n[b][0], h - 1)
  {
    FirstOfRange(n, n[b], h - 1);
  }

  lemma FirstOfRange(n: Nodes, node: seq<nat>, h: nat)
    requires |node| == FANOUT && forall i :: 1 <= i < FANOUT ==> node[i] == 0
    ensures TallyRange(n, node, h, 0, FANOUT) == Tally(n, node[0], h)
    ensures LeavesRange(n, node, h, 0, FANOUT) == Leaves(n, node[0], h)
  {
    hide TallyRange, LeavesRange, Tally, Leaves;
    TallyOne(n, node, h, 0, 0, FANOUT);
    LeavesOne(n, node, h, 0, 0, FANOUT);
    RangeOfHoles(n, node, h, 0, 0);
    RangeOfHoles(n, node, h, 1, FANOUT);
  }

  lemma FirstOnly(n: Nodes, b: nat, h: nat, k: nat)
    requires h > 0 && b != 0 && b in n && |n[b]| == FANOUT
    requires forall i :: 1 <= i < FANOUT ==> n[b][i] == 0
    ensures FileLookup(n, b, h, k) == FileLookup(n, n[b][0], h - 1, k)
  {
    hide Cap;
    CapMono(h - 1, h);
    if k < Cap(h - 1) {
      SubAtZero(k, Cap(h - 1));
      Unique(k, Cap(h - 1), 0, k);
    } else if k < Cap(h) {
      Position(h, k);
      IndexPositive(k, Cap(h - 1));
      assert n[b][Index(k, Cap(h - 1))] == 0;
      assert Lookup(n, b, h, k) == Lookup(n, 0, h - 1, Rest(k, Cap(h - 1)));
    }
  }

  lemma IndexPositive(k: nat, c: nat)
    requires 1 <= c <= k
    ensures Index(k, c) >= 1
  {
    DivMono(c, k, c);
  }

  lemma SubAtZero(m: nat, c: nat)
    requires m < c
    ensures Index(m, c) == 0 && SubLast(m, c, 0) == m
  {
    Unique(m, c, 0, m);
  }

  // ---- Empty trees ------------------------------------------------------------------------------

  lemma {:induction false} LeavesRangeZero(n: Nodes, node: seq<nat>, h: nat, lo: nat, hi: nat)
    requires lo <= hi <= |node|
    ensures LeavesRange(n, node, h, lo, hi) == 0 <==> forall i :: lo <= i < hi ==> Leaves(n, node[i], h) == 0
    decreases hi - lo
  {
    hide Leaves;
    if lo < hi {
      LeavesRangeZero(n, node, h, lo, hi - 1);
    }
  }

  lemma LookupAt(n: Nodes, b: nat, h: nat, i: nat, r: nat)
    requires h > 0 && WellFormed(n, b, h) && i < FANOUT && r < Cap(h - 1)
    ensures var k := i * Cap(h - 1) + r; k < Cap(h) && Lookup(n, b, h, k) == Lookup(n, n[b][i], h - 1, r)
  {
    Unique(i * Cap(h - 1) + r, Cap(h - 1), i, r);
    MulMono(i + 1, FANOUT, Cap(h - 1));
  }

  ghost predicate MapsNothing(n: Nodes, b: nat, h: nat) {
    forall k :: 0 <= k < Cap(h) ==> Lookup(n, b, h, k) == 0
  }

  /** The count of data blocks is zero exactly when no file block is mapped. */
  lemma {:induction false} NoLeaves(n: Nodes, b: nat, h: nat)
    requires b != 0 ==> WellFormed(n, b, h)
    ensures Leaves(n, b, h) == 0 <==> MapsNothing(n, b, h)
    decreases h
  {
    if b != 0 && h > 0 {
      NoLeavesBelow(n, b, h);
    } else if h == 0 {
      assert Lookup(n, b, h, 0) == b;
    }
  }

  lemma {:induction false} NoLeavesBelow(n: Nodes, b: nat, h: nat)
    requires h > 0 && WellFormed(n, b, h)
    ensures LeavesRange(n, n[b], h - 1, 0, FANOUT) == 0 <==> MapsNothing(n, b, h)
    decreases h, 0
  {
    hide MapsNothing;
    var node := n[b];
    LeavesRangeZero(n, node, h - 1, 0, FANOUT);
    NodeMapsNothing(n, b, h, node);
    forall i | 0 <= i < FANOUT ensures Leaves(n, node[i], h - 1) == 0 <==> MapsNothing(n, node[i], h - 1) {
      NoLeaves(n, node[i], h - 1);
    }
  }

  lemma NodeMapsNothing(n: Nodes, b: nat, h: nat, node: seq<nat>)
    requires h > 0 && WellFormed(n, b, h) && node == n[b]
    ensures MapsNothing(n, b, h) <==> forall i :: 0 <= i < FANOUT ==> MapsNothing(n, node[i], h - 1)
  {
    hide Cap, Index, Rest;
    var below := h - 1;
    if MapsNothing(n, b, h) {
      forall i, r | 0 <= i < FANOUT && 0 <= r < Cap(below) ensures Lookup(n, node[i], below, r) == 0 {
        LookupAt(n, b, h, i, r);
      }
    }
    if forall i :: 0 <= i < FANOUT ==> MapsNothing(n, node[i], h - 1) {
      forall k | 0 <= k < Cap(h) ensures Lookup(n, b, h, k) == 0 {
        Position(h, k);
        assert MapsNothing(n, node[Index(k, Cap(h - 1))], h - 1);
      }
    }
  }

  /** No pointer outside a range: no file block outside it. */
  lemma {:induction false} NothingMappedOutside(n: Nodes, b: nat, h: nat, first: nat, last: nat, k: nat)
    requires WellFormed(n, b, h) && first <= last < Cap(h) && !PointerOutside(n, b, h, first, last)
    requires k < Cap(h) && !(first <= k <= last)
    ensures Lookup(n, b, h, k) == 0
    decreases h
  {
    hide Index, Rest;
    var c, i, r := Cap(h - 1), Index(k, Cap(h - 1)), Rest(k, Cap(h - 1));
    Position(h, k);
    InSubIsRange(first, last, c, k);
    KeptOne(n, b, h, n[b], first, last, i);
    if n[b][i] != 0 {
      SubOrdered(first, last, c, i);
      NothingMappedOutside(n, n[b][i], h - 1, SubFirst(first, c, i), SubLast(last, c, i), r);
    }
  }
}
