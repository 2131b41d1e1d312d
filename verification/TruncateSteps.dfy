/** The steps of truncating a tree, as the loops and their callers use them. */
module TruncateSteps {
  import opened BlockTree
  import opened Indexing
  import opened TreeLevels
  import opened TreeShape
  import opened TreeTruncate

  const BLOCK_SIZE: nat := 4096

  /** Indices [lo..hi] of a node set to zero. */
  function ZeroRange(node: seq<nat>, lo: int, hi: int): (r: seq<nat>)
    ensures |r| == |node|
  {
    seq(|node|, i requires 0 <= i < |node| => if lo <= i <= hi then 0 else node[i])
  }

  /** Number of blocks that a file of the given size occupies: the first block beyond it. */
  function FirstBlock(size: nat): (b: nat)
    ensures size <= b * BLOCK_SIZE < size + BLOCK_SIZE
  {
    (size + BLOCK_SIZE - 1) / BLOCK_SIZE
  }

  /** Levels that a file of the given size needs. */
  function KeptHeight(size: nat): nat {
    if size == 0 then 0 else HeightOf(FirstBlock(size) - 1)
  }

  lemma KeptHeightReaches(size: nat, h: nat)
    requires size > 0 && FirstBlock(size) <= Cap(h)
    ensures KeptHeight(size) <= h && 0 < FirstBlock(size) <= Cap(KeptHeight(size))
  {
    hide Cap, HeightOf;
    HeightLeast(FirstBlock(size) - 1, h);
    HeightReaches(FirstBlock(size) - 1);
  }

  /** The tree without the truncated range, and without its root if nothing is left. */
  ghost predicate Remains(n0: Nodes, n1: Nodes, b: nat, r: nat, h: nat, first: nat, last: nat, fs: seq<nat>,
        count: nat) {
    && (r == 0 <==> !PointerOutside(n0, b, h, first, last))
    && (r != 0 ==> r == b && WellFormed(n1, r, h) && Pruned(n0, n1, b, h, first, last))
    && Tally(n0, b, h) == Tally(n1, r, h) + multiset(fs)
    && Leaves(n0, b, h) == Leaves(n1, r, h) + count
    && forall k: nat :: FileLookup(n1, r, h, k) == if first <= k <= last then 0 else FileLookup(n0, b, h, k)
  }

  lemma RemainsFacts(n0: Nodes, n1: Nodes, b: nat, r: nat, h: nat, first: nat, last: nat, fs: seq<nat>, count: nat)
    requires Remains(n0, n1, b, r, h, first, last, fs, count)
    ensures Leaves(n0, b, h) == Leaves(n1, r, h) + count
    ensures r == 0 <==> !PointerOutside(n0, b, h, first, last)
    ensures r != 0 ==> r == b && WellFormed(n1, r, h)
  {
    hide WellFormed, Tally, Leaves, PointerOutside, Cap, FileLookup, Pruned;
  }

  /** No data block lies outside the range. */
  ghost predicate OnlyIn(n: Nodes, b: nat, h: nat, first: nat, last: nat) {
    forall k: nat :: !(first <= k <= last) ==> FileLookup(n, b, h, k) == 0
  }

  /** No data block is left exactly if there was none outside the range. */
  lemma RemainsNone(n0: Nodes, n1: Nodes, b: nat, r: nat, h: nat, first: nat, last: nat, fs: seq<nat>, count: nat)
    requires Remains(n0, n1, b, r, h, first, last, fs, count)
    ensures Leaves(n1, r, h) == 0 <==> OnlyIn(n0, b, h, first, last)
  {
    hide WellFormed, Tally, PointerOutside, Cap, Lookup, Pruned;
    NoLeaves(n1, r, h);
    if Leaves(n1, r, h) == 0 {
      forall k: nat | !(first <= k <= last) ensures FileLookup(n0, b, h, k) == 0 {
        assert FileLookup(n1, r, h, k) == FileLookup(n0, b, h, k);
      }
    } else {
      var k :| 0 <= k < Cap(h) && Lookup(n1, r, h, k) != 0;
      assert FileLookup(n1, r, h, k) != 0;
    }
  }

  /** The left edge after truncating the range. */
  lemma EdgeAfter(n0: Nodes, n1: Nodes, b: nat, r: nat, h: nat, first: nat, last: nat, fs: seq<nat>, count: nat, t: nat)
    requires Remains(n0, n1, b, r, h, first, last, fs, count)
    requires WellFormed(n0, b, h) && first <= last < Cap(h) && t <= h
    ensures var p := Leftmost(n0, b, h, t);
      Leftmost(n1, r, h, t) == if Survives(n0, p, t, first, last) then p else 0
    ensures Leftmost(n1, r, h, t) != 0 <==> Survives(n0, Leftmost(n0, b, h, t), t, first, last)
  {
    hide WellFormed, Tally, Leaves, PointerOutside, Cap, FileLookup, Pruned;
    if r == 0 {
      NoneSurvives(n0, b, h, t, first, last);
      LeftmostZero(n1, h, t);
    } else if t < h {
      LeftmostPruned(n0, n1, b, h, t, first, last);
    } else {
      Surviving(n0, b, h, first, last);
    }
  }

  /** Levels are dropped from the truncated tree: blocks are orphaned exactly if a pointer lay behind both
      the range and the height that is kept. */
  lemma LostBlocks(n0: Nodes, n1: Nodes, b: nat, r: nat, h: nat, first: nat, last: nat, fs: seq<nat>, count: nat,
        t: nat)
    requires Remains(n0, n1, b, r, h, first, last, fs, count)
    requires WellFormed(n0, b, h) && first <= last < Cap(h) && t <= h && first <= Cap(t)
    ensures Aside(n1, r, h, t) == multiset{} <==> r == 0 || !PointerOutside(n0, b, h, 0, Max(last, Cap(t) - 1))
  {
    hide WellFormed, Tally, Leaves, PointerOutside, Cap, FileLookup, Pruned;
    if r != 0 {
      AsideEmpty(n1, r, h, t);
      BehindPruned(n0, n1, b, h, first, last, Cap(t) - 1);
    }
  }

  /** Data is orphaned exactly if a block was mapped there. */
  lemma LostData(n0: Nodes, n1: Nodes, b: nat, r: nat, h: nat, first: nat, last: nat, fs: seq<nat>, count: nat, t: nat)
    requires Remains(n0, n1, b, r, h, first, last, fs, count) && t <= h && first <= Cap(t)
    ensures AsideLeaves(n1, r, h, t) == 0 <==> forall k: nat :: last < k && Cap(t) <= k ==> FileLookup(n0, b, h, k) == 0
  {
    hide WellFormed, Tally, Leaves, PointerOutside, Cap, Pruned, FileLookup;
    AsideUnmapped(n1, r, h, t);
    if forall k: nat :: last < k && Cap(t) <= k ==> FileLookup(n0, b, h, k) == 0 {
      forall k: nat | Cap(t) <= k ensures FileLookup(n1, r, h, k) == 0 {
      }
    }
    if forall k: nat :: Cap(t) <= k ==> FileLookup(n1, r, h, k) == 0 {
      forall k: nat | last < k && Cap(t) <= k ensures FileLookup(n0, b, h, k) == 0 {
        assert FileLookup(n1, r, h, k) == 0;
      }
    }
  }

  /** Without a root there is nothing left to lose. */
  lemma NothingRemains(n0: Nodes, n1: Nodes, b: nat, h: nat, first: nat, last: nat, fs: seq<nat>, count: nat, t: nat)
    requires Remains(n0, n1, b, 0, h, first, last, fs, count)
    ensures OnlyIn(n0, b, h, first, last) && Leaves(n1, 0, h) == 0
    ensures Leftmost(n1, 0, h, t) == 0 && Aside(n1, 0, h, t) == multiset{} && AsideLeaves(n1, 0, h, t) == 0
    ensures forall k: nat :: last < k ==> FileLookup(n0, b, h, k) == 0
  {
    EmptyRoot(n1, h);
    assert forall k: nat :: FileLookup(n1, 0, h, k) == if first <= k <= last then 0 else FileLookup(n0, b, h, k);
  }

  /** Truncating the range and dropping levels, together. */
  lemma TruncateResult(n0: Nodes, n1: Nodes, b: nat, r: nat, h0: nat, r1: nat, h1: nat, first: nat, last: nat,
                       gone: seq<nat>, more: seq<nat>, count: nat)
    requires Remains(n0, n1, b, r, h0, first, last, gone, count) && Dropped(n1, r, h0, r1, h1, more)
    requires Distinct(Tally(n0, b, h0))
    ensures Tally(n0, b, h0) == Tally(n1, r1, h1) + multiset(gone + more) + Aside(n1, r, h0, h1)
    ensures r1 != 0 ==> WellFormed(n1, r1, h1) && Distinct(Tally(n1, r1, h1))
    ensures forall k: nat ::
      FileLookup(n1, r1, h1, k) == if first <= k <= last || Cap(h1) <= k then 0 else FileLookup(n0, b, h0, k)
  {
    hide WellFormed, Tally, PointerOutside, Cap, Leaves, FileLookup, Distinct, Pruned, Aside;
    StillDistinct(Tally(n0, b, h0), Tally(n1, r, h0), Tally(n1, r1, h1), Aside(n1, r, h0, h1), gone, more);
    forall k: nat ensures
      FileLookup(n1, r1, h1, k) == if first <= k <= last || Cap(h1) <= k then 0 else FileLookup(n0, b, h0, k)
    {
      assert FileLookup(n1, r, h0, k) == if first <= k <= last then 0 else FileLookup(n0, b, h0, k);
    }
  }

  /** If nothing lay behind the range, nothing lies behind the kept part. */
  lemma TailCleared(n0: Nodes, n1: Nodes, b: nat, r: nat, h0: nat, r1: nat, h1: nat, first: nat, last: nat,
                    fs: seq<nat>, more: seq<nat>, count: nat)
    requires Remains(n0, n1, b, r, h0, first, last, fs, count) && Dropped(n1, r, h0, r1, h1, more)
    requires WellFormed(n0, b, h0) && 0 < first <= last && first <= Cap(h1) && r1 != 0
    requires !PointerOutside(n0, b, h0, 0, last)
    ensures !PointerOutside(n1, r1, h1, 0, first - 1)
  {
    hide WellFormed, Tally, Leaves, PointerOutside, Cap, FileLookup, Pruned, Aside, AsideLeaves;
    if r == 0 {
      LeftmostZero(n1, h0, h1);
    } else {
      BehindPruned(n0, n1, b, h0, first, last, first - 1);
      if PointerOutside(n1, r1, h1, 0, first - 1) {
        LeftmostOutside(n1, r, h0, h1, first - 1);
      }
    }
  }

  /** A file block in front of the range, reached over the left edge, keeps that edge in place. */
  lemma {:induction false} EdgeStays(n: Nodes, b: nat, h: nat, t: nat, first: nat, last: nat, k: nat)
    requires (b != 0 ==> WellFormed(n, b, h)) && t <= h && first <= last && k < first && k < Cap(t)
    requires FileLookup(n, b, h, k) != 0
    ensures Survives(n, Leftmost(n, b, h, t), t, first, last)
    decreases h
  {
    hide Cap, PointerOutside;
    if t < h {
      CapMono(t, h - 1);
      FirstChild(n, b, h, k);
      EdgeStays(n, n[b][0], h - 1, t, first, last, k);
    } else if first < Cap(h) && !PointerOutside(n, b, h, first, last) {
      if last < Cap(h) {
        NothingMappedOutside(n, b, h, first, last, k);
      } else {
        OutsideClip(n, b, h, first, last, Cap(h) - 1);
        NothingMappedOutside(n, b, h, first, Cap(h) - 1, k);
      }
    }
  }

  /** The block count b0 is right, or is about to be counted afresh, and no data block lies outside the range. */
  ghost predicate LeavesNothing(n: Nodes, b: nat, h: nat, first: nat, last: nat, b0: nat, mounting: bool) {
    (mounting || b0 == Leaves(n, b, h)) && OnlyIn(n, b, h, first, last)
  }

  /** Height from which dropping levels takes its last step. */
  function LastStep(start: nat, h: nat): nat {
    if KeptHeight(start) < h then KeptHeight(start) + 1 else h
  }

  /** What the code sees after truncating the range, in terms of the tree before. */
  lemma AfterRange(n0: Nodes, n1: Nodes, b: nat, r: nat, h: nat, start: nat, last: nat, fs: seq<nat>, count: nat,
                   b0: nat, b1: nat, mounting: bool)
    requires Remains(n0, n1, b, r, h, FirstBlock(start), last, fs, count)
    requires WellFormed(n0, b, h) && FirstBlock(start) <= last < Cap(h)
    requires !mounting ==> Leaves(n0, b, h) <= b0
    requires b1 == if mounting then Leaves(n1, r, h) else b0 - count
    ensures r != 0 <==> PointerOutside(n0, b, h, FirstBlock(start), last)
    ensures b1 == 0 <==> LeavesNothing(n0, b, h, FirstBlock(start), last, b0, mounting)
    ensures start > 0 ==> KeptHeight(start) <= h && FirstBlock(start) <= Cap(KeptHeight(start))
    ensures start > 0 ==> var t := LastStep(start, h);
      Leftmost(n1, r, h, t) == 0 <==> !Survives(n0, Leftmost(n0, b, h, t), t, FirstBlock(start), last)
    ensures start > 0 ==> var t := KeptHeight(start);
      Leftmost(n1, r, h, t) == 0 <==> !Survives(n0, Leftmost(n0, b, h, t), t, FirstBlock(start), last)
  {
    hide WellFormed, Tally, Leaves, FileLookup, PointerOutside, Cap, Distinct, Survives, OnlyIn, HeightOf, Leftmost,
      Remains, FirstBlock;
    var first := FirstBlock(start);
    RemainsFacts(n0, n1, b, r, h, first, last, fs, count);
    RemainsNone(n0, n1, b, r, h, first, last, fs, count);
    if start > 0 {
      KeptHeightReaches(start, h);
      EdgeAfter(n0, n1, b, r, h, first, last, fs, count, LastStep(start, h));
      EdgeAfter(n0, n1, b, r, h, first, last, fs, count, KeptHeight(start));
    }
  }

  /** What truncation has done when the levels have been dropped. */
  lemma AfterLevels(n0: Nodes, n1: Nodes, b: nat, r: nat, h0: nat, r1: nat, h1: nat, start: nat, last: nat,
                    fs: seq<nat>, more: seq<nat>, count: nat, b0: nat, b1: nat, mounting: bool)
    requires Remains(n0, n1, b, r, h0, FirstBlock(start), last, fs, count) && Dropped(n1, r, h0, r1, h1, more)
    requires WellFormed(n0, b, h0) && Distinct(Tally(n0, b, h0)) && FirstBlock(start) <= last < Cap(h0)
    requires !mounting ==> Leaves(n0, b, h0) <= b0
    requires b1 == if mounting then Leaves(n1, r, h0) else b0 - count
    requires if b1 == 0 || start == 0 then r == 0 && r1 == 0 && h1 == 0 else r != 0 && h1 == KeptHeight(start)
    ensures Tally(n0, b, h0) == Tally(n1, r1, h1) + multiset(fs + more) + Aside(n1, r, h0, h1)
    ensures Aside(n1, r, h0, h1) == multiset{} <==>
      !(start > 0 && b1 != 0 && PointerOutside(n0, b, h0, 0, Max(last, Cap(KeptHeight(start)) - 1)))
    ensures forall k: nat ::
      FileLookup(n1, r1, h1, k) == if FirstBlock(start) <= k <= last || Cap(KeptHeight(start)) <= k then 0
        else FileLookup(n0, b, h0, k)
    ensures Leaves(n1, r1, h1) <= b1
    ensures b1 == Leaves(n1, r1, h1) <==>
      && (mounting || b0 == Leaves(n0, b, h0))
      && forall k: nat :: last < k && Cap(KeptHeight(start)) <= k ==> FileLookup(n0, b, h0, k) == 0
    ensures r1 != 0 ==>
      && WellFormed(n1, r1, h1) && Distinct(Tally(n1, r1, h1)) && start > 0 && h1 == KeptHeight(start)
      && (!PointerOutside(n0, b, h0, 0, last) ==> !PointerOutside(n1, r1, h1, 0, FirstBlock(start) - 1))
  {
    hide WellFormed, Tally, Leaves, FileLookup, PointerOutside, Cap, Distinct, OnlyIn, HeightOf, Leftmost, Remains,
      Dropped, Aside, AsideLeaves;
    var first := FirstBlock(start);
    RemainsFacts(n0, n1, b, r, h0, first, last, fs, count);
    TruncateResult(n0, n1, b, r, h0, r1, h1, first, last, fs, more, count);
    DroppedCount(n1, r, h0, r1, h1, more);
    if r == 0 {
      NothingRemains(n0, n1, b, h0, first, last, fs, count, h1);
      EmptyFile(n0, n1, b, h0, start, last);
    } else {
      KeptHeightReaches(start, h0);
      LostBlocks(n0, n1, b, r, h0, first, last, fs, count, h1);
      LostData(n0, n1, b, r, h0, first, last, fs, count, h1);
      if r1 != 0 && !PointerOutside(n0, b, h0, 0, last) {
        TailCleared(n0, n1, b, r, h0, r1, h1, first, last, fs, more, count);
      }
    }
  }

  lemma EmptyFile(n0: Nodes, n1: Nodes, b: nat, h: nat, start: nat, last: nat)
    requires OnlyIn(n0, b, h, FirstBlock(start), last)
    ensures forall k: nat ::
      FileLookup(n1, 0, 0, k) == if FirstBlock(start) <= k <= last || Cap(KeptHeight(start)) <= k then 0
        else FileLookup(n0, b, h, k)
    ensures Leaves(n1, 0, 0) == 0
  {
    hide WellFormed, Cap, HeightOf;
    EmptyRoot(n1, 0);
  }

  /** Without pointers behind the range, none is behind a later position, and nothing is mapped there. */
  lemma NothingLater(n: Nodes, b: nat, h: nat, last: nat, m: nat)
    requires WellFormed(n, b, h) && last < Cap(h) && !PointerOutside(n, b, h, 0, last) && last <= m
    ensures !PointerOutside(n, b, h, 0, m)
    ensures forall k: nat :: last < k ==> FileLookup(n, b, h, k) == 0
  {
    if PointerOutside(n, b, h, 0, m) {
      OutsideMono(n, b, h, 0, last, 0, m);
    }
    forall k: nat | last < k ensures FileLookup(n, b, h, k) == 0 {
      if k < Cap(h) {
        NothingMappedOutside(n, b, h, 0, last, k);
      }
    }
  }

  lemma RootFreed(n: Nodes, b: nat, first: nat, last: nat)
    requires b != 0 && first <= last < Cap(0)
    ensures Remains(n, n, b, 0, 0, first, last, [b], 1)
  {
  }

  lemma TreeIs(n: Nodes, b: nat, h: nat)
    requires h > 0 && WellFormed(n, b, h) && Distinct(Tally(n, b, h))
    ensures Tree(n, b, h)
  {
  }

  lemma StillDistinct(all: multiset<nat>, mid: multiset<nat>, left: multiset<nat>, lost: multiset<nat>, f1: seq<nat>,
        f2: seq<nat>)
    requires all == mid + multiset(f1) && mid == left + multiset(f2) + lost && Distinct(all)
    ensures all == left + multiset(f1 + f2) + lost && Distinct(left)
  {
    assert multiset(f1 + f2) == multiset(f1) + multiset(f2);
    assert forall x :: x in left ==> x in all && left[x] <= all[x];
  }

  lemma AfterTruncate(n0: Nodes, n1: Nodes, b: nat, h: nat, first: nat, last: nat, fs: seq<nat>, count: nat,
        empty: bool)
    requires WellFormed(n0, b, h) && first <= last < Cap(h) && b != 0
    requires Truncated(n0, n1, b, h, first, last, fs, count, empty)
    ensures Remains(n0, n1, b, if empty then 0 else b, h, first, last, fs + (if empty then [b] else []), count)
  {
    hide WellFormed, Tally, Leaves, PointerOutside, Cap, Lookup, Pruned;
    EmptyRoot(n1, h);
    assert multiset(fs + [b]) == multiset{b} + multiset(fs) && fs + [] == fs;
    assert empty ==> multiset{} + multiset(fs + [b]) == multiset(fs + [b]);
    var r := if empty then 0 else b;
    forall k: nat ensures FileLookup(n1, r, h, k) == if first <= k <= last then 0 else FileLookup(n0, b, h, k) {
    }
  }

  lemma EmptyRoot(n: Nodes, h: nat)
    ensures Leaves(n, 0, h) == 0 && Tally(n, 0, h) == multiset{} && forall k: nat :: FileLookup(n, 0, h, k) == 0
  {
  }

  lemma RootPointers(n: Nodes, b: nat, h: nat, node: seq<nat>)
    requires RootNode(n, b, h, node)
    ensures |node| == FANOUT && forall j :: 0 <= j < FANOUT && node[j] != 0 ==> WellFormed(n, node[j], h - 1)
  {
  }

  lemma SubValues(first: nat, last: nat, c: nat, i: nat)
    requires c >= 1
    ensures SubFirst(first, c, i) == if i == Index(first, c) then Rest(first, c) else 0
    ensures SubLast(last, c, i) == if i == Index(last, c) then Rest(last, c) else c - 1
  {
  }

  lemma HoleStep(n0: Nodes, n: Nodes, node: seq<nat>, cut: seq<nat>, h: nat, first: nat, last: nat, i: nat,
        gone: seq<nat>, count: nat)
    requires Cut(n0, n, node, cut, h, first, last, i, gone, count) && Distinct(TallyRange(n0, node, h, 0, FANOUT))
    requires i < FANOUT && Index(first, Cap(h)) <= i <= Index(last, Cap(h)) && node[i] == 0
    ensures Cut(n0, n, node, cut[i := 0], h, first, last, i + 1, gone, count)
  {
    hide Distinct, CutLookups, CutTrees, CutDecided, CutPruned, Conserved, Cap, Index, Rest, ChildCut;
    HoleCut(n, h, SubFirst(first, Cap(h), i), SubLast(last, Cap(h), i));
    CutStep(n0, n, n, node, cut, 0, h, first, last, i, gone, count, [], 0);
    assert gone + [] == gone;
  }

  lemma LeafStep(n0: Nodes, n: Nodes, node: seq<nat>, cut: seq<nat>, first: nat, last: nat, i: nat, gone: seq<nat>,
        count: nat)
    requires Cut(n0, n, node, cut, 0, first, last, i, gone, count) && Distinct(TallyRange(n0, node, 0, 0, FANOUT))
    requires i < FANOUT && Index(first, Cap(0)) <= i <= Index(last, Cap(0)) && node[i] != 0
    ensures Cut(n0, n, node, cut[i := 0], 0, first, last, i + 1, gone + [node[i]], count + 1)
  {
    hide Distinct, CutLookups, CutTrees, CutDecided, CutPruned, Conserved, ChildCut;
    LeafBounds(first, last, i);
    LeafCut(n, node[i]);
    CutStep(n0, n, n, node, cut, 0, 0, first, last, i, gone, count, [node[i]], 1);
  }

  /** A subtree has been truncated: if nothing is left of it, its block is freed as well; strictly
      inside the range nothing is ever left. */
  lemma SubtreeStep(n0: Nodes, n: Nodes, n': Nodes, node: seq<nat>, cut: seq<nat>, h: nat, first: nat, last: nat,
        i: nat,
                    gone: seq<nat>, count: nat, fs: seq<nat>, cnt: nat, empty: bool)
    requires Cut(n0, n, node, cut, h, first, last, i, gone, count) && Distinct(TallyRange(n0, node, h, 0, FANOUT))
    requires i < FANOUT && Index(first, Cap(h)) <= i <= Index(last, Cap(h)) && node[i] != 0 && Tree(n, node[i], h)
    requires Truncated(n, n', node[i], h, SubFirst(first, Cap(h), i), SubLast(last, Cap(h), i), fs, cnt, empty)
    ensures Cut(n0, n', node, if empty then cut[i := 0] else cut, h, first, last, i + 1,
                gone + (if empty then fs + [node[i]] else fs), count + cnt)
    ensures Index(first, Cap(h)) < i < Index(last, Cap(h)) ==> empty
  {
    hide Distinct, CutLookups, CutTrees, CutDecided, CutPruned, Conserved, Cap, Index, Rest, ChildCut, Truncated, Tree,
      Pruned, SubFirst, SubLast, WellFormed, Tally, TallyRange;
    var p := node[i];
    SubtreeCut(n, n', p, h, SubFirst(first, Cap(h), i), SubLast(last, Cap(h), i), fs, cnt, empty);
    CutStep(n0, n, n', node, cut, if empty then 0
      else p, h, first, last, i, gone, count, fs + (if empty then [p] else []), cnt);
    MiddleEmpties(n, n', p, h, first, last, i, fs, cnt, empty);
    assert fs + [] == fs;
    assert cut[i := p] == cut;
  }

  /** The local variables of the loop describe `cut`: within lo to hi everything dealt with is
      zero except possibly the two ends, which are excluded from start to end. */
  ghost predicate Zeroed(node: seq<nat>, cut: seq<nat>, lo: nat, hi: nat, i: nat, start: int, end: int,
        allFreed: bool) {
    && |node| == |cut| && hi < |node| && lo <= i <= hi + 1
    && (forall j :: 0 <= j < |node| && (j < lo || i <= j) ==> cut[j] == node[j])
    && (forall j :: lo < j < hi && j < i ==> cut[j] == 0)
    && start == (if lo < i && cut[lo] != 0 then lo + 1 else lo)
    && end == (if hi < i && lo < hi && cut[hi] != 0 then hi - 1 else hi)
    && (allFreed <==> forall j :: lo <= j < i ==> cut[j] == 0)
    && (forall j :: lo <= j < i && cut[j] != 0 ==> cut[j] == node[j])
  }

  lemma ZeroedInit(node: seq<nat>, lo: nat, hi: nat)
    requires lo <= hi < |node|
    ensures Zeroed(node, node, lo, hi, lo, lo, hi, true)
  {
  }

  lemma ZeroedStep(node: seq<nat>, cut: seq<nat>, lo: nat, hi: nat, i: nat, start: int, end: int, allFreed: bool,
        kept: bool)
    requires Zeroed(node, cut, lo, hi, i, start, end, allFreed) && i <= hi
    requires kept ==> node[i] != 0 && (i == lo || i == hi)
    ensures Zeroed(node, if kept then cut else cut[i := 0], lo, hi, i + 1,
                   if kept && i == lo then start + 1 else start,
                   if kept && i != lo && i == hi then end - 1 else end,
                   allFreed && !kept)
  {
    var cut' := if kept then cut else cut[i := 0];
    if !kept && allFreed {
      assert forall j :: lo <= j < i + 1 ==> cut'[j] == 0;
    }
    if kept {
      assert cut'[i] != 0;
    }
  }

  /** After the loop, zeroing start to end in the node gives `cut`. */
  lemma ZeroedEnd(node: seq<nat>, cut: seq<nat>, lo: nat, hi: nat, start: int, end: int, allFreed: bool)
    requires lo <= hi && Zeroed(node, cut, lo, hi, hi + 1, start, end, allFreed)
    ensures cut == ZeroRange(node, start, end)
    ensures start > end ==> cut == node
    ensures NoPointers(cut) <==> allFreed && forall j :: 0 <= j < |node| && (j < lo || hi < j) ==> node[j] == 0
  {
    if NoPointers(cut) {
      forall j | 0 <= j < |node| && (j < lo || hi < j) ensures node[j] == 0 {
        assert cut[j] == node[j];
      }
    }
  }

  lemma TreeFacts(n: Nodes, b: nat, h: nat, first: nat, last: nat)
    requires Tree(n, b, h) && first <= last < Cap(h)
    ensures h > 0 && b in n && |n[b]| == FANOUT
    ensures Index(first, Cap(h - 1)) <= Index(last, Cap(h - 1)) < FANOUT
    ensures forall j :: 0 <= j < FANOUT && n[b][j] != 0 ==> WellFormed(n, n[b][j], h - 1)
  {
    RangeByIndex(first, last, Cap(h - 1), first);
    IndexBound(last, Cap(h - 1), FANOUT);
  }

  lemma CutFacts(n0: Nodes, n: Nodes, b: nat, h: nat, node: seq<nat>, cut: seq<nat>, first: nat, last: nat, i: nat,
                 freed: seq<nat>, count: nat)
    requires RootNode(n0, b, h, node) && Cut(n0, n, node, cut, h - 1, first, last, i, freed, count)
    ensures b in n && n[b] == node && |node| == |cut| == FANOUT
    ensures i < FANOUT ==> cut[i] == node[i]
    ensures Distinct(TallyRange(n0, node, h - 1, 0, FANOUT))
  {
    hide CutLookups, CutDecided, WellFormed, Tally, TallyRange, Leaves, LeavesRange, Cap, Index, Rest;
    ChangesBelow(n0, n, b, h, node);
  }

  lemma CutEnd(n0: Nodes, n: Nodes, b: nat, h: nat, node: seq<nat>, cut: seq<nat>, first: nat, last: nat,
               freed: seq<nat>, count: nat)
    requires RootNode(n0, b, h, node)
    requires Cut(n0, n, node, cut, h - 1, first, last, Index(last, Cap(h - 1)) + 1, freed, count)
    ensures b in n && n[b] == node && |node| == |cut| == FANOUT
  {
    hide CutLookups, CutDecided, WellFormed, Tally, TallyRange, Leaves, LeavesRange, Cap, Index, Rest;
    ChangesBelow(n0, n, b, h, node);
  }

  lemma LeafBounds(first: nat, last: nat, i: nat)
    ensures SubFirst(first, Cap(0), i) == 0 && SubLast(last, Cap(0), i) == 0
  {
  }

  /** The subtree under pointer i is ready to be truncated on its own. */
  lemma ChildReady(n0: Nodes, n: Nodes, node: seq<nat>, cut: seq<nat>, h: nat, first: nat, last: nat, i: nat,
                   freed: seq<nat>, count: nat)
    requires h > 0 && Cut(n0, n, node, cut, h, first, last, i, freed, count) && first <= last
    requires Distinct(TallyRange(n0, node, h, 0, FANOUT))
    requires Index(first, Cap(h)) <= i <= Index(last, Cap(h)) && i < FANOUT && node[i] != 0
    ensures Tree(n, node[i], h)
    ensures SubFirst(first, Cap(h), i) <= SubLast(last, Cap(h), i) < Cap(h)
  {
    hide CutLookups, CutDecided, Tally, TallyRange, Leaves, LeavesRange, Cap;
    CutDistinct(n0, n, node, cut, h, freed, count);
    SubtreeDistinct(n, cut, h, i);
    SubOrdered(first, last, Cap(h), i);
  }

  /** A subtree strictly inside the range is always emptied. */
  lemma MiddleEmpties(n: Nodes, n': Nodes, p: nat, h: nat, first: nat, last: nat, i: nat, fs: seq<nat>, cnt: nat,
        empty: bool)
    requires Tree(n, p, h)
    requires Truncated(n, n', p, h, SubFirst(first, Cap(h), i), SubLast(last, Cap(h), i), fs, cnt, empty)
    ensures Index(first, Cap(h)) < i < Index(last, Cap(h)) ==> empty
  {
    NothingOutsideAll(n, p, h);
  }
}
