/** Freeing a range of file blocks from the tree. */
module TreeTruncate {
  import opened BlockTree
  import opened Indexing

  /** The part of [first..last] that falls into the subtree under pointer i. */
  function SubFirst(first: nat, c: nat, i: nat): nat
    requires c >= 1
  {
    if i == Index(first, c) then Rest(first, c) else 0
  }

  function SubLast(last: nat, c: nat, i: nat): nat
    requires c >= 1
  {
    if i == Index(last, c) then Rest(last, c) else c - 1
  }

  predicate InSub(first: nat, last: nat, c: nat, i: nat, k: nat)
    requires c >= 1
  {
    Index(first, c) <= i <= Index(last, c) && SubFirst(first, c, i) <= k <= SubLast(last, c, i)
  }

  lemma InSubIsRange(first: nat, last: nat, c: nat, k: nat)
    requires c >= 1 && first <= last
    ensures InSub(first, last, c, Index(k, c), Rest(k, c)) <==> first <= k <= last
  {
    RangeByIndex(first, last, c, k);
    DivMod(k, c);
  }

  lemma SubOrdered(first: nat, last: nat, c: nat, i: nat)
    requires c >= 1 && first <= last && Index(first, c) <= i <= Index(last, c)
    ensures SubFirst(first, c, i) <= SubLast(last, c, i) < c
  {
    DivMod(first, c);
    DivMod(last, c);
  }

  lemma PredBlock(first: nat, c: nat)
    requires c >= 1 && first > 0
    ensures Rest(first, c) > 0 ==> Index(first - 1, c) == Index(first, c) && Rest(first - 1, c) == Rest(first, c) - 1
    ensures Rest(first, c) == 0 ==>
      Index(first, c) > 0 && Index(first - 1, c) == Index(first, c) - 1 && Rest(first - 1, c) == c - 1
  {
    DivMod(first, c);
    if Rest(first, c) > 0 {
      Unique(first - 1, c, Index(first, c), Rest(first, c) - 1);
    } else {
      Unique(first - 1, c, Index(first, c) - 1, c - 1);
    }
  }

  /** Some pointer of the tree lies wholly outside the range, at some level. */
  ghost predicate PointerOutside(nodes: Nodes, b: nat, h: nat, first: nat, last: nat)
    decreases h
  {
    && h > 0 && b in nodes
    && exists i :: 0 <= i < |nodes[b]| && nodes[b][i] != 0 &&
                   (|| i < Index(first, Cap(h - 1)) || Index(last, Cap(h - 1)) < i
                    || PointerOutside(nodes, nodes[b][i], h - 1, SubFirst(first, Cap(h - 1), i),
                       SubLast(last, Cap(h - 1), i)))
  }

  lemma {:induction false} OutsideFrame(n1: Nodes, n2: Nodes, b: nat, h: nat, first: nat, last: nat)
    requires AgreeOn(n1, n2, Tally(n1, b, h)) && b != 0
    ensures PointerOutside(n1, b, h, first, last) <==> PointerOutside(n2, b, h, first, last)
    decreases h
  {
    hide AgreeOn;
    RootAgrees(n1, n2, b, h);
    if h > 0 && b in n1 {
      var c := Cap(h - 1);
      forall i | 0 <= i < |n1[b]| && n1[b][i] != 0
        ensures PointerOutside(n1, n1[b][i], h - 1, SubFirst(first, c, i), SubLast(last, c, i))
          <==> PointerOutside(n2, n1[b][i], h - 1, SubFirst(first, c, i), SubLast(last, c, i))
      {
        AgreeOnChild(n1, n2, b, h - 1, i);
        OutsideFrame(n1, n2, n1[b][i], h - 1, SubFirst(first, c, i), SubLast(last, c, i));
      }
    }
  }

  /** Nothing lies outside the whole tree. */
  lemma {:induction false} NothingOutsideAll(nodes: Nodes, b: nat, h: nat)
    requires WellFormed(nodes, b, h)
    ensures !PointerOutside(nodes, b, h, 0, Cap(h) - 1)
    decreases h
  {
    if h > 0 {
      var c := Cap(h - 1);
      Unique(Cap(h) - 1, c, FANOUT - 1, c - 1);
      Unique(0, c, 0, 0);
      forall i | 0 <= i < FANOUT && nodes[b][i] != 0
        ensures !PointerOutside(nodes, nodes[b][i], h - 1, SubFirst(0, c, i), SubLast(Cap(h) - 1, c, i))
      {
        NothingOutsideAll(nodes, nodes[b][i], h - 1);
      }
    }
  }

  /** n2 keeps the metadata of n1 outside the blocks of m. */
  ghost predicate ChangesWithin(n1: Nodes, n2: Nodes, m: multiset<nat>) {
    n2.Keys == n1.Keys && forall x :: x in n1 && x !in m ==> n2[x] == n1[x]
  }

  // ---- Which pointers are left -----------------------------------------------------------------------

  /** Truncating first to last has cleared exactly the pointers of the tree under b that lead to nothing
      outside the range, and has touched nothing that lies wholly outside it. */
  ghost predicate Pruned(n0: Nodes, n1: Nodes, b: nat, h: nat, first: nat, last: nat)
    decreases h, 0
  {
    h > 0 ==>
      && b in n0 && b in n1 && |n0[b]| == |n1[b]| == FANOUT
      && forall i :: 0 <= i < FANOUT ==> PrunedAt(n0, n1, n0[b][i], n1[b][i], h - 1, first, last, i)
  }

  /** Pointer i of a node, p before and p' after. */
  ghost predicate PrunedAt(n0: Nodes, n1: Nodes, p: nat, p': nat, h: nat, first: nat, last: nat, i: nat)
    decreases h, 1
  {
    if i < Index(first, Cap(h)) || Index(last, Cap(h)) < i then p' == p && AgreeOn(n0, n1, Tally(n0, p, h))
    else
      && (p' == if p != 0 && PointerOutside(n0, p, h, SubFirst(first, Cap(h), i), SubLast(last, Cap(h), i)) then p
         else 0)
      && (p' != 0 ==> Pruned(n0, n1, p', h, SubFirst(first, Cap(h), i), SubLast(last, Cap(h), i)))
  }

  lemma AgreeTrans(n0: Nodes, n: Nodes, n': Nodes, b: nat, h: nat)
    requires AgreeOn(n0, n, Tally(n0, b, h)) && AgreeOn(n, n', Tally(n, b, h))
    ensures AgreeOn(n0, n', Tally(n0, b, h))
  {
    TreeFrame(n0, n, b, h);
  }

  /** Later changes elsewhere. */
  lemma {:induction false} PrunedFrame(n0: Nodes, n: Nodes, n': Nodes, b: nat, h: nat, first: nat, last: nat)
    requires AgreeOn(n, n', Tally(n, b, h)) && b != 0 && Pruned(n0, n, b, h, first, last)
    ensures Pruned(n0, n', b, h, first, last)
    decreases h
  {
    hide AgreeOn, Tally, PointerOutside, Cap, Index, SubFirst, SubLast;
    if h > 0 {
      var below := h - 1;
      RootAgrees(n, n', b, h);
      forall i | 0 <= i < FANOUT ensures PrunedAt(n0, n', n0[b][i], n'[b][i], below, first, last, i) {
        AgreeOnChild(n, n', b, below, i);
        assert PrunedAt(n0, n, n0[b][i], n[b][i], below, first, last, i);
        if i < Index(first, Cap(below)) || Index(last, Cap(below)) < i {
          AgreeTrans(n0, n, n', n0[b][i], below);
        } else if n[b][i] != 0 {
          PrunedFrame(n0, n, n', n[b][i], below, SubFirst(first, Cap(below), i), SubLast(last, Cap(below), i));
        }
      }
    }
  }

  /** Earlier changes elsewhere. */
  lemma {:induction false} PrunedSource(n0: Nodes, n: Nodes, n': Nodes, b: nat, h: nat, first: nat, last: nat)
    requires AgreeOn(n0, n, Tally(n0, b, h)) && b != 0 && Pruned(n, n', b, h, first, last)
    ensures Pruned(n0, n', b, h, first, last)
    decreases h
  {
    hide AgreeOn, Tally, PointerOutside, Cap, Index, SubFirst, SubLast;
    if h > 0 {
      var below := h - 1;
      RootAgrees(n0, n, b, h);
      forall i | 0 <= i < FANOUT ensures PrunedAt(n0, n', n0[b][i], n'[b][i], below, first, last, i) {
        AgreeOnChild(n0, n, b, below, i);
        assert PrunedAt(n, n', n[b][i], n'[b][i], below, first, last, i);
        if i < Index(first, Cap(below)) || Index(last, Cap(below)) < i {
          AgreeTrans(n0, n, n', n0[b][i], below);
        } else if n[b][i] != 0 {
          OutsideFrame(n0, n, n[b][i], below, SubFirst(first, Cap(below), i), SubLast(last, Cap(below), i));
          if n'[b][i] != 0 {
            PrunedSource(n0, n, n', n[b][i], below, SubFirst(first, Cap(below), i), SubLast(last, Cap(below), i));
          }
        }
      }
    }
  }

  // ---- Truncating below one node -----------------------------------------------------------------

  /** What truncating the tree under b leaves: either everything below b is gone, with nothing
      mapped outside the range, or the tree is intact without the range. */
  ghost predicate Truncated(n0: Nodes, n1: Nodes, b: nat, h: nat, first: nat, last: nat,
                            freed: seq<nat>, count: nat, empty: bool) {
    && ChangesWithin(n0, n1, Tally(n0, b, h))
    && (empty <==> !PointerOutside(n0, b, h, first, last))
    && (empty ==>
          && Tally(n0, b, h) == multiset{b} + multiset(freed)
          && Leaves(n0, b, h) == count
          && forall k :: 0 <= k < Cap(h) && !(first <= k <= last) ==> Lookup(n0, b, h, k) == 0)
    && (!empty ==>
          && WellFormed(n1, b, h)
          && Tally(n0, b, h) == Tally(n1, b, h) + multiset(freed)
          && Leaves(n0, b, h) == Leaves(n1, b, h) + count
          && (forall k :: 0 <= k < Cap(h) ==> Lookup(n1, b, h, k) == if first <= k <= last then 0
             else Lookup(n0, b, h, k))
          && Pruned(n0, n1, b, h, first, last))
  }

  /** The pointers under a node with the ones that truncation has emptied so far cleared: `node`
      and n0 are the node and the metadata before, `cut` and n the state after pointers below i. */
  ghost predicate CutPointers(node: seq<nat>, cut: seq<nat>, h: nat, first: nat, last: nat, i: nat) {
    && |node| == |cut| == FANOUT
    && forall j :: 0 <= j < FANOUT ==>
         cut[j] == node[j] || (cut[j] == 0 && Index(first, Cap(h)) <= j < i && j <= Index(last, Cap(h)))
  }

  ghost predicate CutLookups(n0: Nodes, n: Nodes, node: seq<nat>, cut: seq<nat>, h: nat, first: nat, last: nat, i: nat)
    requires |node| == |cut| == FANOUT
  {
    forall j, k :: 0 <= j < FANOUT && 0 <= k < Cap(h) ==>
      Lookup(n, cut[j], h, k) == if j < i && InSub(first, last, Cap(h), j, k) then 0 else Lookup(n0, node[j], h, k)
  }

  ghost predicate CutTrees(n0: Nodes, n: Nodes, node: seq<nat>, cut: seq<nat>, h: nat, lo: nat, i: nat)
    requires |node| == |cut| == FANOUT
  {
    && (forall j :: 0 <= j < FANOUT && cut[j] != 0 ==> WellFormed(n, cut[j], h))
    && (forall j :: 0 <= j < FANOUT && (j < lo || i <= j) ==>
       cut[j] == node[j] && AgreeOn(n0, n, Tally(n0, node[j], h)))
  }

  ghost predicate CutDecided(n0: Nodes, node: seq<nat>, cut: seq<nat>, h: nat, first: nat, last: nat, i: nat)
    requires |node| == |cut| == FANOUT
  {
    forall j :: Index(first, Cap(h)) <= j < i && j <= Index(last, Cap(h)) && j < FANOUT && node[j] != 0 ==>
      (cut[j] != 0 <==> PointerOutside(n0, node[j], h, SubFirst(first, Cap(h), j), SubLast(last, Cap(h), j)))
  }

  ghost predicate CutPruned(n0: Nodes, n: Nodes, node: seq<nat>, cut: seq<nat>, h: nat, first: nat, last: nat, i: nat)
    requires |node| == |cut| == FANOUT
  {
    forall j :: Index(first, Cap(h)) <= j < i && j <= Index(last, Cap(h)) && j < FANOUT && cut[j] != 0 ==>
      Pruned(n0, n, cut[j], h, SubFirst(first, Cap(h), j), SubLast(last, Cap(h), j))
  }

  ghost predicate Conserved(n0: Nodes, n: Nodes, node: seq<nat>, cut: seq<nat>, h: nat, freed: seq<nat>, count: nat)
    requires |node| == |cut| == FANOUT
  {
    && ChangesWithin(n0, n, TallyRange(n0, node, h, 0, FANOUT))
    && TallyRange(n0, node, h, 0, FANOUT) == TallyRange(n, cut, h, 0, FANOUT) + multiset(freed)
    && LeavesRange(n0, node, h, 0, FANOUT) == LeavesRange(n, cut, h, 0, FANOUT) + count
  }

  ghost predicate Cut(n0: Nodes, n: Nodes, node: seq<nat>, cut: seq<nat>, h: nat, first: nat, last: nat,
                      i: nat, freed: seq<nat>, count: nat) {
    && CutPointers(node, cut, h, first, last, i)
    && CutLookups(n0, n, node, cut, h, first, last, i)
    && CutTrees(n0, n, node, cut, h, Index(first, Cap(h)), i)
    && CutDecided(n0, node, cut, h, first, last, i)
    && CutPruned(n0, n, node, cut, h, first, last, i)
    && Conserved(n0, n, node, cut, h, freed, count)
  }

  /** Nothing is cut at first. */
  lemma CutInit(n0: Nodes, node: seq<nat>, h: nat, first: nat, last: nat)
    requires |node| == FANOUT && forall j :: 0 <= j < FANOUT && node[j] != 0 ==> WellFormed(n0, node[j], h)
    ensures Cut(n0, n0, node, node, h, first, last, Index(first, Cap(h)), [], 0)
  {
  }

  /** Subtrees of distinct pointers in a range without repeated blocks share nothing. */
  lemma RangeDisjoint(nodes: Nodes, node: seq<nat>, h: nat, i: nat, j: nat, x: nat)
    requires i < |node| && j < |node| && i != j && Distinct(TallyRange(nodes, node, h, 0, |node|))
    ensures !(x in Tally(nodes, node[i], h) && x in Tally(nodes, node[j], h))
  {
    hide Distinct;
    var lo, hi := if i < j then i else j, if i < j then j else i;
    TallyOne(nodes, node, h, 0, hi, |node|);
    TallyOne(nodes, node, h, 0, lo, hi);
    AtMostOnce(TallyRange(nodes, node, h, 0, |node|), x);
  }

  /** A change within one subtree leaves its siblings alone. */
  lemma SiblingAgrees(n: Nodes, n': Nodes, node: seq<nat>, h: nat, i: nat, j: nat)
    requires i < |node| && j < |node| && i != j && Distinct(TallyRange(n, node, h, 0, |node|))
    requires ChangesWithin(n, n', Tally(n, node[i], h))
    ensures AgreeOn(n, n', Tally(n, node[j], h))
  {
    hide Distinct;
    forall x | x in Tally(n, node[j], h) ensures (x in n <==> x in n') && (x in n ==> n[x] == n'[x]) {
      RangeDisjoint(n, node, h, i, j, x);
    }
  }

  lemma SiblingSame(n: Nodes, n': Nodes, node: seq<nat>, h: nat, i: nat, j: nat)
    requires i < |node| && j < |node| && i != j && Distinct(TallyRange(n, node, h, 0, |node|))
    requires ChangesWithin(n, n', Tally(n, node[i], h))
    ensures Tally(n', node[j], h) == Tally(n, node[j], h) && Leaves(n', node[j], h) == Leaves(n, node[j], h)
    ensures WellFormed(n', node[j], h) <==> WellFormed(n, node[j], h)
    ensures forall k :: 0 <= k < Cap(h) ==> Lookup(n', node[j], h, k) == Lookup(n, node[j], h, k)
  {
    SiblingAgrees(n, n', node, h, i, j);
    TreeFrame(n, n', node[j], h);
    forall k | 0 <= k < Cap(h) ensures Lookup(n', node[j], h, k) == Lookup(n, node[j], h, k) {
      LookupFrame(n, n', node[j], h, k);
    }
  }

  /** Replacing one pointer's subtree changes the totals by that subtree. */
  lemma ReplaceAgreed(n: Nodes, n': Nodes, node: seq<nat>, node': seq<nat>, h: nat, i: nat)
    requires i < |node| == |node'| && node' == node[i := node'[i]]
    requires forall j :: 0 <= j < |node| && j != i ==> AgreeOn(n, n', Tally(n, node[j], h))
    ensures TallyRange(n', node', h, 0, |node|) + Tally(n, node[i], h)
      == TallyRange(n, node, h, 0, |node|) + Tally(n', node'[i], h)
    ensures LeavesRange(n', node', h, 0, |node|) + Leaves(n, node[i], h)
      == LeavesRange(n, node, h, 0, |node|) + Leaves(n', node'[i], h)
  {
    hide AgreeOn, Tally, Leaves, TallyRange, LeavesRange, WellFormed;
    forall j | 0 <= j < |node| && j != i
      ensures Tally(n', node'[j], h) == Tally(n, node[j], h) && Leaves(n', node'[j], h) == Leaves(n, node[j], h)
    {
      TreeFrame(n, n', node[j], h);
    }
    RangeSame(n, n', node, node', h, 0, i);
    RangeSame(n, n', node, node', h, i + 1, |node|);
    TallyOne(n, node, h, 0, i, |node|);
    TallyOne(n', node', h, 0, i, |node|);
    LeavesOne(n, node, h, 0, i, |node|);
    LeavesOne(n', node', h, 0, i, |node|);
    SwapMiddle(TallyRange(n, node, h, 0, i), Tally(n, node[i], h), Tally(n', node'[i], h),
      TallyRange(n, node, h, i + 1, |node|));
  }

  lemma SwapMiddle(a: multiset<nat>, m: multiset<nat>, m': multiset<nat>, c: multiset<nat>)
    ensures (a + m' + c) + m == (a + m + c) + m'
  {
  }

  lemma ReplaceOne(n: Nodes, n': Nodes, node: seq<nat>, node': seq<nat>, h: nat, i: nat)
    requires i < |node| == |node'| && node' == node[i := node'[i]]
    requires Distinct(TallyRange(n, node, h, 0, |node|)) && ChangesWithin(n, n', Tally(n, node[i], h))
    ensures TallyRange(n', node', h, 0, |node|) + Tally(n, node[i], h)
      == TallyRange(n, node, h, 0, |node|) + Tally(n', node'[i], h)
    ensures LeavesRange(n', node', h, 0, |node|) + Leaves(n, node[i], h)
      == LeavesRange(n, node, h, 0, |node|) + Leaves(n', node'[i], h)
  {
    hide Distinct, ChangesWithin, AgreeOn, Tally, Leaves, TallyRange, LeavesRange;
    forall j | 0 <= j < |node| && j != i ensures AgreeOn(n, n', Tally(n, node[j], h)) {
      SiblingAgrees(n, n', node, h, i, j);
    }
    ReplaceAgreed(n, n', node, node', h, i);
  }

  // ---- One more pointer -----------------------------------------------------------------------------

  /** Pointer i has been dealt with: nothing below it was touched and it was a hole, or its tree
      was truncated and, if nothing remained, its block freed as well. */
  ghost predicate ChildCut(n: Nodes, n': Nodes, p: nat, p': nat, h: nat, first: nat, last: nat,
                           freed: seq<nat>, count: nat) {
    && ChangesWithin(n, n', Tally(n, p, h))
    && (p' == p || p' == 0) && (p' != 0 ==> WellFormed(n', p', h))
    && (p != 0 ==> (p' != 0 <==> PointerOutside(n, p, h, first, last)))
    && Tally(n, p, h) == Tally(n', p', h) + multiset(freed)
    && Leaves(n, p, h) == Leaves(n', p', h) + count
    && (p' != 0 ==> Pruned(n, n', p', h, first, last))
    && forall k :: 0 <= k < Cap(h) ==> Lookup(n', p', h, k) == if first <= k <= last then 0 else Lookup(n, p, h, k)
  }

  lemma HoleCut(n: Nodes, h: nat, first: nat, last: nat)
    ensures ChildCut(n, n, 0, 0, h, first, last, [], 0)
  {
  }

  lemma SubtreeCut(n: Nodes, n': Nodes, p: nat, h: nat, first: nat, last: nat, freed: seq<nat>, count: nat, empty: bool)
    requires p != 0 && Truncated(n, n', p, h, first, last, freed, count, empty)
    ensures ChildCut(n, n', p, if empty then 0 else p, h, first, last, freed + (if empty then [p] else []), count)
  {
  }

  lemma LeafCut(n: Nodes, p: nat)
    requires p != 0
    ensures ChildCut(n, n, p, 0, 0, 0, 0, [p], 1)
  {
  }

  lemma CutDistinct(n0: Nodes, n: Nodes, node: seq<nat>, cut: seq<nat>, h: nat, freed: seq<nat>, count: nat)
    requires |node| == |cut| == FANOUT && Conserved(n0, n, node, cut, h, freed, count)
    requires Distinct(TallyRange(n0, node, h, 0, FANOUT))
    ensures Distinct(TallyRange(n, cut, h, 0, FANOUT))
  {
    var part, all := TallyRange(n, cut, h, 0, FANOUT), TallyRange(n0, node, h, 0, FANOUT);
    assert forall x :: x in part ==> x in all && part[x] <= all[x];
  }

  lemma Cancel(a: multiset<nat>, b: multiset<nat>, p: multiset<nat>, f: multiset<nat>)
    requires a + (p + f) == b + p
    ensures b == a + f
  {
    forall x: nat ensures b[x] == (a + f)[x] {
      assert (a + (p + f))[x] == (b + p)[x];
    }
  }

  lemma ConservedStep(n0: Nodes, n: Nodes, n': Nodes, node: seq<nat>, cut: seq<nat>, p': nat, h: nat,
                      first: nat, last: nat, i: nat, freed: seq<nat>, count: nat, fs: seq<nat>, cnt: nat)
    requires |node| == |cut| == FANOUT && i < FANOUT && cut[i] == node[i]
    requires Conserved(n0, n, node, cut, h, freed, count) && Distinct(TallyRange(n0, node, h, 0, FANOUT))
    requires ChildCut(n, n', cut[i], p', h, first, last, fs, cnt)
    ensures Conserved(n0, n', node, cut[i := p'], h, freed + fs, count + cnt)
  {
    hide Distinct, AgreeOn, Tally, Leaves, TallyRange, LeavesRange, WellFormed, Lookup, Cap;
    CutDistinct(n0, n, node, cut, h, freed, count);
    ReplaceOne(n, n', cut, cut[i := p'], h, i);
    TallyOne(n, cut, h, 0, i, FANOUT);
    assert multiset(freed + fs) == multiset(freed) + multiset(fs);
    Cancel(TallyRange(n', cut[i := p'], h, 0, FANOUT), TallyRange(n, cut, h, 0, FANOUT), Tally(n', p', h),
      multiset(fs));
    forall x | x in n0 && x !in TallyRange(n0, node, h, 0, FANOUT) ensures n'[x] == n0[x] {
      assert x !in TallyRange(n, cut, h, 0, FANOUT);
      assert x !in Tally(n, cut[i], h);
    }
  }

  /** Pointers outside the part dealt with are still as they were. */
  lemma CutAhead(n0: Nodes, n: Nodes, n': Nodes, node: seq<nat>, cut: seq<nat>, h: nat, lo: nat, i: nat, j: nat,
        freed: seq<nat>, count: nat)
    requires |node| == |cut| == FANOUT && i < FANOUT && j < FANOUT && (j < lo <= i || i < j)
    requires CutTrees(n0, n, node, cut, h, lo, i) && Conserved(n0, n, node, cut, h, freed, count)
    requires Distinct(TallyRange(n0, node, h, 0, FANOUT)) && ChangesWithin(n, n', Tally(n, cut[i], h))
    ensures AgreeOn(n0, n', Tally(n0, node[j], h))
  {
    CutDistinct(n0, n, node, cut, h, freed, count);
    SiblingAgrees(n, n', cut, h, i, j);
    TreeFrame(n0, n, node[j], h);
  }

  lemma TreesStep(n0: Nodes, n: Nodes, n': Nodes, node: seq<nat>, cut: seq<nat>, p': nat, h: nat,
                  lo: nat, i: nat, freed: seq<nat>, count: nat)
    requires |node| == |cut| == FANOUT && lo <= i < FANOUT
    requires CutTrees(n0, n, node, cut, h, lo, i) && Conserved(n0, n, node, cut, h, freed, count)
    requires Distinct(TallyRange(n0, node, h, 0, FANOUT)) && ChangesWithin(n, n', Tally(n, cut[i], h))
    requires p' != 0 ==> WellFormed(n', p', h)
    ensures CutTrees(n0, n', node, cut[i := p'], h, lo, i + 1)
  {
    hide Distinct, AgreeOn, Tally, Leaves, TallyRange, LeavesRange, WellFormed, Lookup, Cap, Conserved, ChangesWithin;
    CutDistinct(n0, n, node, cut, h, freed, count);
    forall j | 0 <= j < FANOUT && j != i && cut[j] != 0 ensures WellFormed(n', cut[j], h) {
      SiblingSame(n, n', cut, h, i, j);
    }
    forall j | 0 <= j < FANOUT && (j < lo || i < j) ensures AgreeOn(n0, n', Tally(n0, node[j], h)) {
      CutAhead(n0, n, n', node, cut, h, lo, i, j, freed, count);
    }
  }

  lemma LookupsStep(n0: Nodes, n: Nodes, n': Nodes, node: seq<nat>, cut: seq<nat>, p': nat, h: nat,
                    first: nat, last: nat, i: nat, freed: seq<nat>, count: nat, fs: seq<nat>, cnt: nat)
    requires |node| == |cut| == FANOUT && i < FANOUT && Index(first, Cap(h)) <= i <= Index(last, Cap(h))
    requires CutLookups(n0, n, node, cut, h, first, last, i) && Conserved(n0, n, node, cut, h, freed, count)
    requires Distinct(TallyRange(n0, node, h, 0, FANOUT))
    requires ChildCut(n, n', cut[i], p', h, SubFirst(first, Cap(h), i), SubLast(last, Cap(h), i), fs, cnt)
    ensures CutLookups(n0, n', node, cut[i := p'], h, first, last, i + 1)
  {
    hide Distinct, AgreeOn, Tally, Leaves, TallyRange, LeavesRange, WellFormed, Lookup, Conserved, ChangesWithin,
      Index, Rest, Cap;
    CutDistinct(n0, n, node, cut, h, freed, count);
    forall j, k | 0 <= j < FANOUT && 0 <= k < Cap(h)
      ensures Lookup(n', cut[i := p'][j], h, k)
        == if j < i + 1 && InSub(first, last, Cap(h), j, k) then 0 else Lookup(n0, node[j], h, k)
    {
      if j != i {
        SiblingSame(n, n', cut, h, i, j);
      }
    }
  }

  lemma DecidedStep(n0: Nodes, n: Nodes, n': Nodes, node: seq<nat>, cut: seq<nat>, p': nat, h: nat,
                    first: nat, last: nat, i: nat, fs: seq<nat>, cnt: nat)
    requires |node| == |cut| == FANOUT && i < FANOUT && Index(first, Cap(h)) <= i <= Index(last, Cap(h))
    requires CutDecided(n0, node, cut, h, first, last, i) && CutTrees(n0, n, node, cut, h, Index(first, Cap(h)), i)
    requires ChildCut(n, n', cut[i], p', h, SubFirst(first, Cap(h), i), SubLast(last, Cap(h), i), fs, cnt)
    ensures CutDecided(n0, node, cut[i := p'], h, first, last, i + 1)
  {
    hide AgreeOn, Tally, Leaves, WellFormed, Lookup, ChangesWithin, PointerOutside, Cap, Index, Rest, SubFirst, SubLast;
    if node[i] != 0 {
      OutsideFrame(n0, n, node[i], h, SubFirst(first, Cap(h), i), SubLast(last, Cap(h), i));
    }
  }

  lemma PrunedStep(n0: Nodes, n: Nodes, n': Nodes, node: seq<nat>, cut: seq<nat>, p': nat, h: nat,
                   first: nat, last: nat, i: nat, freed: seq<nat>, count: nat, fs: seq<nat>, cnt: nat)
    requires |node| == |cut| == FANOUT && i < FANOUT && Index(first, Cap(h)) <= i <= Index(last, Cap(h))
    requires CutPruned(n0, n, node, cut, h, first, last, i) && CutTrees(n0, n, node, cut, h, Index(first, Cap(h)), i)
    requires Conserved(n0, n, node, cut, h, freed, count) && Distinct(TallyRange(n0, node, h, 0, FANOUT))
    requires ChildCut(n, n', cut[i], p', h, SubFirst(first, Cap(h), i), SubLast(last, Cap(h), i), fs, cnt)
    ensures CutPruned(n0, n', node, cut[i := p'], h, first, last, i + 1)
  {
    hide Distinct, AgreeOn, Tally, TallyRange, Leaves, LeavesRange, WellFormed, Lookup, Conserved, ChangesWithin,
      PointerOutside, Cap, Index, Rest, SubFirst, SubLast, Pruned;
    CutDistinct(n0, n, node, cut, h, freed, count);
    forall j | Index(first, Cap(h)) <= j < i + 1 && j <= Index(last, Cap(h)) && j < FANOUT && cut[i := p'][j] != 0
      ensures Pruned(n0, n', cut[i := p'][j], h, SubFirst(first, Cap(h), j), SubLast(last, Cap(h), j))
    {
      if j == i {
        PrunedSource(n0, n, n', p', h, SubFirst(first, Cap(h), i), SubLast(last, Cap(h), i));
      } else {
        SiblingAgrees(n, n', cut, h, i, j);
        PrunedFrame(n0, n, n', cut[j], h, SubFirst(first, Cap(h), j), SubLast(last, Cap(h), j));
      }
    }
  }

  /** Dealing with pointer i keeps the loop's invariant. */
  lemma CutStep(n0: Nodes, n: Nodes, n': Nodes, node: seq<nat>, cut: seq<nat>, p': nat, h: nat,
                first: nat, last: nat, i: nat, freed: seq<nat>, count: nat, fs: seq<nat>, cnt: nat)
    requires Cut(n0, n, node, cut, h, first, last, i, freed, count)
    requires i < FANOUT && Index(first, Cap(h)) <= i <= Index(last, Cap(h))
    requires Distinct(TallyRange(n0, node, h, 0, FANOUT))
    requires ChildCut(n, n', cut[i], p', h, SubFirst(first, Cap(h), i), SubLast(last, Cap(h), i), fs, cnt)
    ensures Cut(n0, n', node, cut[i := p'], h, first, last, i + 1, freed + fs, count + cnt)
  {
    hide Distinct, AgreeOn, Tally, Leaves, TallyRange, LeavesRange, WellFormed, Lookup, Conserved, CutDecided,
      CutPruned, Pruned, CutLookups, PointerOutside, Index, Rest, SubFirst, SubLast;
    assert cut[i] == node[i];
    ConservedStep(n0, n, n', node, cut, p', h, SubFirst(first, Cap(h), i), SubLast(last, Cap(h), i), i, freed, count,
      fs, cnt);
    TreesStep(n0, n, n', node, cut, p', h, Index(first, Cap(h)), i, freed, count);
    LookupsStep(n0, n, n', node, cut, p', h, first, last, i, freed, count, fs, cnt);
    DecidedStep(n0, n, n', node, cut, p', h, first, last, i, fs, cnt);
    PrunedStep(n0, n, n', node, cut, p', h, first, last, i, freed, count, fs, cnt);
  }

  // ---- The whole node ------------------------------------------------------------------------------

  ghost predicate NoPointers(node: seq<nat>) {
    forall j :: 0 <= j < |node| ==> node[j] == 0
  }

  /** The tree under b before truncation, and its node's pointers. */
  ghost predicate Tree(n: Nodes, b: nat, h: nat) {
    h > 0 && WellFormed(n, b, h) && Distinct(Tally(n, b, h))
  }

  /** node is the root node of the tree under b; its subtrees are well formed and share nothing. */
  ghost predicate RootNode(n: Nodes, b: nat, h: nat, node: seq<nat>) {
    && h > 0 && b != 0 && b in n && n[b] == node && |node| == FANOUT
    && b !in TallyRange(n, node, h - 1, 0, FANOUT)
    && Distinct(TallyRange(n, node, h - 1, 0, FANOUT))
    && Tally(n, b, h) == multiset{b} + TallyRange(n, node, h - 1, 0, FANOUT)
    && Leaves(n, b, h) == LeavesRange(n, node, h - 1, 0, FANOUT)
    && (forall i :: 0 <= i < FANOUT && node[i] != 0 ==> WellFormed(n, node[i], h - 1))
  }

  lemma TreeRoot(n: Nodes, b: nat, h: nat)
    requires Tree(n, b, h)
    ensures b in n && RootNode(n, b, h, n[b])
  {
    var all, below := Tally(n, b, h), TallyRange(n, n[b], h - 1, 0, FANOUT);
    assert all == multiset{b} + below;
    assert forall x :: x in below ==> x in all && below[x] <= all[x];
    assert b in below ==> all[b] >= 2;
  }

  /** A subtree under a node without repeated blocks has none either. */
  lemma SubtreeDistinct(n: Nodes, node: seq<nat>, h: nat, i: nat)
    requires i < |node| && Distinct(TallyRange(n, node, h, 0, |node|))
    ensures Distinct(Tally(n, node[i], h))
  {
    TallyOne(n, node, h, 0, i, |node|);
    var part, all := Tally(n, node[i], h), TallyRange(n, node, h, 0, |node|);
    assert forall x :: x in part ==> x in all && part[x] <= all[x];
  }

  /** Pointer i keeps the node alive. */
  ghost predicate Keeps(n: Nodes, node: seq<nat>, h: nat, first: nat, last: nat, i: nat)
    requires i < |node|
  {
    node[i] != 0 && (|| i < Index(first, Cap(h)) || Index(last, Cap(h)) < i
                     || PointerOutside(n, node[i], h, SubFirst(first, Cap(h), i), SubLast(last, Cap(h), i)))
  }

  lemma OutsideByPointers(n0: Nodes, b: nat, h: nat, node: seq<nat>, cut: seq<nat>, first: nat, last: nat)
    requires RootNode(n0, b, h, node) && CutPointers(node, cut, h - 1, first, last, Index(last, Cap(h - 1)) + 1)
    requires CutDecided(n0, node, cut, h - 1, first, last, Index(last, Cap(h - 1)) + 1)
    ensures PointerOutside(n0, b, h, first, last) <==> !NoPointers(cut)
  {
    hide WellFormed, Tally, TallyRange, Leaves, LeavesRange, Distinct, Cap, Index, Rest, SubFirst, SubLast;
    forall i | 0 <= i < FANOUT ensures cut[i] != 0 <==> Keeps(n0, node, h - 1, first, last, i) {
    }
    if !NoPointers(cut) {
      var i :| 0 <= i < |cut| && cut[i] != 0;
      assert Keeps(n0, node, h - 1, first, last, i);
    }
    if PointerOutside(n0, b, h, first, last) {
      var i := Keeper(n0, b, h, node, first, last);
    }
  }

  lemma Keeper(n0: Nodes, b: nat, h: nat, node: seq<nat>, first: nat, last: nat) returns (i: nat)
    requires h > 0 && b in n0 && n0[b] == node && PointerOutside(n0, b, h, first, last)
    ensures i < |node| && Keeps(n0, node, h - 1, first, last, i)
  {
    i :| 0 <= i < |n0[b]| && n0[b][i] != 0 &&
             (|| i < Index(first, Cap(h - 1)) || Index(last, Cap(h - 1)) < i
              || PointerOutside(n0, n0[b][i], h - 1, SubFirst(first, Cap(h - 1), i), SubLast(last, Cap(h - 1), i)));
  }

  /** Position of file block k under a node of height h. */
  lemma CutLookup(n0: Nodes, n: Nodes, b: nat, h: nat, node: seq<nat>, cut: seq<nat>, first: nat, last: nat, k: nat)
    requires h > 0 && b != 0 && b in n0 && n0[b] == node && |node| == FANOUT && |cut| == FANOUT
    requires first <= last && k < Cap(h) && Index(k, Cap(h - 1)) < FANOUT && Rest(k, Cap(h - 1)) < Cap(h - 1)
    requires CutLookups(n0, n, node, cut, h - 1, first, last, Index(last, Cap(h - 1)) + 1)
    ensures Lookup(n, cut[Index(k, Cap(h - 1))], h - 1, Rest(k, Cap(h - 1)))
      == if first <= k <= last then 0 else Lookup(n0, b, h, k)
  {
    hide Cap, SubFirst, SubLast, Index, Rest;
    InSubIsRange(first, last, Cap(h - 1), k);
  }

  lemma ChangesBelow(n0: Nodes, n: Nodes, b: nat, h: nat, node: seq<nat>)
    requires RootNode(n0, b, h, node) && ChangesWithin(n0, n, TallyRange(n0, node, h - 1, 0, FANOUT))
    ensures ChangesWithin(n0, n, Tally(n0, b, h)) && b in n && n[b] == node
  {
    hide WellFormed, Tally, TallyRange, Leaves, LeavesRange, Distinct;
  }

  /** Every pointer gone: the node itself can be freed. */
  lemma NodeEmptied(n0: Nodes, n: Nodes, b: nat, h: nat, node: seq<nat>, cut: seq<nat>, first: nat, last: nat,
        freed: seq<nat>, count: nat)
    requires RootNode(n0, b, h, node) && first <= last && NoPointers(cut)
    requires Cut(n0, n, node, cut, h - 1, first, last, Index(last, Cap(h - 1)) + 1, freed, count)
    ensures Truncated(n0, n, b, h, first, last, freed, count, true)
  {
    hide Distinct, Tally, Leaves, TallyRange, LeavesRange, WellFormed, CutLookups, CutTrees, CutDecided, ChangesWithin,
      PointerOutside, Cap, Index, Rest;
    OutsideByPointers(n0, b, h, node, cut, first, last);
    ChangesBelow(n0, n, b, h, node);
    RangeOfHoles(n, cut, h - 1, 0, FANOUT);
    forall k | 0 <= k < Cap(h) && !(first <= k <= last) ensures Lookup(n0, b, h, k) == 0 {
      Position(h, k);
      CutLookup(n0, n, b, h, node, cut, first, last, k);
      assert Lookup(n, 0, h - 1, Rest(k, Cap(h - 1))) == 0;
    }
  }

  /** Subtrees keep their meaning when their parent is written. */
  lemma ParentWritten(n0: Nodes, n: Nodes, b: nat, h: nat, node: seq<nat>, cut: seq<nat>, freed: seq<nat>, count: nat,
        j: nat)
    requires RootNode(n0, b, h, node) && |cut| == FANOUT && j < FANOUT
    requires Conserved(n0, n, node, cut, h - 1, freed, count)
    ensures AgreeOn(n, n[b := cut], Tally(n, cut[j], h - 1))
  {
    hide WellFormed, Tally, TallyRange, Leaves, LeavesRange, Distinct;
    TallyOne(n, cut, h - 1, 0, j, FANOUT);
    PartOfConserved(TallyRange(n0, node, h - 1, 0, FANOUT), TallyRange(n, cut, h - 1, 0, FANOUT), multiset(freed), b);
    assert b !in Tally(n, cut[j], h - 1);
    assert b in n;
  }

  lemma PartOfConserved(all: multiset<nat>, part: multiset<nat>, f: multiset<nat>, b: nat)
    requires all == part + f && b !in all
    ensures b !in part
  {
  }

  /** Some pointer left: the node is written back with the emptied pointers cleared. */
  lemma NodeKept(n0: Nodes, n: Nodes, b: nat, h: nat, node: seq<nat>, cut: seq<nat>, first: nat, last: nat,
        freed: seq<nat>, count: nat)
    requires RootNode(n0, b, h, node) && first <= last && !NoPointers(cut)
    requires Cut(n0, n, node, cut, h - 1, first, last, Index(last, Cap(h - 1)) + 1, freed, count)
    ensures Truncated(n0, n[b := cut], b, h, first, last, freed, count, false)
  {
    hide Distinct, CutLookups, CutDecided, CutPruned, Pruned, PointerOutside, Cap, AgreeOn, Tally, Leaves, TallyRange,
      LeavesRange, Lookup, WellFormed, RootNode, Conserved, Index, Rest;
    OutsideByPointers(n0, b, h, node, cut, first, last);
    KeptBase(n0, n, b, h, node, cut, first, last, freed, count);
    KeptTotals(n0, n, b, h, node, cut, freed, count);
    KeptWellFormed(n0, n, b, h, node, cut, first, last, freed, count);
    KeptPruned(n0, n, b, h, node, cut, first, last, freed, count);
    forall k | 0 <= k < Cap(h)
      ensures Lookup(n[b := cut], b, h, k) == if first <= k <= last then 0 else Lookup(n0, b, h, k)
    {
      KeptLookup(n0, n, b, h, node, cut, first, last, freed, count, k);
    }
  }

  lemma KeptBase(n0: Nodes, n: Nodes, b: nat, h: nat, node: seq<nat>, cut: seq<nat>, first: nat, last: nat,
        freed: seq<nat>, count: nat)
    requires RootNode(n0, b, h, node) && |cut| == FANOUT && Conserved(n0, n, node, cut, h - 1, freed, count)
    ensures ChangesWithin(n0, n[b := cut], Tally(n0, b, h))
  {
    hide Distinct, Cap, Tally, Leaves, TallyRange, LeavesRange, Lookup, WellFormed;
    ChangesBelow(n0, n, b, h, node);
    KeptChanges(n0, n, b, h, cut);
  }

  lemma KeptWellFormed(n0: Nodes, n: Nodes, b: nat, h: nat, node: seq<nat>, cut: seq<nat>, first: nat, last: nat,
        freed: seq<nat>, count: nat)
    requires RootNode(n0, b, h, node)
    requires Cut(n0, n, node, cut, h - 1, first, last, Index(last, Cap(h - 1)) + 1, freed, count)
    ensures WellFormed(n[b := cut], b, h)
  {
    hide Distinct, Cap, Tally, Leaves, TallyRange, LeavesRange, Lookup, CutLookups, CutDecided, Conserved, Index, Rest;
    KeptTotals(n0, n, b, h, node, cut, freed, count);
  }

  /** The node with its emptied pointers cleared. */
  lemma KeptPruned(n0: Nodes, n: Nodes, b: nat, h: nat, node: seq<nat>, cut: seq<nat>, first: nat, last: nat,
        freed: seq<nat>, count: nat)
    requires RootNode(n0, b, h, node) && first <= last
    requires Cut(n0, n, node, cut, h - 1, first, last, Index(last, Cap(h - 1)) + 1, freed, count)
    ensures Pruned(n0, n[b := cut], b, h, first, last)
  {
    hide Distinct, CutLookups, WellFormed, Tally, TallyRange, Leaves, LeavesRange, Lookup, PointerOutside, AgreeOn,
      ChangesWithin, Cap, Index, Rest, SubFirst, SubLast, PrunedAt, Conserved;
    var n1, below := n[b := cut], h - 1;
    forall i | 0 <= i < FANOUT ensures PrunedAt(n0, n1, node[i], cut[i], below, first, last, i) {
      ParentWritten(n0, n, b, h, node, cut, freed, count, i);
      KeptPointer(n0, n, n1, node, cut, below, first, last, i);
    }
  }

  lemma KeptPointer(n0: Nodes, n: Nodes, n1: Nodes, node: seq<nat>, cut: seq<nat>, h: nat, first: nat, last: nat,
        i: nat)
    requires |node| == |cut| == FANOUT && i < FANOUT && AgreeOn(n, n1, Tally(n, cut[i], h))
    requires CutPointers(node, cut, h, first, last, Index(last, Cap(h)) + 1)
    requires CutTrees(n0, n, node, cut, h, Index(first, Cap(h)), Index(last, Cap(h)) + 1)
    requires CutDecided(n0, node, cut, h, first, last, Index(last, Cap(h)) + 1)
    requires CutPruned(n0, n, node, cut, h, first, last, Index(last, Cap(h)) + 1)
    ensures PrunedAt(n0, n1, node[i], cut[i], h, first, last, i)
  {
    hide WellFormed, Tally, PointerOutside, AgreeOn, Cap, Index, Rest, SubFirst, SubLast, Pruned;
    if i < Index(first, Cap(h)) || Index(last, Cap(h)) < i {
      AgreeTrans(n0, n, n1, node[i], h);
    } else if cut[i] != 0 {
      PrunedFrame(n0, n, n1, cut[i], h, SubFirst(first, Cap(h), i), SubLast(last, Cap(h), i));
    }
  }

  lemma ZeroFirst(c: nat, i: nat)
    requires c >= 1
    ensures Index(0, c) == 0 && SubFirst(0, c, i) == 0
  {
  }

  lemma KeptOne(n0: Nodes, b: nat, h: nat, node: seq<nat>, first: nat, last: nat, i: nat)
    requires h > 0 && b in n0 && n0[b] == node && i < |node| && !PointerOutside(n0, b, h, first, last)
    ensures !Keeps(n0, node, h - 1, first, last, i)
  {
  }

  lemma OrderedIndex(first: nat, last: nat, c: nat)
    requires c >= 1 && first <= last
    ensures Index(first, c) <= Index(last, c)
  {
    DivMono(first, last, c);
  }

  lemma KeptChanges(n0: Nodes, n: Nodes, b: nat, h: nat, cut: seq<nat>)
    requires h > 0 && b != 0 && b in n && b in n0 && ChangesWithin(n0, n, Tally(n0, b, h))
    ensures ChangesWithin(n0, n[b := cut], Tally(n0, b, h))
  {
    hide TallyRange;
    assert b in Tally(n0, b, h);
  }

  lemma KeptLookup(n0: Nodes, n: Nodes, b: nat, h: nat, node: seq<nat>, cut: seq<nat>, first: nat, last: nat,
                   freed: seq<nat>, count: nat, k: nat)
    requires RootNode(n0, b, h, node) && |cut| == FANOUT && first <= last && k < Cap(h)
    requires CutLookups(n0, n, node, cut, h - 1, first, last, Index(last, Cap(h - 1)) + 1)
    requires Conserved(n0, n, node, cut, h - 1, freed, count)
    ensures Lookup(n[b := cut], b, h, k) == if first <= k <= last then 0 else Lookup(n0, b, h, k)
  {
    hide Distinct, CutLookups, Conserved, Cap, AgreeOn, Tally, TallyRange, LeavesRange, WellFormed, Index, Rest;
    Position(h, k);
    CutLookup(n0, n, b, h, node, cut, first, last, k);
    ParentWritten(n0, n, b, h, node, cut, freed, count, Index(k, Cap(h - 1)));
    LookupFrame(n, n[b := cut], cut[Index(k, Cap(h - 1))], h - 1, Rest(k, Cap(h - 1)));
  }

  lemma KeptTotals(n0: Nodes, n: Nodes, b: nat, h: nat, node: seq<nat>, cut: seq<nat>, freed: seq<nat>, count: nat)
    requires RootNode(n0, b, h, node) && |cut| == FANOUT && Conserved(n0, n, node, cut, h - 1, freed, count)
    ensures var n1 := n[b := cut];
      && Tally(n0, b, h) == Tally(n1, b, h) + multiset(freed)
      && Leaves(n0, b, h) == Leaves(n1, b, h) + count
      && forall j :: 0 <= j < FANOUT ==> (WellFormed(n1, cut[j], h - 1) <==> WellFormed(n, cut[j], h - 1))
  {
    hide Distinct, AgreeOn, TallyRange, LeavesRange, WellFormed;
    var n1 := n[b := cut];
    forall j | 0 <= j < FANOUT
      ensures Tally(n1, cut[j], h - 1) == Tally(n, cut[j], h - 1)
      ensures Leaves(n1, cut[j], h - 1) == Leaves(n, cut[j], h - 1)
      ensures WellFormed(n1, cut[j], h - 1) <==> WellFormed(n, cut[j], h - 1)
    {
      ParentWritten(n0, n, b, h, node, cut, freed, count, j);
      TreeFrame(n, n1, cut[j], h - 1);
    }
    RangeSame(n, n1, cut, cut, h - 1, 0, FANOUT);
  }
}
