/** What truncation leaves of a tree's left edge and of the pointers behind the range, and what dropping
    top levels then does. */
module TreeLevels {
  import opened BlockTree
  import opened Indexing
  import opened TreeShape
  import opened TreeTruncate

  // ---- Ranges -------------------------------------------------------------------------------------

  function Max(a: nat, b: nat): nat {
    if a < b then b else a
  }

  /** A smaller range has more pointers outside it. */
  lemma {:induction false} OutsideMono(n: Nodes, b: nat, h: nat, f1: nat, l1: nat, f2: nat, l2: nat)
    requires f2 <= f1 <= l1 <= l2 && PointerOutside(n, b, h, f2, l2)
    ensures PointerOutside(n, b, h, f1, l1)
    decreases h
  {
    var c := Cap(h - 1);
    var i := Keeper(n, b, h, n[b], f2, l2);
    SamePlaces(f2, f1, c, i);
    SamePlaces(l1, l2, c, i);
    OrderedIndex(f1, l1, c);
    if Index(f1, c) <= i <= Index(l1, c) {
      SubOrdered(f1, l1, c, i);
      OutsideMono(n, n[b][i], h - 1, SubFirst(f1, c, i), SubLast(l1, c, i), SubFirst(f2, c, i), SubLast(l2, c, i));
      assert Keeps(n, n[b], h - 1, f1, l1, i);
    }
  }

  /** The parts of two ordered positions that fall into subtree i. */
  lemma SamePlaces(k1: nat, k2: nat, c: nat, i: nat)
    requires c >= 1 && k1 <= k2
    ensures Index(k1, c) <= Index(k2, c)
    ensures Index(k2, c) <= i ==> SubFirst(k1, c, i) <= SubFirst(k2, c, i)
    ensures i <= Index(k1, c) ==> SubLast(k1, c, i) <= SubLast(k2, c, i)
  {
    DivMono(k1, k2, c);
    DivMod(k1, c);
    DivMod(k2, c);
  }

  /** Ends of a range behind the tree's capacity make no difference. */
  lemma OutsideClip(n: Nodes, b: nat, h: nat, first: nat, l1: nat, l2: nat)
    requires WellFormed(n, b, h) && Cap(h) <= l1 + 1 && Cap(h) <= l2 + 1
    ensures PointerOutside(n, b, h, first, l1) <==> PointerOutside(n, b, h, first, l2)
  {
    hide Cap;
    if PointerOutside(n, b, h, first, l1) {
      ClipOne(n, b, h, first, l1, l2);
    }
    if PointerOutside(n, b, h, first, l2) {
      ClipOne(n, b, h, first, l2, l1);
    }
  }

  lemma ClipOne(n: Nodes, b: nat, h: nat, first: nat, l1: nat, l2: nat)
    requires WellFormed(n, b, h) && Cap(h) <= l1 + 1 && Cap(h) <= l2 + 1 && PointerOutside(n, b, h, first, l1)
    ensures PointerOutside(n, b, h, first, l2)
  {
    var c := Cap(h - 1);
    var i := Keeper(n, b, h, n[b], first, l1);
    LastOfAll(l1, c, i);
    LastOfAll(l2, c, i);
    assert Keeps(n, n[b], h - 1, first, l2, i);
  }

  lemma LastOfAll(l: nat, c: nat, i: nat)
    requires c >= 1 && FANOUT * c <= l + 1 && i < FANOUT
    ensures i <= Index(l, c) && SubLast(l, c, i) == c - 1
  {
    hide Index, Rest;
    DivMod(l, c);
    TopPart(l, c, l / c, l % c);
    TopParts(l, c);
  }

  lemma TopParts(l: nat, c: nat)
    requires c >= 1
    ensures Index(l, c) == l / c && Rest(l, c) == l % c
  {
  }

  lemma TopPart(l: nat, c: nat, q: nat, r: nat)
    requires c >= 1 && FANOUT * c <= l + 1 && l == q * c + r && r < c
    ensures q >= FANOUT - 1 && (q == FANOUT - 1 ==> r == c - 1)
  {
    assert (q + 1) * c == q * c + c;
    MulMono(q + 1, FANOUT - 1, c);
  }

  // ---- Pointers behind the range --------------------------------------------------------------------

  /** The later of two positions, in subtree i. */
  lemma LaterOfBoth(m: nat, last: nat, c: nat, i: nat)
    requires c >= 1
    ensures Index(Max(m, last), c) == Max(Index(m, c), Index(last, c))
    ensures i <= Index(m, c) && i <= Index(last, c) ==>
      SubLast(Max(m, last), c, i) == Max(SubLast(m, c, i), SubLast(last, c, i))
  {
    hide Index, Rest;
    if m <= last {
      SamePlaces(m, last, c, i);
    } else {
      SamePlaces(last, m, c, i);
    }
    RestBound(m, c);
    RestBound(last, c);
  }

  lemma RestBound(k: nat, c: nat)
    requires c >= 1
    ensures Rest(k, c) < c
  {
  }

  /** A range that begins at most one block behind position m, in subtree i. */
  lemma JustBehind(first: nat, m: nat, c: nat, i: nat)
    requires c >= 1 && 0 < first <= m + 1
    ensures Index(m, c) < i && Index(first, c) <= i ==> SubFirst(first, c, i) == 0
    ensures Index(first, c) <= i <= Index(m, c) ==> SubFirst(first, c, i) <= SubLast(m, c, i) + 1
    ensures i < Index(first, c) ==> i <= Index(m, c) && SubLast(m, c, i) == c - 1
  {
    hide Index, Rest;
    PredBlock(first, c);
    SamePlaces(first - 1, m, c, i);
    RestBound(first, c);
  }

  /** Positions in subtree i of a range, of a position m and of the later of both ends. */
  lemma LaterParts(first: nat, last: nat, m: nat, c: nat, i: nat)
    requires c >= 1 && first <= last && first <= m + 1
    ensures Index(Max(m, last), c) == Max(Index(m, c), Index(last, c))
    ensures i <= Index(m, c) && i <= Index(last, c) ==>
      SubLast(Max(m, last), c, i) == Max(SubLast(m, c, i), SubLast(last, c, i))
    ensures Index(m, c) < i && Index(first, c) <= i ==> SubFirst(first, c, i) == 0
    ensures Index(first, c) <= i <= Index(m, c) ==> SubFirst(first, c, i) <= SubLast(m, c, i) + 1
    ensures i < Index(first, c) ==> i <= Index(m, c) && SubLast(m, c, i) == c - 1 && i < Index(last, c)
  {
    hide Index, Rest, SubLast;
    LaterOfBoth(m, last, c, i);
    OrderedIndex(first, last, c);
    if first > 0 {
      JustBehind(first, m, c, i);
    } else {
      ZeroFirst(c, i);
    }
  }

  /** A pointer behind position m is left exactly if it was behind both m and the range. */
  lemma {:induction false} BehindPruned(n0: Nodes, n1: Nodes, b: nat, h: nat, first: nat, last: nat, m: nat)
    requires WellFormed(n0, b, h) && Pruned(n0, n1, b, h, first, last) && first <= last && first <= m + 1
    ensures PointerOutside(n1, b, h, 0, m) <==> PointerOutside(n0, b, h, 0, Max(m, last))
    decreases h, 0
  {
    hide Cap, Index, SubFirst, SubLast, WellFormed, PrunedAt, PointerOutside;
    if h > 0 {
      var below, node0, node1 := h - 1, n0[b], n1[b];
      WellFormedNode(n0, b, h);
      forall i | 0 <= i < FANOUT
        ensures Keeps(n1, node1, below, 0, m, i) <==> Keeps(n0, node0, below, 0, Max(m, last), i)
      {
        BehindPointer(n0, n1, node0[i], node1[i], below, first, last, m, i);
      }
      OutsideMeans(n1, b, below, node1, 0, m);
      OutsideMeans(n0, b, below, node0, 0, Max(m, last));
    } else {
      NoPointerInLeaf(n0, b, 0, Max(m, last));
      NoPointerInLeaf(n1, b, 0, m);
    }
  }

  lemma NoPointerInLeaf(n: Nodes, b: nat, first: nat, last: nat)
    ensures !PointerOutside(n, b, 0, first, last)
  {
  }

  lemma WellFormedNode(n: Nodes, b: nat, h: nat)
    requires h > 0 && WellFormed(n, b, h)
    ensures b != 0 && b in n && |n[b]| == FANOUT
    ensures forall i :: 0 <= i < FANOUT && n[b][i] != 0 ==> WellFormed(n, n[b][i], h - 1)
  {
  }

  lemma OutsideMeans(n: Nodes, b: nat, below: nat, node: seq<nat>, first: nat, last: nat)
    requires b in n && node == n[b]
    ensures PointerOutside(n, b, below + 1, first, last) <==> exists i ::
        0 <= i < |node| && Keeps(n, node, below, first, last, i)
  {
    if PointerOutside(n, b, below + 1, first, last) {
      var i := Keeper(n, b, below + 1, node, first, last);
    }
  }

  lemma BehindPointer(n0: Nodes, n1: Nodes, p: nat, p': nat, h: nat, first: nat, last: nat, m: nat, i: nat)
    requires PrunedAt(n0, n1, p, p', h, first, last, i) && first <= last && first <= m + 1
    requires p != 0 ==> WellFormed(n0, p, h)
    ensures (p' != 0 &&
      (Index(m, Cap(h)) < i || PointerOutside(n1, p', h, SubFirst(0, Cap(h), i), SubLast(m, Cap(h), i))))
      <==> (p != 0 && (Index(Max(m, last), Cap(h)) < i ||
        PointerOutside(n0, p, h, SubFirst(0, Cap(h), i), SubLast(Max(m, last), Cap(h), i))))
    ensures Index(0, Cap(h)) == 0
    decreases h, 1
  {
    hide Cap, Index, SubFirst, SubLast, WellFormed, Pruned, PointerOutside;
    var c := Cap(h);
    ZeroFirst(c, i);
    LaterParts(first, last, m, c, i);
    if p == 0 {
    } else if i < Index(first, c) {
      OutsideFrame(n0, n1, p, h, 0, c - 1);
      NothingOutsideAll(n0, p, h);
      LastPart(Max(m, last), c, i);
    } else if Index(last, c) < i {
      OutsideFrame(n0, n1, p, h, 0, SubLast(m, c, i));
    } else if Index(m, c) < i {
    } else {
      var f, l := SubFirst(first, c, i), SubLast(last, c, i);
      SubOrdered(first, last, c, i);
      if p' != 0 {
        BehindPruned(n0, n1, p, h, f, l, SubLast(m, c, i));
      } else if PointerOutside(n0, p, h, 0, SubLast(Max(m, last), c, i)) {
        OutsideMono(n0, p, h, f, l, 0, SubLast(Max(m, last), c, i));
      }
    }
  }

  lemma LastPart(k: nat, c: nat, i: nat)
    requires c >= 1 && i < Index(k, c)
    ensures SubLast(k, c, i) == c - 1
  {
  }

  // ---- The left edge -----------------------------------------------------------------------------------

  /** Block reached from r, the root of a tree of height h, by following first pointers to height t. */
  ghost function Leftmost(n: Nodes, r: nat, h: nat, t: nat): nat
    decreases h
  {
    if h <= t || r == 0 then r
    else if r in n && |n[r]| > 0 then Leftmost(n, n[r][0], h - 1, t) else 0
  }

  /** Truncating first to last leaves this subtree on the left edge in place. */
  ghost predicate Survives(n: Nodes, p: nat, h: nat, first: nat, last: nat) {
    p != 0 && (Cap(h) <= first || PointerOutside(n, p, h, first, last))
  }

  lemma {:induction false} LeftmostFrame(n0: Nodes, n1: Nodes, r: nat, h: nat, t: nat)
    requires AgreeOn(n0, n1, Tally(n0, r, h))
    ensures Leftmost(n1, r, h, t) == Leftmost(n0, r, h, t)
    decreases h
  {
    hide AgreeOn, Tally;
    if h > t && r != 0 {
      RootAgrees(n0, n1, r, h);
      if r in n0 && |n0[r]| > 0 {
        AgreeOnChild(n0, n1, r, h - 1, 0);
        LeftmostFrame(n0, n1, n0[r][0], h - 1, t);
      }
    }
  }

  lemma {:induction false} LeftmostZero(n: Nodes, h: nat, t: nat)
    ensures Leftmost(n, 0, h, t) == 0
  {
  }

  lemma {:induction false} LeftmostWellFormed(n: Nodes, r: nat, h: nat, t: nat)
    requires t <= h && (r != 0 ==> WellFormed(n, r, h))
    ensures var p := Leftmost(n, r, h, t); p != 0 ==> WellFormed(n, p, t)
    decreases h
  {
    if h > t && r != 0 {
      LeftmostWellFormed(n, n[r][0], h - 1, t);
    }
  }

  /** Survival does not depend on how far the range goes beyond the subtree. */
  lemma SurvivesClip(n: Nodes, p: nat, h: nat, t: nat, first: nat, last: nat)
    requires t <= h && (p != 0 ==> WellFormed(n, p, t))
    ensures Survives(n, p, t, first, SubLast(last, Cap(h), 0)) <==> Survives(n, p, t, first, last)
  {
    hide WellFormed, PointerOutside;
    var c := Cap(h);
    CapMono(t, h);
    if last < c {
      SubAtZero(last, c);
    } else {
      IndexPositive(last, c);
      if p != 0 {
        OutsideClip(n, p, t, first, c - 1, last);
      }
    }
  }

  /** If nothing of a tree survives, nothing of its left edge does. */
  lemma {:induction false} NoneSurvives(n: Nodes, q: nat, h: nat, t: nat, first: nat, last: nat)
    requires WellFormed(n, q, h) && !PointerOutside(n, q, h, first, last) && first <= last && first < Cap(h) && t <= h
    ensures !Survives(n, Leftmost(n, q, h, t), t, first, last)
    decreases h
  {
    hide Cap, WellFormed, PointerOutside;
    if t < h {
      var below := h - 1;
      var c := Cap(below);
      WellFormedNode(n, q, h);
      KeptOne(n, q, h, n[q], first, last, 0);
      var x := n[q][0];
      if x == 0 || c <= first {
        if c <= first {
          IndexPositive(first, c);
        }
        LeftmostZero(n, below, t);
      } else {
        SubAtZero(first, c);
        SubOrdered(first, last, c, 0);
        NoneSurvives(n, x, below, t, first, SubLast(last, c, 0));
        LeftmostWellFormed(n, x, below, t);
        SurvivesClip(n, Leftmost(n, x, below, t), below, t, first, last);
      }
    }
  }

  lemma FirstAtZero(first: nat, c: nat)
    requires first < c
    ensures Index(first, c) == 0 && SubFirst(first, c, 0) == first
  {
    Unique(first, c, 0, first);
  }

  /** The left edge after truncation. */
  lemma {:induction false} LeftmostPruned(n0: Nodes, n1: Nodes, b: nat, h: nat, t: nat, first: nat, last: nat)
    requires WellFormed(n0, b, h) && Pruned(n0, n1, b, h, first, last) && first <= last && t < h
    ensures var p := Leftmost(n0, b, h, t);
      Leftmost(n1, b, h, t) == if Survives(n0, p, t, first, last) then p else 0
    decreases h
  {
    hide Cap, WellFormed, PointerOutside, Survives, PrunedAt;
    var below := h - 1;
    var c := Cap(below);
    WellFormedNode(n0, b, h);
    var x, x' := n0[b][0], n1[b][0];
    assert PrunedAt(n0, n1, x, x', below, first, last, 0);
    CapMono(t, below);
    if c <= first {
      IndexPositive(first, c);
      LeftUntouched(n0, n1, x, x', below, t, first, last);
    } else {
      FirstAtZero(first, c);
      var l := SubLast(last, c, 0);
      SubOrdered(first, last, c, 0);
      LeftDecided(n0, n1, x, x', below, first, last);
      if x == 0 {
        LeftmostZero(n0, below, t);
        LeftmostZero(n1, below, t);
        NoSurvival(n0, t, first, last);
      } else {
        LeftmostWellFormed(n0, x, below, t);
        SurvivesClip(n0, Leftmost(n0, x, below, t), below, t, first, last);
        if x' == 0 {
          NoneSurvives(n0, x, below, t, first, l);
          LeftmostZero(n1, below, t);
        } else if t < below {
          LeftmostPruned(n0, n1, x, below, t, first, l);
        } else {
          Surviving(n0, x, below, first, l);
        }
      }
    }
  }

  lemma NoSurvival(n: Nodes, h: nat, first: nat, last: nat)
    ensures !Survives(n, 0, h, first, last)
  {
  }

  lemma Surviving(n: Nodes, p: nat, h: nat, first: nat, last: nat)
    requires p != 0 && (PointerOutside(n, p, h, first, last) || Cap(h) <= first)
    ensures Survives(n, p, h, first, last)
  {
  }

  lemma LeftUntouched(n0: Nodes, n1: Nodes, x: nat, x': nat, h: nat, t: nat, first: nat, last: nat)
    requires PrunedAt(n0, n1, x, x', h, first, last, 0) && 0 < Index(first, Cap(h)) && Cap(t) <= first
    ensures x' == x && Leftmost(n1, x, h, t) == Leftmost(n0, x, h, t)
    ensures Survives(n0, Leftmost(n0, x, h, t), t, first, last) <==> Leftmost(n0, x, h, t) != 0
  {
    LeftmostFrame(n0, n1, x, h, t);
  }

  lemma LeftDecided(n0: Nodes, n1: Nodes, x: nat, x': nat, h: nat, first: nat, last: nat)
    requires PrunedAt(n0, n1, x, x', h, first, last, 0) && first < Cap(h) && first <= last
    ensures x' == if x != 0 && PointerOutside(n0, x, h, first, SubLast(last, Cap(h), 0)) then x else 0
    ensures x' != 0 ==> Pruned(n0, n1, x, h, first, SubLast(last, Cap(h), 0))
  {
    hide PointerOutside, Pruned, Cap;
    FirstAtZero(first, Cap(h));
  }

  // ---- Dropping levels -------------------------------------------------------------------------------------

  /** Blocks that hang off the nodes above height t beside the left edge. */
  ghost function Aside(n: Nodes, r: nat, h: nat, t: nat): multiset<nat>
    decreases h
  {
    if h <= t || r == 0 || r !in n || |n[r]| == 0 then multiset{}
    else TallyRange(n, n[r], h - 1, 1, |n[r]|) + Aside(n, n[r][0], h - 1, t)
  }

  ghost function AsideLeaves(n: Nodes, r: nat, h: nat, t: nat): nat
    decreases h
  {
    if h <= t || r == 0 || r !in n || |n[r]| == 0 then 0
    else LeavesRange(n, n[r], h - 1, 1, |n[r]|) + AsideLeaves(n, n[r][0], h - 1, t)
  }

  /** The tree (r0, h0) cut down to height h: the nodes of the left edge above are in gone, what hung off
      them is lost. */
  ghost predicate Dropped(n: Nodes, r0: nat, h0: nat, r: nat, h: nat, gone: seq<nat>) {
    && h <= h0 && r == Leftmost(n, r0, h0, h) && (r != 0 ==> WellFormed(n, r, h))
    && Tally(n, r0, h0) == Tally(n, r, h) + multiset(gone) + Aside(n, r0, h0, h)
    && Leaves(n, r0, h0) == Leaves(n, r, h) + AsideLeaves(n, r0, h0, h)
    && forall k: nat :: FileLookup(n, r, h, k) == if k < Cap(h) then FileLookup(n, r0, h0, k) else 0
  }

  lemma DroppedInit(n: Nodes, r: nat, h: nat)
    requires r != 0 ==> WellFormed(n, r, h)
    ensures Dropped(n, r, h, r, h, [])
  {
    assert Tally(n, r, h) + multiset{} == Tally(n, r, h);
  }

  lemma DroppedEmpty(n: Nodes, h: nat)
    ensures Dropped(n, 0, h, 0, 0, [])
  {
  }

  /** One more level. */
  lemma {:induction false} AsideStep(n: Nodes, r0: nat, h0: nat, h: nat)
    requires 0 < h <= h0 && (r0 != 0 ==> WellFormed(n, r0, h0)) && Leftmost(n, r0, h0, h) != 0
    ensures var r := Leftmost(n, r0, h0, h);
      && WellFormed(n, r, h) && Leftmost(n, r0, h0, h - 1) == n[r][0]
      && Aside(n, r0, h0, h - 1) == Aside(n, r0, h0, h) + TallyRange(n, n[r], h - 1, 1, FANOUT)
      && AsideLeaves(n, r0, h0, h - 1) == AsideLeaves(n, r0, h0, h) + LeavesRange(n, n[r], h - 1, 1, FANOUT)
    decreases h0
  {
    hide TallyRange, LeavesRange;
    if h < h0 {
      AsideStep(n, n[r0][0], h0 - 1, h);
      Regroup(TallyRange(n, n[r0], h0 - 1, 1, FANOUT), Aside(n, n[r0][0], h0 - 1, h),
              TallyRange(n, n[Leftmost(n, r0, h0, h)], h - 1, 1, FANOUT));
    } else {
      assert Leftmost(n, n[r0][0], h - 1, h - 1) == n[r0][0];
      assert Aside(n, n[r0][0], h - 1, h - 1) == multiset{} && AsideLeaves(n, n[r0][0], h - 1, h - 1) == 0;
      assert TallyRange(n, n[r0], h - 1, 1, FANOUT) + multiset{} == TallyRange(n, n[r0], h - 1, 1, FANOUT);
    }
  }

  lemma Regroup(a: multiset<nat>, b: multiset<nat>, c: multiset<nat>)
    ensures a + (b + c) == (a + b) + c
  {
  }

  /** Further down the same edge. */
  lemma {:induction false} DroppedEdge(n: Nodes, r0: nat, h0: nat, r: nat, h: nat, t: nat, gone: seq<nat>)
    requires Dropped(n, r0, h0, r, h, gone) && t <= h
    ensures Leftmost(n, r0, h0, t) == Leftmost(n, r, h, t)
  {
    EdgeOfEdge(n, r0, h0, h, t);
  }

  lemma {:induction false} EdgeOfEdge(n: Nodes, r0: nat, h0: nat, h: nat, t: nat)
    requires t <= h <= h0
    ensures Leftmost(n, r0, h0, t) == Leftmost(n, Leftmost(n, r0, h0, h), h, t)
    decreases h0
  {
    if h < h0 && r0 != 0 && r0 in n && |n[r0]| > 0 {
      EdgeOfEdge(n, n[r0][0], h0 - 1, h, t);
    } else if h < h0 {
      LeftmostZero(n, h, t);
    }
  }

  lemma RootLeft(n: Nodes, r0: nat, h0: nat, r: nat, h: nat, gone: seq<nat>)
    requires Dropped(n, r0, h0, r, h, gone)
    ensures r == Leftmost(n, r0, h0, h) && h <= h0
  {
  }

  lemma DroppedCount(n: Nodes, r0: nat, h0: nat, r: nat, h: nat, gone: seq<nat>)
    requires Dropped(n, r0, h0, r, h, gone)
    ensures Leaves(n, r0, h0) == Leaves(n, r, h) + AsideLeaves(n, r0, h0, h) && h <= h0 && r == Leftmost(n, r0, h0, h)
  {
  }

  lemma DroppedStep(n: Nodes, r0: nat, h0: nat, r: nat, h: nat, gone: seq<nat>)
    requires Dropped(n, r0, h0, r, h, gone) && r != 0 && h > 0 && (r0 != 0 ==> WellFormed(n, r0, h0))
    ensures r in n && |n[r]| == FANOUT && Dropped(n, r0, h0, n[r][0], h - 1, gone + [r])
  {
    hide Tally, Leaves, TallyRange, LeavesRange, Aside, AsideLeaves, Leftmost, Cap, FileLookup;
    AsideStep(n, r0, h0, h);
    WellFormedNode(n, r, h);
    TopNode(n, r, h);
    DropTotals(Tally(n, r0, h0), Tally(n, n[r][0], h - 1), TallyRange(n, n[r], h - 1, 1, FANOUT), Aside(n, r0, h0, h),
      r, gone);
    var x, below := n[r][0], h - 1;
    forall k: nat ensures FileLookup(n, x, below, k) == if k < Cap(below) then FileLookup(n, r0, h0, k) else 0 {
      CapMono(below, h);
      FirstChild(n, r, h, k);
    }
  }

  lemma DropTotals(all: multiset<nat>, child: multiset<nat>, others: multiset<nat>, aside: multiset<nat>, r: nat,
        gone: seq<nat>)
    requires all == (multiset{r} + (child + others)) + multiset(gone) + aside
    ensures all == child + multiset(gone + [r]) + (aside + others)
  {
  }

  /** A node's blocks: itself, its first subtree, the others. */
  lemma TopNode(n: Nodes, r: nat, h: nat)
    requires h > 0 && WellFormed(n, r, h)
    ensures Tally(n, r, h) == multiset{r} + (Tally(n, n[r][0], h - 1) + TallyRange(n, n[r], h - 1, 1, FANOUT))
    ensures Leaves(n, r, h) == Leaves(n, n[r][0], h - 1) + LeavesRange(n, n[r], h - 1, 1, FANOUT)
  {
    hide TallyRange, LeavesRange;
    TallyOne(n, n[r], h - 1, 0, 0, FANOUT);
    LeavesOne(n, n[r], h - 1, 0, 0, FANOUT);
    RangeStart(n, n[r], h - 1);
  }

  lemma RangeStart(n: Nodes, node: seq<nat>, h: nat)
    ensures TallyRange(n, node, h, 0, 0) == multiset{} && LeavesRange(n, node, h, 0, 0) == 0
  {
  }

  lemma FirstChild(n: Nodes, r: nat, h: nat, k: nat)
    requires h > 0 && WellFormed(n, r, h)
    ensures FileLookup(n, n[r][0], h - 1, k) == if k < Cap(h - 1) then FileLookup(n, r, h, k) else 0
  {
    CapMono(h - 1, h);
    if k < Cap(h - 1) {
      FirstAtZero(k, Cap(h - 1));
      Unique(k, Cap(h - 1), 0, k);
    }
  }

  // ---- What is lost ------------------------------------------------------------------------------------

  lemma {:induction false} RangeEmpty(n: Nodes, node: seq<nat>, h: nat, lo: nat, hi: nat)
    requires lo <= hi <= |node|
    ensures TallyRange(n, node, h, lo, hi) == multiset{} <==> forall i :: lo <= i < hi ==> node[i] == 0
    decreases hi - lo
  {
    hide Tally;
    if lo < hi {
      RangeEmpty(n, node, h, lo, hi - 1);
      RootInTally(n, node[hi - 1], h);
      SumEmpty(TallyRange(n, node, h, lo, hi - 1), Tally(n, node[hi - 1], h));
    }
  }

  lemma SumEmpty(a: multiset<nat>, b: multiset<nat>)
    ensures a + b == multiset{} <==> a == multiset{} && b == multiset{}
  {
    if a + b == multiset{} {
      forall x: nat ensures a[x] == 0 && b[x] == 0 {
        assert (a + b)[x] == 0;
      }
    }
  }

  lemma RootInTally(n: Nodes, b: nat, h: nat)
    ensures Tally(n, b, h) == multiset{} <==> b == 0
  {
    if b != 0 {
      assert b in Tally(n, b, h);
    }
  }

  /** Nothing hangs off the left edge above height t exactly if no pointer is behind the first Cap(t) blocks. */
  lemma {:induction false} AsideEmpty(n: Nodes, r: nat, h: nat, t: nat)
    requires WellFormed(n, r, h) && t <= h
    ensures Aside(n, r, h, t) == multiset{} <==> !PointerOutside(n, r, h, 0, Cap(t) - 1)
    decreases h
  {
    hide Cap, TallyRange, Keeps;
    if t == h {
      NothingOutsideAll(n, r, h);
    } else {
      var below := h - 1;
      var c, x, m := Cap(below), n[r][0], Cap(t) - 1;
      CapMono(t, below);
      SubAtZero(m, c);
      RangeEmpty(n, n[r], below, 1, FANOUT);
      SumEmpty(TallyRange(n, n[r], below, 1, FANOUT), Aside(n, x, below, t));
      OutsideMeans(n, r, below, n[r], 0, m);
      forall i | 0 <= i < FANOUT
        ensures Keeps(n, n[r], below, 0, m, i) <==> n[r][i] != 0 && (0 < i || PointerOutside(n, x, below, 0, m))
      {
        ZeroFirst(c, i);
        KeepsIs(n, n[r], below, m, i);
      }
      if x != 0 {
        AsideEmpty(n, x, below, t);
      }
    }
  }

  lemma KeepsIs(n: Nodes, node: seq<nat>, h: nat, m: nat, i: nat)
    requires i < |node| && m < Cap(h)
    ensures Keeps(n, node, h, 0, m, i) <==> node[i] != 0 && (0 < i || PointerOutside(n, node[0], h, 0, m))
  {
    hide PointerOutside, Cap;
    ZeroFirst(Cap(h), i);
    SubAtZero(m, Cap(h));
  }

  /** No data is lost exactly if no block from Cap(t) on is mapped. */
  lemma {:induction false} AsideUnmapped(n: Nodes, r: nat, h: nat, t: nat)
    requires (r != 0 ==> WellFormed(n, r, h)) && t <= h
    ensures AsideLeaves(n, r, h, t) == 0 <==> forall k: nat :: Cap(t) <= k ==> FileLookup(n, r, h, k) == 0
    decreases h
  {
    hide Cap, LeavesRange, Lookup;
    if r == 0 {
      ZeroLookup(n, h);
    } else if t < h {
      var below := h - 1;
      CapMono(t, below);
      CapMono(below, h);
      AsideUnmapped(n, n[r][0], below, t);
      RightUnmapped(n, r, h);
      forall k: nat ensures FileLookup(n, n[r][0], below, k) == if k < Cap(below) then FileLookup(n, r, h, k) else 0 {
        FirstChild(n, r, h, k);
      }
    }
  }

  lemma ZeroLookup(n: Nodes, h: nat)
    ensures forall k: nat :: FileLookup(n, 0, h, k) == 0
  {
  }

  lemma RightUnmapped(n: Nodes, r: nat, h: nat)
    requires h > 0 && WellFormed(n, r, h)
    ensures LeavesRange(n, n[r], h - 1, 1, FANOUT) == 0 <==> forall k: nat :: Cap(h - 1) <= k ==>
      FileLookup(n, r, h, k) == 0
  {
    hide Cap, LeavesRange, Lookup, Leaves;
    var node, below := n[r], h - 1;
    LeavesRangeZero(n, node, below, 1, FANOUT);
    forall i | 0 <= i < FANOUT ensures Leaves(n, node[i], below) == 0 <==> MapsNothing(n, node[i], below) {
      NoLeaves(n, node[i], below);
    }
    if forall i :: 1 <= i < FANOUT ==> MapsNothing(n, node[i], below) {
      forall k: nat | Cap(below) <= k ensures FileLookup(n, r, h, k) == 0 {
        RightLookup(n, r, h, k);
      }
    }
    if forall k: nat :: Cap(below) <= k ==> FileLookup(n, r, h, k) == 0 {
      forall i, x: nat | 1 <= i < FANOUT && x < Cap(below) ensures Lookup(n, node[i], below, x) == 0 {
        LookupAt(n, r, h, i, x);
        MulMono(1, i, Cap(below));
        assert FileLookup(n, r, h, i * Cap(below) + x) == 0;
      }
    }
  }

  lemma RightLookup(n: Nodes, r: nat, h: nat, k: nat)
    requires h > 0 && WellFormed(n, r, h) && Cap(h - 1) <= k
    requires forall i :: 1 <= i < FANOUT ==> MapsNothing(n, n[r][i], h - 1)
    ensures FileLookup(n, r, h, k) == 0
  {
    hide Cap;
    if k < Cap(h) {
      Position(h, k);
      IndexPositive(k, Cap(h - 1));
      var i, x := Index(k, Cap(h - 1)), Rest(k, Cap(h - 1));
      assert MapsNothing(n, n[r][i], h - 1);
      assert Lookup(n, n[r][i], h - 1, x) == 0;
      assert Lookup(n, r, h, k) == Lookup(n, n[r][i], h - 1, x);
    }
  }

  /** A pointer behind block m on the lower levels of the left edge is one of the whole tree. */
  lemma {:induction false} LeftmostOutside(n: Nodes, r: nat, h: nat, t: nat, m: nat)
    requires r != 0 && WellFormed(n, r, h) && t <= h && m < Cap(t)
    requires Leftmost(n, r, h, t) != 0 && PointerOutside(n, Leftmost(n, r, h, t), t, 0, m)
    ensures PointerOutside(n, r, h, 0, m)
    decreases h
  {
    hide Cap;
    if t < h {
      var below := h - 1;
      CapMono(t, below);
      LeftmostOutside(n, n[r][0], below, t, m);
      KeepsIs(n, n[r], below, m, 0);
      OutsideMeans(n, r, below, n[r], 0, m);
    }
  }
}
