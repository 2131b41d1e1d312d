/** How many blocks an allocation needs: the empty places on the ways to its file blocks, level by level. */
module TreeNeeds {
  import opened BlockTree
  import opened Indexing
  import opened TreeAlloc
  import opened TreeFill
  import opened TreeShape
  import opened TreeTruncate

  /** Number of empty places among those numbered lo to hi - 1 at depth d under b. */
  ghost function Empty(n: Nodes, b: nat, d: nat, lo: nat, hi: nat): (e: nat)
    ensures e <= if lo <= hi then hi - lo else 0
    decreases hi
  {
    if hi <= lo then 0 else Empty(n, b, d, lo, hi - 1) + if Lookup(n, b, d, hi - 1) == 0 then 1 else 0
  }

  /** Number of empty places on the ways to file blocks first to last in the tree of height h under b, down to
      depth d. */
  ghost function Lacking(n: Nodes, b: nat, h: nat, first: nat, last: nat, d: nat): nat
    requires d <= h
    decreases d
  {
    (if d == 0 then 0 else Lacking(n, b, h, first, last, d - 1))
    + Empty(n, b, d, Index(first, Cap(h - d)), Index(last, Cap(h - d)) + 1)
  }

  /** The same summed over the subtrees of height h under the pointers of a node from i on. */
  ghost function LackingFrom(n: Nodes, node: seq<nat>, h: nat, first: nat, last: nat, d: nat, i: nat): nat
    requires |node| == FANOUT && d <= h && Index(last, Cap(h)) < FANOUT
    decreases FANOUT - i
  {
    if i > Index(last, Cap(h)) then 0
    else Lacking(n, node[i], h, SubFirst(first, Cap(h), i), SubLast(last, Cap(h), i), d)
         + LackingFrom(n, node, h, first, last, d, i + 1)
  }

  /** One depth of it. */
  ghost function EmptyFrom(n: Nodes, node: seq<nat>, h: nat, first: nat, last: nat, d: nat, i: nat): nat
    requires |node| == FANOUT && d <= h && Index(last, Cap(h)) < FANOUT
    decreases FANOUT - i
  {
    var a := Cap(h - d);
    if i > Index(last, Cap(h)) then 0
    else Empty(n, node[i], d, Index(SubFirst(first, Cap(h), i), a), Index(SubLast(last, Cap(h), i), a) + 1)
         + EmptyFrom(n, node, h, first, last, d, i + 1)
  }

  // ---- Sums ------------------------------------------------------------------------------------------

  lemma {:induction false} EmptySplit(n: Nodes, b: nat, d: nat, lo: nat, mid: nat, hi: nat)
    requires lo <= mid <= hi
    ensures Empty(n, b, d, lo, hi) == Empty(n, b, d, lo, mid) + Empty(n, b, d, mid, hi)
    decreases hi
  {
    hide Lookup;
    if mid < hi {
      EmptySplit(n, b, d, lo, mid, hi - 1);
    }
  }

  lemma {:induction false} DepthsOfNode(n: Nodes, node: seq<nat>, h: nat, first: nat, last: nat, d: nat, i: nat)
    requires |node| == FANOUT && d <= h && Index(last, Cap(h)) < FANOUT
    ensures LackingFrom(n, node, h, first, last, d, i) ==
      (if d == 0 then 0 else LackingFrom(n, node, h, first, last, d - 1, i)) + EmptyFrom(n, node, h, first, last, d, i)
    decreases FANOUT - i
  {
    hide Cap, Index, SubFirst, SubLast, Empty;
    if i <= Index(last, Cap(h)) {
      DepthsOfNode(n, node, h, first, last, d, i + 1);
    }
  }

  // ---- Positions at a depth ---------------------------------------------------------------------------

  /** Capacities multiply along the levels. */
  lemma {:induction false} CapSum(a: nat, b: nat)
    ensures Cap(a + b) == Cap(a) * Cap(b)
  {
    if a > 0 {
      CapSum(a - 1, b);
      assert FANOUT * (Cap(a - 1) * Cap(b)) == (FANOUT * Cap(a - 1)) * Cap(b);
    }
  }

  /** Dividing by a, then by q, is dividing by q * a. */
  lemma TwoSteps(x: nat, q: nat, a: nat)
    requires q >= 1 && a >= 1 && q * a >= 1
    ensures Index(Index(x, a), q) == Index(x, q * a)
    ensures Rest(Index(x, a), q) == Index(Rest(x, q * a), a)
  {
    var y, r := x / a, x % a;
    DivMod(x, a);
    DivMod(y, q);
    var i, s := y / q, y % q;
    TwoStepsSum(i, s, r, q, a);
    Unique(x, q * a, i, s * a + r);
    Unique(s * a + r, a, s, r);
  }

  lemma TwoStepsSum(i: nat, s: nat, r: nat, q: nat, a: nat)
    requires s < q && r < a
    ensures (i * q + s) * a + r == i * (q * a) + (s * a + r) && s * a + r < q * a
  {
    assert (i * q) * a == i * (q * a);
    MulMono(s + 1, q, a);
  }

  lemma LastBelow(q: nat, a: nat)
    requires q >= 1 && a >= 1 && q * a >= 1
    ensures Index(q * a - 1, a) == q - 1
  {
    assert q * a - 1 == (q - 1) * a + (a - 1);
    Unique(q * a - 1, a, q - 1, a - 1);
  }

  /** The parts of a range that fall into subtree i, numbered at a deeper level. */
  lemma PartsAtDepth(first: nat, last: nat, q: nat, a: nat, i: nat)
    requires q >= 1 && a >= 1 && q * a >= 1
    ensures Index(Index(first, a), q) == Index(first, q * a) && Index(Index(last, a), q) == Index(last, q * a)
    ensures Index(first, q * a) <= i <= Index(last, q * a) ==>
      && SubFirst(Index(first, a), q, i) == Index(SubFirst(first, q * a, i), a)
      && SubLast(Index(last, a), q, i) == Index(SubLast(last, q * a, i), a)
  {
    TwoSteps(first, q, a);
    TwoSteps(last, q, a);
    LastBelow(q, a);
    Unique(0, a, 0, 0);
  }

  // ---- A node and its subtrees ---------------------------------------------------------------------------

  /** The pointers of block b, or of a hole. */
  ghost predicate Pointers(n: Nodes, b: nat, node: seq<nat>) {
    && |node| == FANOUT
    && if b == 0 then forall i :: 0 <= i < FANOUT ==> node[i] == 0 else b in n && n[b] == node
  }

  lemma PointerCount(n: Nodes, b: nat, node: seq<nat>)
    requires Pointers(n, b, node)
    ensures |node| == FANOUT
  {
  }

  lemma LookupIn(n: Nodes, b: nat, d: nat, node: seq<nat>, i: nat, m: nat)
    requires d > 0 && Pointers(n, b, node) && i < FANOUT && m < Cap(d - 1)
    ensures Lookup(n, b, d, i * Cap(d - 1) + m) == Lookup(n, node[i], d - 1, m)
  {
    hide Cap;
    Unique(i * Cap(d - 1) + m, Cap(d - 1), i, m);
  }

  /** Places of one subtree, seen from above. */
  lemma {:induction false} EmptyIn(n: Nodes, b: nat, d: nat, node: seq<nat>, i: nat, lo: nat, hi: nat)
    requires d > 0 && Pointers(n, b, node) && i < FANOUT && lo <= hi <= Cap(d - 1)
    ensures Empty(n, b, d, i * Cap(d - 1) + lo, i * Cap(d - 1) + hi) == Empty(n, node[i], d - 1, lo, hi)
    decreases hi
  {
    hide Cap, Lookup, Pointers;
    if lo < hi {
      EmptyIn(n, b, d, node, i, lo, hi - 1);
      LookupIn(n, b, d, node, i, hi - 1);
    }
  }

  /** Where the part of [lo..hi] in subtree i begins and ends. */
  lemma PartBounds(lo: nat, hi: nat, q: nat, i: nat)
    requires q >= 1 && lo <= hi && Index(lo, q) <= i <= Index(hi, q)
    ensures SubFirst(lo, q, i) <= SubLast(hi, q, i) < q
    ensures i == Index(lo, q) ==> i * q + SubFirst(lo, q, i) == lo
    ensures i == Index(hi, q) ==> i * q + SubLast(hi, q, i) == hi
    ensures i < Index(hi, q) ==> SubLast(hi, q, i) == q - 1 && (i + 1) * q <= hi && SubFirst(lo, q, i + 1) == 0
  {
    SubOrdered(lo, hi, q, i);
    DivMod(lo, q);
    DivMod(hi, q);
    MulMono(i + 1, Index(hi, q), q);
  }

  /** The places at one depth are those of the subtrees. */
  lemma {:induction false} EmptyOfNode(n: Nodes, b: nat, h: nat, node: seq<nat>, first: nat, last: nat, d: nat, i: nat)
    requires 0 < d <= h && Pointers(n, b, node) && first <= last && Index(last, Cap(h - 1)) < FANOUT
    requires Index(first, Cap(h - 1)) <= i <= Index(last, Cap(h - 1))
    ensures var a, q := Cap(h - d), Cap(d - 1);
      Empty(n, b, d, i * q + SubFirst(Index(first, a), q, i), Index(last, a) + 1)
      == EmptyFrom(n, node, h - 1, first, last, d - 1, i)
    decreases FANOUT - i
  {
    hide Cap, Index, SubFirst, SubLast, Empty, Lookup, Pointers;
    var a, q := Cap(h - d), Cap(d - 1);
    CapSum(d - 1, h - d);
    var lo, hi := Index(first, a), Index(last, a);
    PartsAtDepth(first, last, q, a, i);
    IndexMono(first, last, a);
    PartBounds(lo, hi, q, i);
    EmptyIn(n, b, d, node, i, SubFirst(lo, q, i), SubLast(hi, q, i) + 1);
    if i < Index(hi, q) {
      assert i * q + q == (i + 1) * q;
      EmptySplit(n, b, d, i * q + SubFirst(lo, q, i), (i + 1) * q, hi + 1);
      EmptyOfNode(n, b, h, node, first, last, d, i + 1);
    }
  }

  lemma IndexMono(first: nat, last: nat, c: nat)
    requires c >= 1 && first <= last
    ensures Index(first, c) <= Index(last, c)
  {
    DivMono(first, last, c);
  }

  /** What a tree lacks is what its root and its subtrees lack. */
  lemma {:induction false} LackingOfNode(n: Nodes, b: nat, h: nat, node: seq<nat>, first: nat, last: nat, d: nat)
    requires 0 < d <= h && Pointers(n, b, node) && first <= last < Cap(h) && Index(last, Cap(h - 1)) < FANOUT
    ensures Lacking(n, b, h, first, last, d) ==
      (if b == 0 then 1 else 0)
      + LackingFrom(n, node, h - 1, first, last, d - 1, Index(first, Cap(h - 1)))
    decreases d
  {
    hide Cap, Index, SubFirst, SubLast, Empty, Lookup, Pointers;
    var c := Cap(h - 1);
    var i := Index(first, c);
    IndexMono(first, last, c);
    PointerCount(n, b, node);
    EmptyOfNode(n, b, h, node, first, last, d, i);
    var a, q := Cap(h - d), Cap(d - 1);
    CapSum(d - 1, h - d);
    PartsAtDepth(first, last, q, a, i);
    IndexMono(first, last, a);
    PartBounds(Index(first, a), Index(last, a), q, i);
    DepthsOfNode(n, node, h - 1, first, last, d - 1, i);
    if d == 1 {
      RootPlace(n, b, h, first, last);
    } else {
      LackingOfNode(n, b, h, node, first, last, d - 1);
    }
  }

  /** At depth 0 there is one place, the root's. */
  lemma RootPlace(n: Nodes, b: nat, h: nat, first: nat, last: nat)
    requires first <= last < Cap(h)
    ensures Lacking(n, b, h, first, last, 0) == if b == 0 then 1 else 0
  {
    Unique(first, Cap(h), 0, first);
    Unique(last, Cap(h), 0, last);
    assert Empty(n, b, 0, 0, 1) == if b == 0 then 1 else 0;
  }

  // ---- Updates elsewhere -----------------------------------------------------------------------------------

  /** What a tree lacks depends only on its own blocks. */
  lemma {:induction false} PlaceFrame(n1: Nodes, n2: Nodes, b: nat, h: nat, d: nat, m: nat)
    requires AgreeOn(n1, n2, Tally(n1, b, h)) && d <= h
    ensures Lookup(n2, b, d, m) == Lookup(n1, b, d, m)
    decreases d
  {
    hide AgreeOn, Cap, Index, Rest, TallyRange;
    if b != 0 && d > 0 {
      RootAgrees(n1, n2, b, h);
      var i := Index(m, Cap(d - 1));
      if b in n1 && i < |n1[b]| {
        AgreeOnChild(n1, n2, b, h - 1, i);
        PlaceFrame(n1, n2, n1[b][i], h - 1, d - 1, Rest(m, Cap(d - 1)));
      }
    }
  }

  lemma {:induction false} EmptyFrame(n1: Nodes, n2: Nodes, b: nat, h: nat, d: nat, lo: nat, hi: nat)
    requires AgreeOn(n1, n2, Tally(n1, b, h)) && d <= h
    ensures Empty(n2, b, d, lo, hi) == Empty(n1, b, d, lo, hi)
    decreases hi
  {
    hide AgreeOn, Lookup, Tally;
    if lo < hi {
      PlaceFrame(n1, n2, b, h, d, hi - 1);
      EmptyFrame(n1, n2, b, h, d, lo, hi - 1);
    }
  }

  lemma {:induction false} LackingFrame(n1: Nodes, n2: Nodes, b: nat, h: nat, first: nat, last: nat, d: nat)
    requires AgreeOn(n1, n2, Tally(n1, b, h)) && d <= h
    ensures Lacking(n2, b, h, first, last, d) == Lacking(n1, b, h, first, last, d)
    decreases d
  {
    hide AgreeOn, Empty, Tally, Cap, Index;
    EmptyFrame(n1, n2, b, h, d, Index(first, Cap(h - d)), Index(last, Cap(h - d)) + 1);
    if d > 0 {
      LackingFrame(n1, n2, b, h, first, last, d - 1);
    }
  }

  // ---- Loops -------------------------------------------------------------------------------------------------

  /** An allocation succeeds exactly if the blocks suffice, and then takes as many as are lacking. */
  ghost predicate Suffices(lacking: nat, available: nat, taken: nat, ok: bool) {
    (ok <==> lacking <= available) && (ok ==> taken == lacking)
  }

  /** The next pointer's subtree and the rest. */
  lemma LackingNext(n: Nodes, node: seq<nat>, h: nat, first: nat, last: nat, i: nat)
    requires |node| == FANOUT && Index(last, Cap(h)) < FANOUT && i <= Index(last, Cap(h))
    ensures LackingFrom(n, node, h, first, last, h, i) ==
      Lacking(n, node[i], h, SubFirst(first, Cap(h), i), SubLast(last, Cap(h), i), h)
      + LackingFrom(n, node, h, first, last, h, i + 1)
  {
  }

  lemma LackingDone(n: Nodes, node: seq<nat>, h: nat, first: nat, last: nat, i: nat)
    requires |node| == FANOUT && Index(last, Cap(h)) < FANOUT && i > Index(last, Cap(h))
    ensures LackingFrom(n, node, h, first, last, h, i) == 0
  {
  }

  /** A hole lacks its block and all that the new block lacks. */
  lemma HoleLacks(n: Nodes, n': Nodes, b: nat, h: nat, first: nat, last: nat)
    requires h > 0 && b != 0 && b in n' && n'[b] == ZeroNode() && first <= last < Cap(h)
    ensures Lacking(n, 0, h, first, last, h) == 1 + Lacking(n', b, h, first, last, h)
  {
    hide Cap, Index, Lacking;
    Position(h, last);
    Position(h, first);
    var node := ZeroNode();
    LackingOfNode(n, 0, h, node, first, last, h);
    LackingOfNode(n', b, h, node, first, last, h);
    HolesAlike(n, n', node, h - 1, first, last, Index(first, Cap(h - 1)));
  }

  lemma {:induction false} HolesAlike(n: Nodes, n': Nodes, node: seq<nat>, h: nat, first: nat, last: nat, i: nat)
    requires |node| == FANOUT && Index(last, Cap(h)) < FANOUT && forall j :: 0 <= j < FANOUT ==> node[j] == 0
    ensures LackingFrom(n, node, h, first, last, h, i) == LackingFrom(n', node, h, first, last, h, i)
    decreases FANOUT - i
  {
    hide Cap, Index, Lacking, SubFirst, SubLast;
    if i <= Index(last, Cap(h)) {
      NothingAgrees(n, n', h);
      LackingFrame(n, n', 0, h, SubFirst(first, Cap(h), i), SubLast(last, Cap(h), i), h);
      HolesAlike(n, n', node, h, first, last, i + 1);
    }
  }

  lemma NothingAgrees(n: Nodes, n': Nodes, h: nat)
    ensures AgreeOn(n, n', Tally(n, 0, h))
  {
  }

  /** A leaf pointer lacks a block if it is a hole. */
  lemma LeafLacks(n: Nodes, node: seq<nat>, first: nat, last: nat, i: nat)
    requires |node| == FANOUT && Index(last, Cap(0)) < FANOUT && first <= last
    requires Index(first, Cap(0)) <= i <= Index(last, Cap(0))
    ensures LackingFrom(n, node, 0, first, last, 0, i) ==
      (if node[i] == 0 then 1 else 0) + LackingFrom(n, node, 0, first, last, 0, i + 1)
  {
    hide Lacking, Index, Rest, LackingFrom;
    SubOrdered(first, last, Cap(0), i);
    LackingNext(n, node, 0, first, last, i);
    RootPlace(n, node[i], 0, SubFirst(first, Cap(0), i), SubLast(last, Cap(0), i));
  }

  /** The pointers of a node before anything has been filled. */
  lemma NodeLacks(n: Nodes, b: nat, h: nat, first: nat, last: nat)
    requires h > 0 && b != 0 && b in n && |n[b]| == FANOUT && first <= last < Cap(h)
    requires Index(last, Cap(h - 1)) < FANOUT
    ensures Lacking(n, b, h, first, last, h)
      == LackingFrom(n, n[b], h - 1, first, last, h - 1, Index(first, Cap(h - 1)))
  {
    hide Lacking, LackingFrom, Index, Cap;
    LackingOfNode(n, b, h, n[b], first, last, h);
  }

  /** A pointer that has not been dealt with still leads to what it led to. */
  lemma PointerLacks(n0: Nodes, n: Nodes, b: nat, node: seq<nat>, cur: seq<nat>, h: nat, first: nat, last: nat,
        i: nat, taken: seq<nat>, added: nat, f: nat, l: nat)
    requires |node| == FANOUT && Fill(n0, n, b, node, cur, h, first, last, i, true, taken, added) && i < FANOUT
    ensures |cur| == FANOUT && cur[i] == node[i] && Lacking(n, cur[i], h, f, l, h) == Lacking(n0, node[i], h, f, l, h)
  {
    hide FillLookups, FillTotals, FillBehind, AgreeOn, Tally, Lacking, WellFormed;
    LackingFrame(n0, n, node[i], h, f, l, h);
  }

  /** No block is left for a hole. */
  lemma HoleLacksOne(n: Nodes, h: nat, first: nat, last: nat)
    requires h > 0 && first <= last < Cap(h)
    ensures Lacking(n, 0, h, first, last, h) >= 1
  {
    hide Lacking, Index, Cap;
    Position(h, last);
    LackingOfNode(n, 0, h, ZeroNode(), first, last, h);
  }

  // ---- The whole file -----------------------------------------------------------------------------------------

  /** h is the least height, not below the present one, that reaches block last. */
  ghost predicate LeastHeight(h0: nat, last: nat, h: nat) {
    h0 <= h && last < Cap(h) && (h > h0 ==> Cap(h - 1) <= last)
  }

  /** The block of the file at level j with number m; level 0 are the data blocks. */
  ghost function Place(n: Nodes, r: nat, h0: nat, j: nat, m: nat): nat {
    if j <= h0 && m < Cap(h0 - j) then Lookup(n, r, h0 - j, m) else 0
  }

  /** Number of empty places lo to hi - 1 at level j, without those on the way from a new root down to the old one. */
  ghost function EmptyPlaces(n: Nodes, r: nat, h0: nat, j: nat, lo: nat, hi: nat): nat
    decreases hi
  {
    if hi <= lo then 0
    else EmptyPlaces(n, r, h0, j, lo, hi - 1)
         + if Place(n, r, h0, j, hi - 1) == 0 && !(j > h0 && hi - 1 == 0) then 1 else 0
  }

  /** Number of empty places, on levels h - d to h, on the ways to file blocks first to last of a file whose tree
      is to have height h. */
  ghost function EmptyLevels(n: Nodes, r: nat, h0: nat, h: nat, first: nat, last: nat, d: nat): nat
    requires d <= h
    decreases d
  {
    (if d == 0 then 0 else EmptyLevels(n, r, h0, h, first, last, d - 1))
    + EmptyPlaces(n, r, h0, h - d, Index(first, Cap(h - d)), Index(last, Cap(h - d)) + 1)
  }

  /** Blocks that an allocation of first to last needs: one for each new level, and one for each empty place. */
  ghost function Needs(n: Nodes, r: nat, h0: nat, h: nat, first: nat, last: nat): nat
    requires h0 <= h
  {
    h - h0 + EmptyLevels(n, r, h0, h, first, last, h)
  }

  /** The raised tree has the old places and the way from its root down to the old one. */
  ghost predicate RaisedPlaces(n0: Nodes, r0: nat, h0: nat, n: Nodes, r: nat, h: nat) {
    forall j: nat, m: nat :: j <= h && m < Cap(h - j) ==>
      (Lookup(n, r, h - j, m) == 0 <==> Place(n0, r0, h0, j, m) == 0 && !(j > h0 && m == 0))
  }

  lemma NotRaised(n: Nodes, r: nat, h: nat)
    ensures RaisedPlaces(n, r, h, n, r, h)
  {
  }

  /** One more level. */
  lemma RaisedPlacesStep(n0: Nodes, r0: nat, h0: nat, n: Nodes, r: nat, h: nat, d: nat)
    requires RaisedPlaces(n0, r0, h0, n, r, h) && h0 <= h && d != 0 && d !in Tally(n, r, h)
    ensures RaisedPlaces(n0, r0, h0, WithTop(n, r, d), d, h + 1)
  {
    hide Tally, RaisedPlaces;
    var n' := WithTop(n, r, d);
    assert AgreeOn(n, n', Tally(n, r, h));
    forall j: nat, m: nat | j <= h + 1 && m < Cap(h + 1 - j)
      ensures Lookup(n', d, h + 1 - j, m) == 0 <==> Place(n0, r0, h0, j, m) == 0 && !(j > h0 && m == 0)
    {
      if j <= h {
        PlaceAbove(n0, r0, h0, n, n', r, h, d, j, m);
      } else {
        CapZero();
      }
    }
    PlacesRaised(n0, r0, h0, n', d, h + 1);
  }

  lemma PlacesRaised(n0: Nodes, r0: nat, h0: nat, n: Nodes, r: nat, h: nat)
    requires forall j: nat, m: nat :: j <= h && m < Cap(h - j) ==>
      (Lookup(n, r, h - j, m) == 0 <==> Place(n0, r0, h0, j, m) == 0 && !(j > h0 && m == 0))
    ensures RaisedPlaces(n0, r0, h0, n, r, h)
  {
  }

  lemma RaisedPlace(n0: Nodes, r0: nat, h0: nat, n: Nodes, r: nat, h: nat, j: nat, m: nat)
    requires RaisedPlaces(n0, r0, h0, n, r, h) && j <= h && m < Cap(h - j)
    ensures Lookup(n, r, h - j, m) == 0 <==> Place(n0, r0, h0, j, m) == 0 && !(j > h0 && m == 0)
  {
  }

  lemma PlaceAbove(n0: Nodes, r0: nat, h0: nat, n: Nodes, n': Nodes, r: nat, h: nat, d: nat, j: nat, m: nat)
    requires RaisedPlaces(n0, r0, h0, n, r, h) && h0 <= h && d != 0 && AgreeOn(n, n', Tally(n, r, h))
    requires d in n' && n'[d] == ZeroNode()[0 := r] && j <= h && m < Cap(h + 1 - j)
    ensures Lookup(n', d, h + 1 - j, m) == 0 <==> Place(n0, r0, h0, j, m) == 0 && !(j > h0 && m == 0)
  {
    hide Tally, AgreeOn, Cap, RaisedPlaces;
    var e := h - j;
    Position(e + 1, m);
    if m < Cap(e) {
      Unique(m, Cap(e), 0, m);
      PlaceFrame(n, n', r, h, e, m);
      assert Lookup(n', d, e + 1, m) == Lookup(n', r, e, m);
      RaisedPlace(n0, r0, h0, n, r, h, j, m);
    } else {
      IndexPositive(m, Cap(e));
      assert Lookup(n', d, e + 1, m) == Lookup(n', 0, e, Rest(m, Cap(e)));
      if j <= h0 {
        CapMono(h0 - j, e);
      }
    }
  }

  lemma {:induction false} EmptyRaised(n0: Nodes, r0: nat, h0: nat, n: Nodes, r: nat, h: nat, d: nat, lo: nat, hi: nat)
    requires RaisedPlaces(n0, r0, h0, n, r, h) && d <= h && hi <= Cap(d)
    ensures Empty(n, r, d, lo, hi) == EmptyPlaces(n0, r0, h0, h - d, lo, hi)
    decreases hi
  {
    hide Cap, Lookup, Place;
    if lo < hi {
      EmptyRaised(n0, r0, h0, n, r, h, d, lo, hi - 1);
      assert h - (h - d) == d;
    }
  }

  /** What the raised tree lacks, told by the old one. */
  lemma {:induction false} LackingRaised(n0: Nodes, r0: nat, h0: nat, n: Nodes, r: nat, h: nat, first: nat, last: nat,
        d: nat)
    requires RaisedPlaces(n0, r0, h0, n, r, h) && d <= h && last < Cap(h)
    ensures Lacking(n, r, h, first, last, d) == EmptyLevels(n0, r0, h0, h, first, last, d)
    decreases d
  {
    hide RaisedPlaces, Cap, Index;
    CapSum(d, h - d);
    LevelBound(last, Cap(d), Cap(h - d));
    EmptyRaised(n0, r0, h0, n, r, h, d, Index(first, Cap(h - d)), Index(last, Cap(h - d)) + 1);
    if d > 0 {
      LackingRaised(n0, r0, h0, n, r, h, first, last, d - 1);
    }
  }

  lemma LevelBound(last: nat, q: nat, a: nat)
    requires a >= 1 && last < q * a
    ensures Index(last, a) < q
  {
    IndexBound(last, a, q);
  }

  /** The block for a new top level is not one of the tree's. */
  lemma TopPlaces(n0: Nodes, r0: nat, h0: nat, n: Nodes, r: nat, h: nat, taken: seq<nat>, d: nat, rest: seq<nat>)
    requires Raised(n0, r0, h0, n, r, h, taken) && Apart(Tally(n0, r0, h0), taken + ([d] + rest))
    requires RaisedPlaces(n0, r0, h0, n, r, h)
    ensures RaisedPlaces(n0, r0, h0, WithTop(n, r, d), d, h + 1)
  {
    hide Tally, RaisedPlaces, WellFormed, Leaves, FileLookup, Distinct;
    ApartTaken(Tally(n0, r0, h0), taken, [d] + rest);
    assert d in [d] + rest;
    if d in Tally(n, r, h) {
      ApartNotIn(Tally(n, r, h), [d] + rest, d);
    }
    RaisedPlacesStep(n0, r0, h0, n, r, h, d);
  }

  /** What an allocation of first to last does with `available` blocks: the tree grows no higher than it must, and
      it succeeds exactly if the tree need not grow beyond three levels and the blocks suffice; then it takes as many
      as are needed. */
  ghost predicate AsNeeded(n: Nodes, r: nat, h0: nat, available: nat, first: nat, last: nat, height: nat, taken: nat,
        ok: bool)
  {
    forall h :: LeastHeight(h0, last, h) ==>
      && (ok <==> (h == h0 || h <= 3) && Needs(n, r, h0, h, first, last) <= available)
      && (ok ==> height == h && taken == Needs(n, r, h0, h, first, last)) && h0 <= height <= h
  }

  lemma LeastNeeded(n: Nodes, r: nat, h0: nat, available: nat, first: nat, last: nat, h: nat, height: nat, taken: nat,
        ok: bool)
    requires LeastHeight(h0, last, h) && h0 <= height <= h
    requires ok <==> (h == h0 || h <= 3) && Needs(n, r, h0, h, first, last) <= available
    requires ok ==> height == h && taken == Needs(n, r, h0, h, first, last)
    ensures AsNeeded(n, r, h0, available, first, last, height, taken, ok)
  {
    hide LeastHeight, Needs;
    forall h' | LeastHeight(h0, last, h') ensures h' == h {
      LeastUnique(h0, last, h', h);
    }
  }

  /** There is one least height: the number of shifts, or the present height. */
  lemma LeastExists(h0: nat, last: nat) returns (h: nat)
    ensures LeastHeight(h0, last, h)
  {
    hide Cap;
    HeightReaches(last);
    h := if last < Cap(h0) then h0 else HeightOf(last);
    if h0 > HeightOf(last) {
      CapMono(HeightOf(last), h0);
    }
  }

  lemma LeastUnique(h0: nat, last: nat, h1: nat, h2: nat)
    requires LeastHeight(h0, last, h1) && LeastHeight(h0, last, h2)
    ensures h1 == h2
  {
    hide Cap;
    if h1 < h2 {
      CapMono(h1, h2 - 1);
    } else if h2 < h1 {
      CapMono(h2, h1 - 1);
    }
  }

  /** A tree of height 0 is its only data block. */
  lemma NeedsOfLeaf(n: Nodes, r: nat)
    ensures Needs(n, r, 0, 0, 0, 0) == if r == 0 then 1 else 0
  {
    Unique(0, Cap(0), 0, 0);
    assert EmptyPlaces(n, r, 0, 0, 0, 1) == EmptyPlaces(n, r, 0, 0, 0, 0) + if r == 0 then 1 else 0;
  }

  lemma NeedsHere(n: Nodes, r: nat, h: nat, first: nat, last: nat)
    ensures Needs(n, r, h, h, first, last) == EmptyLevels(n, r, h, h, first, last, h)
  {
  }

  /** Above a data block no place is empty. */
  lemma {:induction false} NoneEmptyAbove(n: Nodes, b: nat, h: nat, d: nat, k: nat)
    requires d <= h && Lookup(n, b, h, k) != 0
    ensures Lookup(n, b, d, Index(k, Cap(h - d))) != 0
    decreases d
  {
    if d > 0 && b != 0 {
      CapSum(d - 1, h - d);
      TwoSteps(k, Cap(d - 1), Cap(h - d));
      var i := Index(k, Cap(h - 1));
      NoneEmptyAbove(n, n[b][i], h - 1, d - 1, Rest(k, Cap(h - 1)));
    }
  }

  lemma {:induction false} NoneEmpty(n: Nodes, b: nat, h: nat, d: nat, first: nat, last: nat, lo: nat, hi: nat)
    requires d <= h && first <= last && forall k :: first <= k <= last ==> Lookup(n, b, h, k) != 0
    requires Index(first, Cap(h - d)) <= lo && hi <= Index(last, Cap(h - d)) + 1
    ensures Empty(n, b, d, lo, hi) == 0
    decreases hi
  {
    hide Lookup, Cap;
    if lo < hi {
      NoneEmpty(n, b, h, d, first, last, lo, hi - 1);
      var c := Cap(h - d);
      var k := InPlace(first, last, c, hi - 1);
      NoneEmptyAbove(n, b, h, d, k);
    }
  }

  /** A file block of the range in a given place. */
  lemma InPlace(first: nat, last: nat, c: nat, m: nat) returns (k: nat)
    requires c >= 1 && first <= last && Index(first, c) <= m <= Index(last, c)
    ensures first <= k <= last && Index(k, c) == m
  {
    DivMod(first, c);
    DivMod(last, c);
    if m == Index(first, c) {
      k := first;
    } else {
      k := m * c;
      Unique(m * c, c, m, 0);
      MulMono(m, Index(last, c), c);
      MulMono(Index(first, c) + 1, m, c);
    }
  }

  lemma {:induction false} FullLacksNothing(n: Nodes, b: nat, h: nat, first: nat, last: nat, d: nat)
    requires d <= h && first <= last && forall k :: first <= k <= last ==> Lookup(n, b, h, k) != 0
    ensures Lacking(n, b, h, first, last, d) == 0
    decreases d
  {
    hide Lookup, Cap, Index, Empty;
    NoneEmpty(n, b, h, d, first, last, Index(first, Cap(h - d)), Index(last, Cap(h - d)) + 1);
    if d > 0 {
      FullLacksNothing(n, b, h, first, last, d - 1);
    }
  }

  lemma HoleIsLacking(n: Nodes, b: nat, h: nat, first: nat, last: nat, k: nat)
    requires first <= k <= last && Lookup(n, b, h, k) == 0
    ensures Lacking(n, b, h, first, last, h) > 0
  {
    hide Lookup;
    CapZero();
    Unique(first, 1, first, 0);
    Unique(last, 1, last, 0);
    EmptySplit(n, b, h, first, k, last + 1);
    EmptySplit(n, b, h, k, k + 1, last + 1);
  }

  /** Nothing is needed exactly if every block of the range is there. */
  lemma NothingNeeded(n: Nodes, r: nat, h: nat, first: nat, last: nat)
    requires (r != 0 ==> WellFormed(n, r, h)) && first <= last < Cap(h)
    ensures Needs(n, r, h, h, first, last) == 0 <==> forall k :: first <= k <= last ==> Lookup(n, r, h, k) != 0
  {
    hide Lookup, WellFormed, Lacking, Needs;
    NotRaised(n, r, h);
    LackingRaised(n, r, h, n, r, h, first, last, h);
    NeedsHere(n, r, h, first, last);
    if forall k :: first <= k <= last ==> Lookup(n, r, h, k) != 0 {
      FullLacksNothing(n, r, h, first, last, h);
    } else {
      var k :| first <= k <= last && Lookup(n, r, h, k) == 0;
      HoleIsLacking(n, r, h, first, last, k);
    }
  }
}
