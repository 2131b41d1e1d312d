/** Moving one page of a tree to another block. Here the map of contents holds data pages as well as
    metadata: a page is 512 words. */
module TreePages {
  import opened BlockTree
  import opened Indexing
  import opened TreeAlloc
  import opened TreeShape
  import opened TreeTheorems
  import opened TreeTruncate

  /** Both are holes, or both are pages with the same contents. */
  ghost predicate SamePage(n: Nodes, x: nat, n': Nodes, y: nat) {
    (x == 0 <==> y == 0) && (x != 0 ==> x in n && y in n' && n[x] == n'[y])
  }

  /** Every file block of the first tree reads the same in the second. */
  ghost predicate SameContents(n: Nodes, p: nat, n': Nodes, p': nat, h: nat) {
    forall k :: 0 <= k < Cap(h) ==> SamePage(n, Lookup(n, p, h, k), n', Lookup(n', p', h, k))
  }

  ghost predicate Stored(n: Nodes, m: multiset<nat>) {
    forall x :: x in m ==> x in n && |n[x]| == FANOUT
  }

  /** The tree under p has become the tree under p', with block `from` replaced by block `to`. */
  ghost predicate Moved(n: Nodes, n': Nodes, p: nat, p': nat, h: nat, from: nat, to: nat) {
    && p' != 0 && WellFormed(n', p', h)
    && Tally(n', p', h) + multiset{from} == Tally(n, p, h) + multiset{to}
    && Leaves(n', p', h) == Leaves(n, p, h)
    && SameContents(n, p, n', p', h)
  }

  /** The page under pointer i of block b has been copied to block d and the pointer redirected. */
  ghost predicate SlotMoved(n: Nodes, n': Nodes, b: nat, i: nat, d: nat) {
    && b in n && i < |n[b]| && n[b][i] != 0 && n[b][i] in n && d != b
    && n'.Keys == n.Keys + {d}
    && n'[d] == n[n[b][i]] && n'[b] == n[b][i := d]
    && forall x :: x in n && x != b && x != d ==> n'[x] == n[x]
  }

  lemma AgreedContents(n: Nodes, n': Nodes, p: nat, h: nat)
    requires AgreeOn(n, n', Tally(n, p, h)) && Stored(n, Tally(n, p, h)) && (p != 0 ==> WellFormed(n, p, h))
    ensures SameContents(n, p, n', p, h)
  {
    hide AgreeOn, Tally, WellFormed, Cap, Lookup;
    AgreedSame(n, n', p, h);
    forall k | 0 <= k < Cap(h) ensures SamePage(n, Lookup(n, p, h, k), n', Lookup(n', p, h, k)) {
      var x := Lookup(n, p, h, k);
      if p != 0 {
        MappedIsUsed(n, p, h, k);
        PageAgrees(n, n', Tally(n, p, h), x);
      } else {
        EmptyPointer(n, h);
      }
    }
  }

  lemma PageAgrees(n: Nodes, n': Nodes, m: multiset<nat>, x: nat)
    requires AgreeOn(n, n', m) && Stored(n, m) && (x == 0 || x in m)
    ensures SamePage(n, x, n', x)
  {
  }

  /** The moved page itself, as the root of a subtree. */
  lemma MovedRoot(n: Nodes, n': Nodes, p: nat, d: nat, h: nat)
    requires WellFormed(n, p, h) && d != 0 && p in n && d in n' && n'[d] == n[p]
    requires h > 0 ==> forall i :: 0 <= i < FANOUT ==>
      AgreeOn(n, n', Tally(n, n[p][i], h - 1)) && Stored(n, Tally(n, n[p][i], h - 1))
    ensures Moved(n, n', p, d, h, p, d)
  {
    if h > 0 {
      MovedNode(n, n', p, d, h);
    }
  }

  lemma MovedNode(n: Nodes, n': Nodes, p: nat, d: nat, h: nat)
    requires h > 0 && WellFormed(n, p, h) && d != 0 && d in n' && n'[d] == n[p]
    requires forall i :: 0 <= i < FANOUT ==>
      AgreeOn(n, n', Tally(n, n[p][i], h - 1)) && Stored(n, Tally(n, n[p][i], h - 1))
    ensures Moved(n, n', p, d, h, p, d)
  {
    hide AgreeOn, Stored, TallyRange, LeavesRange, Cap, Index, Rest, SamePage;
    var node, below := n[p], h - 1;
    forall i | 0 <= i < FANOUT
      ensures Tally(n', node[i], below) == Tally(n, node[i], below)
      ensures Leaves(n', node[i], below) == Leaves(n, node[i], below)
      ensures WellFormed(n', node[i], below) <==> WellFormed(n, node[i], below)
    {
      TreeFrame(n, n', node[i], below);
    }
    MovedNodeTotals(n, n', p, d, h, node);
    forall k | 0 <= k < Cap(h) ensures SamePage(n, Lookup(n, p, h, k), n', Lookup(n', d, h, k)) {
      Position(h, k);
      AgreedContents(n, n', node[Index(k, Cap(h - 1))], h - 1);
    }
  }

  lemma MovedNodeTotals(n: Nodes, n': Nodes, p: nat, d: nat, h: nat, node: seq<nat>)
    requires h > 0 && p != 0 && d != 0 && p in n && n[p] == node && d in n' && n'[d] == node && |node| == FANOUT
    requires forall i :: 0 <= i < FANOUT ==>
      Tally(n', node[i], h - 1) == Tally(n, node[i], h - 1) && Leaves(n', node[i], h - 1) == Leaves(n, node[i], h - 1)
    ensures Tally(n', d, h) + multiset{p} == Tally(n, p, h) + multiset{d} && Leaves(n', d, h) == Leaves(n, p, h)
  {
    hide TallyRange, LeavesRange;
    RangeSame(n, n', node, node, h - 1, 0, FANOUT);
    SwapEnds(TallyRange(n, node, h - 1, 0, FANOUT), p, d);
  }

  lemma SwapEnds(t: multiset<nat>, p: nat, d: nat)
    ensures (multiset{d} + t) + multiset{p} == (multiset{p} + t) + multiset{d}
  {
  }

  /** A page moved below one pointer of a node: the node's tree has moved in the same way. */
  lemma MovedBelow(n: Nodes, n': Nodes, b: nat, h: nat, i: nat, p': nat, from: nat, to: nat)
    requires h > 0 && WellFormed(n, b, h) && i < FANOUT && n[b][i] != 0 && b in n' && n'[b] == n[b][i := p']
    requires Moved(n, n', n[b][i], p', h - 1, from, to)
    requires forall j :: 0 <= j < FANOUT && j != i ==>
      AgreeOn(n, n', Tally(n, n[b][j], h - 1)) && Stored(n, Tally(n, n[b][j], h - 1))
    ensures Moved(n, n', b, b, h, from, to)
  {
    hide AgreeOn, Stored, Cap, Index, Rest, TallyRange, LeavesRange, SameContents;
    var node, below := n[b], h - 1;
    forall j | 0 <= j < FANOUT && j != i
      ensures WellFormed(n', node[j], below) <==> WellFormed(n, node[j], below)
      ensures node[j] != 0 ==> WellFormed(n, node[j], below)
    {
      TreeFrame(n, n', node[j], below);
    }
    MovedTotals(n, n', b, h, i, p', from, to);
    MovedContents(n, n', b, h, i, p', from, to);
  }

  lemma MovedTotals(n: Nodes, n': Nodes, b: nat, h: nat, i: nat, p': nat, from: nat, to: nat)
    requires h > 0 && WellFormed(n, b, h) && i < FANOUT && b in n' && n'[b] == n[b][i := p']
    requires Moved(n, n', n[b][i], p', h - 1, from, to)
    requires forall j :: 0 <= j < FANOUT && j != i ==> AgreeOn(n, n', Tally(n, n[b][j], h - 1))
    ensures Tally(n', b, h) + multiset{from} == Tally(n, b, h) + multiset{to} && Leaves(n', b, h) == Leaves(n, b, h)
  {
    hide AgreeOn, TallyRange, LeavesRange, SameContents, Cap;
    ReplaceAgreed(n, n', n[b], n'[b], h - 1, i);
    SwapIn(multiset{b}, TallyRange(n', n'[b], h - 1, 0, FANOUT), Tally(n, n[b][i], h - 1),
           TallyRange(n, n[b], h - 1, 0, FANOUT), Tally(n', p', h - 1), from, to);
  }

  lemma SwapIn(m: multiset<nat>, t': multiset<nat>, a: multiset<nat>, t: multiset<nat>, a': multiset<nat>, from: nat,
        to: nat)
    requires t' + a == t + a' && a' + multiset{from} == a + multiset{to}
    ensures (m + t') + multiset{from} == (m + t) + multiset{to}
  {
    forall x: nat ensures ((m + t') + multiset{from})[x] == ((m + t) + multiset{to})[x] {
      assert (t' + a)[x] == (t + a')[x];
      assert (a' + multiset{from})[x] == (a + multiset{to})[x];
    }
  }

  lemma MovedContents(n: Nodes, n': Nodes, b: nat, h: nat, i: nat, p': nat, from: nat, to: nat)
    requires h > 0 && WellFormed(n, b, h) && i < FANOUT && b in n' && n'[b] == n[b][i := p']
    requires Moved(n, n', n[b][i], p', h - 1, from, to)
    requires forall j :: 0 <= j < FANOUT && j != i ==>
      AgreeOn(n, n', Tally(n, n[b][j], h - 1)) && Stored(n, Tally(n, n[b][j], h - 1))
    ensures SameContents(n, b, n', b, h)
  {
    hide AgreeOn, Stored, Tally, Leaves, Cap, Index, Rest;
    forall k | 0 <= k < Cap(h) ensures SamePage(n, Lookup(n, b, h, k), n', Lookup(n', b, h, k)) {
      Position(h, k);
      var j := Index(k, Cap(h - 1));
      if j != i {
        AgreedContents(n, n', n[b][j], h - 1);
      }
    }
  }

  // ---- Along the path of a file block -----------------------------------------------------------------

  /** The block at height h on the way from b (at height top) to file block k, and what is left of k there. */
  ghost function NodeAt(n: Nodes, b: nat, top: nat, k: nat, h: nat): nat
    decreases top
  {
    if top <= h || b == 0 || b !in n || Index(k, Cap(top - 1)) >= |n[b]| then b
    else NodeAt(n, n[b][Index(k, Cap(top - 1))], top - 1, Rest(k, Cap(top - 1)), h)
  }

  function RestAt(top: nat, k: nat, h: nat): nat {
    if top <= h then k else RestAt(top - 1, Rest(k, Cap(top - 1)), h)
  }

  /** One step further down the path. */
  lemma {:induction false} PathStep(n: Nodes, b: nat, top: nat, k: nat, h: nat)
    requires 0 < h <= top && WellFormed(n, b, top) && k < Cap(top)
    requires var bp := NodeAt(n, b, top, k, h); bp != 0
    ensures var bp, r := NodeAt(n, b, top, k, h), RestAt(top, k, h);
      && WellFormed(n, bp, h) && r < Cap(h) && bp in Tally(n, b, top)
      && Index(r, Cap(h - 1)) < FANOUT
      && Lookup(n, b, top, k) == Lookup(n, bp, h, r)
      && NodeAt(n, b, top, k, h - 1) == n[bp][Index(r, Cap(h - 1))]
      && RestAt(top, k, h - 1) == Rest(r, Cap(h - 1))
    decreases top
  {
    hide Index, Rest, TallyRange;
    Position(top, k);
    var i := Index(k, Cap(top - 1));
    if h < top {
      var c := n[b][i];
      PathStep(n, c, top - 1, Rest(k, Cap(top - 1)), h);
      TallyOne(n, n[b], top - 1, 0, i, FANOUT);
    }
  }

  lemma AgreeAway(n: Nodes, n': Nodes, b: nat, i: nat, d: nat, m: multiset<nat>)
    requires SlotMoved(n, n', b, i, d) && b !in m && d !in m
    ensures AgreeOn(n, n', m)
  {
  }

  lemma PartStored(n: Nodes, m: multiset<nat>, part: multiset<nat>)
    requires Stored(n, m) && part <= m
    ensures Stored(n, part)
  {
  }

  /** The other subtrees of a node, when something has moved at block `at`, which lies in none of them. */
  lemma OthersAway(n: Nodes, n': Nodes, b: nat, h: nat, at: nat, slot: nat, d: nat, j: nat)
    requires h > 0 && b != 0 && b in n && j < |n[b]| && SlotMoved(n, n', at, slot, d)
    requires Stored(n, Tally(n, b, h)) && d !in Tally(n, b, h) && at !in Tally(n, n[b][j], h - 1)
    ensures AgreeOn(n, n', Tally(n, n[b][j], h - 1)) && Stored(n, Tally(n, n[b][j], h - 1))
  {
    hide SlotMoved, TallyRange, Stored;
    TallyOne(n, n[b], h - 1, 0, j, |n[b]|);
    PartStored(n, Tally(n, b, h), Tally(n, n[b][j], h - 1));
    AgreeAway(n, n', at, slot, d, Tally(n, n[b][j], h - 1));
  }

  /** The node's own pointer i has been redirected to a copy. */
  lemma MovedHere(n: Nodes, n': Nodes, b: nat, h: nat, i: nat, d: nat)
    requires Tree(n, b, h) && Stored(n, Tally(n, b, h)) && d != 0 && d !in Tally(n, b, h)
    requires i < FANOUT && b in n && |n[b]| == FANOUT && SlotMoved(n, n', b, i, d)
    ensures Moved(n, n', b, b, h, n[b][i], d)
  {
    hide Stored, Tally, TallyRange, LeavesRange, Distinct, Moved;
    TreeRoot(n, b, h);
    var p, node := n[b][i], n[b];
    forall j | 0 <= j < FANOUT ensures AgreeOn(n, n', Tally(n, node[j], h - 1)) && Stored(n, Tally(n, node[j], h - 1)) {
      TallyOne(n, node, h - 1, 0, j, FANOUT);
      OthersAway(n, n', b, h, b, i, d, j);
    }
    MovedChildRoot(n, n', p, h - 1, d);
    MovedBelow(n, n', b, h, i, d, p, d);
  }

  lemma MovedChildRoot(n: Nodes, n': Nodes, p: nat, h: nat, d: nat)
    requires WellFormed(n, p, h) && d != 0 && p in n && d in n' && n'[d] == n[p]
    requires AgreeOn(n, n', Tally(n, p, h)) && Stored(n, Tally(n, p, h))
    ensures Moved(n, n', p, d, h, p, d)
  {
    hide Stored, AgreeOn, TallyRange, Moved;
    if h > 0 {
      forall i | 0 <= i < FANOUT
        ensures AgreeOn(n, n', Tally(n, n[p][i], h - 1)) && Stored(n, Tally(n, n[p][i], h - 1))
      {
        AgreeOnChild(n, n', p, h - 1, i);
        TallyOne(n, n[p], h - 1, 0, i, FANOUT);
        PartStored(n, Tally(n, p, h), Tally(n, n[p][i], h - 1));
      }
    }
    MovedRoot(n, n', p, d, h);
  }

  /** A page moved under the node at height h on the path of k: the whole tree has moved, and the
      path still leads there. */
  lemma {:induction false} PathMoved(n: Nodes, n': Nodes, b: nat, top: nat, k: nat, h: nat, d: nat)
    requires 0 < h <= top && Tree(n, b, top) && Stored(n, Tally(n, b, top)) && k < Cap(top)
    requires d != 0 && d !in Tally(n, b, top) && NodeAt(n, b, top, k, h) != 0
    requires SlotMoved(n, n', NodeAt(n, b, top, k, h), Index(RestAt(top, k, h), Cap(h - 1)), d)
    ensures var bp, i := NodeAt(n, b, top, k, h), Index(RestAt(top, k, h), Cap(h - 1));
      Moved(n, n', b, b, top, n[bp][i], d) && NodeAt(n', b, top, k, h) == bp
    decreases top
  {
    hide Index, Rest, Stored, Tally, TallyRange, LeavesRange, Distinct, Moved, Cap;
    PathStep(n, b, top, k, h);
    if h == top {
      MovedHere(n, n', b, h, Index(k, Cap(h - 1)), d);
    } else {
      PathMovedBelow(n, n', b, top, k, h, d);
    }
  }

  lemma {:induction false} PathMovedBelow(n: Nodes, n': Nodes, b: nat, top: nat, k: nat, h: nat, d: nat)
    requires 0 < h < top && Tree(n, b, top) && Stored(n, Tally(n, b, top)) && k < Cap(top)
    requires d != 0 && d !in Tally(n, b, top) && NodeAt(n, b, top, k, h) != 0
    requires SlotMoved(n, n', NodeAt(n, b, top, k, h), Index(RestAt(top, k, h), Cap(h - 1)), d)
    ensures var bp, i := NodeAt(n, b, top, k, h), Index(RestAt(top, k, h), Cap(h - 1));
      Moved(n, n', b, b, top, n[bp][i], d) && NodeAt(n', b, top, k, h) == bp
    decreases top, 0
  {
    hide Index, Rest, Stored, Tally, TallyRange, LeavesRange, Distinct, Moved, SlotMoved, Cap;
    TreeRoot(n, b, top);
    Position(top, k);
    var node, i, r, below := n[b], Index(k, Cap(top - 1)), Rest(k, Cap(top - 1)), top - 1;
    var c, bp, slot := node[i], NodeAt(n, b, top, k, h), Index(RestAt(top, k, h), Cap(h - 1));
    assert bp == NodeAt(n, c, below, r, h) && c != 0;
    PathStep(n, c, below, r, h);
    PathChild(n, b, top, i, d);
    PathMoved(n, n', c, below, r, h, d);
    Untouched(n, n', bp, slot, d, b);
    forall j | 0 <= j < FANOUT && j != i
      ensures AgreeOn(n, n', Tally(n, node[j], below)) && Stored(n, Tally(n, node[j], below))
    {
      RangeDisjoint(n, node, below, i, j, bp);
      OthersAway(n, n', b, top, bp, slot, d, j);
    }
    assert node[i := c] == node;
    MovedBelow(n, n', b, top, i, c, n[bp][slot], d);
  }

  lemma PathChild(n: Nodes, b: nat, top: nat, i: nat, d: nat)
    requires Tree(n, b, top) && b in n && i < |n[b]| == FANOUT && n[b][i] != 0 && top > 1
    requires Stored(n, Tally(n, b, top)) && d !in Tally(n, b, top)
    ensures Tree(n, n[b][i], top - 1) && Stored(n, Tally(n, n[b][i], top - 1)) && d !in Tally(n, n[b][i], top - 1)
    ensures b != d && b !in Tally(n, n[b][i], top - 1)
  {
    hide Stored, TallyRange, Distinct;
    TreeRoot(n, b, top);
    TallyOne(n, n[b], top - 1, 0, i, FANOUT);
    PartStored(n, Tally(n, b, top), Tally(n, n[b][i], top - 1));
    SubtreeDistinct(n, n[b], top - 1, i);
  }

  lemma Untouched(n: Nodes, n': Nodes, at: nat, slot: nat, d: nat, b: nat)
    requires SlotMoved(n, n', at, slot, d) && b in n && b != at && b != d
    ensures b in n' && n'[b] == n[b]
  {
  }
}
