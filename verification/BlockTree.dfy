/** The per-inode radix tree of blocks, as a function of the metadata blocks' contents. */
module BlockTree {
  import opened Indexing

  const FANOUT: nat := 512

  /** Contents of the metadata blocks, by block number; pointer 0 is a hole. */
  type Nodes = map<nat, seq<nat>>

  /** File blocks that a tree of height h can hold. */
  function Cap(h: nat): (c: nat)
    ensures c >= 1
  {
    if h == 0 then 1 else FANOUT * Cap(h - 1)
  }

  /** Which subtree of capacity c file block k falls into (k >> node_bits), and where in it. */
  function Index(k: nat, c: nat): nat
    requires c >= 1
  {
    k / c
  }

  function Rest(k: nat, c: nat): (r: nat)
    requires c >= 1
    ensures r < c
  {
    k % c
  }

  /** Block b is the root of a tree of height h: no node is missing or short. */
  ghost predicate WellFormed(nodes: Nodes, b: nat, h: nat)
    decreases h
  {
    b != 0 && (h == 0 ||
      (b in nodes && |nodes[b]| == FANOUT
       && forall i :: 0 <= i < FANOUT && nodes[b][i] != 0 ==> WellFormed(nodes, nodes[b][i], h - 1)))
  }

  /** Device block of file block k, or 0 for a hole (__pmfs_find_data_block without migration). */
  ghost function Lookup(nodes: Nodes, b: nat, h: nat, k: nat): nat
    decreases h
  {
    if b == 0 || h == 0 then b
    else
      var i := Index(k, Cap(h - 1));
      if b in nodes && i < |nodes[b]| then Lookup(nodes, nodes[b][i], h - 1, Rest(k, Cap(h - 1))) else 0
  }

  /** All blocks of the tree with their multiplicities. */
  ghost function Tally(nodes: Nodes, b: nat, h: nat): multiset<nat>
    decreases h, 1, 0
  {
    if b == 0 then multiset{}
    else if h == 0 || b !in nodes then multiset{b}
    else multiset{b} + TallyRange(nodes, nodes[b], h - 1, 0, |nodes[b]|)
  }

  /** Blocks of the subtrees under pointers [lo..hi). */
  ghost function TallyRange(nodes: Nodes, node: seq<nat>, h: nat, lo: nat, hi: nat): multiset<nat>
    requires lo <= hi <= |node|
    decreases h + 1, 0, hi - lo
  {
    if lo == hi then multiset{}
    else TallyRange(nodes, node, h, lo, hi - 1) + Tally(nodes, node[hi - 1], h)
  }

  /** Number of data blocks (pmfs_inode_count_iblocks_recursive). */
  ghost function Leaves(nodes: Nodes, b: nat, h: nat): nat
    decreases h, 1, 0
  {
    if b == 0 then 0
    else if h == 0 then 1
    else if b !in nodes then 0
    else LeavesRange(nodes, nodes[b], h - 1, 0, |nodes[b]|)
  }

  ghost function LeavesRange(nodes: Nodes, node: seq<nat>, h: nat, lo: nat, hi: nat): nat
    requires lo <= hi <= |node|
    decreases h + 1, 0, hi - lo
  {
    if lo == hi then 0 else LeavesRange(nodes, node, h, lo, hi - 1) + Leaves(nodes, node[hi - 1], h)
  }

  /** A block of the tree lies in one of the root's subtrees. */
  lemma Position(h: nat, k: nat)
    requires h > 0 && k < Cap(h)
    ensures Index(k, Cap(h - 1)) < FANOUT && Rest(k, Cap(h - 1)) < Cap(h - 1)
  {
    IndexBound(k, Cap(h - 1), FANOUT);
    DivMod(k, Cap(h - 1));
  }

  /** No block occurs twice. */
  ghost predicate Distinct(m: multiset<nat>) {
    forall x :: x in m ==> m[x] == 1
  }

  // ---- Ranges of pointers ------------------------------------------------------------------------

  lemma {:induction false} TallySplit(nodes: Nodes, node: seq<nat>, h: nat, lo: nat, mid: nat, hi: nat)
    requires lo <= mid <= hi <= |node|
    ensures TallyRange(nodes, node, h, lo, hi) == TallyRange(nodes, node, h, lo, mid) +
      TallyRange(nodes, node, h, mid, hi)
    decreases hi - mid
  {
    if mid < hi {
      TallySplit(nodes, node, h, lo, mid, hi - 1);
    }
  }

  lemma {:induction false} LeavesSplit(nodes: Nodes, node: seq<nat>, h: nat, lo: nat, mid: nat, hi: nat)
    requires lo <= mid <= hi <= |node|
    ensures LeavesRange(nodes, node, h, lo, hi) == LeavesRange(nodes, node, h, lo, mid) +
      LeavesRange(nodes, node, h, mid, hi)
    decreases hi - mid
  {
    if mid < hi {
      LeavesSplit(nodes, node, h, lo, mid, hi - 1);
    }
  }

  /** One pointer's subtree is part of the range. */
  lemma TallyOne(nodes: Nodes, node: seq<nat>, h: nat, lo: nat, i: nat, hi: nat)
    requires lo <= i < hi <= |node|
    ensures TallyRange(nodes, node, h, lo, hi)
      == TallyRange(nodes, node, h, lo, i) + Tally(nodes, node[i], h) + TallyRange(nodes, node, h, i + 1, hi)
  {
    TallySplit(nodes, node, h, lo, i + 1, hi);
  }

  lemma LeavesOne(nodes: Nodes, node: seq<nat>, h: nat, lo: nat, i: nat, hi: nat)
    requires lo <= i < hi <= |node|
    ensures LeavesRange(nodes, node, h, lo, hi)
      == LeavesRange(nodes, node, h, lo, i) + Leaves(nodes, node[i], h) + LeavesRange(nodes, node, h, i + 1, hi)
  {
    LeavesSplit(nodes, node, h, lo, i + 1, hi);
  }

  /** Ranges of equal pointers with unchanged subtrees are equal. */
  lemma {:induction false} RangeSame(n1: Nodes, n2: Nodes, node1: seq<nat>, node2: seq<nat>, h: nat, lo: nat, hi: nat)
    requires lo <= hi <= |node1| == |node2|
    requires forall i :: lo <= i < hi ==>
      Tally(n1, node1[i], h) == Tally(n2, node2[i], h) && Leaves(n1, node1[i], h) == Leaves(n2, node2[i], h)
    ensures TallyRange(n1, node1, h, lo, hi) == TallyRange(n2, node2, h, lo, hi)
    ensures LeavesRange(n1, node1, h, lo, hi) == LeavesRange(n2, node2, h, lo, hi)
    decreases hi - lo
  {
    hide Tally, Leaves;
    if lo < hi {
      RangeSame(n1, n2, node1, node2, h, lo, hi - 1);
    }
  }

  lemma {:induction false} RangeOfHoles(nodes: Nodes, node: seq<nat>, h: nat, lo: nat, hi: nat)
    requires lo <= hi <= |node| && forall i :: lo <= i < hi ==> node[i] == 0
    ensures TallyRange(nodes, node, h, lo, hi) == multiset{} && LeavesRange(nodes, node, h, lo, hi) == 0
    decreases hi - lo
  {
    if lo < hi {
      RangeOfHoles(nodes, node, h, lo, hi - 1);
    }
  }

  // ---- Distinct blocks ----------------------------------------------------------------------------

  /** The subtree under pointer i of a tree without repeated blocks. */
  lemma ChildDistinct(nodes: Nodes, b: nat, h: nat, i: nat)
    requires h > 0 && b != 0 && b in nodes && i < |nodes[b]| && Distinct(Tally(nodes, b, h))
    ensures Distinct(Tally(nodes, nodes[b][i], h - 1)) && b !in Tally(nodes, nodes[b][i], h - 1)
  {
    hide TallyRange;
    var c := Tally(nodes, nodes[b][i], h - 1);
    TallyOne(nodes, nodes[b], h - 1, 0, i, |nodes[b]|);
    assert forall x :: x in c ==> x in Tally(nodes, b, h) && c[x] <= Tally(nodes, b, h)[x];
    assert b in c ==> Tally(nodes, b, h)[b] >= 2;
  }

  /** Different pointers lead to disjoint subtrees. */
  lemma ChildrenDisjoint(nodes: Nodes, b: nat, h: nat, i: nat, j: nat, x: nat)
    requires h > 0 && b != 0 && b in nodes && i < j < |nodes[b]| && Distinct(Tally(nodes, b, h))
    ensures !(x in Tally(nodes, nodes[b][i], h - 1) && x in Tally(nodes, nodes[b][j], h - 1))
  {
    hide Distinct;
    var node := nodes[b];
    TallyOne(nodes, node, h - 1, 0, j, |node|);
    TallyOne(nodes, node, h - 1, 0, i, j);
    AtMostOnce(Tally(nodes, b, h), x);
  }

  lemma AtMostOnce(m: multiset<nat>, x: nat)
    requires Distinct(m)
    ensures m[x] <= 1
  {
  }

  // ---- Updates elsewhere ------------------------------------------------------------------------

  /** n2 has the metadata of n1 for every block in m. */
  ghost predicate AgreeOn(n1: Nodes, n2: Nodes, m: multiset<nat>) {
    forall x :: x in m ==> (x in n1 <==> x in n2) && (x in n1 ==> n1[x] == n2[x])
  }

  lemma AgreeOnChild(n1: Nodes, n2: Nodes, b: nat, h: nat, i: nat)
    requires AgreeOn(n1, n2, Tally(n1, b, h + 1)) && b != 0 && b in n1 && i < |n1[b]|
    ensures b in n2 && n2[b] == n1[b] && AgreeOn(n1, n2, Tally(n1, n1[b][i], h))
  {
    TallyOne(n1, n1[b], h, 0, i, |n1[b]|);
    assert b in Tally(n1, b, h + 1);
    assert forall x :: x in Tally(n1, n1[b][i], h) ==> x in Tally(n1, b, h + 1);
  }

  lemma RootAgrees(n1: Nodes, n2: Nodes, b: nat, h: nat)
    requires AgreeOn(n1, n2, Tally(n1, b, h)) && b != 0
    ensures (b in n1 <==> b in n2) && (b in n1 ==> n1[b] == n2[b])
  {
    assert b in Tally(n1, b, h);
  }

  /** A tree depends only on the metadata of its own blocks. */
  lemma {:induction false} TreeFrame(n1: Nodes, n2: Nodes, b: nat, h: nat)
    requires AgreeOn(n1, n2, Tally(n1, b, h))
    ensures Tally(n2, b, h) == Tally(n1, b, h) && Leaves(n2, b, h) == Leaves(n1, b, h)
    ensures WellFormed(n1, b, h) <==> WellFormed(n2, b, h)
    decreases h
  {
    hide AgreeOn, TallyRange, LeavesRange;
    if b != 0 && h > 0 {
      RootAgrees(n1, n2, b, h);
      if b in n1 {
        forall i | 0 <= i < |n1[b]|
          ensures Tally(n2, n1[b][i], h - 1) == Tally(n1, n1[b][i], h - 1)
          ensures Leaves(n2, n1[b][i], h - 1) == Leaves(n1, n1[b][i], h - 1)
          ensures WellFormed(n1, n1[b][i], h - 1) <==> WellFormed(n2, n1[b][i], h - 1)
        {
          AgreeOnChild(n1, n2, b, h - 1, i);
          TreeFrame(n1, n2, n1[b][i], h - 1);
        }
        RangeSame(n1, n2, n1[b], n2[b], h - 1, 0, |n1[b]|);
      }
    }
  }

  lemma {:induction false} LookupFrame(n1: Nodes, n2: Nodes, b: nat, h: nat, k: nat)
    requires AgreeOn(n1, n2, Tally(n1, b, h))
    ensures Lookup(n2, b, h, k) == Lookup(n1, b, h, k)
    decreases h
  {
    if b != 0 && h > 0 {
      assert b in Tally(n1, b, h);
      if b in n1 && Index(k, Cap(h - 1)) < |n1[b]| {
        AgreeOnChild(n1, n2, b, h - 1, Index(k, Cap(h - 1)));
        LookupFrame(n1, n2, n1[b][Index(k, Cap(h - 1))], h - 1, Rest(k, Cap(h - 1)));
      }
    }
  }
}
