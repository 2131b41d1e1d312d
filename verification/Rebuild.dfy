/** Rebuilding the in-use list after a crash: the inode trees are crawled into bitmaps, and every run of
    set bits is inserted into the list behind the reserved prefix. */
module Rebuild {
  import opened BlockAllocator
  import opened BlockList
  import opened BlockTree
  import opened Indexing
  import opened TreeShape

  /** A set bit: which bitmap, and its number in units of that bitmap's block size. */
  datatype Mark = Mark(t: BlockType, bit: nat)

  /** An inode record, as far as the crawl looks at it. */
  datatype Record = Record(links: nat, mode: nat, dtime: nat, root: nat, height: nat, t: BlockType)

  /** The record holds an inode: a name refers to it, or it has a mode and was never released. */
  predicate InUse(r: Record) {
    r.links != 0 || (r.mode != 0 && r.dtime == 0)
  }

  /** A block of the larger types has the size of what one metadata block, or one level more, can point to. */
  lemma BlockTypesAreSubtrees()
    ensures NumBlocks(Small) == Cap(0) && NumBlocks(Large) == Cap(1) && NumBlocks(Huge) == Cap(2)
  {
    assert Cap(2) == FANOUT * Cap(1) == FANOUT * (FANOUT * Cap(0));
  }

  // ---- What is reachable -------------------------------------------------------------------------------

  /** Bits for the blocks of one inode's tree: metadata in the 4 KB bitmap, data by block type. */
  ghost function TreeMarks(nodes: Nodes, b: nat, h: nat, t: BlockType): set<Mark>
    decreases h, 1, 0
  {
    if b == 0 then {}
    else if h == 0 then {Mark(t, b / NumBlocks(t))}
    else if b !in nodes then {}
    else {Mark(Small, b)} + TreeMarksRange(nodes, nodes[b], h - 1, t, |nodes[b]|)
  }

  ghost function TreeMarksRange(nodes: Nodes, node: seq<nat>, h: nat, t: BlockType, n: nat): set<Mark>
    requires n <= |node|
    decreases h + 1, 0, n
  {
    if n == 0 then {} else TreeMarksRange(nodes, node, h, t, n - 1) + TreeMarks(nodes, node[n - 1], h, t)
  }

  /** Bits for the trees of the inodes in use among the first n records. */
  ghost function RecordMarks(nodes: Nodes, records: seq<Record>, n: nat): set<Mark>
    requires n <= |records|
  {
    if n == 0 then {}
    else
      var r := records[n - 1];
      RecordMarks(nodes, records, n - 1) + (if InUse(r) then TreeMarks(nodes, r.root, r.height, r.t) else {})
  }

  /** Bits for the inode table under b and everything reachable from its inodes in use. */
  ghost function TableMarks(nodes: Nodes, inodes: map<nat, seq<Record>>, b: nat, h: nat, t: BlockType): set<Mark>
    decreases h, 1, 0
  {
    if h == 0 then
      {if t == Large then Mark(Large, b / NumBlocks(Large)) else Mark(Small, b)}
      + (if b in inodes then RecordMarks(nodes, inodes[b], |inodes[b]|) else {})
    else if b !in nodes then {}
    else {Mark(Small, b)} + TableMarksRange(nodes, inodes, nodes[b], h - 1, t, |nodes[b]|)
  }

  ghost function TableMarksRange(nodes: Nodes, inodes: map<nat, seq<Record>>, node: seq<nat>, h: nat, t: BlockType,
        n: nat): set<Mark>
    requires n <= |node|
    decreases h + 1, 0, n
  {
    if n == 0 then {}
    else TableMarksRange(nodes, inodes, node, h, t, n - 1)
         + (if node[n - 1] == 0 then {} else TableMarks(nodes, inodes, node[n - 1], h, t))
  }

  /** The table's trees are whole. */
  ghost predicate TableWhole(nodes: Nodes, inodes: map<nat, seq<Record>>, b: nat, h: nat)
    decreases h
  {
    && b != 0
    && (h == 0 ==> b in inodes && forall i :: 0 <= i < |inodes[b]| && InUse(inodes[b][i]) && inodes[b][i].root != 0 ==>
                                       WellFormed(nodes, inodes[b][i].root, inodes[b][i].height))
    && (h > 0 ==> b in nodes && |nodes[b]| == FANOUT
                  && forall i :: 0 <= i < FANOUT && nodes[b][i] != 0 ==> TableWhole(nodes, inodes, nodes[b][i], h - 1))
  }

  // ---- What the marks mean --------------------------------------------------------------------------------

  /** Block y is covered by a set bit. */
  ghost predicate Marked(marks: set<Mark>, y: nat) {
    exists t: BlockType :: Mark(t, y / NumBlocks(t)) in marks
  }

  lemma MarkedSum(m1: set<Mark>, m2: set<Mark>, y: nat)
    ensures Marked(m1 + m2, y) <==> Marked(m1, y) || Marked(m2, y)
  {
    hide NumBlocks;
  }

  lemma MarkedOne(t: BlockType, b: nat, y: nat)
    ensures Marked({Mark(t, b / NumBlocks(t))}, y) <==> b / NumBlocks(t) == y / NumBlocks(t)
    ensures t == Small ==> (Marked({Mark(Small, b)}, y) <==> b == y)
  {
    hide NumBlocks;
    assert NumBlocks(Small) == 1 by {
      SmallIsOne();
    }
    assert b / NumBlocks(t) == y / NumBlocks(t) ==> Mark(t, y / NumBlocks(t)) in {Mark(t, b / NumBlocks(t))};
    assert b == y ==> Mark(Small, y / NumBlocks(Small)) in {Mark(Small, b)};
  }

  lemma SmallIsOne()
    ensures NumBlocks(Small) == 1
  {
  }

  lemma NothingMarked(y: nat)
    ensures !Marked({}, y)
  {
  }

  /** Data block d of type t, which has more than one 4 KB block if t is larger, holds block y. */
  predicate DataHolds(d: nat, t: BlockType, y: nat) {
    d != 0 && d / NumBlocks(t) == y / NumBlocks(t)
  }

  /** The larger blocks begin at multiples of their size. */
  lemma DataHoldsRun(d: nat, t: BlockType, y: nat)
    requires d % NumBlocks(t) == 0
    ensures DataHolds(d, t, y) <==> d != 0 && d <= y < d + NumBlocks(t)
  {
    hide NumBlocks;
    var n := NumBlocks(t);
    DivMod(d, n);
    DivMod(y, n);
    if d <= y < d + n {
      Unique(y, n, d / n, y - d);
    }
  }

  /** Block y is one of the tree's metadata blocks, which are those of the tree without its lowest level, or lies in
      one of its data blocks. */
  ghost predicate TreeHolds(nodes: Nodes, b: nat, h: nat, t: BlockType, y: nat) {
    (h > 0 && y in Tally(nodes, b, h - 1)) || InData(nodes, b, h, t, y)
  }

  ghost predicate InData(nodes: Nodes, b: nat, h: nat, t: BlockType, y: nat) {
    exists k: nat :: k < Cap(h) && DataHolds(Lookup(nodes, b, h, k), t, y)
  }

  lemma LeafHolds(nodes: Nodes, b: nat, t: BlockType, y: nat)
    ensures TreeHolds(nodes, b, 0, t, y) <==> DataHolds(b, t, y)
  {
    assert Lookup(nodes, b, 0, 0) == b && 0 < Cap(0);
  }

  lemma {:induction false} InRange(nodes: Nodes, node: seq<nat>, h: nat, n: nat, y: nat)
    requires n <= |node|
    ensures y in TallyRange(nodes, node, h, 0, n) <==> exists i :: 0 <= i < n && y in Tally(nodes, node[i], h)
  {
    hide Tally;
    if n > 0 {
      InRange(nodes, node, h, n - 1, y);
    }
  }

  /** A tree holds its root and what its subtrees hold. */
  lemma NodeHolds(nodes: Nodes, b: nat, h: nat, t: BlockType, y: nat)
    requires h > 0 && WellFormed(nodes, b, h)
    ensures TreeHolds(nodes, b, h, t, y) <==>
      y == b || exists i :: 0 <= i < FANOUT && TreeHolds(nodes, nodes[b][i], h - 1, t, y)
  {
    hide TallyRange, WellFormed, InData;
    NodeParts(nodes, b, h);
    NodeData(nodes, b, h, h - 1, t, y);
    if h > 1 {
      InRange(nodes, nodes[b], h - 2, FANOUT, y);
    }
  }

  lemma NodeData(nodes: Nodes, b: nat, h: nat, below: nat, t: BlockType, y: nat)
    requires h == below + 1 && WellFormed(nodes, b, h) && b in nodes && |nodes[b]| == FANOUT
    ensures InData(nodes, b, h, t, y) <==> exists i :: 0 <= i < FANOUT && InData(nodes, nodes[b][i], below, t, y)
  {
    hide DataHolds, Index, Rest, Cap, WellFormed;
    NodeParts(nodes, b, h);
    forall i | 0 <= i < FANOUT && InData(nodes, nodes[b][i], below, t, y) ensures InData(nodes, b, h, t, y) {
      var r: nat :| r < Cap(below) && DataHolds(Lookup(nodes, nodes[b][i], below, r), t, y);
      LookupAt(nodes, b, h, i, r);
      assert DataHolds(Lookup(nodes, b, h, i * Cap(below) + r), t, y);
    }
    if InData(nodes, b, h, t, y) {
      var k: nat :| k < Cap(h) && DataHolds(Lookup(nodes, b, h, k), t, y);
      Position(h, k);
      assert DataHolds(Lookup(nodes, nodes[b][Index(k, Cap(below))], below, Rest(k, Cap(below))), t, y);
      assert InData(nodes, nodes[b][Index(k, Cap(below))], below, t, y);
    }
  }

  lemma NodeParts(nodes: Nodes, b: nat, h: nat)
    requires h > 0 && WellFormed(nodes, b, h)
    ensures b != 0 && b in nodes && |nodes[b]| == FANOUT
    ensures forall i :: 0 <= i < FANOUT && nodes[b][i] != 0 ==> WellFormed(nodes, nodes[b][i], h - 1)
  {
  }

  lemma HoleHolds(nodes: Nodes, h: nat, t: BlockType, y: nat)
    ensures !TreeHolds(nodes, 0, h, t, y)
  {
    hide Cap;
    assert forall k: nat :: Lookup(nodes, 0, h, k) == 0;
  }

  /** The bits for an inode's tree cover exactly the blocks that the tree holds. */
  lemma {:induction false} TreeMarksAreBlocks(nodes: Nodes, b: nat, h: nat, t: BlockType, y: nat)
    requires b != 0 ==> WellFormed(nodes, b, h)
    ensures Marked(TreeMarks(nodes, b, h, t), y) <==> TreeHolds(nodes, b, h, t, y)
    decreases h, 1, 0
  {
    hide Marked, TreeHolds, NumBlocks, TreeMarksRange, WellFormed;
    if b == 0 {
      HoleHolds(nodes, h, t, y);
      NothingMarked(y);
    } else if h == 0 {
      MarkedOne(t, b, y);
      LeafHolds(nodes, b, t, y);
    } else {
      NodeParts(nodes, b, h);
      NodeHolds(nodes, b, h, t, y);
      RangeMarksAreBlocks(nodes, nodes[b], h - 1, t, FANOUT, y);
      MarkedOne(Small, b, y);
      MarkedSum({Mark(Small, b)}, TreeMarksRange(nodes, nodes[b], h - 1, t, FANOUT), y);
    }
  }

  lemma {:induction false} RangeMarksAreBlocks(nodes: Nodes, node: seq<nat>, h: nat, t: BlockType, n: nat, y: nat)
    requires n <= |node| && forall i :: 0 <= i < |node| && node[i] != 0 ==> WellFormed(nodes, node[i], h)
    ensures Marked(TreeMarksRange(nodes, node, h, t, n), y) <==>
      exists i :: 0 <= i < n && TreeHolds(nodes, node[i], h, t, y)
    decreases h + 1, 0, n
  {
    hide Marked, TreeHolds, TreeMarks, WellFormed;
    if n > 0 {
      RangeMarksAreBlocks(nodes, node, h, t, n - 1, y);
      TreeMarksAreBlocks(nodes, node[n - 1], h, t, y);
      MarkedSum(TreeMarksRange(nodes, node, h, t, n - 1), TreeMarks(nodes, node[n - 1], h, t), y);
    } else {
      NothingMarked(y);
    }
  }

  // ---- What the marks of the table mean ---------------------------------------------------------------------

  /** Block p is a page of inode records. */
  ghost predicate TablePage(nodes: Nodes, b: nat, h: nat, p: nat) {
    p != 0 && exists k: nat :: k < Cap(h) && Lookup(nodes, b, h, k) == p
  }

  /** Block y is part of a page of the table; of a page of 1 GB the crawl marks the first block only. */
  predicate PageHolds(p: nat, t: BlockType, y: nat) {
    if t == Large then p / NumBlocks(Large) == y / NumBlocks(Large) else p == y
  }

  /** Block y is in the tree of an inode of page p. */
  ghost predicate InInodeTree(nodes: Nodes, inodes: map<nat, seq<Record>>, p: nat, y: nat) {
    p in inodes && exists i ::
        0 <= i < |inodes[p]| && InUse(inodes[p][i])
        && TreeHolds(nodes, inodes[p][i].root, inodes[p][i].height, inodes[p][i].t, y)
  }

  /** Block y is one of the table's metadata blocks, or of its pages, or an inode's. */
  ghost predicate Reachable(nodes: Nodes, inodes: map<nat, seq<Record>>, b: nat, h: nat, t: BlockType, y: nat) {
    || (h > 0 && y in Tally(nodes, b, h - 1))
    || exists p :: TablePage(nodes, b, h, p) && (PageHolds(p, t, y) || InInodeTree(nodes, inodes, p, y))
  }

  lemma {:induction false} RecordMarksAre(nodes: Nodes, records: seq<Record>, n: nat, y: nat)
    requires n <= |records|
    requires forall i :: 0 <= i < n && InUse(records[i]) && records[i].root != 0 ==>
      WellFormed(nodes, records[i].root, records[i].height)
    ensures Marked(RecordMarks(nodes, records, n), y) <==> exists i ::
        0 <= i < n && InUse(records[i]) && TreeHolds(nodes, records[i].root, records[i].height, records[i].t, y)
    decreases n
  {
    hide TreeHolds, TreeMarks, WellFormed, Marked, InUse;
    if n > 0 {
      var r := records[n - 1];
      RecordMarksAre(nodes, records, n - 1, y);
      TreeMarksMaybe(nodes, r, y);
      MarkedSum(RecordMarks(nodes, records, n - 1),
        if InUse(r) then TreeMarks(nodes, r.root, r.height, r.t) else {}, y);
    } else {
      NothingMarked(y);
    }
  }

  lemma TreeMarksMaybe(nodes: Nodes, r: Record, y: nat)
    requires InUse(r) && r.root != 0 ==> WellFormed(nodes, r.root, r.height)
    ensures Marked(if InUse(r) then TreeMarks(nodes, r.root, r.height, r.t) else {}, y) <==>
      InUse(r) && TreeHolds(nodes, r.root, r.height, r.t, y)
  {
    hide TreeHolds, TreeMarks, WellFormed, Marked, InUse;
    if InUse(r) {
      TreeMarksAreBlocks(nodes, r.root, r.height, r.t, y);
    } else {
      NothingMarked(y);
    }
  }

  /** A page of a subtree is one of the tree, and the other way round. */
  lemma PagesOfNode(nodes: Nodes, b: nat, h: nat, p: nat)
    requires h > 0 && b != 0 && b in nodes && |nodes[b]| == FANOUT
    ensures TablePage(nodes, b, h, p) <==> exists i ::
        0 <= i < FANOUT && nodes[b][i] != 0 && TablePage(nodes, nodes[b][i], h - 1, p)
  {
    hide Index, Rest, Cap;
    var c := Cap(h - 1);
    CapStep(h);
    if TablePage(nodes, b, h, p) {
      var k: nat :| k < Cap(h) && Lookup(nodes, b, h, k) == p;
      Position(h, k);
      var i: nat, r: nat := Index(k, c), Rest(k, c);
      assert Lookup(nodes, b, h, k) == Lookup(nodes, nodes[b][i], h - 1, r);
      EmptyLookup(nodes, h - 1, r);
      assert TablePage(nodes, nodes[b][Index(k, c)], h - 1, p);
    }
    if i :| 0 <= i < FANOUT && nodes[b][i] != 0 && TablePage(nodes, nodes[b][i], h - 1, p) {
      var r: nat :| r < c && Lookup(nodes, nodes[b][i], h - 1, r) == p;
      InSubtree(i, c, r);
      assert Lookup(nodes, b, h, i * c + r) == p;
    }
  }

  lemma EmptyLookup(nodes: Nodes, h: nat, k: nat)
    ensures Lookup(nodes, 0, h, k) == 0
  {
  }

  lemma CapStep(h: nat)
    requires h > 0
    ensures Cap(h) == FANOUT * Cap(h - 1) && Cap(h - 1) >= 1
  {
  }

  lemma InSubtree(i: nat, c: nat, r: nat)
    requires c >= 1 && i < FANOUT && r < c
    ensures i * c + r < FANOUT * c && Index(i * c + r, c) == i && Rest(i * c + r, c) == r
  {
    Unique(i * c + r, c, i, r);
    MulMono(i + 1, FANOUT, c);
  }

  /** What is reachable in a table is its root and what is reachable below its pointers. */
  lemma NodeReaches(nodes: Nodes, inodes: map<nat, seq<Record>>, b: nat, h: nat, t: BlockType, y: nat)
    requires h > 0 && b != 0 && b in nodes && |nodes[b]| == FANOUT
    ensures Reachable(nodes, inodes, b, h, t, y) <==>
      y == b || exists i ::
          0 <= i < FANOUT && nodes[b][i] != 0 && Reachable(nodes, inodes, nodes[b][i], h - 1, t, y)
  {
    hide TablePage, InInodeTree, TallyRange, PageHolds;
    var node := nodes[b];
    if h > 1 {
      InRange(nodes, node, h - 2, FANOUT, y);
      NothingCounted(nodes, h - 2);
    }
    forall p ensures TablePage(nodes, b, h, p) <==> exists i ::
        0 <= i < FANOUT && node[i] != 0 && TablePage(nodes, node[i], h - 1, p) {
      PagesOfNode(nodes, b, h, p);
    }
    if p :| TablePage(nodes, b, h, p) && (PageHolds(p, t, y) || InInodeTree(nodes, inodes, p, y)) {
      var i :| 0 <= i < FANOUT && node[i] != 0 && TablePage(nodes, node[i], h - 1, p);
      assert Reachable(nodes, inodes, node[i], h - 1, t, y);
    }
  }

  lemma NothingCounted(nodes: Nodes, h: nat)
    ensures Tally(nodes, 0, h) == multiset{}
  {
  }

  /** One page of the table. */
  lemma PageReaches(nodes: Nodes, inodes: map<nat, seq<Record>>, b: nat, t: BlockType, y: nat)
    requires b != 0
    ensures Reachable(nodes, inodes, b, 0, t, y) <==> PageHolds(b, t, y) || InInodeTree(nodes, inodes, b, y)
  {
    hide InInodeTree, PageHolds;
    assert Lookup(nodes, b, 0, 0) == b && 0 < Cap(0);
    assert TablePage(nodes, b, 0, b);
  }

  lemma PageMarked(b: nat, t: BlockType, y: nat)
    ensures Marked({if t == Large then Mark(Large, b / NumBlocks(Large)) else Mark(Small, b)}, y) <==>
      PageHolds(b, t, y)
  {
    hide NumBlocks;
    MarkedOne(Large, b, y);
    MarkedOne(Small, b, y);
  }

  /** A bit covers a block exactly if the block is the table's or an inode's. */
  lemma {:induction false} TableMarksAreReachable(nodes: Nodes, inodes: map<nat, seq<Record>>, b: nat, h: nat,
        t: BlockType, y: nat)
    requires TableWhole(nodes, inodes, b, h)
    ensures Marked(TableMarks(nodes, inodes, b, h, t), y) <==> Reachable(nodes, inodes, b, h, t, y)
    decreases h, 1, 0
  {
    hide Marked, Reachable, RecordMarks, TableMarksRange, NumBlocks, TreeHolds, WellFormed;
    if h == 0 {
      PageReaches(nodes, inodes, b, t, y);
      PageMarked(b, t, y);
      RecordMarksAre(nodes, inodes[b], |inodes[b]|, y);
      MarkedSum({if t == Large then Mark(Large, b / NumBlocks(Large)) else Mark(Small, b)},
        RecordMarks(nodes, inodes[b], |inodes[b]|), y);
    } else {
      NodeReaches(nodes, inodes, b, h, t, y);
      RangeIsReachable(nodes, inodes, nodes[b], h - 1, t, FANOUT, y);
      MarkedOne(Small, b, y);
      MarkedSum({Mark(Small, b)}, TableMarksRange(nodes, inodes, nodes[b], h - 1, t, FANOUT), y);
    }
  }

  lemma {:induction false} RangeIsReachable(nodes: Nodes, inodes: map<nat, seq<Record>>, node: seq<nat>, h: nat,
        t: BlockType, n: nat, y: nat)
    requires n <= |node| && forall i :: 0 <= i < |node| && node[i] != 0 ==> TableWhole(nodes, inodes, node[i], h)
    ensures Marked(TableMarksRange(nodes, inodes, node, h, t, n), y) <==>
      exists i :: 0 <= i < n && node[i] != 0 && Reachable(nodes, inodes, node[i], h, t, y)
    decreases h + 1, 0, n
  {
    hide Marked, Reachable, TableWhole, TableMarks;
    if n > 0 {
      RangeIsReachable(nodes, inodes, node, h, t, n - 1, y);
      MarkedSum(TableMarksRange(nodes, inodes, node, h, t, n - 1),
        if node[n - 1] == 0 then {} else TableMarks(nodes, inodes, node[n - 1], h, t), y);
      if node[n - 1] != 0 {
        TableMarksAreReachable(nodes, inodes, node[n - 1], h, t, y);
      } else {
        NothingMarked(y);
      }
    } else {
      NothingMarked(y);
    }
  }

  // ---- Crawling --------------------------------------------------------------------------------------

  class ScanBitmap {
    /** The set bits of the three bitmaps. */
    var marks: set<Mark>

    constructor ()
      ensures marks == {}
    {
      marks := {};
    }

    method SetBit(m: Mark)
      modifies this
      ensures marks == old(marks) + {m}
    {
      marks := marks + {m};
    }

    /** Marks the tree under a block (pmfs_inode_crawl_recursive). */
    method CrawlTree(nodes: Nodes, block: nat, h: nat, t: BlockType)
      requires WellFormed(nodes, block, h)
      modifies this
      ensures marks == old(marks) + TreeMarks(nodes, block, h, t)
      decreases h
    {
      if h == 0 {
        SetBit(Mark(t, block / NumBlocks(t)));
        return;
      }
      SetBit(Mark(Small, block));
      var node, i := nodes[block], 0;
      while i < FANOUT
        invariant i <= FANOUT && marks == old(marks) + {Mark(Small, block)} + TreeMarksRange(nodes, node, h - 1, t, i)
      {
        if node[i] != 0 {
          CrawlTree(nodes, node[i], h - 1, t);
        }
        i := i + 1;
      }
    }

    /** Marks the inode table under a block and the trees of its inodes in use
        (pmfs_inode_table_crawl_recursive). */
    method CrawlTable(nodes: Nodes, inodes: map<nat, seq<Record>>, block: nat, h: nat, t: BlockType)
      requires TableWhole(nodes, inodes, block, h)
      modifies this
      ensures marks == old(marks) + TableMarks(nodes, inodes, block, h, t)
      decreases h
    {
      hide TreeMarks, TreeMarksRange, WellFormed;
      var i := 0;
      if h == 0 {
        var own := if t == Large then Mark(Large, block / NumBlocks(Large)) else Mark(Small, block);
        SetBit(own);
        var records := inodes[block];
        while i < |records|
          invariant i <= |records| && marks == old(marks) + {own} + RecordMarks(nodes, records, i)
        {
          if !(records[i].links == 0 && (records[i].mode == 0 || records[i].dtime != 0)) {
            if records[i].root != 0 {
              CrawlTree(nodes, records[i].root, records[i].height, records[i].t);
            } else {
              NoTree(nodes, records[i].height, records[i].t);
            }
          }
          i := i + 1;
        }
        return;
      }
      SetBit(Mark(Small, block));
      var node := nodes[block];
      while i < FANOUT
        invariant i <= FANOUT
        invariant marks == old(marks) + {Mark(Small, block)} + TableMarksRange(nodes, inodes, node, h - 1, t, i)
      {
        if node[i] != 0 {
          CrawlTable(nodes, inodes, node[i], h - 1, t);
        }
        i := i + 1;
      }
    }

    /** First set bit of a bitmap from `from` on, or its size. */
    method NextBit(t: BlockType, size: nat, from: nat) returns (k: nat)
      requires from <= size
      ensures from <= k <= size && (k < size ==> Mark(t, k) in marks)
      ensures forall x :: from <= x < k ==> Mark(t, x) !in marks
    {
      k := from;
      while k < size && Mark(t, k) !in marks
        invariant from <= k <= size && forall x :: from <= x < k ==> Mark(t, x) !in marks
      {
        k := k + 1;
      }
    }

    method NextZeroBit(t: BlockType, size: nat, from: nat) returns (k: nat)
      requires from <= size
      ensures from <= k <= size && (k < size ==> Mark(t, k) !in marks)
      ensures forall x :: from <= x < k ==> Mark(t, x) in marks
    {
      k := from;
      while k < size && Mark(t, k) in marks
        invariant from <= k <= size && forall x :: from <= x < k ==> Mark(t, x) in marks
      {
        k := k + 1;
      }
    }
  }

  lemma NoTree(nodes: Nodes, h: nat, t: BlockType)
    ensures TreeMarks(nodes, 0, h, t) == {}
  {
  }

  // ---- Inserting runs ------------------------------------------------------------------------------------

  /** The gap behind node i is free. */
  lemma GapIsFree(list: seq<Node>, i: nat, low: nat, high: nat)
    requires Separated(list) && i < |list| && list[i].high < low <= high && (i + 1 < |list| ==> high < list[i + 1].low)
    ensures forall b: nat :: low <= b <= high ==> !In(list, b)
  {
    forall b: nat | low <= b <= high ensures !In(list, b) {
      forall j | 0 <= j < |list| ensures !(list[j].low <= b <= list[j].high) {
        if j < i {
          assert list[j].high + 1 < list[i].low;
        } else if i + 1 < j {
          assert list[i + 1].high + 1 < list[j].low;
        }
      }
    }
  }

  /** A free run lies in one gap. */
  lemma FreeLiesInGap(list: seq<Node>, low: nat, high: nat) returns (i: nat)
    requires Separated(list) && |list| > 0 && list[0].low <= low <= high
    requires forall b: nat :: low <= b <= high ==> !In(list, b)
    ensures i < |list| && list[i].high < low && (i + 1 < |list| ==> high < list[i + 1].low)
  {
    i := GapOf(list, low, |list|);
    if i + 1 < |list| {
      var n := list[i + 1];
      assert n.low <= n.high;
      assert In(list, n.low);
    }
  }

  lemma Occupied(list: seq<Node>, low: nat, high: nat, end: nat)
    requires Separated(list) && |list| > 0 && list[0].low <= low <= high < end
    requires forall j :: 0 <= j < |list| ==> !(list[j].high < low && high < NextLow(list, j, end))
    ensures exists x: nat :: low <= x <= high && In(list, x)
  {
    hide In, Separated;
    if forall x: nat :: low <= x <= high ==> !In(list, x) {
      var i := FreeLiesInGap(list, low, high);
    }
  }

  lemma Inserted(s: State, i: nat, low: nat, high: nat, start: nat, end: nat, reserved: nat)
    requires Good(s, start, end, reserved)
    requires i < |s.list| && s.list[i].high < low <= high < end && (i + 1 < |s.list| ==> high < s.list[i + 1].low)
    ensures var s' := State(TakeAt(s.list, i, low, high, s.next), s.next + 1, s.numFree - (high - low + 1));
      && Good(s', start, end, reserved)
      && forall b: nat :: In(s'.list, b) <==> In(s.list, b) || low <= b <= high
  {
    hide In, Separated, Addressed, Total, TakeAt;
    TakeDenotes(s.list, i, low, high, s.next);
    AddressedTake(s.list, i, low, high, s.next);
    TakeEnds(s.list, i, low, high, s.next, end);
  }

  /** Inserts a run (pmfs_alloc_insert_blocknode_map): it succeeds exactly if the run is free. */
  method InsertRun(b: Balloc, low: nat, high: nat) returns (found: bool)
    requires b.Valid() && b.start <= low <= high < b.end
    modifies b
    ensures b.Valid()
    ensures found <==> forall x: nat :: low <= x <= high ==> !In(old(b.list), x)
    ensures forall x: nat :: In(b.list, x) <==> In(old(b.list), x) || (found && low <= x <= high)
  {
    hide Good, TakeAt, In, Separated, Addressed, Total;
    GoodParts(b.Now(), b.start, b.end, b.reserved);
    GoodStart(b.Now(), b.start, b.end, b.reserved);
    ghost var s := b.Now();
    found := false;
    var i := 0;
    while i < |b.list|
      invariant 0 <= i <= |b.list| && b.Now() == s && b.numNodes == |b.list|
      invariant forall j :: 0 <= j < i ==> !(b.list[j].high < low && high < NextLow(b.list, j, b.end))
    {
      var nextLow := NextLow(b.list, i, b.end);
      if high < nextLow && b.list[i].high < low {
        GapIsFree(b.list, i, low, high);
        Inserted(s, i, low, high, b.start, b.end, b.reserved);
        b.Join(i, low, high, nextLow);
        b.numFree := b.numFree - (high - low + 1);
        b.next := b.next + 1;
        return true;
      }
      i := i + 1;
    }
    Occupied(s.list, low, high, b.end);
  }

  lemma GoodStart(s: State, start: nat, end: nat, reserved: nat)
    requires Good(s, start, end, reserved)
    ensures |s.list| > 0 && s.list[0].low == start
  {
  }

  // ---- From bitmaps to the list ----------------------------------------------------------------------------

  /** Block y belongs to a set bit of bitmap t between bit 1 and lim. */
  ghost predicate Covered(marks: set<Mark>, t: BlockType, lim: nat, y: nat) {
    1 <= y / NumBlocks(t) < lim && Mark(t, y / NumBlocks(t)) in marks
  }

  /** The blocks of bits low to next - 1. */
  lemma BitsOfRun(n: nat, low: nat, next: nat, y: nat)
    requires n >= 1 && low < next
    ensures low * n < next * n
    ensures low * n <= y <= next * n - 1 <==> low <= y / n < next
  {
    DivMod(y, n);
    BitBounds(n, low, next, y / n, y % n);
  }

  lemma BitBounds(n: nat, low: nat, next: nat, q: nat, r: nat)
    requires n >= 1 && low < next && r < n
    ensures low * n < next * n
    ensures low * n <= q * n + r <= next * n - 1 <==> low <= q < next
  {
    MulMono(low, q, n);
    MulMono(q + 1, low, n);
    MulMono(q + 1, next, n);
    MulMono(next, q, n);
    MulMono(low + 1, next, n);
  }

  /** A run of set bits is free to be inserted. */
  lemma RunIsFree(list: seq<Node>, marks: set<Mark>, t: BlockType, size: nat, end: nat, low: nat, next: nat)
    requires 1 <= low < next <= size && (forall x :: low <= x < next ==> Mark(t, x) in marks)
    requires forall y: nat :: Covered(marks, t, size, y) ==> y < end
    requires forall y: nat :: Covered(marks, t, size, y) && y / NumBlocks(t) >= low ==> !In(list, y)
    ensures low * NumBlocks(t) < next * NumBlocks(t) <= end
    ensures forall y: nat :: low * NumBlocks(t) <= y <= next * NumBlocks(t) - 1 ==> !In(list, y)
  {
    hide In, NumBlocks;
    var n := NumBlocks(t);
    BitsOfRun(n, low, next, low * n);
    BitsOfRun(n, low, next, next * n - 1);
    assert Covered(marks, t, size, next * n - 1);
    forall y: nat | low * n <= y <= next * n - 1 ensures !In(list, y) {
      BitsOfRun(n, low, next, y);
      assert Covered(marks, t, size, y);
    }
  }

  lemma CoveredMore(marks: set<Mark>, t: BlockType, from: nat, low: nat, next: nat, y: nat)
    requires 1 <= from <= low < next
    requires (forall x :: from <= x < low ==> Mark(t, x) !in marks)
    requires forall x :: low <= x < next ==> Mark(t, x) in marks
    ensures Covered(marks, t, next, y) <==>
      Covered(marks, t, from, y) || low * NumBlocks(t) <= y <= next * NumBlocks(t) - 1
  {
    hide NumBlocks;
    BitsOfRun(NumBlocks(t), low, next, y);
  }

  /** Inserts every run of bits of one bitmap (__pmfs_build_blocknode_map); the search starts at bit 1. */
  method BuildFrom(bm: ScanBitmap, b: Balloc, t: BlockType, size: nat)
    requires b.Valid() && b.start == 0 && size >= 1
    requires forall y: nat :: Covered(bm.marks, t, size, y) ==> y < b.end && !In(b.list, y)
    modifies b
    ensures b.Valid()
    ensures forall y: nat :: In(b.list, y) <==> In(old(b.list), y) || Covered(bm.marks, t, size, y)
  {
    hide Good, In, NumBlocks, Covered;
    ghost var list0, marks := b.list, bm.marks;
    var next := 1;
    forall y: nat ensures !Covered(marks, t, 1, y) {
      NothingCovered(marks, t, y);
    }
    while true
      invariant 1 <= next <= size && b.Valid() && bm.marks == marks
      invariant forall y: nat :: In(b.list, y) <==> In(list0, y) || Covered(marks, t, next, y)
      decreases size - next
    {
      ghost var from := next;
      next := bm.NextBit(t, size, next);
      if next == size {
        forall y: nat ensures Covered(marks, t, size, y) <==> Covered(marks, t, from, y) {
          CoveredSame(marks, t, from, size, y);
        }
        break;
      }
      var low := next;
      next := bm.NextZeroBit(t, size, next);
      forall y: nat | Covered(marks, t, size, y) && y / NumBlocks(t) >= low ensures !In(b.list, y) {
        NotBefore(marks, t, from, y);
      }
      RunIsFree(b.list, marks, t, size, b.end, low, next);
      var found := InsertRun(b, low * NumBlocks(t), next * NumBlocks(t) - 1);
      forall y: nat ensures Covered(marks, t, next, y) <==>
        Covered(marks, t, from, y) || low * NumBlocks(t) <= y <= next * NumBlocks(t) - 1
      {
        CoveredMore(marks, t, from, low, next, y);
      }
      if next == size {
        break;
      }
    }
  }

  lemma NothingCovered(marks: set<Mark>, t: BlockType, y: nat)
    ensures !Covered(marks, t, 1, y)
  {
  }

  lemma NotBefore(marks: set<Mark>, t: BlockType, from: nat, y: nat)
    requires y / NumBlocks(t) >= from
    ensures !Covered(marks, t, from, y)
  {
  }

  lemma CoveredSame(marks: set<Mark>, t: BlockType, from: nat, size: nat, y: nat)
    requires 1 <= from <= size && forall x :: from <= x < size ==> Mark(t, x) !in marks
    ensures Covered(marks, t, size, y) <==> Covered(marks, t, from, y)
  {
  }

  /** Size in bits of a bitmap for a device of `end` blocks: whole bytes, and at least one more bit than needed. */
  function BitmapSize(end: nat, t: BlockType): (n: nat)
    ensures n > end / NumBlocks(t)
  {
    (end / NumBlocks(t) / 8 + 1) * 8
  }

  /** The marked blocks lie behind the reserved prefix, inside the device, and no block is marked in
      two bitmaps. */
  ghost predicate MarksApart(marks: set<Mark>, reserved: nat, end: nat) {
    && (forall y: nat, t: BlockType :: Mark(t, y / NumBlocks(t)) in marks ==> reserved <= y < end)
    && forall y: nat, t: BlockType, u: BlockType ::
         Mark(t, y / NumBlocks(t)) in marks && Mark(u, y / NumBlocks(u)) in marks ==> t == u
  }

  lemma CoveredIsMarked(marks: set<Mark>, t: BlockType, reserved: nat, end: nat, y: nat)
    requires MarksApart(marks, reserved, end) && reserved >= 1
    ensures Covered(marks, t, BitmapSize(end, t), y) <==> Mark(t, y / NumBlocks(t)) in marks
  {
    var n, x := NumBlocks(t), y / NumBlocks(t);
    assert Mark(t, 0 / n) !in marks;
    if Mark(t, x) in marks {
      DivMono(y, end, n);
    }
  }

  /** The list for the bitmaps of a crawl (pmfs_build_blocknode_map). */
  method BuildList(bm: ScanBitmap, end: nat, usedBytes: nat) returns (b: Balloc)
    requires usedBytes > 0 && (usedBytes + 4095) / 4096 <= end && MarksApart(bm.marks, (usedBytes + 4095) / 4096, end)
    ensures fresh(b) && b.Valid() && b.start == 0 && b.end == end
    ensures forall y: nat :: In(b.list, y) <==> y < (usedBytes + 4095) / 4096 || Marked(bm.marks, y)
  {
    hide MarksApart, Good, Covered, NumBlocks, BitmapSize, Marked, In;
    ghost var m, reserved := bm.marks, (usedBytes + 4095) / 4096;
    b := new Balloc(0, end, usedBytes);
    forall y: nat ensures In(b.list, y) <==> y < reserved {
      FreshDenotes(reserved, y);
    }
    forall y: nat, u: BlockType ensures Covered(m, u, BitmapSize(end, u), y) <==> Mark(u, y / NumBlocks(u)) in m {
      CoveredIsMarked(m, u, reserved, end, y);
    }
    ApartFacts(m, reserved, end);
    BuildFrom(bm, b, Small, BitmapSize(end, Small));
    BuildFrom(bm, b, Large, BitmapSize(end, Large));
    BuildFrom(bm, b, Huge, BitmapSize(end, Huge));
    forall y: nat ensures In(b.list, y) <==> y < reserved || Marked(m, y) {
      MarkedCases(m, y);
    }
  }

  /** Failure recovery: the list is rebuilt from the crawl and denotes exactly the reserved prefix and
      the reachable blocks (pmfs_setup_blocknode_map). */
  method SetupBlockMap(nodes: Nodes, inodes: map<nat, seq<Record>>, table: nat, h: nat, t: BlockType, end: nat,
        usedBytes: nat)
    returns (b: Balloc)
    requires TableWhole(nodes, inodes, table, h)
    requires usedBytes > 0 && (usedBytes + 4095) / 4096 <= end
    requires MarksApart(TableMarks(nodes, inodes, table, h, t), (usedBytes + 4095) / 4096, end)
    ensures fresh(b) && b.Valid() && b.start == 0 && b.end == end
    ensures forall y: nat :: In(b.list, y) <==>
      y < (usedBytes + 4095) / 4096 || Reachable(nodes, inodes, table, h, t, y)
    ensures b.numFree == end - |Blocks(b.list)|
  {
    hide TableWhole, TableMarks, MarksApart, Good, Marked, In, Blocks, Reachable;
    var bm := new ScanBitmap();
    bm.CrawlTable(nodes, inodes, table, h, t);
    assert bm.marks == TableMarks(nodes, inodes, table, h, t);
    b := BuildList(bm, end, usedBytes);
    GoodBlocks(b.Now(), 0, end, b.reserved);
    forall y: nat ensures Marked(bm.marks, y) <==> Reachable(nodes, inodes, table, h, t, y) {
      TableMarksAreReachable(nodes, inodes, table, h, t, y);
    }
  }

  lemma MarkedCases(marks: set<Mark>, y: nat)
    ensures Marked(marks, y) <==>
      Mark(Small, y / NumBlocks(Small)) in marks || Mark(Large, y / NumBlocks(Large)) in marks ||
        Mark(Huge, y / NumBlocks(Huge)) in marks
  {
    hide NumBlocks;
    if Marked(marks, y) {
      var t: BlockType :| Mark(t, y / NumBlocks(t)) in marks;
      match t {
        case Small =>
        case Large =>
        case Huge =>
      }
    }
  }

  lemma ApartFacts(marks: set<Mark>, reserved: nat, end: nat)
    requires MarksApart(marks, reserved, end)
    ensures forall y: nat, t: BlockType :: Mark(t, y / NumBlocks(t)) in marks ==> reserved <= y < end
    ensures forall y: nat :: !(Mark(Small, y / NumBlocks(Small)) in marks && Mark(Large, y / NumBlocks(Large)) in marks)
    ensures forall y: nat :: !(Mark(Small, y / NumBlocks(Small)) in marks && Mark(Huge, y / NumBlocks(Huge)) in marks)
    ensures forall y: nat :: !(Mark(Large, y / NumBlocks(Large)) in marks && Mark(Huge, y / NumBlocks(Huge)) in marks)
  {
  }

  lemma FreshDenotes(reserved: nat, y: nat)
    requires reserved >= 1
    ensures In([Node(1, 0, reserved - 1)], y) <==> y < reserved
  {
    InOne(Node(1, 0, reserved - 1), y);
  }
}
