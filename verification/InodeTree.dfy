/** An inode's block tree as the code changes it in place: metadata blocks, root, height, block
    count, and the blocks handed back to the allocator or still to come from it. */
module InodeTree {
  import opened BlockTree
  import opened Indexing
  import opened TreeAlloc
  import opened TreeFill
  import opened TreeLevels
  import opened TreeNeeds
  import opened TreeShape
  import opened TreeTruncate
  import opened TruncateSteps

  /** How a truncation ends: normally, at the kernel's assertion that an inode without data has no root,
      or with the code about to follow a null pointer, taking block 0 for a metadata block, or to leave a
      freed root in place. */
  datatype Outcome = Done | AssertionFailed | NodeMissing

  class Inode {
    var nodes: Nodes
    var root: nat
    var height: nat
    var blocks: nat
    var eofBlocks: bool
    /** Blocks passed to the allocator's free routine, in order. */
    var freed: seq<nat>
    /** Blocks the allocator will hand out, in order; it fails when none is left. */
    var supply: seq<nat>

    /** The tree is whole and no block is used twice. */
    ghost predicate Valid()
      reads this
    {
      && (root == 0 ==> height == 0)
      && (root != 0 ==> WellFormed(nodes, root, height) && Distinct(Tally(nodes, root, height)))
    }

    ghost function FileBlock(k: nat): nat
      reads this
    {
      FileLookup(nodes, root, height, k)
    }

    ghost function Used(): multiset<nat>
      reads this
    {
      Tally(nodes, root, height)
    }

    ghost function Mapped(): nat
      reads this
    {
      Leaves(nodes, root, height)
    }

    /** Device block of a file block (pmfs_find_data_block). */
    method FindDataBlock(blocknr: nat) returns (bp: nat)
      requires Valid()
      ensures bp == FileBlock(blocknr)
    {
      hide Cap, Index, Rest, Tally, Leaves, Distinct;
      if blocknr >= Cap(height) {
        return 0;
      }
      bp := root;
      var h: nat, nr: nat := height, blocknr;
      while h > 0
        invariant h <= height && nr < Cap(h) && (h > 0 ==> WellFormed(nodes, bp, h))
        invariant Lookup(nodes, bp, h, nr) == Lookup(nodes, root, height, blocknr)
        decreases h
      {
        var shift := Cap(h - 1);
        Position(h, nr);
        bp := nodes[bp][Index(nr, shift)];
        if bp == 0 {
          return 0;
        }
        nr, h := Rest(nr, shift), h - 1;
      }
    }

    /** Recount of the data blocks below a block (pmfs_inode_count_iblocks_recursive). */
    method CountBlocks(block: nat, h: nat) returns (count: nat)
      requires WellFormed(nodes, block, h)
      ensures count == Leaves(nodes, block, h)
      decreases h
    {
      if h == 0 {
        return 1;
      }
      count := 0;
      var node, i := nodes[block], 0;
      while i < FANOUT
        invariant i <= FANOUT && count == LeavesRange(nodes, node, h - 1, 0, i)
      {
        if node[i] != 0 {
          var c := CountBlocks(node[i], h - 1);
          count := count + c;
        }
        i := i + 1;
      }
    }

    /** No pointer outside indices lo to hi (is_empty_meta_block). */
    method IsEmptyMetaBlock(node: seq<nat>, lo: nat, hi: nat) returns (r: bool)
      requires lo <= hi < |node|
      ensures r <==> forall j :: 0 <= j < |node| && (j < lo || hi < j) ==> node[j] == 0
    {
      var i := 0;
      while i < lo
        invariant i <= lo && forall j :: 0 <= j < i ==> node[j] == 0
      {
        if node[i] != 0 {
          return false;
        }
        i := i + 1;
      }
      i := hi + 1;
      while i < |node|
        invariant hi < i <= |node| && forall j :: 0 <= j < i && (j < lo || hi < j) ==> node[j] == 0
      {
        if node[i] != 0 {
          return false;
        }
        i := i + 1;
      }
      r := true;
    }

    /** The loop over the data pointers of a lowest-level node: every block in the range is freed. */
    method FreeLeaves(block: nat, first: nat, last: nat) returns (count: nat, ghost cut: seq<nat>, ghost gone: seq<nat>)
      requires Tree(nodes, block, 1) && block in nodes && RootNode(nodes, block, 1, nodes[block])
      requires Index(first, Cap(0)) <= Index(last, Cap(0)) < FANOUT
      modifies this`freed
      ensures freed == old(freed) + gone
      ensures var node := nodes[block]; var lo, hi := Index(first, Cap(0)), Index(last, Cap(0));
        && Cut(nodes, nodes, node, cut, 0, first, last, hi + 1, gone, count)
        && Zeroed(node, cut, lo, hi, hi + 1, lo, hi, true)
    {
      hide Tree, Cut, Cap, WellFormed, Tally, TallyRange, LeavesRange, Distinct, Index, Rest, Zeroed;
      var node := nodes[block];
      var lo, hi := Index(first, Cap(0)), Index(last, Cap(0));
      count, cut, gone := 0, node, [];
      CutInit(nodes, node, 0, first, last);
      ZeroedInit(node, lo, hi);
      var i := lo;
      while i <= hi
        invariant lo <= i <= hi + 1 && freed == old(freed) + gone
        invariant Cut(nodes, nodes, node, cut, 0, first, last, i, gone, count)
        invariant Zeroed(node, cut, lo, hi, i, lo, hi, true)
      {
        CutFacts(nodes, nodes, block, 1, node, cut, first, last, i, gone, count);
        ZeroedStep(node, cut, lo, hi, i, lo, hi, true, false);
        if node[i] == 0 {
          HoleStep(nodes, nodes, node, cut, 0, first, last, i, gone, count);
          cut := cut[i := 0];
        } else {
          freed := freed + [node[i]];
          LeafStep(nodes, nodes, node, cut, first, last, i, gone, count);
          cut, gone := cut[i := 0], gone + [node[i]];
          count := count + 1;
        }
        i := i + 1;
      }
    }

    /** One pass of the loop over the metadata pointers of a node: pointer i is not a hole. */
    method FreeSubtree(block: nat, h: nat, first: nat, last: nat, i: nat, ghost n0: Nodes, ghost node: seq<nat>,
                       ghost cut: seq<nat>, ghost gone: seq<nat>, ghost count: nat)
      returns (cnt: nat, empty: bool, ghost more: seq<nat>)
      requires h > 1 && first <= last && RootNode(n0, block, h, node)
      requires Cut(n0, nodes, node, cut, h - 1, first, last, i, gone, count)
      requires Index(first, Cap(h - 1)) <= i <= Index(last, Cap(h - 1)) < FANOUT && node[i] != 0
      modifies this`nodes, this`freed
      ensures freed == old(freed) + more
      ensures Cut(n0, nodes, node, if empty then cut[i := 0]
        else cut, h - 1, first, last, i + 1, gone + more, count + cnt)
      ensures Index(first, Cap(h - 1)) < i < Index(last, Cap(h - 1)) ==> empty
      decreases h, 0
    {
      hide Tree, RootNode, Cut, Truncated, Cap, WellFormed, Tally, TallyRange, LeavesRange, Distinct, Index, Rest;
      CutFacts(n0, nodes, block, h, node, cut, first, last, i, gone, count);
      var c, p := Cap(h - 1), nodes[block][i];
      var firstBlk := if i == Index(first, c) then Rest(first, c) else 0;
      var lastBlk := if i == Index(last, c) then Rest(last, c) else c - 1;
      SubValues(first, last, c, i);
      ChildReady(n0, nodes, node, cut, h - 1, first, last, i, gone, count);
      ghost var n1 := nodes;
      cnt, empty, more := RecursiveTruncate(p, h - 1, firstBlk, lastBlk);
      SubtreeStep(n0, n1, nodes, node, cut, h - 1, first, last, i, gone, count, more, cnt, empty);
      if empty {
        freed := freed + [p];
        assert gone + (more + [p]) == (gone + more) + [p];
        more := more + [p];
      }
    }

    /** The loop over the metadata pointers of a node: subtrees are truncated, and freed if nothing
        is left in them; start and end exclude the two that may remain. */
    method FreeSubtrees(block: nat, h: nat, first: nat, last: nat)
      returns (count: nat, start: int, end: int, allFreed: bool, ghost cut: seq<nat>, ghost gone: seq<nat>)
      requires h > 1 && first <= last && block in nodes && RootNode(nodes, block, h, nodes[block])
      requires Index(first, Cap(h - 1)) <= Index(last, Cap(h - 1)) < FANOUT
      modifies this`nodes, this`freed
      ensures freed == old(freed) + gone
      ensures var node := old(nodes)[block]; var lo, hi := Index(first, Cap(h - 1)), Index(last, Cap(h - 1));
        && Cut(old(nodes), nodes, node, cut, h - 1, first, last, hi + 1, gone, count)
        && Zeroed(node, cut, lo, hi, hi + 1, start, end, allFreed)
      decreases h, 1
    {
      hide Tree, RootNode, Cut, Cap, WellFormed, Tally, TallyRange, LeavesRange, Distinct, Index, Rest, Zeroed;
      ghost var n0, node := nodes, nodes[block];
      RootPointers(n0, block, h, node);
      var lo, hi := Index(first, Cap(h - 1)), Index(last, Cap(h - 1));
      start, end, allFreed, count := lo, hi, true, 0;
      cut, gone := node, [];
      CutInit(n0, node, h - 1, first, last);
      ZeroedInit(node, lo, hi);
      var i := lo;
      while i <= hi
        invariant lo <= i <= hi + 1 && freed == old(freed) + gone
        invariant Cut(n0, nodes, node, cut, h - 1, first, last, i, gone, count)
        invariant Zeroed(node, cut, lo, hi, i, start, end, allFreed)
      {
        CutFacts(n0, nodes, block, h, node, cut, first, last, i, gone, count);
        if nodes[block][i] == 0 {
          HoleStep(n0, nodes, node, cut, h - 1, first, last, i, gone, count);
          ZeroedStep(node, cut, lo, hi, i, start, end, allFreed, false);
          cut := cut[i := 0];
        } else {
          var cnt, empty;
          ghost var more;
          cnt, empty, more := FreeSubtree(block, h, first, last, i, n0, node, cut, gone, count);
          ZeroedStep(node, cut, lo, hi, i, start, end, allFreed, !empty);
          count, gone := count + cnt, gone + more;
          if empty {
            cut := cut[i := 0];
          } else {
            if i == lo {
              start := start + 1;
            } else if i == hi {
              end := end - 1;
            }
            allFreed := false;
          }
        }
        i := i + 1;
      }
    }

    /** Frees file blocks first to last of the tree under block; metaEmpty tells the caller to free
        block itself. */
    method RecursiveTruncate(block: nat, h: nat, first: nat, last: nat)
      returns (count: nat, metaEmpty: bool, ghost gone: seq<nat>)
      requires Tree(nodes, block, h) && first <= last < Cap(h)
      modifies this`nodes, this`freed
      ensures freed == old(freed) + gone
      ensures Truncated(old(nodes), nodes, block, h, first, last, gone, count, metaEmpty)
      decreases h, 2
    {
      hide Tree, RootNode, Cut, Truncated, Cap, PointerOutside, WellFormed, Tally, Distinct, Index, Rest, Zeroed,
        ZeroRange, NoPointers, SubFirst, SubLast;
      ghost var n0 := nodes;
      TreeRoot(nodes, block, h);
      TreeFacts(nodes, block, h, first, last);
      var lo, hi := Index(first, Cap(h - 1)), Index(last, Cap(h - 1));
      var node := nodes[block];
      var start: int, end: int, allFreed := lo, hi, true;
      ghost var cut;
      if h == 1 {
        count, cut, gone := FreeLeaves(block, first, last);
      } else {
        count, start, end, allFreed, cut, gone := FreeSubtrees(block, h, first, last);
      }
      CutEnd(n0, nodes, block, h, node, cut, first, last, gone, count);
      var clear := IsEmptyMetaBlock(node, lo, hi);
      ZeroedEnd(node, cut, lo, hi, start, end, allFreed);
      if allFreed && clear {
        metaEmpty := true;
        NodeEmptied(n0, nodes, block, h, node, cut, first, last, gone, count);
      } else {
        NodeKept(n0, nodes, block, h, node, cut, first, last, gone, count);
        if start <= end {
          nodes := nodes[block := ZeroRange(nodes[block], start, end)];
        } else {
          assert nodes == nodes[block := cut];
        }
        metaEmpty := false;
      }
    }

    /** Drops top levels that the new size does not need and installs the new root. */
    method DecreaseHeight(newsize: nat, newroot: nat) returns (outcome: Outcome, ghost gone: seq<nat>)
      requires newroot != 0 ==> WellFormed(nodes, newroot, height) && newroot == root
      requires newsize > 0 ==> FirstBlock(newsize) <= Cap(height)
      modifies this`root, this`height, this`freed
      ensures outcome.AssertionFailed? <==> newroot != 0 && (blocks == 0 || newsize == 0)
      ensures outcome.NodeMissing? <==>
        && blocks > 0 && newsize > 0
        && Leftmost(nodes, newroot, old(height), LastStep(newsize, old(height))) == 0
      ensures outcome.Done? ==> freed == old(freed) + gone && Dropped(nodes, newroot, old(height), root, height, gone)
      ensures outcome.Done? ==> if blocks == 0 || newsize == 0 then newroot == 0 && root == 0 && height == 0
        else height == KeptHeight(newsize)
    {
      hide WellFormed, Tally, Leaves, PointerOutside, Cap, Dropped;
      gone, outcome := [], Done;
      if blocks == 0 || newsize == 0 {
        if newroot != 0 {
          return AssertionFailed, [];
        }
        DroppedEmpty(nodes, height);
        root, height := 0, 0;
        return;
      }
      ghost var h0 := height;
      KeptHeightReaches(newsize, height);
      DroppedInit(nodes, newroot, height);
      var newHeight := LevelsFor(FirstBlock(newsize) - 1);
      if height == newHeight {
        if newroot == 0 {
          outcome := NodeMissing;
        }
        return;
      }
      var r, h := newroot, height;
      while h > newHeight
        invariant newHeight <= h <= h0 && freed == old(freed) + gone
        invariant Dropped(nodes, newroot, h0, r, h, gone)
        invariant h == newHeight ==> Leftmost(nodes, newroot, h0, newHeight + 1) != 0
        decreases h
      {
        DroppedEdge(nodes, newroot, h0, r, h, newHeight + 1, gone);
        if r == 0 {
          return NodeMissing, [];
        }
        DroppedStep(nodes, newroot, h0, r, h, gone);
        freed := freed + [r];
        gone := gone + [r];
        r := nodes[r][0];
        h := h - 1;
      }
      root, height := r, newHeight;
    }

    /** Last block of a range that ends at byte end, or of the whole tree if blocks may lie behind
        the end of the file. */
    function LastBlock(end: nat): nat
      requires eofBlocks || end > 0
      reads this
    {
      if eofBlocks || (end - 1) / BLOCK_SIZE >= Cap(height) then Cap(height) - 1 else (end - 1) / BLOCK_SIZE
    }

    /** What the flag says: unless it is set, the tree has no pointer behind the end of the file. */
    ghost predicate NothingBeyond(end: nat)
      reads this
    {
      root != 0 && !eofBlocks && end > 0 ==> !PointerOutside(nodes, root, height, 0, (end - 1) / BLOCK_SIZE)
    }

    /** The range from start to end touches the tree. */
    predicate Reaches(start: nat, end: nat)
      reads this
    {
      root != 0 && (eofBlocks || end > 0) && FirstBlock(start) <= LastBlock(end)
    }

    /** The block count is right, or is about to be counted afresh. */
    ghost predicate Exact(mounting: bool)
      reads this
    {
      mounting || blocks == Mapped()
    }

    /** No data block lies outside the range, and the count says so. */
    ghost predicate Emptied(start: nat, end: nat, mounting: bool)
      requires eofBlocks || end > 0
      reads this
    {
      LeavesNothing(nodes, root, height, FirstBlock(start), LastBlock(end), blocks, mounting)
    }

    /** The subtree of height t on the tree's left edge is there and outlives the truncation. */
    ghost predicate EdgeSurvives(start: nat, end: nat, t: nat)
      requires eofBlocks || end > 0
      reads this
    {
      Survives(nodes, Leftmost(nodes, root, height, t), t, FirstBlock(start), LastBlock(end))
    }

    /** The kernel's assertion fails: some metadata block keeps the root of a file that is to be empty. */
    ghost predicate Asserts(start: nat, end: nat, mounting: bool)
      reads this
    {
      && Reaches(start, end)
      && PointerOutside(nodes, root, height, FirstBlock(start), LastBlock(end))
      && (start == 0 || Emptied(start, end, mounting))
    }

    /** Levels are dropped: the file keeps blocks and does not become empty. */
    ghost predicate Shrinks(start: nat, end: nat, mounting: bool)
      reads this
    {
      Reaches(start, end) && start > 0 && !Emptied(start, end, mounting)
    }

    /** Dropping levels comes to a hole on the left edge. */
    ghost predicate MissesNode(start: nat, end: nat, mounting: bool)
      reads this
    {
      Shrinks(start, end, mounting) && !EdgeSurvives(start, end, LastStep(start, height))
    }

    /** Pointers behind both the range and the height that is kept. */
    ghost predicate Orphans(start: nat, end: nat, mounting: bool)
      reads this
    {
      Shrinks(start, end, mounting) &&
        PointerOutside(nodes, root, height, 0, Max(LastBlock(end), Cap(KeptHeight(start)) - 1))
    }

    /** The last level dropped leads to a hole: no root, but a height. */
    ghost predicate LosesRoot(start: nat, end: nat, mounting: bool)
      reads this
    {
      Shrinks(start, end, mounting) && KeptHeight(start) > 0 && !EdgeSurvives(start, end, KeptHeight(start))
    }

    /** File block k is in the range, or beyond the height that is kept. */
    ghost predicate Removed(start: nat, end: nat, k: nat)
      reads this
    {
      Reaches(start, end) && (FirstBlock(start) <= k <= LastBlock(end) || Cap(KeptHeight(start)) <= k)
    }

    /** No data block lies behind the range and beyond the height that is kept. */
    ghost predicate NoDataLost(start: nat, end: nat)
      requires eofBlocks || end > 0
      reads this
    {
      forall k: nat :: LastBlock(end) < k && Cap(KeptHeight(start)) <= k ==> FileLookup(nodes, root, height, k) == 0
    }

    /** Frees the blocks first to last, and the root if nothing is left under it. */
    method TruncateRange(first: nat, last: nat) returns (newroot: nat, count: nat, ghost gone: seq<nat>)
      requires Valid() && root != 0 && first <= last < Cap(height)
      modifies this`nodes, this`freed
      ensures freed == old(freed) + gone
      ensures Remains(old(nodes), nodes, root, newroot, height, first, last, gone, count)
    {
      hide Truncated, WellFormed, Tally, Leaves, FileLookup, PointerOutside, Cap, Tree, Remains, Distinct;
      newroot := root;
      ghost var n0 := nodes;
      if height == 0 {
        RootFreed(nodes, root, first, last);
        freed := freed + [root];
        newroot, count, gone := 0, 1, [root];
      } else {
        TreeIs(nodes, root, height);
        var empty;
        count, empty, gone := RecursiveTruncate(root, height, first, last);
        AfterTruncate(n0, nodes, root, height, first, last, gone, count, empty);
        if empty {
          freed := freed + [root];
          newroot, gone := 0, gone + [root];
        } else {
          assert gone + [] == gone;
        }
      }
    }

    /** Accounts for the freed blocks, shrinks the tree and clears the flag if it is no longer needed. */
    method FinishTruncate(start: nat, size: nat, mounting: bool, newroot: nat, count: nat)
      returns (outcome: Outcome, ghost gone: seq<nat>)
      requires newroot != 0 ==> WellFormed(nodes, newroot, height) && newroot == root
      requires start > 0 ==> FirstBlock(start) <= Cap(height)
      requires !mounting ==> Leaves(nodes, newroot, height) + count <= blocks
      modifies this`root, this`height, this`blocks, this`eofBlocks, this`freed
      ensures eofBlocks <==> old(eofBlocks) && FirstBlock(size) < blocks
      ensures blocks == if mounting then Leaves(nodes, newroot, old(height)) else old(blocks) - count
      ensures outcome.AssertionFailed? <==> newroot != 0 && (blocks == 0 || start == 0)
      ensures outcome.NodeMissing? <==>
        && blocks > 0 && start > 0
        && Leftmost(nodes, newroot, old(height), LastStep(start, old(height))) == 0
      ensures outcome.Done? ==> freed == old(freed) + gone && Dropped(nodes, newroot, old(height), root, height, gone)
      ensures outcome.Done? ==> if blocks == 0 || start == 0 then newroot == 0 && root == 0 && height == 0
        else height == KeptHeight(start)
    {
      hide WellFormed, Tally, Leaves, PointerOutside, Cap, Distinct, Dropped;
      EmptyRoot(nodes, height);
      if !mounting {
        blocks := blocks - count;
      } else if newroot == 0 {
        blocks := 0;
      } else {
        blocks := CountBlocks(newroot, height);
      }
      outcome, gone := DecreaseHeight(start, newroot);
      BlocksBehind(size, blocks);
      eofBlocks := eofBlocks && size + BLOCK_SIZE <= blocks * BLOCK_SIZE;
    }

    /** Frees the data blocks from byte start to byte end and shrinks the tree, whatever pointers lie
        behind the range. */
    method TruncateBlocks(start: nat, end: nat, size: nat, mounting: bool)
      returns (outcome: Outcome, ghost gone: seq<nat>, ghost lost: multiset<nat>)
      requires Valid() && (!mounting ==> Mapped() <= blocks)
      modifies this
      ensures eofBlocks ==> old(eofBlocks)
      ensures outcome.Done? && old(Reaches(start, end)) ==> (eofBlocks <==> old(eofBlocks) && FirstBlock(size) < blocks)
      ensures supply == old(supply)
      ensures outcome.AssertionFailed? <==> old(Asserts(start, end, mounting))
      ensures outcome.NodeMissing? <==> old(MissesNode(start, end, mounting))
      ensures !old(Reaches(start, end)) ==>
        && nodes == old(nodes) && root == old(root) && height == old(height) && blocks == old(blocks)
        && eofBlocks == old(eofBlocks) && gone == []
      ensures outcome.Done? ==> freed == old(freed) + gone && old(Used()) == Used() + multiset(gone) + lost
      ensures outcome.Done? ==> (lost == multiset{} <==> !old(Orphans(start, end, mounting)))
      ensures outcome.Done? ==> forall k: nat :: FileBlock(k) == if old(Removed(start, end, k)) then 0
        else old(FileBlock(k))
      ensures outcome.Done? ==> Mapped() <= blocks || !old(Reaches(start, end))
      ensures outcome.Done? && old(Reaches(start, end)) ==>
        (blocks == Mapped() <==> old(Exact(mounting)) && old(NoDataLost(start, end)))
      ensures outcome.Done? ==> (Valid() <==> !old(LosesRoot(start, end, mounting)))
      ensures outcome.Done? && old(Reaches(start, end)) && root != 0 ==>
        && start > 0 && height == KeptHeight(start)
        && (!old(PointerOutside(nodes, root, height, 0, LastBlock(end))) ==>
           !PointerOutside(nodes, root, height, 0, FirstBlock(start) - 1))
    {
      hide WellFormed, Tally, Leaves, FileLookup, PointerOutside, Cap, Remains, Distinct, Dropped, Survives,
        LeavesNothing,
           HeightOf, Leftmost, Aside, KeptHeight, LastStep;
      ghost var n0, r0, h0, b0 := nodes, root, height, blocks;
      outcome, gone, lost := Done, [], multiset{};
      var first := FirstBlock(start);
      if root == 0 || (!eofBlocks && end == 0) {
        return;
      }
      var last := LastBlock(end);
      if first > last {
        return;
      }
      var newroot, count;
      newroot, count, gone := TruncateRange(first, last);
      RemainsFacts(n0, nodes, r0, newroot, h0, first, last, gone, count);
      ghost var more;
      outcome, more := FinishTruncate(start, size, mounting, newroot, count);
      AfterRange(n0, nodes, r0, newroot, h0, start, last, gone, count, b0, blocks, mounting);
      if outcome == Done {
        lost := Aside(nodes, newroot, h0, height);
        RootLeft(nodes, newroot, h0, root, height, more);
        LeftmostZero(nodes, h0, LastStep(start, h0));
        AfterLevels(n0, nodes, r0, newroot, h0, root, height, start, last, gone, more, count, b0, blocks, mounting);
        gone := gone + more;
      }
    }

    // ---- Allocation ------------------------------------------------------------------------------

    method NewBlock() returns (ok: bool, b: nat)
      modifies this`supply
      ensures ok <==> old(supply) != []
      ensures if ok then old(supply) == [b] + supply else supply == []
    {
      ok, b := supply != [], 0;
      if ok {
        b, supply := supply[0], supply[1..];
      }
    }

    /** A block for file data, counted in the inode (pmfs_new_data_block). */
    method NewDataBlock() returns (ok: bool, b: nat)
      modifies this`supply, this`blocks
      ensures ok <==> old(supply) != []
      ensures if ok then old(supply) == [b] + supply else supply == []
      ensures blocks == old(blocks) + if ok then 1 else 0
    {
      ok, b := NewBlock();
      if ok {
        blocks := blocks + 1;
      }
    }

    /** The loop over the data pointers of a lowest-level node. */
    method FillLeaves(block: nat, first: nat, last: nat)
      returns (ok: bool, ghost taken: seq<nat>, ghost added: nat)
      requires block in nodes && WellFormed(nodes, block, 1) && NodeApart(nodes, block, nodes[block], 0, supply)
      requires first <= last < Cap(1) && Index(first, Cap(0)) <= Index(last, Cap(0)) < FANOUT
      modifies this`nodes, this`supply, this`blocks, this`eofBlocks
      ensures old(supply) == taken + supply && blocks == old(blocks) + added
      ensures if ok then eofBlocks == old(eofBlocks) else eofBlocks && supply == []
      ensures Grown(old(nodes), nodes, block, block, 1, first, last, taken, added, ok)
      ensures Extended(old(nodes), nodes, Tally(old(nodes), block, 1), taken) && KeepsPointers(old(nodes), nodes, block)
      ensures FillNode(old(nodes), old(supply), block, 1, first, last) == Filling(nodes, supply, added, !ok, ok)
      ensures Suffices(Lacking(old(nodes), block, 1, first, last, 1), |old(supply)|, |taken|, ok)
    {
      hide Fill, NodeApart, Tally, Cap, Index, Rest, Grown, Extended, KeepsPointers, FillFrom, Lacking, LackingFrom;
      ghost var n0, node, s0 := nodes, nodes[block], supply;
      ghost var cur: seq<nat> := node;
      ghost var goal := FillNode(nodes, supply, block, 1, first, last);
      taken, added, ok := [], 0, true;
      var i, hi := Index(first, Cap(0)), Index(last, Cap(0));
      FillInit(n0, block, node, 0, first, last);
      NodeLacks(n0, block, 1, first, last);
      ghost var lacking := Lacking(n0, block, 1, first, last, 1);
      while i <= hi
        invariant Index(first, Cap(0)) <= i <= hi + 1 && s0 == taken + supply && blocks == old(blocks) + added
        invariant lacking == |taken| + LackingFrom(n0, node, 0, first, last, 0, i)
        invariant eofBlocks == old(eofBlocks)
        invariant Fill(n0, nodes, block, node, cur, 0, first, last, i, true, taken, added)
        invariant goal == Also(added, FillFrom(nodes, supply, block, 1, first, last, i))
      {
        FillHere(n0, nodes, block, node, cur, 0, first, last, i, taken, added, supply);
        LeafPass(nodes, supply, block, first, last, i);
        LeafLacks(n0, node, first, last, i);
        PointerLacks(n0, nodes, block, node, cur, 0, first, last, i, taken, added, 0, 0);
        if nodes[block][i] == 0 {
          var d: nat;
          ok, d := NewDataBlock();
          if !ok {
            eofBlocks := true;
            FillEnd(n0, nodes, block, 1, node, cur, first, last, i, true, false, taken, added);
            return;
          }
          NewLeaf(nodes, block, cur, first, last, i, d, supply);
          ghost var n1 := nodes;
          var updated: seq<nat> := nodes[block][i := d];
          nodes := nodes[block := updated];
          assert nodes == WithPointer(n1, block, i, d);
          FillStep(n0, n1, nodes, block, node, cur, d, 0, first, last, i, taken, added, [d], 1, true, supply);
          assert taken + ([d] + supply) == (taken + [d]) + supply;
          cur, taken, added := cur[i := d], taken + [d], added + 1;
        } else {
          KeepLeaf(nodes, block, cur, first, last, i, supply);
          FillStep(n0, nodes, nodes, block, node, cur, cur[i], 0, first, last, i, taken, added, [], 0, true, supply);
          assert taken + [] == taken;
        }
        i := i + 1;
      }
      PassesOver(nodes, supply, block, 1, first, last, i);
      LackingDone(n0, node, 0, first, last, i);
      FillEnd(n0, nodes, block, 1, node, cur, first, last, i, true, true, taken, added);
    }

    /** One pass of the loop over the metadata pointers of a node. A failure to allocate the metadata
        block itself leaves the pointer a hole. */
    method FillSubtree(block: nat, h: nat, first: nat, last: nat, i: nat, ghost n0: Nodes, ghost node: seq<nat>,
                       ghost cur: seq<nat>, ghost taken: seq<nat>, ghost added: nat)
      returns (ok: bool, ghost cur': seq<nat>, ghost ts: seq<nat>, ghost ad: nat, ghost next: nat, ghost sofar: bool)
      requires h > 1 && first <= last && |node| == FANOUT && NodeApart(n0, block, node, h - 1, taken + supply)
      requires Fill(n0, nodes, block, node, cur, h - 1, first, last, i, true, taken, added)
      requires Index(first, Cap(h - 1)) <= i <= Index(last, Cap(h - 1)) < FANOUT
      modifies this`nodes, this`supply, this`blocks, this`eofBlocks
      ensures old(supply) == ts + supply && blocks == old(blocks) + ad
      ensures if ok then eofBlocks == old(eofBlocks) else (old(eofBlocks) ==> eofBlocks) && supply == []
      ensures if ok then next == i + 1 else next <= i + 1
      ensures (ok ==> sofar)
      ensures Fill(n0, nodes, block, node, cur', h - 1, first, last, next, sofar, taken + ts, added + ad)
      ensures var r := FillFrom(old(nodes), old(supply), block, h, first, last, i);
        if ok then r == Also(ad, FillFrom(nodes, supply, block, h, first, last, i + 1))
        else r == Filling(nodes, supply, ad, r.eof, false) && eofBlocks == (old(eofBlocks) || r.eof)
      ensures Suffices(Lacking(n0, node[i], h - 1, SubFirst(first, Cap(h - 1), i), SubLast(last, Cap(h - 1), i), h - 1),
        |old(supply)|, |ts|, ok)
      decreases h, 0
    {
      hide Fill, NodeApart, WellFormed, Tally, Leaves, Cap, Index, Rest, Grown, Extended, StepFacts, Apart, Distinct,
        KeepsPointers, FillFrom, FillNode, Lacking, SubFirst, SubLast;
      FillHere(n0, nodes, block, node, cur, h - 1, first, last, i, taken, added, supply);
      NodePass(nodes, supply, block, h, first, last, i);
      var c := Cap(h - 1);
      var firstBlk := if i == Index(first, c) then Rest(first, c) else 0;
      var lastBlk := if i == Index(last, c) then Rest(last, c) else c - 1;
      SubValues(first, last, c, i);
      SubOrdered(first, last, c, i);
      ghost var n: Nodes := nodes;
      PointerLacks(n0, n, block, node, cur, h - 1, first, last, i, taken, added, firstBlk, lastBlk);
      next, sofar := i + 1, true;
      if nodes[block][i] == 0 {
        var d: nat;
        ok, d := NewBlock();
        if !ok {
          cur', ts, ad, next := cur, [], 0, i;
          HoleLacksOne(n0, h - 1, firstBlk, lastBlk);
          assert taken + ts == taken;
          return;
        }
        NewReady(n, block, cur, h - 1, i, d, supply);
        nodes := nodes[d := ZeroNode()];
        var updated: seq<nat> := nodes[block][i := d];
        nodes := nodes[block := updated];
        assert nodes == WithNode(n, block, i, d);
        HoleLacks(n0, nodes, d, h - 1, firstBlk, lastBlk);
        ghost var more;
        ok, more, ad := RecursiveAlloc(d, h - 1, firstBlk, lastBlk);
        cur', ts := cur[i := d], [d] + more;
        assert ts + supply == [d] + (more + supply);
        NewSubtree(n, nodes, block, cur, h - 1, first, last, i, d, more, ad, ok, supply);
        FillStep(n0, n, nodes, block, node, cur, d, h - 1, first, last, i, taken, added, ts, ad, ok, supply);
        sofar := ok;
      } else {
        OldReady(n, block, cur, h - 1, i, supply);
        ok, ts, ad := RecursiveAlloc(nodes[block][i], h - 1, firstBlk, lastBlk);
        cur' := cur;
        OldSubtree(n, nodes, block, cur, h - 1, first, last, i, ts, ad, ok, supply);
        FillStep(n0, n, nodes, block, node, cur, cur[i], h - 1, first, last, i, taken, added, ts, ad, ok, supply);
        sofar := ok;
      }
    }

    /** The loop over the metadata pointers of a node. */
    method FillSubtrees(block: nat, h: nat, first: nat, last: nat)
      returns (ok: bool, ghost taken: seq<nat>, ghost added: nat)
      requires h > 1 && block in nodes && WellFormed(nodes, block, h)
      requires NodeApart(nodes, block, nodes[block], h - 1, supply)
      requires first <= last < Cap(h) && Index(first, Cap(h - 1)) <= Index(last, Cap(h - 1)) < FANOUT
      modifies this`nodes, this`supply, this`blocks, this`eofBlocks
      ensures old(supply) == taken + supply && blocks == old(blocks) + added
      ensures if ok then eofBlocks == old(eofBlocks) else (old(eofBlocks) ==> eofBlocks) && supply == []
      ensures Grown(old(nodes), nodes, block, block, h, first, last, taken, added, ok)
      ensures Extended(old(nodes), nodes, Tally(old(nodes), block, h), taken) && KeepsPointers(old(nodes), nodes, block)
      ensures var r := FillNode(old(nodes), old(supply), block, h, first, last);
        r == Filling(nodes, supply, added, r.eof, ok) && eofBlocks == (old(eofBlocks) || r.eof)
      ensures Suffices(Lacking(old(nodes), block, h, first, last, h), |old(supply)|, |taken|, ok)
      decreases h, 1
    {
      hide Fill, NodeApart, Tally, Cap, Index, Rest, Grown, Extended, KeepsPointers, FillFrom, Lacking, LackingFrom;
      ghost var n0, node, s0 := nodes, nodes[block], supply;
      ghost var cur: seq<nat> := node;
      ghost var goal := FillNode(nodes, supply, block, h, first, last);
      taken, added, ok := [], 0, true;
      var i, hi := Index(first, Cap(h - 1)), Index(last, Cap(h - 1));
      FillInit(n0, block, node, h - 1, first, last);
      NodeLacks(n0, block, h, first, last);
      ghost var lacking := Lacking(n0, block, h, first, last, h);
      while i <= hi
        invariant Index(first, Cap(h - 1)) <= i <= hi + 1 && s0 == taken + supply && blocks == old(blocks) + added
        invariant lacking == |taken| + LackingFrom(n0, node, h - 1, first, last, h - 1, i)
        invariant eofBlocks == old(eofBlocks)
        invariant Fill(n0, nodes, block, node, cur, h - 1, first, last, i, true, taken, added)
        invariant goal == Also(added, FillFrom(nodes, supply, block, h, first, last, i))
      {
        ghost var cur', ts, ad, next, sofar;
        LackingNext(n0, node, h - 1, first, last, i);
        ok, cur', ts, ad, next, sofar := FillSubtree(block, h, first, last, i, n0, node, cur, taken, added);
        assert taken + (ts + supply) == (taken + ts) + supply;
        cur, taken, added := cur', taken + ts, added + ad;
        if !ok {
          FillEnd(n0, nodes, block, h, node, cur, first, last, next, sofar, false, taken, added);
          return;
        }
        i := i + 1;
      }
      PassesOver(nodes, supply, block, h, first, last, i);
      LackingDone(n0, node, h - 1, first, last, i);
      FillEnd(n0, nodes, block, h, node, cur, first, last, i, true, true, taken, added);
    }

    /** Allocates the missing blocks among first to last in the tree under block. */
    method RecursiveAlloc(block: nat, h: nat, first: nat, last: nat)
      returns (ok: bool, ghost taken: seq<nat>, ghost added: nat)
      requires h > 0 && WellFormed(nodes, block, h) && Apart(Tally(nodes, block, h), supply) && first <= last < Cap(h)
      modifies this`nodes, this`supply, this`blocks, this`eofBlocks
      ensures old(supply) == taken + supply && blocks == old(blocks) + added
      ensures if ok then eofBlocks == old(eofBlocks) else (old(eofBlocks) ==> eofBlocks) && supply == []
      ensures Grown(old(nodes), nodes, block, block, h, first, last, taken, added, ok)
      ensures Extended(old(nodes), nodes, Tally(old(nodes), block, h), taken) && KeepsPointers(old(nodes), nodes, block)
      ensures var r := FillNode(old(nodes), old(supply), block, h, first, last);
        r == Filling(nodes, supply, added, r.eof, ok) && eofBlocks == (old(eofBlocks) || r.eof)
      ensures Suffices(Lacking(old(nodes), block, h, first, last, h), |old(supply)|, |taken|, ok)
      decreases h, 2
    {
      hide Cap, Index, Rest, Grown, Extended, Apart, TallyRange, NodeApart, KeepsPointers, FillNode, Lacking;
      AllocReady(nodes, block, h, supply, first, last);
      if h == 1 {
        ok, taken, added := FillLeaves(block, first, last);
      } else {
        ok, taken, added := FillSubtrees(block, h, first, last);
      }
    }

    /** Puts new metadata blocks above the root, each with the old root as its first pointer; a
        failure keeps the levels added so far. */
    method IncreaseHeight(newHeight: nat) returns (ok: bool, ghost taken: seq<nat>)
      requires (root != 0 ==> WellFormed(nodes, root, height)) && height <= newHeight
      requires Apart(Tally(nodes, root, height), supply)
      modifies this`nodes, this`root, this`height, this`supply
      ensures old(supply) == taken + supply
      ensures Raised(old(nodes), old(root), old(height), nodes, root, height, taken)
      ensures if ok then height == newHeight else supply == [] && height < newHeight
      ensures RaiseTo(old(nodes), old(root), old(height), newHeight, old(supply)) ==
        Raising(nodes, root, height, supply, ok)
      ensures |taken| == height - old(height) && RaisedPlaces(old(nodes), old(root), old(height), nodes, root, height)
    {
      hide Raised, WellFormed, Tally, Apart, RaiseTo, RaisedPlaces;
      ghost var n0, r0, h0, s0 := nodes, root, height, supply;
      taken, ok := [], true;
      var h, prevRoot := height, root;
      RaisedInit(nodes, root, height);
      NotRaised(nodes, root, height);
      while h < newHeight
        invariant h0 <= h <= newHeight && s0 == taken + supply && (!ok ==> supply == [] && h < newHeight)
        invariant Raised(n0, r0, h0, nodes, prevRoot, h, taken)
        invariant |taken| == h - h0 && RaisedPlaces(n0, r0, h0, nodes, prevRoot, h)
        invariant RaiseTo(n0, r0, h0, newHeight, s0) == RaiseTo(nodes, prevRoot, h, newHeight, supply)
      {
        var b: nat;
        RaisePass(nodes, prevRoot, h, newHeight, supply);
        ok, b := NewBlock();
        if !ok {
          break;
        }
        assert s0 == taken + ([b] + supply);
        RaisedStep(n0, r0, h0, nodes, prevRoot, h, taken, b, supply);
        TopPlaces(n0, r0, h0, nodes, prevRoot, h, taken, b, supply);
        FirstSupplied(Tally(n0, r0, h0), s0, taken, b, supply);
        var top: seq<nat> := ZeroNode()[0 := prevRoot];
        nodes := nodes[b := top];
        assert taken + ([b] + supply) == (taken + [b]) + supply;
        prevRoot, h, taken := b, h + 1, taken + [b];
      }
      RaisePass(nodes, prevRoot, h, newHeight, supply);
      root, height := prevRoot, h;
    }

    /** Height that the tree needs to hold block last, at least its present one. */
    method HeightFor(last: nat) returns (h: nat)
      ensures h == (if last < Cap(height) then height else HeightOf(last)) >= height && last < Cap(h)
      ensures LeastHeight(height, last, h)
    {
      hide Cap;
      h := height;
      HeightReaches(last);
      if last > Cap(height) - 1 {
        HeightAbove(last, height);
        var more := LevelsFor(Index(last, Cap(height)));
        h := h + more;
      }
    }

    /** Raises the tree to height h and fills the blocks first to last. */
    method RaiseAndFill(h: nat, first: nat, last: nat) returns (ok: bool, ghost taken: seq<nat>, ghost added: nat)
      requires Valid() && Apart(Used(), supply) && 0 < h && height <= h && first <= last < Cap(h)
      modifies this`nodes, this`root, this`height, this`supply, this`blocks, this`eofBlocks
      ensures old(supply) == taken + supply && blocks == old(blocks) + added && old(height) <= height <= h
      ensures Allocated(old(nodes), old(root), old(height), nodes, root, height, first, last, taken, added, ok)
      ensures if ok then eofBlocks == old(eofBlocks) else supply == []
      ensures ok ==> height == h
      ensures var up := RaiseTo(old(nodes), old(root), old(height), h, old(supply));
        if up.ok then
          var f := FillNode(up.nodes, up.supply, up.root, h, first, last);
          && f == Filling(nodes, supply, added, f.eof, ok) && root == up.root && height == up.height == h
          && eofBlocks == (old(eofBlocks) || f.eof)
        else up == Raising(nodes, root, height, supply, false) && !ok && added == 0 && eofBlocks == old(eofBlocks)
      ensures Suffices(Needs(old(nodes), old(root), old(height), h, first, last), |old(supply)|, |taken|, ok)
    {
      hide Lacking, EmptyLevels, RaisedPlaces, Grown, Extended, Raised, WellFormed, Tally, Apart, Cap, Distinct,
        Allocated, KeepsPointers, FillNode,
        RaiseTo;
      ghost var n0, r0, h0, s0 := nodes, root, height, supply;
      added := 0;
      ok, taken := IncreaseHeight(h);
      if !ok {
        OnlyRaised(n0, r0, h0, nodes, root, height, taken, first, last);
        return;
      }
      RaisedReady(n0, r0, h0, nodes, root, height, taken, supply);
      ghost var n1, t1 := nodes, taken;
      LackingRaised(n0, r0, h0, n1, root, h, first, last, h);
      ghost var t2;
      ok, t2, added := RecursiveAlloc(root, height, first, last);
      RaisedAndFilled(n0, r0, h0, n1, root, height, nodes, first, last, t1, t2, added, ok);
      taken := t1 + t2;
      assert t1 + (t2 + supply) == taken + supply;
    }

    /** Allocates the only block of a tree of height 0, if there is none. */
    method AllocRoot() returns (ok: bool, ghost taken: seq<nat>, ghost added: nat)
      requires Valid() && Apart(Used(), supply) && height == 0
      modifies this`root, this`supply, this`blocks
      ensures old(supply) == taken + supply && blocks == old(blocks) + added
      ensures Allocated(nodes, old(root), 0, nodes, root, 0, 0, 0, taken, added, ok)
      ensures !ok ==> supply == []
      ensures AllocTree(nodes, old(root), 0, old(supply), 0, 0)
        == Allocation(nodes, root, 0, supply, added, false, ok)
      ensures Suffices(Needs(nodes, old(root), 0, 0, 0, 0), |old(supply)|, |taken|, ok)
    {
      hide WellFormed, Tally, Apart, Distinct, Allocated, FillNode, RaiseTo, Needs;
      taken, added, ok := [], 0, true;
      NothingAllocated(nodes, root, 0, 0, 0);
      NeedsOfLeaf(nodes, root);
      if root == 0 {
        var d;
        ghost var s0 := supply;
        ok, d := NewDataBlock();
        if ok {
          FirstSupplied(Tally(nodes, 0, 0), s0, [], d, supply);
          RootAllocated(nodes, d);
          root, taken, added := d, [d], 1;
        }
      }
      assert old(supply) == taken + supply;
    }

    /** Allocates num file blocks from fileBlock on, as far as they are holes. */
    method AllocBlocks(fileBlock: nat, num: nat) returns (ok: bool, ghost taken: seq<nat>, ghost added: nat)
      requires Valid() && Apart(Used(), supply) && num > 0
      modifies this`nodes, this`root, this`height, this`supply, this`blocks, this`eofBlocks
      ensures old(supply) == taken + supply && blocks == old(blocks) + added
      ensures Allocated(old(nodes), old(root), old(height), nodes, root, height, fileBlock, fileBlock + num - 1, taken,
        added, ok)
      ensures Valid() && Apart(Used(), supply)
      ensures !ok && old(height) <= 3 ==> supply == [] || fileBlock + num > Cap(3)
      ensures ok ==> eofBlocks == old(eofBlocks)
      ensures old(height) <= 3 ==> height <= 3
      ensures var r := AllocTree(old(nodes), old(root), old(height), old(supply), fileBlock, fileBlock + num - 1);
        r == Allocation(nodes, root, height, supply, added, r.eof, ok) && eofBlocks == (old(eofBlocks) || r.eof)
      ensures AsNeeded(old(nodes), old(root), old(height), |old(supply)|, fileBlock, fileBlock + num - 1, height,
        |taken|,
        ok)
    {
      hide WellFormed, Tally, Apart, Cap, Distinct, Allocated, FillNode, RaiseTo, HeightOf, Needs, AsNeeded,
        LeastHeight;
      ghost var n0, r0, h0 := nodes, root, height;
      taken, added := [], 0;
      var last := fileBlock + num - 1;
      NothingAllocated(nodes, root, height, fileBlock, last);
      var h := HeightFor(last);
      CapZero();
      CapMono(0, h);
      if h > height && h > 3 {
        HeightTop(last);
        ok := false;
      } else if h > 0 {
        ok, taken, added := RaiseAndFill(h, fileBlock, last);
      } else {
        ok, taken, added := AllocRoot();
      }
      assert old(supply) == taken + supply;
      LeastNeeded(n0, r0, h0, |old(supply)|, fileBlock, last, h, height, |taken|, ok);
      StillApart(n0, r0, h0, nodes, root, height, fileBlock, last, taken, supply, added, ok);
    }

    constructor Empty(blocksFree: seq<nat>)
      ensures Valid() && nodes == map[] && root == 0 && height == 0 && blocks == 0 && !eofBlocks && freed == []
      ensures supply == blocksFree
    {
      nodes, root, height, blocks, eofBlocks, freed, supply := map[], 0, 0, 0, false, [], blocksFree;
    }
  }

  /** The file has more blocks than its size takes. */
  lemma BlocksBehind(size: nat, blocks: nat)
    ensures size + BLOCK_SIZE <= blocks * BLOCK_SIZE <==> FirstBlock(size) < blocks
  {
  }

  /** Levels of metadata needed to reach block x, by shifting. */
  method LevelsFor(x: nat) returns (h: nat)
    ensures h == HeightOf(x)
  {
    h := 0;
    var rest: nat := x;
    while rest > 0
      invariant h + HeightOf(rest) == HeightOf(x)
    {
      rest := rest / FANOUT;
      h := h + 1;
    }
  }
}
