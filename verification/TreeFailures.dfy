/** Files whose truncation goes wrong: a sparse file, and files left behind by an allocation that failed on a
    metadata block. */
module TreeFailures {
  import opened BlockTree
  import opened Indexing
  import opened InodeTree
  import opened TreeAlloc
  import opened TreeFill
  import opened TreeLevels
  import opened TreeShape
  import opened TreeTruncate
  import opened TruncateSteps

  lemma CapTwo()
    ensures Cap(0) == 1 && Cap(1) == 512 && Cap(2) == 262144
  {
    assert Cap(2) == FANOUT * Cap(1);
  }

  lemma FarHeight(far: nat)
    requires 512 <= far < 262144
    ensures HeightOf(far) == 2
  {
    CapTwo();
    HeightReaches(far);
    HeightLeast(far, 2);
    if HeightOf(far) < 2 {
      CapMono(HeightOf(far), 1);
    }
  }

  lemma Sizes(keep: nat)
    requires 1 <= keep
    ensures FirstBlock(keep * BLOCK_SIZE) == keep && (keep * BLOCK_SIZE - 1) / BLOCK_SIZE == keep - 1
  {
  }

  /** The first four blocks that the allocator hands out. */
  ghost predicate FourBlocks(s: seq<nat>) {
    && |s| >= 4 && s[0] != 0 && s[1] != 0 && s[2] != 0 && s[3] != 0
    && s[0] != s[1] && s[0] != s[2] && s[0] != s[3] && s[1] != s[2] && s[1] != s[3] && s[2] != s[3]
  }

  lemma SupplyIsFour(s: seq<nat>)
    requires Apart(multiset{}, s) && |s| >= 4
    ensures FourBlocks(s)
  {
    forall i, j | 0 <= i < j < |s| ensures s[i] != s[j] {
      assert s == s[..j] + [s[j]] + s[j + 1..];
      assert s[i] in s[..j];
      assert (multiset{} + multiset(s))[s[j]] == multiset(s[..j])[s[j]] + 1 + multiset(s[j + 1..])[s[j]];
      assert s[j] in multiset{} + multiset(s);
      assert s[i] in multiset(s[..j]);
    }
  }

  // ---- A far block of an empty file ------------------------------------------------------------------

  /** Two levels above an empty tree: s[1] leads to s[0], which leads nowhere. */
  function TwoLevels(r: nat, low: nat, top: nat): Nodes {
    WithTop(WithTop(map[], r, low), low, top)
  }

  lemma RaisedTwice(r: nat, s: seq<nat>)
    requires |s| >= 2
    ensures RaiseTo(map[], r, 0, 2, s) == Raising(TwoLevels(r, s[0], s[1]), s[1], 2, s[2..], true)
  {
    var n := WithTop(map[], r, s[0]);
    RaisePass(map[], r, 0, 2, s);
    RaisePass(n, s[0], 1, 2, s[1..]);
    assert s[1..][1..] == s[2..];
    RaisePass(TwoLevels(r, s[0], s[1]), s[1], 2, 2, s[2..]);
  }

  /** Metadata after block `far` has been put below index far / 512 of the top node. */
  function FarNodes(s: seq<nat>, far: nat): Nodes
    requires |s| >= 4 && 512 <= far < 262144
  {
    var n := TwoLevels(0, s[0], s[1]);
    var m := WithNode(n, s[1], far / 512, s[2]);
    WithPointer(m, s[2], far % 512, s[3])
  }

  lemma LeafFilled(n: Nodes, supply: seq<nat>, b: nat, k: nat)
    requires k < FANOUT && b in n && |n[b]| == FANOUT && n[b][k] == 0 && supply != []
    ensures FillNode(n, supply, b, 1, k, k) == Filling(WithPointer(n, b, k, supply[0]), supply[1..], 1, false, true)
  {
    LeafPass(n, supply, b, k, k, k);
    PassesOver(WithPointer(n, b, k, supply[0]), supply[1..], b, 1, k, k, k + 1);
  }

  lemma Places(far: nat)
    requires 512 <= far < 262144
    ensures 1 <= Index(far, 512) == far / 512 < 512 && Rest(far, 512) == far % 512 < 512
    ensures SubFirst(far, 512, far / 512) == far % 512 == SubLast(far, 512, far / 512)
  {
    DivMono(512, far, 512);
  }

  /** The top node gets a new metadata block for the first block of a range, and that block is filled. */
  lemma FarSubtree(s: seq<nat>, far: nat, last: nat)
    requires FourBlocks(s) && 512 <= far <= last < 262144
    requires (last == far || (Index(far, 512) < Index(last, 512) && far % 512 == 511))
    ensures var n := TwoLevels(0, s[0], s[1]);
      FillNode(n, s[2..], s[1], 2, far, last)
        == Also(1, FillFrom(FarNodes(s, far), s[4..], s[1], 2, far, last, Index(far, 512) + 1))
  {
    hide FillFrom, FillNode;
    CapTwo();
    Places(far);
    DivMono(far, last, 512);
    var n := TwoLevels(0, s[0], s[1]);
    var i, k := far / 512, far % 512;
    assert n[s[1]][i] == 0 && s[2..][0] == s[2] && s[2..][1..] == s[3..];
    NodePass(n, s[2..], s[1], 2, far, last, i);
    var m := WithNode(n, s[1], i, s[2]);
    assert SubLast(last, 512, i) == k;
    LeafFilled(m, s[3..], s[2], k);
    assert s[3..][0] == s[3] && s[3..][1..] == s[4..];
    StartsAt(n, s[2..], s[1], 2, far, last);
  }

  lemma StartsAt(n: Nodes, supply: seq<nat>, b: nat, h: nat, first: nat, last: nat)
    requires h > 0
    ensures FillNode(n, supply, b, h, first, last) == FillFrom(n, supply, b, h, first, last, Index(first, Cap(h - 1)))
  {
  }

  /** Writing one far block of an empty file takes four blocks. */
  lemma FarAllocation(s: seq<nat>, far: nat)
    requires FourBlocks(s) && 512 <= far < 262144
    ensures AllocTree(map[], 0, 0, s, far, far) == Allocation(FarNodes(s, far), s[1], 2, s[4..], 1, false, true)
  {
    hide FillNode, FillFrom, RaiseTo;
    CapTwo();
    FarHeight(far);
    RaisedTwice(0, s);
    FarSubtree(s, far, far);
    PassesOver(FarNodes(s, far), s[4..], s[1], 2, far, far, Index(far, 512) + 1);
  }

  /** The first pointer of the top node leads to an empty metadata block; nothing in front of the far block
      is mapped. */
  lemma FarBlockIsStuck(s: seq<nat>, far: nat, keep: nat, taken: seq<nat>)
    requires FourBlocks(s) && 512 <= keep <= far < 262144
    requires Allocated(map[], 0, 0, FarNodes(s, far), s[1], 2, far, far, taken, 1, true)
    ensures PointerOutside(FarNodes(s, far), s[1], 2, keep, Cap(2) - 1)
    ensures OnlyIn(FarNodes(s, far), s[1], 2, keep, Cap(2) - 1)
    ensures Leaves(FarNodes(s, far), s[1], 2) == 1
  {
    hide WellFormed, Tally, Leaves;
    var n := FarNodes(s, far);
    CapTwo();
    EmptyRoot(map[], 0);
    DivMono(512, keep, 512);
    Places(far);
    assert n[s[1]][0] == s[0] && Index(keep, Cap(1)) >= 1;
    forall k: nat | !(keep <= k <= Cap(2) - 1) ensures FileLookup(n, s[1], 2, k) == 0 {
      assert Filled(FileLookup(map[], 0, 0, k), FileLookup(n, s[1], 2, k), far <= k <= far, true, taken);
    }
  }

  /** A file of 262144 blocks in which only block `far` was written, truncated to `keep` blocks with
      keep no greater than far: the truncation fails the kernel's assertion. */
  method TruncateSparseFile(far: nat, keep: nat, blocksFree: seq<nat>) returns (written: bool, outcome: Outcome)
    requires 512 <= keep <= far < 262144 && Apart(multiset{}, blocksFree) && |blocksFree| >= 4
    ensures written && outcome == AssertionFailed
  {
    hide WellFormed, Tally, Leaves, PointerOutside, FileLookup, Allocated, Cap, Distinct, Apart, AllocTree, FarNodes;
    CapTwo();
    SupplyIsFour(blocksFree);
    var f := new Inode.Empty(blocksFree);
    EmptyRoot(f.nodes, 0);
    ghost var taken, added, gone, lost;
    FarAllocation(blocksFree, far);
    written, taken, added := f.AllocBlocks(far, 1);
    FarBlockIsStuck(blocksFree, far, keep, taken);
    Sizes(keep);
    Sizes(262144);
    outcome, gone, lost := f.TruncateBlocks(keep * BLOCK_SIZE, 262144 * BLOCK_SIZE, keep * BLOCK_SIZE, false);
  }

  // ---- A metadata block that cannot be allocated ------------------------------------------------------------

  /** Block 0 in a[0], two new levels a[1] and a[2], block 511 in a[3]. */
  function NearNodes(s: seq<nat>): Nodes
    requires |s| >= 4
  {
    WithPointer(TwoLevels(s[0], s[1], s[2]), s[1], 511, s[3])
  }

  /** With four blocks left, a file of one block that is extended by blocks 511 and 512 gets the first of them
      only: the metadata block for the second one is missing. The flag for blocks behind the end of the file
      stays clear. */
  lemma NearAllocation(s: seq<nat>)
    requires FourBlocks(s) && |s| == 4
    ensures AllocTree(map[], 0, 0, s, 0, 0) == Allocation(map[], s[0], 0, s[1..], 1, false, true)
    ensures AllocTree(map[], s[0], 0, s[1..], 511, 512) == Allocation(NearNodes(s), s[2], 2, [], 1, false, false)
  {
    hide FillNode, FillFrom, RaiseTo;
    CapTwo();
    FarHeight(512);
    var n := TwoLevels(s[0], s[1], s[2]);
    RaisedTwice(s[0], s[1..]);
    assert s[1..][2..] == [s[3]] && s[1..][0] == s[1] && s[1..][1] == s[2];
    NearFilling(s);
  }

  lemma NearFilling(s: seq<nat>)
    requires FourBlocks(s) && |s| == 4
    ensures FillNode(TwoLevels(s[0], s[1], s[2]), [s[3]], s[2], 2, 511, 512) ==
      Filling(NearNodes(s), [], 1, false, false)
  {
    hide FillFrom, FillNode;
    CapTwo();
    NearPlaces();
    var n := TwoLevels(s[0], s[1], s[2]);
    assert n[s[2]][0] == s[1] && n[s[1]][511] == 0;
    StartsAt(n, [s[3]], s[2], 2, 511, 512);
    NodePass(n, [s[3]], s[2], 2, 511, 512, 0);
    LeafFilled(n, [s[3]], s[1], 511);
    assert WithPointer(n, s[1], 511, s[3]) == NearNodes(s) && [s[3]][1..] == [];
    assert FillNode(n, [s[3]], s[1], 1, 511, 511) == Filling(NearNodes(s), [], 1, false, true);
    assert NearNodes(s)[s[2]][1] == 0;
    NodePass(NearNodes(s), [], s[2], 2, 511, 512, 1);
    assert FillFrom(NearNodes(s), [], s[2], 2, 511, 512, 1) == Filling(NearNodes(s), [], 0, false, false);
  }

  lemma NearPlaces()
    ensures Index(511, 512) == 0 && Index(512, 512) == 1
    ensures SubFirst(511, 512, 0) == 511 && SubLast(512, 512, 0) == 511
  {
  }

  /** What the file looks like then. */
  lemma NearShape(s: seq<nat>)
    requires FourBlocks(s) && |s| == 4
    ensures var n := NearNodes(s);
      && PointerOutside(n, s[2], 2, 0, 0) && PointerOutside(n, s[2], 2, 1, 1) && PointerOutside(n, s[2], 2, 0, 1)
      && Leftmost(n, s[2], 2, 1) == s[1] && PointerOutside(n, s[1], 1, 1, 1)
      && FileLookup(n, s[2], 2, 0) == s[0] && FileLookup(n, s[2], 2, 511) == s[3]
  {
    CapTwo();
    var n := NearNodes(s);
    assert n[s[2]][0] == s[1] && n[s[1]][0] == s[0] && n[s[1]][511] == s[3];
    assert Index(511, 1) == 511 && Index(0, 1) == 0 && Index(1, 1) == 1 && Index(511, 512) == 0 &&
      Rest(511, 512) == 511;
    NearPointers(n, s[1]);
    assert Lookup(n, s[1], 1, 0) == s[0] && Lookup(n, s[1], 1, 511) == s[3];
    assert Leftmost(n, s[1], 1, 1) == s[1];
  }

  lemma NearPointers(n: Nodes, b: nat)
    requires b in n && |n[b]| == FANOUT && n[b][511] != 0
    ensures PointerOutside(n, b, 1, 0, 0) && PointerOutside(n, b, 1, 1, 1) && PointerOutside(n, b, 1, 0, 1)
  {
    CapTwo();
    var i := 511;
    assert n[b][i] != 0 && Index(0, 1) < i && Index(1, 1) < i;
  }

  /** The allocation that fails. */
  method FailAllocation(blocksFree: seq<nat>) returns (f: Inode)
    requires Apart(multiset{}, blocksFree) && |blocksFree| == 4
    ensures fresh(f) && FourBlocks(blocksFree) && f.Valid() && f.blocks == f.Mapped() && !f.eofBlocks
    ensures f.nodes == NearNodes(blocksFree) && f.root == blocksFree[2] && f.height == 2 && f.supply == []
  {
    hide WellFormed, Tally, Leaves, PointerOutside, FileLookup, Allocated, Cap, Distinct, Apart, AllocTree, NearNodes;
    SupplyIsFour(blocksFree);
    NearAllocation(blocksFree);
    f := new Inode.Empty(blocksFree);
    EmptyRoot(f.nodes, 0);
    ghost var taken, added;
    var ok;
    ok, taken, added := f.AllocBlocks(0, 1);
    AllocatedLeaves(map[], 0, 0, f.nodes, f.root, f.height, 0, 0, taken, added, ok);
    ghost var n1, r1, h1 := f.nodes, f.root, f.height;
    ok, taken, added := f.AllocBlocks(511, 2);
    AllocatedLeaves(n1, r1, h1, f.nodes, f.root, f.height, 511, 512, taken, added, ok);
  }

  lemma AllocatedLeaves(n0: Nodes, r0: nat, h0: nat, n: Nodes, r: nat, h: nat, first: nat, last: nat, taken: seq<nat>,
        added: nat, ok: bool)
    requires Allocated(n0, r0, h0, n, r, h, first, last, taken, added, ok)
    ensures Leaves(n, r, h) == Leaves(n0, r0, h0) + added
  {
    hide WellFormed, Tally, Leaves, FileLookup;
  }

  /** As long as nothing has been copied into the new blocks, the file's size says one block. Truncating it to
      nothing fails the kernel's assertion. */
  method TruncateFailedFile(blocksFree: seq<nat>) returns (outcome: Outcome)
    requires Apart(multiset{}, blocksFree) && |blocksFree| == 4
    ensures outcome == AssertionFailed
  {
    hide WellFormed, Tally, Leaves, PointerOutside, FileLookup, Distinct, Apart, NearNodes, Leftmost, Survives;
    var f := FailAllocation(blocksFree);
    CapTwo();
    NearShape(blocksFree);
    ghost var gone, lost;
    outcome, gone, lost := f.TruncateBlocks(0, BLOCK_SIZE, 0, false);
  }

  /** Extending it to two blocks and truncating it to one again drops both levels and loses block 511, which
      stays counted. */
  method ShrinkFailedFile(blocksFree: seq<nat>) returns (outcome: Outcome, wrongCount: bool, ghost lost: multiset<nat>)
    requires Apart(multiset{}, blocksFree) && |blocksFree| == 4
    ensures outcome == Done && lost != multiset{} && wrongCount
  {
    hide WellFormed, Tally, Leaves, PointerOutside, FileLookup, Distinct, Apart, NearNodes, Leftmost;
    var f := FailAllocation(blocksFree);
    CapTwo();
    NearShape(blocksFree);
    Sizes(1);
    Sizes(2);
    assert !f.Emptied(BLOCK_SIZE, 2 * BLOCK_SIZE, false);
    ghost var gone;
    outcome, gone, lost := f.TruncateBlocks(BLOCK_SIZE, 2 * BLOCK_SIZE, BLOCK_SIZE, false);
    var count := 0;
    EmptyRoot(f.nodes, f.height);
    if f.root != 0 {
      count := f.CountBlocks(f.root, f.height);
    }
    wrongCount := f.blocks != count;
  }

  // ---- The same on an empty file ---------------------------------------------------------------------------

  /** Blocks 1023 and 1024 of an empty file, with four blocks left: only the first one gets its metadata. */
  lemma HollowAllocation(s: seq<nat>)
    requires FourBlocks(s) && |s| == 4
    ensures AllocTree(map[], 0, 0, s, 1023, 1024) == Allocation(FarNodes(s, 1023), s[1], 2, [], 1, false, false)
  {
    hide FillNode, FillFrom, RaiseTo;
    CapTwo();
    FarHeight(1024);
    RaisedTwice(0, s);
    FarSubtree(s, 1023, 1024);
    assert s[4..] == [];
    NodePass(FarNodes(s, 1023), [], s[1], 2, 1023, 1024, 2);
  }

  lemma HollowShape(s: seq<nat>)
    requires FourBlocks(s) && |s| == 4
    ensures var n := FarNodes(s, 1023);
      && PointerOutside(n, s[1], 2, 1, 1) && Leftmost(n, s[1], 2, 1) == s[0] && !PointerOutside(n, s[0], 1, 1, 1)
      && FileLookup(n, s[1], 2, 1023) == s[3]
  {
    CapTwo();
    var n := FarNodes(s, 1023);
    assert n[s[1]][1] == s[2] && n[s[1]][0] == s[0] && n[s[2]][511] == s[3];
    assert Index(1, 512) == 0 && Index(1023, 512) == 1 && Rest(1023, 512) == 511 && Index(511, 1) == 511;
    assert Leftmost(n, s[0], 1, 1) == s[0];
    assert Lookup(n, s[2], 1, 511) == s[3];
  }

  /** A file of two unwritten blocks in which that allocation failed, truncated to one block: dropping the
      levels follows the pointer of the emptied metadata block. */
  method ShrinkHollowFile(blocksFree: seq<nat>) returns (outcome: Outcome)
    requires Apart(multiset{}, blocksFree) && |blocksFree| == 4
    ensures outcome == NodeMissing
  {
    hide WellFormed, Tally, Leaves, PointerOutside, FileLookup, Allocated, Distinct, Apart, AllocTree, FarNodes,
      Leftmost;
    SupplyIsFour(blocksFree);
    HollowAllocation(blocksFree);
    HollowShape(blocksFree);
    CapTwo();
    Sizes(1);
    Sizes(2);
    var f := new Inode.Empty(blocksFree);
    EmptyRoot(f.nodes, 0);
    ghost var taken, added, gone, lost;
    var ok;
    ok, taken, added := f.AllocBlocks(1023, 2);
    AllocatedLeaves(map[], 0, 0, f.nodes, f.root, f.height, 1023, 1024, taken, added, ok);
    assert !f.Emptied(BLOCK_SIZE, 2 * BLOCK_SIZE, false);
    outcome, gone, lost := f.TruncateBlocks(BLOCK_SIZE, 2 * BLOCK_SIZE, BLOCK_SIZE, false);
  }
}
