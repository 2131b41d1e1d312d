/** What the tree operations add up to. */
module TreeTheorems {
  import opened BlockTree
  import opened Indexing
  import opened InodeTree
  import opened TreeAlloc
  import opened TreeFill
  import opened TreeLevels
  import opened TreeShape
  import opened TreeTruncate
  import opened TruncateSteps

  /** A mapped block is one of the tree's blocks. */
  lemma {:induction false} MappedIsUsed(n: Nodes, b: nat, h: nat, k: nat)
    requires b != 0 && WellFormed(n, b, h) && k < Cap(h)
    ensures Lookup(n, b, h, k) == 0 || Lookup(n, b, h, k) in Tally(n, b, h)
    decreases h
  {
    hide Cap, Index, Rest, TallyRange;
    if h > 0 {
      var i, r := Index(k, Cap(h - 1)), Rest(k, Cap(h - 1));
      Position(h, k);
      TallyOne(n, n[b], h - 1, 0, i, FANOUT);
      if n[b][i] != 0 {
        MappedIsUsed(n, n[b][i], h - 1, r);
      }
    }
  }

  /** Different file blocks live in different device blocks. */
  lemma {:induction false} MappingIsInjective(n: Nodes, b: nat, h: nat, k1: nat, k2: nat)
    requires b != 0 && WellFormed(n, b, h) && Distinct(Tally(n, b, h))
    requires k1 < k2 < Cap(h) && Lookup(n, b, h, k1) != 0
    ensures Lookup(n, b, h, k1) != Lookup(n, b, h, k2)
    decreases h
  {
    hide Index, Rest, TallyRange, Tally, Distinct;
    var c := Cap(h - 1);
    var i1, i2 := Index(k1, c), Index(k2, c);
    Position(h, k1);
    Position(h, k2);
    SamePlace(k1, k2, c);
    if n[b][i2] != 0 {
      MappedIsUsed(n, n[b][i1], h - 1, Rest(k1, c));
      MappedIsUsed(n, n[b][i2], h - 1, Rest(k2, c));
      if i1 == i2 {
        ChildDistinct(n, b, h, i1);
        MappingIsInjective(n, n[b][i1], h - 1, Rest(k1, c), Rest(k2, c));
      } else {
        ChildrenDisjoint(n, b, h, i1, i2, Lookup(n, b, h, k1));
      }
    }
  }

  lemma SamePlace(k1: nat, k2: nat, c: nat)
    requires c >= 1 && k1 < k2
    ensures Index(k1, c) <= Index(k2, c)
    ensures Index(k1, c) == Index(k2, c) ==> Rest(k1, c) < Rest(k2, c)
  {
    DivMono(k1, k2, c);
    DivMod(k1, c);
    DivMod(k2, c);
  }

  /** After an allocation the tree and the blocks still free are disjoint again, holes were filled
      with blocks that the file did not have, and all file blocks are in different device blocks. */
  lemma AllocationIsFresh(n0: Nodes, r0: nat, h0: nat, n: Nodes, r: nat, h: nat, first: nat, last: nat,
                          taken: seq<nat>, supply: seq<nat>, added: nat, ok: bool)
    requires Allocated(n0, r0, h0, n, r, h, first, last, taken, added, ok)
    requires Apart(Tally(n0, r0, h0), taken + supply)
    ensures Apart(Tally(n, r, h), supply)
    ensures forall k: nat :: FileLookup(n0, r0, h0, k) == 0 && FileLookup(n, r, h, k) != 0 ==>
      first <= k <= last && FileLookup(n, r, h, k) in taken && FileLookup(n, r, h, k) !in Tally(n0, r0, h0)
    ensures forall k: nat :: FileLookup(n0, r0, h0, k) != 0 ==> FileLookup(n, r, h, k) == FileLookup(n0, r0, h0, k)
    ensures ok ==> forall k: nat :: first <= k <= last ==> FileLookup(n, r, h, k) != 0
    ensures forall k1: nat, k2: nat :: k1 < k2 && FileLookup(n, r, h, k1) != 0 ==>
      FileLookup(n, r, h, k1) != FileLookup(n, r, h, k2)
  {
    hide Tally, Leaves, WellFormed, Cap, Lookup, Apart, Distinct;
    ApartTaken(Tally(n0, r0, h0), taken, supply);
    ApartDistinct(Tally(n, r, h), supply);
    forall x | x in taken ensures x !in Tally(n0, r0, h0) {
      assert x in taken + supply;
      if x in Tally(n0, r0, h0) {
        ApartNotIn(Tally(n0, r0, h0), taken + supply, x);
      }
    }
    EmptyRoot(n, h);
    forall k1: nat, k2: nat | k1 < k2 && FileLookup(n, r, h, k1) != 0
      ensures FileLookup(n, r, h, k1) != FileLookup(n, r, h, k2)
    {
      if k2 < Cap(h) {
        MappingIsInjective(n, r, h, k1, k2);
      }
    }
  }

  // ---- Truncation with nothing behind the range -------------------------------------------------------

  /** A file block in front of the range keeps the left edge in place down to the height that is kept. */
  lemma EdgeKept(n: Nodes, b: nat, h: nat, start: nat, last: nat, t: nat)
    requires WellFormed(n, b, h) && start > 0 && FirstBlock(start) <= last < Cap(h) && KeptHeight(start) <= t <= h
    requires !PointerOutside(n, b, h, 0, last) && !OnlyIn(n, b, h, FirstBlock(start), last)
    ensures Survives(n, Leftmost(n, b, h, t), t, FirstBlock(start), last)
  {
    hide WellFormed, PointerOutside, Survives, Leftmost, FileLookup, Cap, HeightOf;
    var first := FirstBlock(start);
    NothingLater(n, b, h, last, last);
    KeptHeightReaches(start, h);
    CapMono(KeptHeight(start), t);
    var k: nat :| !(first <= k <= last) && FileLookup(n, b, h, k) != 0;
    EdgeStays(n, b, h, t, first, last, k);
  }

  /** If the file has no pointer behind the range and its block count is right, truncation never meets a
      missing node, loses no block and no root, and leaves the count right. */
  lemma OrderlyTruncation(f: Inode, start: nat, end: nat, mounting: bool)
    requires f.Valid() && f.NothingBeyond(end) && f.Exact(mounting)
    ensures !f.MissesNode(start, end, mounting) && !f.Orphans(start, end, mounting)
    ensures !f.LosesRoot(start, end, mounting)
    ensures f.Reaches(start, end) ==> f.NoDataLost(start, end)
  {
    hide WellFormed, PointerOutside, Survives, Leftmost, FileLookup, Cap, HeightOf, Tally, Leaves, Distinct;
    if f.Reaches(start, end) {
      var first, last := FirstBlock(start), f.LastBlock(end);
      LastInTree(f, end);
      NothingLater(f.nodes, f.root, f.height, last, Max(last, Cap(KeptHeight(start)) - 1));
      if f.Shrinks(start, end, mounting) {
        KeptHeightReaches(start, f.height);
        var kept := KeptHeight(start);
        EdgeKept(f.nodes, f.root, f.height, start, last, kept);
        EdgeKept(f.nodes, f.root, f.height, start, last, LastStep(start, f.height));
      }
    }
  }

  lemma LastInTree(f: Inode, end: nat)
    requires f.Valid() && f.NothingBeyond(end) && f.root != 0 && (f.eofBlocks || end > 0)
    ensures f.LastBlock(end) < Cap(f.height) && !PointerOutside(f.nodes, f.root, f.height, 0, f.LastBlock(end))
  {
    hide PointerOutside, Distinct, Tally;
    NothingOutsideAll(f.nodes, f.root, f.height);
  }

  // ---- Runs of file operations ----------------------------------------------------------------------------

  /** A write that ends at byte `size` and allocates its blocks, or a change of the file's size. */
  datatype FileOp = Extend(first: nat, num: nat, size: nat) | Resize(size: nat)

  predicate Sensible(op: FileOp) {
    op.Extend? ==> op.num > 0 && (op.first + op.num - 1) * BLOCK_SIZE < op.size <= (op.first + op.num) * BLOCK_SIZE
  }

  datatype RunEnd = Completed | NoSpace | Assertion

  /** The file's size after the operations. */
  function SizeAfter(size: nat, ops: seq<FileOp>): nat
    decreases |ops|
  {
    if ops == [] then size
    else SizeAfter(match ops[0] case Extend(_, _, s) => Max(size, s) case Resize(s) => s, ops[1..])
  }

  lemma {:induction false} SizeAfterOne(size: nat, ops: seq<FileOp>, i: nat)
    requires i < |ops|
    ensures SizeAfter(size, ops[..i + 1]) ==
      match ops[i] case Extend(_, _, s) => Max(SizeAfter(size, ops[..i]), s) case Resize(s) => s
    decreases i
  {
    if i == 0 {
      assert ops[..1][1..] == [] && ops[..0] == [];
    } else {
      assert ops[..i + 1][1..] == ops[1..][..i] && ops[..i][1..] == ops[1..][..i - 1];
      SizeAfterOne(match ops[0] case Extend(_, _, s) => Max(size, s) case Resize(s) => s, ops[1..], i - 1);
    }
  }

  /** The file's tree fits its size. */
  ghost predicate Fits(f: Inode, size: nat)
    reads f
  {
    && f.Valid() && f.height <= 3 && Apart(f.Used(), f.supply) && f.blocks == f.Mapped() && !f.eofBlocks
    && f.NothingBeyond(size) && (size == 0 ==> f.root == 0)
  }

  lemma ExtendFits(n0: Nodes, r0: nat, h0: nat, n: Nodes, r: nat, h: nat, last: nat, size: nat, size': nat)
    requires NoNewBehind(n0, r0, h0, n, r, h, last) && last * BLOCK_SIZE < size' && size <= size'
    requires if size == 0 then r0 == 0 else r0 != 0 ==> !PointerOutside(n0, r0, h0, 0, (size - 1) / BLOCK_SIZE)
    ensures r != 0 ==> !PointerOutside(n, r, h, 0, (size' - 1) / BLOCK_SIZE)
  {
    hide PointerOutside;
    var m: nat := (size' - 1) / BLOCK_SIZE;
    if r != 0 && PointerOutside(n, r, h, 0, m) {
      OutsideMono(n0, r0, h0, 0, (size - 1) / BLOCK_SIZE, 0, m);
    }
  }

  lemma StillFits(n: Nodes, b: nat, h: nat, last: nat, m: nat)
    requires WellFormed(n, b, h) && !PointerOutside(n, b, h, 0, last) && last <= m
    ensures !PointerOutside(n, b, h, 0, m)
  {
    if PointerOutside(n, b, h, 0, m) {
      OutsideMono(n, b, h, 0, last, 0, m);
    }
  }

  lemma SizeInBlocks(size: nat)
    requires size > 0
    ensures FirstBlock(size) == (size - 1) / BLOCK_SIZE + 1
  {
  }

  method ExtendFile(f: Inode, op: FileOp, size: nat) returns (ok: bool, size': nat)
    requires Fits(f, size) && op.Extend? && Sensible(op)
    modifies f
    ensures ok ==> Fits(f, size') && size' == Max(size, op.size)
    ensures ok ==> forall k: nat :: op.first <= k < op.first + op.num ==> f.FileBlock(k) != 0
    ensures forall k: nat :: old(f.FileBlock(k)) != 0 ==> f.FileBlock(k) == old(f.FileBlock(k))
    ensures !ok ==> f.supply == [] || op.first + op.num > Cap(3)
  {
    hide WellFormed, Tally, Leaves, PointerOutside, FileLookup, Cap, Distinct, Apart, AllocTree;
    ghost var n0, r0, h0 := f.nodes, f.root, f.height;
    ghost var taken, added;
    ok, taken, added := f.AllocBlocks(op.first, op.num);
    size' := Max(size, op.size);
    ExtendFits(n0, r0, h0, f.nodes, f.root, f.height, op.first + op.num - 1, size, size');
  }

  method ResizeFile(f: Inode, newSize: nat, size: nat) returns (outcome: Outcome)
    requires Fits(f, size)
    modifies f
    ensures outcome.Done? ==> Fits(f, newSize)
    ensures !outcome.NodeMissing? && (outcome.AssertionFailed? <==> old(f.Asserts(newSize, size, false)))
    ensures outcome.Done? ==> forall k: nat :: f.FileBlock(k) == if old(f.Removed(newSize, size, k)) then 0
      else old(f.FileBlock(k))
  {
    hide WellFormed, Tally, Leaves, PointerOutside, FileLookup, Cap, Distinct, Apart, Leftmost, Survives, OnlyIn;
    ghost var used, n0, r0, h0 := f.Used(), f.nodes, f.root, f.height;
    ghost var reaches := f.Reaches(newSize, size);
    OrderlyTruncation(f, newSize, size, false);
    if newSize > 0 {
      SizeInBlocks(newSize);
    }
    if f.root != 0 {
      SizeInBlocks(size);
      LastInTree(f, size);
      if newSize > 0 && reaches {
        KeptHeightReaches(newSize, f.height);
      }
      if newSize > 0 && !reaches {
        StillFits(f.nodes, f.root, f.height, f.LastBlock(size), (newSize - 1) / BLOCK_SIZE);
      }
    }
    ghost var gone, lost;
    outcome, gone, lost := f.TruncateBlocks(newSize, size, newSize, false);
    if outcome.Done? {
      PartApart(used, f.Used(), multiset(gone) + lost, f.supply);
    }
  }

  lemma PartApart(all: multiset<nat>, left: multiset<nat>, rest: multiset<nat>, supply: seq<nat>)
    requires all == left + rest && Apart(all, supply)
    ensures Apart(left, supply)
  {
    hide Apart;
    ApartParts(all, left, supply);
  }

  /** Any sequence of writes and size changes on a new file, up to the first operation that fails: as long as
      every allocation succeeds, no pointer lies behind the end of the file, the block count is right, no
      truncation meets a missing node, and only the kernel's assertion can end the run. */
  method RunFile(blocksFree: seq<nat>, ops: seq<FileOp>) returns (f: Inode, size: nat, end: RunEnd)
    requires Apart(multiset{}, blocksFree) && forall i :: 0 <= i < |ops| ==> Sensible(ops[i])
    ensures fresh(f) && (end.Completed? ==> Fits(f, size) && size == SizeAfter(0, ops))
    ensures end.NoSpace? ==> f.supply == [] || exists i ::
        0 <= i < |ops| && ops[i].Extend? && ops[i].first + ops[i].num > Cap(3)
    ensures end.Assertion? ==> exists i :: 0 <= i < |ops| && ops[i].Resize?
  {
    hide Apart, Fits;
    f := new Inode.Empty(blocksFree);
    size, end := 0, Completed;
    EmptyFits(f);
    var i := 0;
    while i < |ops|
      invariant i <= |ops| && Fits(f, size) && fresh(f) && size == SizeAfter(0, ops[..i])
    {
      SizeAfterOne(0, ops, i);
      match ops[i] {
        case Extend(_, _, _) =>
          var ok;
          ok, size := ExtendFile(f, ops[i], size);
          if !ok {
            return f, size, NoSpace;
          }
        case Resize(newSize) =>
          var outcome := ResizeFile(f, newSize, size);
          if outcome.AssertionFailed? {
            return f, size, Assertion;
          }
          size := newSize;
      }
      i := i + 1;
    }
    assert ops[..i] == ops;
  }

  lemma EmptyFits(f: Inode)
    requires f.Valid() && f.root == 0 && f.height == 0 && f.blocks == 0 && !f.eofBlocks && Apart(multiset{}, f.supply)
    ensures Fits(f, 0)
  {
    EmptyRoot(f.nodes, 0);
  }
}
