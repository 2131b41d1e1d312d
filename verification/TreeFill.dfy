/** Which blocks an allocation takes and where it puts them, as a function of the tree and of the blocks that
    the allocator will hand out. */
module TreeFill {
  import opened BlockTree
  import opened TreeShape
  import opened TreeTruncate

  /** Contents of a newly allocated metadata block. */
  function ZeroNode(): (r: seq<nat>)
    ensures |r| == FANOUT && forall i :: 0 <= i < FANOUT ==> r[i] == 0
  {
    seq(FANOUT, _ => 0)
  }

  /** Pointer i of block b set to d. */
  function WithPointer(n: Nodes, b: nat, i: nat, d: nat): Nodes
    requires b in n && i < |n[b]|
  {
    var node: seq<nat> := n[b][i := d];
    n[b := node]
  }

  /** A new metadata block d under pointer i of block b. */
  function WithNode(n: Nodes, b: nat, i: nat, d: nat): Nodes
    requires b in n && i < |n[b]|
  {
    var empty: seq<nat> := ZeroNode();
    var node: seq<nat> := n[b][i := d];
    n[d := empty][b := node]
  }

  /** A new metadata block d above root r. */
  function WithTop(n: Nodes, r: nat, d: nat): Nodes {
    var top: seq<nat> := ZeroNode()[0 := r];
    n[d := top]
  }

  /** Metadata, blocks still to come, data blocks added, flag for blocks behind the end of the file, success. */
  datatype Filling = Filling(nodes: Nodes, supply: seq<nat>, added: nat, eof: bool, ok: bool)

  /** r after `added` more data blocks. */
  function Also(added: nat, r: Filling): Filling {
    r.(added := added + r.added)
  }

  /** Fills the holes of [first..last] in the tree of height h under b (recursive_alloc_blocks). */
  function FillNode(n: Nodes, supply: seq<nat>, b: nat, h: nat, first: nat, last: nat): Filling
    requires h > 0
    decreases h, 1, 0
  {
    FillFrom(n, supply, b, h, first, last, Index(first, Cap(h - 1)))
  }

  /** The same from pointer i of b on. */
  function FillFrom(n: Nodes, supply: seq<nat>, b: nat, h: nat, first: nat, last: nat, i: nat): Filling
    requires h > 0
    decreases h, 0, if i <= Index(last, Cap(h - 1)) then Index(last, Cap(h - 1)) + 1 - i else 0
  {
    var c := Cap(h - 1);
    if Index(last, c) < i || b !in n || |n[b]| <= i then Filling(n, supply, 0, false, true)
    else if n[b][i] == 0 && supply == [] then Filling(n, supply, 0, h == 1, false)
    else if h == 1 then
      if n[b][i] != 0 then FillFrom(n, supply, b, h, first, last, i + 1)
      else Also(1, FillFrom(WithPointer(n, b, i, supply[0]), supply[1..], b, h, first, last, i + 1))
    else
      var hole := n[b][i] == 0;
      var r := if hole
               then FillNode(WithNode(n, b, i, supply[0]), supply[1..], supply[0], h - 1, SubFirst(first, c, i),
                 SubLast(last, c, i))
               else FillNode(n, supply, n[b][i], h - 1, SubFirst(first, c, i), SubLast(last, c, i));
      if !r.ok then r else Also(r.added, FillFrom(r.nodes, r.supply, b, h, first, last, i + 1))
  }

  // ---- One pass of the loop ---------------------------------------------------------------------------

  lemma LeafPass(n: Nodes, supply: seq<nat>, b: nat, first: nat, last: nat, i: nat)
    requires i <= Index(last, Cap(0)) && b in n && i < |n[b]|
    ensures var r := FillFrom(n, supply, b, 1, first, last, i);
      if n[b][i] != 0 then r == FillFrom(n, supply, b, 1, first, last, i + 1)
      else if supply == [] then r == Filling(n, supply, 0, true, false)
      else r == Also(1, FillFrom(WithPointer(n, b, i, supply[0]), supply[1..], b, 1, first, last, i + 1))
  {
  }

  lemma NodePass(n: Nodes, supply: seq<nat>, b: nat, h: nat, first: nat, last: nat, i: nat)
    requires h > 1 && i <= Index(last, Cap(h - 1)) && b in n && i < |n[b]|
    ensures var c := Cap(h - 1); var r := FillFrom(n, supply, b, h, first, last, i);
      if n[b][i] == 0 && supply == [] then r == Filling(n, supply, 0, false, false)
      else
        var q := if n[b][i] == 0
                 then FillNode(WithNode(n, b, i, supply[0]), supply[1..], supply[0], h - 1, SubFirst(first, c, i),
                   SubLast(last, c, i))
                 else FillNode(n, supply, n[b][i], h - 1, SubFirst(first, c, i), SubLast(last, c, i));
        r == if !q.ok then q else Also(q.added, FillFrom(q.nodes, q.supply, b, h, first, last, i + 1))
  {
  }

  lemma PassesOver(n: Nodes, supply: seq<nat>, b: nat, h: nat, first: nat, last: nat, i: nat)
    requires h > 0 && Index(last, Cap(h - 1)) < i
    ensures FillFrom(n, supply, b, h, first, last, i) == Filling(n, supply, 0, false, true)
  {
  }

  datatype Raising = Raising(nodes: Nodes, root: nat, height: nat, supply: seq<nat>, ok: bool)

  /** Adds levels until the tree has height h' (pmfs_increase_btree_height). */
  function RaiseTo(n: Nodes, r: nat, h: nat, h': nat, supply: seq<nat>): Raising
    decreases h' - h
  {
    if h' <= h then Raising(n, r, h, supply, true)
    else if supply == [] then Raising(n, r, h, supply, false)
    else RaiseTo(WithTop(n, r, supply[0]), supply[0], h + 1, h', supply[1..])
  }

  lemma RaisePass(n: Nodes, r: nat, h: nat, h': nat, supply: seq<nat>)
    ensures RaiseTo(n, r, h, h', supply) ==
      if h' <= h then Raising(n, r, h, supply, true)
      else if supply == [] then Raising(n, r, h, supply, false)
      else RaiseTo(WithTop(n, r, supply[0]), supply[0], h + 1, h', supply[1..])
  {
  }

  datatype Allocation = Allocation(nodes: Nodes, root: nat, height: nat, supply: seq<nat>, added: nat, eof: bool,
    ok: bool)

  /** An allocation of file blocks first to last (__pmfs_alloc_blocks). */
  function AllocTree(n: Nodes, r: nat, h: nat, supply: seq<nat>, first: nat, last: nat): Allocation {
    var h' := if last < Cap(h) then h else HeightOf(last);
    if h < h' && 3 < h' then Allocation(n, r, h, supply, 0, false, false)
    else if h' == 0 && r != 0 then Allocation(n, r, h, supply, 0, false, true)
    else if h' == 0 then
      if supply == [] then Allocation(n, r, h, supply, 0, false, false)
      else Allocation(n, supply[0], 0, supply[1..], 1, false, true)
    else
      var up := RaiseTo(n, r, h, h', supply);
      if !up.ok then Allocation(up.nodes, up.root, up.height, up.supply, 0, false, false)
      else
        var f := FillNode(up.nodes, up.supply, up.root, h', first, last);
        Allocation(f.nodes, up.root, up.height, f.supply, f.added, f.eof, f.ok)
  }
}
