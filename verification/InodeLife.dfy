/** The life of one inode record: which records the crawl after a crash takes for inodes, and with which
    trees. A record changes only in transactions, so those that a crash leaves are the ones between the
    steps below. */
module InodeLife {
  import opened BlockAllocator
  import opened BlockTree
  import opened Rebuild

  /** File types whose inodes are released when the last name and the last user are gone. */
  const DIRECTORY: nat := 4
  const REGULAR: nat := 8
  const SYMLINK: nat := 10

  /** A 32-bit clock. */
  const CLOCK: nat := 0x1_0000_0000

  datatype Step =
    | Create(kind: nat, perm: nat)
    | SetLinks(links: nat)
    | SetMode(perm: nat)
    | SetTree(root: nat, height: nat, t: BlockType)
    | Evict(now: nat, kept: bool)

  predicate ValidStep(st: Step) {
    match st
    case Create(kind, perm) => 1 <= kind < 16 && perm < 4096
    case SetMode(perm) => perm < 4096
    case _ => true
  }

  // ---- What the code writes ----------------------------------------------------------------------------

  /** A record of a new page of the inode table, which is cleared when it is allocated. */
  function Blank(t: BlockType): Record {
    Record(0, 0, 0, 0, 0, t)
  }

  /** One step on the record. A new inode takes it only if the search finds it free (pmfs_new_inode); eviction
      releases it when no name is left (pmfs_evict_inode, pmfs_free_inode), unless the inode is kept because it
      is append-only or immutable, or because the log has no room. */
  function Write(r: Record, st: Step): Record {
    match st
    case Create(kind, perm) =>
      if r.links == 0 && (r.mode == 0 || r.dtime != 0)
      then r.(t := Small, height := 0, dtime := 0, mode := kind * 4096 + perm, links := 1) else r
    case SetLinks(links) => r.(links := links)
    case SetMode(perm) => r.(mode := r.mode / 4096 * 4096 + perm)
    case SetTree(root, height, t) => r.(root := root, height := height, t := t)
    case Evict(now, kept) =>
      if r.links == 0 && r.mode / 4096 in {DIRECTORY, REGULAR, SYMLINK} && !kept
      then r.(root := 0, dtime := now % CLOCK) else r
  }

  function Written(steps: seq<Step>, t: BlockType): Record {
    if steps == [] then Blank(t) else Write(Written(steps[..|steps| - 1], t), steps[|steps| - 1])
  }

  // ---- What there is -------------------------------------------------------------------------------------

  /** Whom the record belongs to: nobody yet, an inode, or nobody any more since the clock showed `stamp`. */
  datatype Owner = Nobody | Inode(kind: nat, links: nat, root: nat, height: nat, t: BlockType) | Released(stamp: nat)

  /** An inode exists from its creation until it is let go of with no name left. */
  function Follow(o: Owner, st: Step): Owner {
    match st
    case Create(kind, _) => if o.Inode? || o == Released(0) then o else Inode(kind, 1, 0, 0, Small)
    case SetLinks(links) => if o.Inode? then o.(links := links) else o
    case SetMode(_) => o
    case SetTree(root, height, t) => if o.Inode? then o.(root := root, height := height, t := t) else o
    case Evict(now, kept) =>
      if o.Inode? && o.links == 0 && o.kind in {DIRECTORY, REGULAR, SYMLINK} && !kept
      then Released(now % CLOCK) else o
  }

  function OwnerAfter(steps: seq<Step>): Owner {
    if steps == [] then Nobody else Follow(OwnerAfter(steps[..|steps| - 1]), steps[|steps| - 1])
  }

  /** All steps but creation are made by users of the inode. */
  ghost predicate Lived(steps: seq<Step>) {
    steps == [] || var was, st := steps[..|steps| - 1], steps[|steps| - 1];
      Lived(was) && ValidStep(st) && (st.Create? || OwnerAfter(was).Inode?)
  }

  /** The fields tell the owner at every moment. A record is taken for an inode exactly while it belongs to one,
      also while no name refers to it any more; the one exception, a record released at 0 on the clock, has no
      tree and is lost for new inodes. */
  lemma {:induction false} FieldsTellOwner(steps: seq<Step>, t: BlockType)
    requires Lived(steps)
    ensures var r, o := Written(steps, t), OwnerAfter(steps);
      && (InUse(r) <==> o.Inode? || o == Released(0))
      && if o.Inode?
         then r.links == o.links && r.mode / 4096 == o.kind && r.root == o.root && r.height == o.height && r.t == o.t
         else r.links == 0 && r.root == 0
    ensures var r, o := Written(steps, t), OwnerAfter(steps);
      && (o.Nobody? ==> r.mode == 0) && (o.Inode? ==> o.kind >= 1 && r.dtime == 0)
      && (o.Released? ==> r.mode != 0 && r.dtime == o.stamp)
  {
    if steps != [] {
      FieldsTellOwner(steps[..|steps| - 1], t);
      var r, st := Written(steps[..|steps| - 1], t), steps[|steps| - 1];
      if st.Create? {
        KindOfMode(st.kind, st.perm);
      } else if st.SetMode? {
        KindOfMode(r.mode / 4096, st.perm);
      }
    }
  }

  lemma KindOfMode(kind: nat, perm: nat)
    requires perm < 4096
    ensures (kind * 4096 + perm) / 4096 == kind
  {
  }

  // ---- The whole table ---------------------------------------------------------------------------------------

  /** Every record of the table is what its steps have made of it. */
  ghost predicate AllLived(inodes: map<nat, seq<Record>>, lives: map<nat, seq<seq<Step>>>, t: BlockType) {
    && inodes.Keys == lives.Keys
    && (forall p :: p in lives ==> |inodes[p]| == |lives[p]|)
    && forall p, i :: p in lives && 0 <= i < |lives[p]| ==>
         Lived(lives[p][i]) && inodes[p][i] == Written(lives[p][i], t)
  }

  /** Block y is in the tree of an inode that exists. */
  ghost predicate Owned(nodes: Nodes, lives: map<nat, seq<seq<Step>>>, p: nat, y: nat) {
    p in lives && exists i :: 0 <= i < |lives[p]| && TreeOwns(nodes, OwnerAfter(lives[p][i]), y)
  }

  ghost predicate TreeOwns(nodes: Nodes, o: Owner, y: nat) {
    o.Inode? && TreeHolds(nodes, o.root, o.height, o.t, y)
  }

  /** The crawl keeps exactly the blocks of the table and of the inodes that exist, named or not. */
  lemma CrawledIsOwned(nodes: Nodes, inodes: map<nat, seq<Record>>, lives: map<nat, seq<seq<Step>>>, t: BlockType,
        table: nat, h: nat, y: nat)
    requires AllLived(inodes, lives, t)
    ensures Reachable(nodes, inodes, table, h, t, y) <==>
      || (h > 0 && y in Tally(nodes, table, h - 1))
      || exists p :: TablePage(nodes, table, h, p) && (PageHolds(p, t, y) || Owned(nodes, lives, p, y))
  {
    hide TablePage, Tally, Lived, Written, OwnerAfter, TreeHolds, PageHolds;
    forall p ensures InInodeTree(nodes, inodes, p, y) <==> Owned(nodes, lives, p, y) {
      if p in lives {
        forall i | 0 <= i < |lives[p]|
          ensures var r := inodes[p][i];
            InUse(r) && TreeHolds(nodes, r.root, r.height, r.t, y) <==> TreeOwns(nodes, OwnerAfter(lives[p][i]), y)
        {
          FieldsTellOwner(lives[p][i], t);
          HoleHolds(nodes, inodes[p][i].height, inodes[p][i].t, y);
        }
      }
    }
  }
}
