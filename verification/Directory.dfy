/** Directories: lookup, insertion and removal over all blocks, refining a map from names to inode numbers. */
module Directory {
  import opened DirBlock
  import opened DirChange
  import opened DirRecord

  datatype Status = Done | Invalid | NoSpace

  // ---- One block -------------------------------------------------------------------------------------

  /** The names of a block. */
  ghost function Map(b: seq<Byte>): map<Name, nat> {
    if Good(b) then Names(b, 0) else map[]
  }

  /** A record for a name of n bytes fits at offset q into what the record at p leaves unused: an empty
      record is taken as it is; a live one keeps its header and its name. */
  ghost predicate Fits(b: seq<Byte>, p: nat, q: nat, n: nat)
    requires HasHeader(b, p)
  {
    && q % 4 == 0 && (if Ino(b, p) == 0 then q == p else p + 12 + NameLen(b, p) <= q)
    && q + 12 + n <= p + Len(b, p)
  }

  /** A name of n bytes fits nowhere in the block. */
  ghost predicate Full(b: seq<Byte>, n: nat) {
    forall p: nat, q: nat :: p < |b| && Reach(b, 0, p) && Legal(b, p) ==> !Fits(b, p, q, n)
  }

  /** The new record lies at the lowest possible offset in the first record with room, takes the rest of it,
      and nothing is written outside that record. */
  ghost predicate Placed(b: seq<Byte>, c: seq<Byte>, p: nat, q: nat, name: Name, ino: nat) {
    && |c| == |b| && p < |b| && Reach(b, 0, p) && Legal(b, p) && Fits(b, p, q, |name|)
    && (forall r: nat, t: nat :: r < |b| && Reach(b, 0, r) && Legal(b, r) && Fits(b, r, t, |name|) ==>
          p < r || (p == r && q <= t))
    && Reach(c, 0, q) && Legal(c, q) && Ino(c, q) == ino && NameAt(c, q) == name && q + Len(c, q) == p + Len(b, p)
    && (forall i :: 0 <= i < |b| && !(p <= i < p + Len(b, p)) ==> c[i] == b[i])
  }

  /** Records begin at multiples of 4. */
  lemma {:induction false} Aligned(b: seq<Byte>, o: nat, p: nat)
    requires o % 4 == 0 && Tiled(b, o) && Reach(b, o, p)
    ensures p % 4 == 0
    decreases |b| - o
  {
    hide Get, RecLen;
    if o != p {
      Aligned(b, o + Len(b, o), p);
    }
  }

  /** The code's test for room finds exactly the records into which the name fits, and its offset is the lowest. */
  lemma RoomIsFit(b: seq<Byte>, p: nat, n: nat)
    requires Legal(b, p) && p % 4 == 0
    ensures var q := if Ino(b, p) == 0 then p else p + RecLen(NameLen(b, p));
      && (HasRoom(b, p, RecLen(n)) ==> Fits(b, p, q, n))
      && forall t: nat :: Fits(b, p, t, n) ==> q <= t && HasRoom(b, p, RecLen(n))
  {
    hide Get;
  }

  /** Where a removed record was, a name of its length fits again. */
  lemma RemovedMakesRoom(b: seq<Byte>, prev: nat, p: nat)
    requires Good(b) && Reach(b, 0, prev) && prev < |b| && Legal(b, prev) && p == prev + Len(b, prev) < |b|
    requires Legal(b, p) && Ino(b, p) != 0
    ensures !Full(MergeAt(b, prev, p), NameLen(b, p))
  {
    hide Get, Names, Unique, MergeAt, RecLen, NameAt;
    var c, n := MergeAt(b, prev, p), NameLen(b, p);
    AtRecord(b, prev);
    MergeNames(b, prev, p, NameAt(b, p));
    MergeRefines(b, prev, p, NameAt(b, p));
    PrefixReach(b, c, 0, prev);
    ReachNext(c, 0, prev);
    Aligned(b, 0, prev);
    MergedFits(b, prev, p);
    assert Fits(c, prev, if Ino(b, prev) == 0 then prev else p, n);
  }

  lemma MergedFits(b: seq<Byte>, prev: nat, p: nat)
    requires prev < |b| && Legal(b, prev) && prev % 4 == 0 && p == prev + Len(b, prev) < |b| && Legal(b, p)
    requires |b| == BLOCK_BYTES
    ensures Fits(MergeAt(b, prev, p), prev, if Ino(b, prev) == 0 then prev else p, NameLen(b, p))
  {
    hide Get, SetLen;
    SetLenFields(b, prev, Len(b, prev) + Len(b, p));
  }

  /** Adding to the first record with room puts the name where Placed says. */
  lemma PlacedThere(b: seq<Byte>, p: nat, name: Name, ino: nat)
    requires Good(b) && Reach(b, 0, p) && p < |b| && Legal(b, p) && ValidName(name) && 0 < ino < Pow256(8)
    requires name !in Names(b, 0) && HasRoom(b, p, RecLen(|name|))
    requires forall r: nat :: r < p && Reach(b, 0, r) && Legal(b, r) ==> !HasRoom(b, r, RecLen(|name|))
    ensures !Full(b, |name|) && exists q :: Placed(b, AddAt(b, p, name, ino), p, q, name, ino)
  {
    hide Get, RecLen, NameAt, Names, Unique, AddAt, Fits, HasRoom;
    var c := AddAt(b, p, name, ino);
    var q := if Ino(b, p) == 0 then p else p + RecLen(NameLen(b, p));
    AtRecord(b, p);
    AddRefines(b, p, name, ino);
    assert name !in Names(b, p);
    AddedFields(b, p, name, ino);
    PrefixReach(b, c, 0, p);
    ReachNext(c, 0, p);
    ReachNext(c, 0, q);
    Aligned(b, 0, p);
    RoomIsFit(b, p, |name|);
    forall r: nat, t: nat | r < |b| && Reach(b, 0, r) && Legal(b, r) && Fits(b, r, t, |name|)
      ensures p < r || (p == r && q <= t)
    {
      Aligned(b, 0, r);
      RoomIsFit(b, r, |name|);
    }
    assert Placed(b, c, p, q, name, ino);
  }

  lemma AddedFields(b: seq<Byte>, p: nat, name: Name, ino: nat)
    requires Legal(b, p) && Tiled(b, p) && p < |b| && Unique(b, p) && name !in Names(b, p) && 1 <= |name| <= 255
    requires 0 < ino < Pow256(8) && HasRoom(b, p, RecLen(|name|)) && (Ino(b, p) != 0 ==> NameLen(b, p) >= 1)
    ensures Tiled(AddAt(b, p, name, ino), p) && Same(b, AddAt(b, p, name, ino), 0, p)
    ensures var c := AddAt(b, p, name, ino);
      var q := if Ino(b, p) == 0 then p else p + RecLen(NameLen(b, p));
      && HasHeader(c, p) && (q != p ==> q == p + Len(c, p)) && q + 12 + |name| <= p + Len(b, p)
      && Ino(c, q) == ino && NameLen(c, q) == |name| && NameAt(c, q) == name && q + Len(c, q) == p + Len(b, p)
      && (forall i :: 0 <= i < |b| && !(p <= i < p + Len(b, p)) ==> c[i] == b[i])
  {
    hide Get, SplitAt, ReuseAt, Names, Unique, NameAt;
    if Ino(b, p) != 0 {
      SplitNames(b, p, name, ino);
      SplitFields(b, p, name, ino);
    } else {
      ReuseNames(b, p, name, ino);
      ReuseFields(b, p, name, ino);
    }
  }

  lemma ClearedMakesRoom(b: seq<Byte>)
    requires Good(b) && Legal(b, 0)
    ensures !Full(ClearAt(b, 0), NameLen(b, 0))
  {
    hide Get, SetIno;
    var c := ClearAt(b, 0);
    assert 0 < Pow256(8);
    SetInoFields(b, 0, 0);
    assert Fits(c, 0, 0, NameLen(b, 0));
  }

  /** Offsets of records are ordered like the records. */
  lemma {:induction false} ReachOrder(b: seq<Byte>, o: nat, p: nat, q: nat)
    requires Tiled(b, o) && Reach(b, o, p) && Reach(b, o, q) && p < q
    ensures p < |b| && Legal(b, p) && p + Len(b, p) <= q
    decreases |b| - o
  {
    hide Get, RecLen;
    ReachTiled(b, o, p);
    ReachTiled(b, o, q);
    if o != p {
      ReachTiled(b, o + Len(b, o), p);
      ReachOrder(b, o + Len(b, o), p, q);
    } else {
      ReachTiled(b, o + Len(b, o), q);
    }
  }

  lemma {:induction false} NamesShort(b: seq<Byte>, o: nat, name: Name)
    requires Tiled(b, o) && name in Names(b, o)
    ensures |name| <= 255
    decreases |b| - o
  {
    hide Get, RecLen;
    if o < |b| && name in Names(b, o + Len(b, o)) {
      NamesShort(b, o + Len(b, o), name);
    }
  }

  /** Looks for a live record with the given name (pmfs_search_dirblock). */
  method SearchBlock(b: seq<Byte>, name: Name) returns (found: bool, res: nat, hasPrev: bool, prev: nat)
    requires Good(b)
    ensures found <==> name in Map(b)
    ensures found ==> Reach(b, 0, res) && res < |b| && Legal(b, res) && Ino(b, res) != 0 && NameAt(b, res) == name
    ensures found ==> Map(b)[name] == Ino(b, res)
    ensures found && hasPrev ==> Reach(b, 0, prev) && Legal(b, prev) && prev + Len(b, prev) == res
    ensures found && !hasPrev ==> res == 0
  {
    hide Get, RecLen, NameAt, Names, Unique;
    hasPrev, prev, res := false, 0, 0;
    var de := 0;
    while de < |b|
      invariant de <= |b| && Reach(b, 0, de) && Tiled(b, de) && Unique(b, de)
      invariant name in Names(b, 0) <==> name in Names(b, de)
      invariant name in Names(b, de) ==> Names(b, 0)[name] == Names(b, de)[name]
      invariant if hasPrev then Reach(b, 0, prev) && Legal(b, prev) && prev + Len(b, prev) == de else de == 0
      decreases |b| - de
    {
      ReachNext(b, 0, de);
      LastRecord(b, de, de + Len(b, de));
      if de + |name| <= |b| && NameLen(b, de) == |name| && Ino(b, de) != 0 && NameAt(b, de) == name {
        return true, de, hasPrev, prev;
      }
      NameLength(b, de);
      hasPrev, prev := true, de;
      de := de + Len(b, de);
    }
    NoNames(b);
    found := false;
  }

  lemma NoNames(b: seq<Byte>)
    ensures Names(b, |b|) == map[]
  {
  }

  lemma NameLength(b: seq<Byte>, p: nat)
    requires Legal(b, p)
    ensures |NameAt(b, p)| == NameLen(b, p) && p + |NameAt(b, p)| <= |b|
  {
  }

  /** Puts a name into the first record with room, or finds that no record has any (pmfs_add_dirent_to_buf). */
  method AddToBlock(b: seq<Byte>, name: Name, ino: nat) returns (ok: bool, c: seq<Byte>)
    requires Good(b) && ValidName(name) && 0 < ino < Pow256(8) && name !in Map(b)
    ensures ok ==> Good(c) && Map(c) == Map(b)[name := ino]
    ensures ok <==> !Full(b, |name|)
    ensures ok ==> exists p, q :: Placed(b, c, p, q, name, ino)
  {
    hide Get, NameAt, Names, Unique, AddAt, Fits, HasRoom, RecLen, Placed;
    var reclen := RecLen(|name|);
    var top := BLOCK_BYTES - reclen;
    var de := 0;
    c := b;
    while de <= top
      invariant de <= |b| && Reach(b, 0, de) && Tiled(b, de)
      invariant forall p :: 0 <= p < de && Reach(b, 0, p) && Legal(b, p) ==> !HasRoom(b, p, reclen)
      decreases |b| - de
    {
      ReachNext(b, 0, de);
      if HasRoom(b, de, reclen) {
        AddRefines(b, de, name, ino);
        PlacedThere(b, de, name, ino);
        return true, AddAt(b, de, name, ino);
      }
      forall p | 0 <= p < de + Len(b, de) && Reach(b, 0, p) && Legal(b, p) ensures !HasRoom(b, p, reclen) {
        if de < p {
          ReachOrder(b, 0, de, p);
        }
      }
      de := de + Len(b, de);
    }
    forall p: nat, q: nat | p < |b| && Reach(b, 0, p) && Legal(b, p) ensures !Fits(b, p, q, |name|) {
      if p > top {
        NoRoomAtEnd(b, p, reclen);
      }
      Aligned(b, 0, p);
      RoomIsFit(b, p, |name|);
    }
    ok := false;
  }

  /** A record behind the last possible offset is too short. */
  lemma NoRoomAtEnd(b: seq<Byte>, p: nat, reclen: nat)
    requires Legal(b, p) && p + reclen > |b|
    ensures !HasRoom(b, p, reclen)
  {
    hide Get;
  }

  // ---- All blocks ------------------------------------------------------------------------------------

  /** No two maps have a name in common. */
  ghost predicate Disjoint(ms: seq<map<Name, nat>>) {
    forall i, j :: 0 <= i < j < |ms| ==> ms[i].Keys !! ms[j].Keys
  }

  /** The maps together are the map m. */
  ghost predicate MapsDenote(ms: seq<map<Name, nat>>, m: map<Name, nat>) {
    && (forall n :: n in m ==> exists i :: 0 <= i < |ms| && n in ms[i])
    && forall i, n :: 0 <= i < |ms| && n in ms[i] ==> n in m && m[n] == ms[i][n]
  }

  ghost function Maps(blocks: seq<seq<Byte>>): (ms: seq<map<Name, nat>>)
    ensures |ms| == |blocks| && forall i :: 0 <= i < |ms| ==> ms[i] == Map(blocks[i])
  {
    seq(|blocks|, i requires 0 <= i < |blocks| => Map(blocks[i]))
  }

  /** Every block is whole, and no two of them have a name in common. */
  ghost predicate Whole(blocks: seq<seq<Byte>>) {
    (forall i :: 0 <= i < |blocks| ==> Good(blocks[i])) && Disjoint(Maps(blocks))
  }

  /** The blocks hold exactly the map m. */
  ghost predicate Denotes(blocks: seq<seq<Byte>>, m: map<Name, nat>) {
    MapsDenote(Maps(blocks), m)
  }

  function With(m: map<Name, nat>, name: Name, ino: nat): map<Name, nat> {
    m[name := ino]
  }

  lemma DisjointUpdate(ms: seq<map<Name, nat>>, i: nat, x: map<Name, nat>, name: Name)
    requires Disjoint(ms) && i < |ms| && x.Keys <= ms[i].Keys + {name}
    requires forall j :: 0 <= j < |ms| ==> name !in ms[j]
    ensures Disjoint(ms[i := x])
  {
  }

  lemma MapsInsert(ms: seq<map<Name, nat>>, m: map<Name, nat>, i: nat, name: Name, ino: nat)
    requires Disjoint(ms) && MapsDenote(ms, m) && i < |ms| && name !in m
    ensures var ms' := ms[i := With(ms[i], name, ino)]; Disjoint(ms') && MapsDenote(ms', m[name := ino])
  {
    hide Disjoint;
    var ms', m' := ms[i := With(ms[i], name, ino)], m[name := ino];
    DisjointUpdate(ms, i, With(ms[i], name, ino), name);
    forall n | n in m' ensures exists j :: 0 <= j < |ms'| && n in ms'[j] {
      if n == name {
        assert n in ms'[i];
      } else {
        var j :| 0 <= j < |ms| && n in ms[j];
        assert n in ms'[j];
      }
    }
  }

  lemma MapsRemove(ms: seq<map<Name, nat>>, m: map<Name, nat>, i: nat, name: Name)
    requires Disjoint(ms) && MapsDenote(ms, m) && i < |ms| && name in ms[i]
    ensures var ms' := ms[i := ms[i] - {name}]; Disjoint(ms') && MapsDenote(ms', m - {name})
  {
    var ms', m' := ms[i := ms[i] - {name}], m - {name};
    forall n | n in m' ensures exists j :: 0 <= j < |ms'| && n in ms'[j] {
      var j :| 0 <= j < |ms| && n in ms[j];
      assert n in ms'[j];
    }
    forall j, n | 0 <= j < |ms'| && n in ms'[j] ensures n in m' && m'[n] == ms'[j][n] {
      assert n in ms[j];
    }
  }

  lemma MapsAppend(ms: seq<map<Name, nat>>, m: map<Name, nat>, name: Name, ino: nat)
    requires Disjoint(ms) && MapsDenote(ms, m) && name !in m
    ensures var ms' := ms + [map[name := ino]]; Disjoint(ms') && MapsDenote(ms', m[name := ino])
  {
    var ms', m' := ms + [map[name := ino]], m[name := ino];
    forall n | n in m' ensures exists j :: 0 <= j < |ms'| && n in ms'[j] {
      if n == name {
        assert n in ms'[|ms|];
      } else {
        var j :| 0 <= j < |ms| && n in ms[j];
        assert n in ms'[j];
      }
    }
    forall j, n | 0 <= j < |ms'| && n in ms'[j] ensures n in m' && m'[n] == ms'[j][n] {
      if j < |ms| {
        assert ms'[j] == ms[j];
      }
    }
    forall i, j | 0 <= i < j < |ms'| ensures ms'[i].Keys !! ms'[j].Keys {
      assert ms'[i] == ms[i];
      if j < |ms| {
        assert ms'[j] == ms[j];
      }
    }
  }

  lemma InsertedInBlock(blocks: seq<seq<Byte>>, m: map<Name, nat>, i: nat, c: seq<Byte>, name: Name, ino: nat)
    requires Whole(blocks) && Denotes(blocks, m) && i < |blocks| && name !in m
    requires Good(c) && Map(c) == Map(blocks[i])[name := ino]
    ensures Whole(blocks[i := c]) && Denotes(blocks[i := c], m[name := ino])
  {
    hide Good, Map, Disjoint, MapsDenote;
    MapsInsert(Maps(blocks), m, i, name, ino);
    assert Maps(blocks[i := c]) == Maps(blocks)[i := Map(c)];
  }

  lemma RemovedFromBlock(blocks: seq<seq<Byte>>, m: map<Name, nat>, i: nat, c: seq<Byte>, name: Name)
    requires Whole(blocks) && Denotes(blocks, m) && i < |blocks| && name in Map(blocks[i])
    requires Good(c) && Map(c) == Map(blocks[i]) - {name}
    ensures Whole(blocks[i := c]) && Denotes(blocks[i := c], m - {name})
  {
    hide Good, Map, Disjoint, MapsDenote;
    MapsRemove(Maps(blocks), m, i, name);
    assert Maps(blocks[i := c]) == Maps(blocks)[i := Map(c)];
  }

  /** A new block for a name (the record covers the whole block). */
  lemma AppendedBlock(blocks: seq<seq<Byte>>, m: map<Name, nat>, c: seq<Byte>, name: Name, ino: nat)
    requires Whole(blocks) && Denotes(blocks, m) && name !in m && Good(c) && Map(c) == map[name := ino]
    ensures Whole(blocks + [c]) && Denotes(blocks + [c], m[name := ino])
  {
    hide Good, Map, Disjoint, MapsDenote;
    MapsAppend(Maps(blocks), m, name, ino);
    assert Maps(blocks + [c]) == Maps(blocks) + [Map(c)];
  }

  /** A fresh block: one empty record over all of it, whatever else the bytes hold. */
  function FreshBlock(junk: seq<Byte>): (b: seq<Byte>)
    requires |junk| == BLOCK_BYTES
    ensures |b| == BLOCK_BYTES
  {
    SetLen(SetIno(junk, 0, 0), 0, BLOCK_BYTES)
  }

  lemma FreshIsEmpty(junk: seq<Byte>)
    requires |junk| == BLOCK_BYTES
    ensures var b := FreshBlock(junk);
      Legal(b, 0) && Good(b) && Map(b) == map[] && Ino(b, 0) == 0 && Len(b, 0) == BLOCK_BYTES
  {
    hide Get, SetLen, SetIno;
    assert 0 < Pow256(8);
    var b := FreshBlock(junk);
    SetInoFields(junk, 0, 0);
    SetLenFields(SetIno(junk, 0, 0), 0, BLOCK_BYTES);
    assert NameLen(b, 0) <= 255;
    LastRecord(b, 0, BLOCK_BYTES);
  }

  /** "." and "..", for which the search begins with the first block only; the byte behind a "." of
      length 1 is the terminator. */
  predicate DotName(name: Name) {
    1 <= |name| <= 2 && name[0] == 46 && (|name| == 1 || name[1] == 46 || name[1] == 0)
  }

  /** Block i has taken the name, because it fits in none of the blocks in front; the other blocks are as
      they were. A block that was not there before is one more block than before. */
  ghost predicate PlacedIn(was: seq<seq<Byte>>, now: seq<seq<Byte>>, i: nat, name: Name, ino: nat) {
    && i < |now| && i <= |was| && (forall j :: 0 <= j < i ==> Full(was[j], |name|))
    && if i == |was| then now == was + [now[i]]
       else now == was[i := now[i]] && exists p, q :: Placed(was[i], now[i], p, q, name, ino)
  }

  /** Block i has lost the name and has room for it again; the other blocks are as they were. */
  ghost predicate RemovedIn(was: seq<seq<Byte>>, now: seq<seq<Byte>>, i: nat, name: Name) {
    && i < |now| == |was| && now == was[i := now[i]] && name in Map(was[i]) && Map(now[i]) == Map(was[i]) - {name}
    && !Full(now[i], |name|)
  }

  class Dir {
    var blocks: seq<seq<Byte>>
    var startLookup: nat
    ghost var entries: map<Name, nat>

    ghost predicate Valid()
      reads this
    {
      |blocks| > 0 && Whole(blocks) && Denotes(blocks, entries)
    }

    /** Inode number of a name, or 0 (pmfs_inode_by_name). The search starts at the block of the last hit
        and wraps around; for "." and ".." it takes the first block, then the remaining ones. */
    method Lookup(name: Name) returns (ino: nat)
      requires Valid()
      modifies this`startLookup
      ensures ino == if name in entries then entries[name] else 0
    {
      hide Good, Map, Reach, Get, Whole, Denotes;
      if |name| > 255 {
        TooLong(blocks, entries, name);
        return 0;
      }
      var block: nat, nblocks: nat, start: nat := 0, 1, 0;
      if !DotName(name) {
        nblocks := |blocks|;
        start := if startLookup >= nblocks then 0 else startLookup;
        block := start;
      }
      var again := true;
      while again
        invariant again ==> block < nblocks <= |blocks| && start < nblocks
        invariant again ==> forall j :: 0 <= j < nblocks && Between(start, j, block, nblocks) ==>
          name !in Map(blocks[j])
        invariant !again ==> forall j :: 0 <= j < |blocks| ==> name !in Map(blocks[j])
        decreases again, |blocks| - nblocks
      {
        while true
          invariant block < nblocks <= |blocks| && start < nblocks
          invariant forall j :: 0 <= j < nblocks && Between(start, j, block, nblocks) ==> name !in Map(blocks[j])
          decreases if block >= start then nblocks - block + start else start - block
        {
          GoodBlock(blocks, block);
          var found, res, hasPrev, prev := SearchBlock(blocks[block], name);
          if found {
            FoundIn(blocks, entries, block, name);
            startLookup := block;
            return Ino(blocks[block], res);
          }
          ghost var was := block;
          block := if block + 1 >= nblocks then 0 else block + 1;
          if block == start {
            assert forall j :: 0 <= j < nblocks ==> j == was || Between(start, j, was, nblocks);
            break;
          }
          assert forall j :: Between(start, j, block, nblocks) && 0 <= j < nblocks ==>
            j == was || Between(start, j, was, nblocks);
        }
        block := nblocks;
        nblocks := |blocks|;
        if block < nblocks {
          start := 0;
        } else {
          again := false;
        }
      }
      NowhereFound(blocks, entries, name);
      ino := 0;
    }

    /** Adds a name (pmfs_add_entry). A new block is allocated only if no record of any block has room. */
    method AddEntry(name: Name, ino: nat, allocOk: bool, junk: seq<Byte>) returns (status: Status)
      requires Valid() && |name| <= 255 && name !in entries && 0 < ino < Pow256(8) && |junk| == BLOCK_BYTES
      modifies this`blocks, this`entries
      ensures Valid()
      ensures status == Invalid <==> name == []
      ensures status == Done ==> entries == old(entries)[name := ino]
      ensures status != Done ==> blocks == old(blocks) && entries == old(entries)
      ensures status == NoSpace ==> !allocOk
      ensures status == NoSpace ==> forall i :: 0 <= i < |old(blocks)| ==> Full(old(blocks)[i], |name|)
      ensures status == Done ==> exists i :: 0 <= i < |blocks| && PlacedIn(old(blocks), blocks, i, name, ino)
    {
      hide Good, Map, Full, FreshBlock, Whole, Denotes, Get, Placed;
      if |name| == 0 {
        return Invalid;
      }
      var block := 0;
      while block < |blocks|
        invariant 0 <= block <= |blocks| && blocks == old(blocks) && entries == old(entries)
        invariant forall i :: 0 <= i < block ==> Full(blocks[i], |name|)
      {
        NotHere(blocks, entries, block, name);
        var ok, c := AddToBlock(blocks[block], name, ino);
        if ok {
          InsertedInBlock(blocks, entries, block, c, name, ino);
          blocks := blocks[block := c];
          entries := entries[name := ino];
          assert PlacedIn(old(blocks), blocks, block, name, ino);
          return Done;
        }
        block := block + 1;
      }
      if !allocOk {
        return NoSpace;
      }
      var fresh_ := FreshBlock(junk);
      FreshIsEmpty(junk);
      var c := AddedFresh(fresh_, name, ino);
      AppendedBlock(blocks, entries, c, name, ino);
      blocks := blocks + [c];
      entries := entries[name := ino];
      assert PlacedIn(old(blocks), blocks, |old(blocks)|, name, ino);
      status := Done;
    }

    /** Removes a name (pmfs_remove_entry). */
    method RemoveEntry(name: Name) returns (status: Status)
      requires Valid()
      modifies this`blocks, this`entries
      ensures Valid()
      ensures status == Done <==> name in old(entries)
      ensures status == Done ==> entries == old(entries) - {name}
      ensures status != Done ==> blocks == old(blocks) && entries == old(entries)
      ensures status == Done ==> |blocks| == |old(blocks)| && exists i ::
        0 <= i < |blocks| && RemovedIn(old(blocks), blocks, i, name)
    {
      hide Good, Map, Reach, MergeAt, ClearAt, Get, Full;
      if |name| == 0 {
        NotEmpty(blocks, entries, name);
        return Invalid;
      }
      var block := 0;
      while block < |blocks|
        invariant 0 <= block <= |blocks| && blocks == old(blocks) && entries == old(entries)
        invariant forall j :: 0 <= j < block ==> name !in Map(blocks[j])
      {
        var found, res, hasPrev, prev := SearchBlock(blocks[block], name);
        if found {
          ghost var b := blocks[block];
          var c := blocks[block];
          if hasPrev {
            PrevRecord(b, prev, res, name);
            c := MergeAt(blocks[block], prev, res);
          } else {
            ClearedFirst(b, name);
            c := ClearAt(blocks[block], res);
          }
          RemovedFromBlock(blocks, entries, block, c, name);
          blocks := blocks[block := c];
          entries := entries - {name};
          assert RemovedIn(old(blocks), blocks, block, name);
          return Done;
        }
        block := block + 1;
      }
      status := Invalid;
    }
  }

  /** Block j comes before `block` when counting from start and wrapping around. */
  ghost predicate Between(start: nat, j: int, block: nat, n: nat) {
    if start <= block then start <= j < block else start <= j < n || 0 <= j < block
  }

  lemma TooLong(blocks: seq<seq<Byte>>, m: map<Name, nat>, name: Name)
    requires Whole(blocks) && Denotes(blocks, m) && |name| > 255
    ensures name !in m
  {
    hide Names;
    if name in m {
      var i :| 0 <= i < |Maps(blocks)| && name in Maps(blocks)[i];
      NamesShort(blocks[i], 0, name);
    }
  }

  lemma NotEmpty(blocks: seq<seq<Byte>>, m: map<Name, nat>, name: Name)
    requires Whole(blocks) && Denotes(blocks, m) && name == []
    ensures name !in m
  {
  }

  lemma GoodBlock(blocks: seq<seq<Byte>>, i: nat)
    requires Whole(blocks) && i < |blocks|
    ensures Good(blocks[i])
  {
  }

  lemma FoundIn(blocks: seq<seq<Byte>>, m: map<Name, nat>, i: nat, name: Name)
    requires Whole(blocks) && Denotes(blocks, m) && i < |blocks| && name in Map(blocks[i])
    ensures name in m && m[name] == Map(blocks[i])[name]
  {
    assert name in Maps(blocks)[i];
  }

  lemma NowhereFound(blocks: seq<seq<Byte>>, m: map<Name, nat>, name: Name)
    requires Denotes(blocks, m) && forall j :: 0 <= j < |blocks| ==> name !in Map(blocks[j])
    ensures name !in m
  {
  }

  lemma NotHere(blocks: seq<seq<Byte>>, m: map<Name, nat>, i: nat, name: Name)
    requires Whole(blocks) && Denotes(blocks, m) && i < |blocks| && name !in m
    ensures name !in Map(blocks[i]) && Good(blocks[i])
  {
    assert Maps(blocks)[i] == Map(blocks[i]);
  }

  /** The first record of a new block takes the name, without searching. */
  method AddedFresh(b: seq<Byte>, name: Name, ino: nat) returns (c: seq<Byte>)
    requires Good(b) && Legal(b, 0) && Ino(b, 0) == 0 && Len(b, 0) == BLOCK_BYTES && Map(b) == map[]
    requires ValidName(name) && 0 < ino < Pow256(8)
    ensures Good(c) && Map(c) == map[name := ino]
  {
    hide Get, AddAt;
    AddRefines(b, 0, name, ino);
    c := AddAt(b, 0, name, ino);
  }

  lemma PrevRecord(b: seq<Byte>, prev: nat, p: nat, name: Name)
    requires Good(b) && Reach(b, 0, prev) && Legal(b, prev) && prev + Len(b, prev) == p && p < |b|
    requires Legal(b, p) && Ino(b, p) != 0 && NameAt(b, p) == name
    ensures Good(MergeAt(b, prev, p)) && Map(MergeAt(b, prev, p)) == Map(b) - {name}
    ensures !Full(MergeAt(b, prev, p), |name|)
  {
    hide Get, MergeAt, Names, Full, Unique;
    MergeRefines(b, prev, p, name);
    NameLength(b, p);
    RemovedMakesRoom(b, prev, p);
  }

  lemma ClearedFirst(b: seq<Byte>, name: Name)
    requires Good(b) && Legal(b, 0) && Ino(b, 0) != 0 && NameAt(b, 0) == name
    ensures Good(ClearAt(b, 0)) && Map(ClearAt(b, 0)) == Map(b) - {name}
    ensures !Full(ClearAt(b, 0), |name|)
  {
    hide Get, ClearAt, Names, Full, Unique;
    ClearRefines(b, name);
    NameLength(b, 0);
    ClearedMakesRoom(b);
  }
}
