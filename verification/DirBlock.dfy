/** A directory block: legal records tile it exactly and denote a map from names to inode numbers. */
module DirBlock {
  import opened DirRecord

  /** pmfs_check_dir_entry. */
  predicate Legal(b: seq<Byte>, o: nat) {
    && o + 12 <= |b| <= 4096
    && Len(b, o) >= RecLen(1) && Len(b, o) % 4 == 0 && Len(b, o) >= RecLen(NameLen(b, o)) && o + Len(b, o) <= |b|
  }

  /** Legal records tile the block from offset o to its end. */
  ghost predicate Tiled(b: seq<Byte>, o: nat)
    decreases |b| - o
  {
    o == |b| || (o < |b| && Legal(b, o) && Tiled(b, o + Len(b, o)))
  }

  /** p is the offset of a record, or the end, when walking from o. */
  ghost predicate Reach(b: seq<Byte>, o: nat, p: nat)
    decreases |b| - o
  {
    o == p || (o < |b| && Legal(b, o) && Reach(b, o + Len(b, o), p))
  }

  /** The names of the records from offset o on. */
  ghost function Names(b: seq<Byte>, o: nat): map<Name, nat>
    requires Tiled(b, o)
    decreases |b| - o
  {
    if o == |b| then map[]
    else
      var rest := Names(b, o + Len(b, o));
      if Ino(b, o) == 0 then rest else rest[NameAt(b, o) := Ino(b, o)]
  }

  /** No name occurs twice. */
  ghost predicate Unique(b: seq<Byte>, o: nat)
    requires Tiled(b, o)
    decreases |b| - o
  {
    o == |b| || (Unique(b, o + Len(b, o)) && (Ino(b, o) != 0 ==> NameAt(b, o) !in Names(b, o + Len(b, o))))
  }

  lemma {:induction false} ReachTiled(b: seq<Byte>, o: nat, p: nat)
    requires Tiled(b, o) && Reach(b, o, p)
    ensures o <= p <= |b| && Tiled(b, p) && Names(b, p).Keys <= Names(b, o).Keys && (Unique(b, o) ==> Unique(b, p))
    decreases |b| - o
  {
    if o != p {
      ReachTiled(b, o + Len(b, o), p);
    }
  }

  lemma {:induction false} ReachNext(b: seq<Byte>, o: nat, p: nat)
    requires Tiled(b, o) && Reach(b, o, p) && p < |b|
    ensures Legal(b, p) && Reach(b, o, p + Len(b, p))
    decreases |b| - o
  {
    if o != p {
      ReachNext(b, o + Len(b, o), p);
    } else {
      assert Reach(b, o + Len(b, o), p + Len(b, p));
    }
  }

  /** What is stored from offset o on depends only on the bytes from there on. */
  lemma {:induction false} SuffixSame(b: seq<Byte>, c: seq<Byte>, o: nat)
    requires Tiled(b, o) && Same(b, c, o, |b|)
    ensures Tiled(c, o) && Names(c, o) == Names(b, o) && (Unique(c, o) <==> Unique(b, o))
    decreases |b| - o
  {
    hide Get;
    if o < |b| {
      HeaderSame(b, c, o);
      NameSame(b, c, o);
      SuffixSame(b, c, o + Len(b, o));
    }
  }

  /** A record in front of offset p, when the bytes up to p are unchanged. */
  lemma PrefixRecord(b: seq<Byte>, c: seq<Byte>, o: nat, p: nat)
    requires Legal(b, o) && o + Len(b, o) <= p && Same(b, c, o, p)
    ensures Legal(c, o) && Len(c, o) == Len(b, o) && Ino(c, o) == Ino(b, o) && NameAt(c, o) == NameAt(b, o)
  {
    HeaderSame(b, c, o);
    NameSame(b, c, o);
  }

  lemma {:induction false} PrefixReach(b: seq<Byte>, c: seq<Byte>, o: nat, p: nat)
    requires Tiled(b, o) && Reach(b, o, p) && Same(b, c, o, p) && Tiled(c, p)
    ensures Tiled(c, o) && Reach(c, o, p)
    decreases |b| - o
  {
    hide Get, NameAt, RecLen;
    if o != p {
      ReachTiled(b, o, p);
      ReachTiled(b, o + Len(b, o), p);
      PrefixRecord(b, c, o, p);
      PrefixReach(b, c, o + Len(b, o), p);
    }
  }

  /** Nothing changes in front of p: if the names from p on stay, all names stay. */
  lemma {:induction false} PrefixKeeps(b: seq<Byte>, c: seq<Byte>, o: nat, p: nat)
    requires Tiled(b, o) && Reach(b, o, p) && Same(b, c, o, p) && Tiled(c, p) && Tiled(b, p)
    requires Names(c, p) == Names(b, p) && (Unique(c, p) <==> Unique(b, p))
    ensures Tiled(c, o) && Names(c, o) == Names(b, o) && (Unique(c, o) <==> Unique(b, o))
    decreases |b| - o
  {
    hide Get, NameAt, Legal, RecLen, Same, Len, Ino, Names, Unique;
    PrefixReach(b, c, o, p);
    if o != p {
      RestOf(b, c, o, p);
      PrefixKeeps(b, c, o + Len(b, o), p);
      KeepStep(b, c, o);
    }
  }

  lemma KeepStep(b: seq<Byte>, c: seq<Byte>, o: nat)
    requires SameRecord(b, c, o) && |c| == |b| && Tiled(b, o) && Tiled(c, o)
    requires Names(c, o + Len(b, o)) == Names(b, o + Len(b, o))
    requires (Unique(c, o + Len(b, o)) <==> Unique(b, o + Len(b, o)))
    ensures Names(c, o) == Names(b, o) && (Unique(c, o) <==> Unique(b, o))
  {
    hide Get, NameAt, Legal, RecLen;
  }

  /** The record at o is the same in both blocks. */
  ghost predicate SameRecord(b: seq<Byte>, c: seq<Byte>, o: nat) {
    && o < |b| && Legal(b, o) && Legal(c, o) && Len(c, o) == Len(b, o) && Ino(c, o) == Ino(b, o) &&
       NameAt(c, o) == NameAt(b, o)
  }

  /** A name added behind a record. */
  lemma InsertStep(b: seq<Byte>, c: seq<Byte>, o: nat, name: Name, ino: nat)
    requires SameRecord(b, c, o) && |c| == |b| && Tiled(b, o) && Tiled(c, o) && Unique(b, o) && name !in Names(b, o)
    requires Names(c, o + Len(b, o)) == Names(b, o + Len(b, o))[name := ino] && Unique(c, o + Len(b, o))
    ensures Names(c, o) == Names(b, o)[name := ino] && Unique(c, o)
  {
    hide Get, NameAt, Legal, RecLen;
  }

  lemma RemoveStep(b: seq<Byte>, c: seq<Byte>, o: nat, name: Name)
    requires SameRecord(b, c, o) && |c| == |b| && Tiled(b, o) && Tiled(c, o) && Unique(b, o)
    requires name in Names(b, o + Len(b, o))
    requires Names(c, o + Len(b, o)) == Names(b, o + Len(b, o)) - {name} && Unique(c, o + Len(b, o))
    ensures Names(c, o) == Names(b, o) - {name} && Unique(c, o)
  {
    hide Get, NameAt, Legal, RecLen;
  }

  /** A name added behind p is added to the whole. */
  lemma {:induction false} PrefixInserts(b: seq<Byte>, c: seq<Byte>, o: nat, p: nat, name: Name, ino: nat)
    requires Tiled(b, o) && Reach(b, o, p) && Same(b, c, o, p) && Tiled(c, p) && Tiled(b, p)
    requires Names(c, p) == Names(b, p)[name := ino] && Unique(c, p)
    requires Unique(b, o) && name !in Names(b, o)
    ensures Tiled(c, o) && Names(c, o) == Names(b, o)[name := ino] && Unique(c, o)
    decreases |b| - o
  {
    hide Get, NameAt, Legal, RecLen, Same, Len, Ino, Names, Unique;
    PrefixReach(b, c, o, p);
    if o != p {
      RestOf(b, c, o, p);
      PrefixInserts(b, c, o + Len(b, o), p, name, ino);
      InsertStep(b, c, o, name, ino);
    }
  }

  /** A name removed behind p is removed from the whole. */
  lemma {:induction false} PrefixRemoves(b: seq<Byte>, c: seq<Byte>, o: nat, p: nat, name: Name)
    requires Tiled(b, o) && Reach(b, o, p) && Same(b, c, o, p) && Tiled(c, p) && Tiled(b, p)
    requires name in Names(b, p) && Names(c, p) == Names(b, p) - {name} && Unique(c, p) && Unique(b, o)
    ensures Tiled(c, o) && Names(c, o) == Names(b, o) - {name} && Unique(c, o)
    decreases |b| - o
  {
    hide Get, NameAt, Legal, RecLen, Same, Len, Ino, Names, Unique;
    PrefixReach(b, c, o, p);
    if o != p {
      RestOf(b, c, o, p);
      PrefixRemoves(b, c, o + Len(b, o), p, name);
      RemoveStep(b, c, o, name);
    }
  }

  /** Walking on from a record in front of p. */
  lemma RestOf(b: seq<Byte>, c: seq<Byte>, o: nat, p: nat)
    requires Tiled(b, o) && Reach(b, o, p) && o != p && Same(b, c, o, p) && Tiled(c, o)
    ensures HasHeader(b, o) && SameRecord(b, c, o) && |c| == |b| && Tiled(c, o + Len(b, o))
    ensures var q := o + Len(b, o);
      && o < q <= p <= |b| && Tiled(b, p) && Tiled(b, q) && Reach(b, q, p) && Same(b, c, q, p)
      && Names(b, p).Keys <= Names(b, q).Keys <= Names(b, o).Keys && (Unique(b, o) ==> Unique(b, q))
  {
    hide Get;
    ReachTiled(b, o, p);
    ReachTiled(b, o + Len(b, o), p);
    PrefixRecord(b, c, o, p);
  }
}
