/** Adding and removing one record of a directory block, and undoing it from the one field that was logged. */
module DirChange {
  import opened DirBlock
  import opened DirRecord

  /** A whole block: legal tiling, no name twice, no empty name. */
  ghost predicate Good(b: seq<Byte>) {
    |b| == BLOCK_BYTES && Tiled(b, 0) && Unique(b, 0) && [] !in Names(b, 0)
  }

  ghost predicate ValidName(name: Name) {
    1 <= |name| <= 255
  }

  /** A record at a reachable offset, with what the walk knows about it. */
  lemma AtRecord(b: seq<Byte>, p: nat)
    requires Good(b) && Reach(b, 0, p) && p < |b|
    ensures Legal(b, p) && Tiled(b, p) && Tiled(b, p + Len(b, p)) && Unique(b, p)
    ensures Names(b, p).Keys <= Names(b, 0).Keys
    ensures Ino(b, p) != 0 ==> NameLen(b, p) >= 1 && NameAt(b, p) in Names(b, 0)
  {
    hide Get;
    ReachTiled(b, 0, p);
  }

  // ---- Adding ----------------------------------------------------------------------------------------

  /** The record at p has room for another one of length reclen. */
  predicate HasRoom(b: seq<Byte>, p: nat, reclen: nat)
    requires HasHeader(b, p)
  {
    if Ino(b, p) != 0 then Len(b, p) >= RecLen(NameLen(b, p)) + reclen else Len(b, p) >= reclen
  }

  /** Puts a record into the slack of the live record at p (pmfs_add_dirent_to_buf). */
  function SplitAt(b: seq<Byte>, p: nat, name: Name, ino: nat): (c: seq<Byte>)
    requires Legal(b, p) && 1 <= |name| <= 255 && Len(b, p) >= RecLen(NameLen(b, p)) + RecLen(|name|)
    ensures |c| == |b|
  {
    var nlen := RecLen(NameLen(b, p));
    var q := p + nlen;
    SetName(SetIno(SetLen(SetLen(b, q, Len(b, p) - nlen), p, nlen), q, ino), q, name)
  }

  /** Reuses the empty record at p. */
  function ReuseAt(b: seq<Byte>, p: nat, name: Name, ino: nat): (c: seq<Byte>)
    requires Legal(b, p) && 1 <= |name| <= 255 && Len(b, p) >= RecLen(|name|)
    ensures |c| == |b|
  {
    SetName(SetIno(b, p, ino), p, name)
  }

  lemma SplitFields(b: seq<Byte>, p: nat, name: Name, ino: nat)
    requires Legal(b, p) && 1 <= |name| <= 255 && Len(b, p) >= RecLen(NameLen(b, p)) + RecLen(|name|) && ino < Pow256(8)
    ensures var c, nlen := SplitAt(b, p, name, ino), RecLen(NameLen(b, p)); var q := p + nlen;
      && Len(c, p) == nlen && Ino(c, p) == Ino(b, p) && NameLen(c, p) == NameLen(b, p)
      && Len(c, q) == Len(b, p) - nlen && Ino(c, q) == ino && NameLen(c, q) == |name| && NameAt(c, q) == name
      && forall i :: 0 <= i < |b| && !(p + 8 <= i < p + 10) && !(q <= i < q + 12 + |name|) ==> c[i] == b[i]
  {
    hide Get, Put, RecLen, SetLen, SetIno, SetName;
    var rlen, nlen := Len(b, p), RecLen(NameLen(b, p));
    var q := p + nlen;
    var b1 := SetLen(b, q, rlen - nlen);
    SetLenFields(b, q, rlen - nlen);
    HeaderSame(b, b1, p);
    var b2 := SetLen(b1, p, nlen);
    SetLenFields(b1, p, nlen);
    HeaderSame(b1, b2, q);
    var b3 := SetIno(b2, q, ino);
    SetInoFields(b2, q, ino);
    HeaderSame(b2, b3, p);
    var b4 := SetName(b3, q, name);
    SetNameFields(b3, q, name);
    HeaderSame(b3, b4, p);
  }

  lemma ReuseFields(b: seq<Byte>, p: nat, name: Name, ino: nat)
    requires Legal(b, p) && 1 <= |name| <= 255 && Len(b, p) >= RecLen(|name|) && ino < Pow256(8)
    ensures var c := ReuseAt(b, p, name, ino);
      && Len(c, p) == Len(b, p) && Ino(c, p) == ino && NameLen(c, p) == |name| && NameAt(c, p) == name
      && forall i :: 0 <= i < |b| && !(p <= i < p + 8) && i != p + 10 && !(p + 12 <= i < p + 12 + |name|) ==>
         c[i] == b[i]
  {
    hide Get, Put, RecLen, SetIno, SetName;
    SetInoFields(b, p, ino);
    SetNameFields(SetIno(b, p, ino), p, name);
  }

  function AddAt(b: seq<Byte>, p: nat, name: Name, ino: nat): (c: seq<Byte>)
    requires Legal(b, p) && 1 <= |name| <= 255 && HasRoom(b, p, RecLen(|name|))
    ensures |c| == |b|
  {
    if Ino(b, p) != 0 then SplitAt(b, p, name, ino) else ReuseAt(b, p, name, ino)
  }

  /** Adding a record adds the name to the map and keeps the block whole. */
  lemma AddRefines(b: seq<Byte>, p: nat, name: Name, ino: nat)
    requires Good(b) && Reach(b, 0, p) && p < |b| && ValidName(name) && 0 < ino < Pow256(8) && name !in Names(b, 0)
    requires Legal(b, p) && HasRoom(b, p, RecLen(|name|))
    ensures var c := AddAt(b, p, name, ino); Good(c) && Names(c, 0) == Names(b, 0)[name := ino]
  {
    hide Get, RecLen, Names, Unique, SplitAt, ReuseAt;
    AtRecord(b, p);
    var c := AddAt(b, p, name, ino);
    if Ino(b, p) != 0 {
      SplitNames(b, p, name, ino);
    } else {
      ReuseNames(b, p, name, ino);
    }
    PrefixInserts(b, c, 0, p, name, ino);
  }

  lemma SplitNames(b: seq<Byte>, p: nat, name: Name, ino: nat)
    requires Tiled(b, p) && p < |b| && Legal(b, p) && Unique(b, p) && name !in Names(b, p) && 1 <= |name| <= 255
    requires 0 < ino < Pow256(8)
    requires Ino(b, p) != 0 && NameLen(b, p) >= 1 && HasRoom(b, p, RecLen(|name|))
    ensures var c := SplitAt(b, p, name, ino);
      Tiled(c, p) && Names(c, p) == Names(b, p)[name := ino] && Unique(c, p) && Same(b, c, 0, p)
  {
    hide Get, SplitAt, RecLen, Names, Unique, Tiled, NameAt;
    var c, nlen := SplitAt(b, p, name, ino), RecLen(NameLen(b, p));
    var q, e := p + nlen, p + Len(b, p);
    SplitFields(b, p, name, ino);
    NameSame2(b, c, p);
    NextTiled(b, p);
    SuffixSame(b, c, e);
    RecLenMono(1, NameLen(b, p));
    RecLenMono(1, |name|);
    LastRecord(c, q, e);
    LastRecord(c, p, q);
    LastRecord(b, p, e);
    InsertTwo(Names(b, e), NameAt(b, p), Ino(b, p), name, ino);
  }

  lemma NextTiled(b: seq<Byte>, p: nat)
    requires Tiled(b, p) && p < |b| && Legal(b, p)
    ensures Tiled(b, p + Len(b, p))
  {
  }

  lemma InsertTwo(m: map<Name, nat>, a: Name, i: nat, c: Name, j: nat)
    requires a != c
    ensures m[a := i][c := j] == m[c := j][a := i]
  {
  }

  /** Unfolding one record. */
  lemma LastRecord(b: seq<Byte>, p: nat, e: nat)
    requires p < |b| && Legal(b, p) && e == p + Len(b, p) && Tiled(b, e)
    ensures Tiled(b, p)
    ensures Names(b, p) == if Ino(b, p) == 0 then Names(b, e) else Names(b, e)[NameAt(b, p) := Ino(b, p)]
    ensures Unique(b, p) <==> Unique(b, e) && (Ino(b, p) != 0 ==> NameAt(b, p) !in Names(b, e))
  {
    hide Get, NameAt, RecLen;
  }

  lemma RecLenMono(m: nat, n: nat)
    requires m <= n
    ensures RecLen(m) <= RecLen(n)
  {
  }

  lemma ReuseNames(b: seq<Byte>, p: nat, name: Name, ino: nat)
    requires Tiled(b, p) && p < |b| && Legal(b, p) && Unique(b, p) && name !in Names(b, p) && 1 <= |name| <= 255
    requires 0 < ino < Pow256(8)
    requires Ino(b, p) == 0 && HasRoom(b, p, RecLen(|name|))
    ensures var c := ReuseAt(b, p, name, ino);
      Tiled(c, p) && Names(c, p) == Names(b, p)[name := ino] && Unique(c, p) && Same(b, c, 0, p)
  {
    hide Get, ReuseAt, RecLen, Names, Unique, Tiled, NameAt;
    var c, e := ReuseAt(b, p, name, ino), p + Len(b, p);
    ReuseFields(b, p, name, ino);
    NextTiled(b, p);
    SuffixSame(b, c, e);
    LastRecord(c, p, e);
    LastRecord(b, p, e);
  }

  // ---- Removing --------------------------------------------------------------------------------------

  /** Gives the record at p to the one in front of it. */
  function MergeAt(b: seq<Byte>, prev: nat, p: nat): (c: seq<Byte>)
    requires Legal(b, prev) && Legal(b, p)
    ensures |c| == |b|
  {
    SetLen(b, prev, Len(b, prev) + Len(b, p))
  }

  /** The first record of a block has none in front of it: it becomes empty. */
  function ClearAt(b: seq<Byte>, p: nat): (c: seq<Byte>)
    requires Legal(b, p)
    ensures |c| == |b|
  {
    SetIno(b, p, 0)
  }

  lemma MergeRefines(b: seq<Byte>, prev: nat, p: nat, name: Name)
    requires Good(b) && Reach(b, 0, prev) && prev < |b| && Legal(b, prev) && p == prev + Len(b, prev) < |b|
    requires Legal(b, p) && Ino(b, p) != 0 && NameAt(b, p) == name
    ensures var c := MergeAt(b, prev, p); Good(c) && Names(c, 0) == Names(b, 0) - {name}
  {
    hide Get, RecLen, Names, Unique, MergeAt;
    var c := MergeAt(b, prev, p);
    AtRecord(b, prev);
    MergeNames(b, prev, p, name);
    PrefixRemoves(b, c, 0, prev, name);
  }

  lemma MergeNames(b: seq<Byte>, prev: nat, p: nat, name: Name)
    requires |b| == BLOCK_BYTES && Tiled(b, prev) && prev < |b| && Legal(b, prev) && p == prev + Len(b, prev) < |b|
    requires Unique(b, prev)
    requires Legal(b, p) && Ino(b, p) != 0 && NameAt(b, p) == name
    ensures var c := MergeAt(b, prev, p);
      && Tiled(c, prev) && Names(c, prev) == Names(b, prev) - {name} && Unique(c, prev) && Same(b, c, 0, prev)
      && name in Names(b, prev)
  {
    hide Get, RecLen, SetLen, Names, Unique, Tiled, NameAt;
    var c, e := MergeAt(b, prev, p), p + Len(b, p);
    SetLenFields(b, prev, Len(b, prev) + Len(b, p));
    NameSame2(b, c, prev);
    NextTiled(b, prev);
    NextTiled(b, p);
    SuffixSame(b, c, e);
    LastRecord(b, p, e);
    LastRecord(b, prev, p);
    LastRecord(c, prev, e);
    RemoveOne(Names(b, e), name, Ino(b, p), NameAt(b, prev), Ino(b, prev));
  }

  lemma RemoveOne(m: map<Name, nat>, name: Name, i: nat, a: Name, j: nat)
    requires name !in m
    ensures m[name := i] - {name} == m
    ensures a != name ==> m[name := i][a := j] - {name} == m[a := j]
  {
  }

  /** The name behind a header whose name length is unchanged. */
  lemma NameSame2(a: seq<Byte>, c: seq<Byte>, o: nat)
    requires o + 12 <= |a| == |c| && NameLen(a, o) == NameLen(c, o) && o + 12 + NameLen(a, o) <= |a|
    requires Same(a, c, o + 12, o + 12 + NameLen(a, o))
    ensures NameAt(a, o) == NameAt(c, o)
  {
  }

  lemma ClearRefines(b: seq<Byte>, name: Name)
    requires Good(b) && Legal(b, 0) && Ino(b, 0) != 0 && NameAt(b, 0) == name
    ensures var c := ClearAt(b, 0); Good(c) && Names(c, 0) == Names(b, 0) - {name}
  {
    hide Get, RecLen, SetIno, NameAt;
    var c, e := ClearAt(b, 0), Len(b, 0);
    assert 0 < Pow256(8);
    SetInoFields(b, 0, 0);
    SuffixSame(b, c, e);
    LastRecord(b, 0, e);
    LastRecord(c, 0, e);
  }

  // ---- Undo ----------------------------------------------------------------------------------------

  /** A change to a block in place, by the record it concerns. */
  datatype Change = Split(p: nat, name: Name) | Reuse(p: nat, name: Name) | Merge(prev: nat) | Clear(first: nat)

  /** The change is one that the code makes to this block. */
  ghost predicate Applies(b: seq<Byte>, ch: Change) {
    match ch
    case Split(p, name) =>
      && Reach(b, 0, p) && p < |b| && Legal(b, p) && Ino(b, p) != 0 && 1 <= |name| <= 255 &&
         HasRoom(b, p, RecLen(|name|))
    case Reuse(p, name) =>
      && Reach(b, 0, p) && p < |b| && Legal(b, p) && Ino(b, p) == 0 && 1 <= |name| <= 255 &&
         HasRoom(b, p, RecLen(|name|))
    case Merge(prev) => Reach(b, 0, prev) && prev < |b| && Legal(b, prev)
    case Clear(p) => Reach(b, 0, p) && p < |b| && Legal(b, p)
  }

  /** The bytes that the code writes. */
  predicate Writes(b: seq<Byte>, ch: Change, i: nat)
    requires ch.Split? ==> HasHeader(b, ch.p)
  {
    match ch
    case Split(p, name) =>
      p + 8 <= i < p + 10 || p + RecLen(NameLen(b, p)) <= i < p + RecLen(NameLen(b, p)) + 12 + |name|
    case Reuse(p, name) => p <= i < p + 8 || i == p + 10 || p + 12 <= i < p + 12 + |name|
    case Merge(prev) => prev + 8 <= i < prev + 10
    case Clear(p) => p <= i < p + 8
  }

  /** Offset and size of the one field saved in the journal before writing. */
  function LoggedAt(ch: Change): (nat, nat) {
    match ch
    case Split(p, _) => (p + 8, 2)
    case Reuse(p, _) => (p, 8)
    case Merge(prev) => (prev + 8, 2)
    case Clear(p) => (p, 8)
  }

  /** What a crash during the change may leave: any of the written bytes may have any value, except
      that the name length, a single byte, is the old or the new one. */
  ghost predicate Torn(b: seq<Byte>, ch: Change, t: seq<Byte>)
    requires ch.Split? ==> HasHeader(b, ch.p)
  {
    && |t| == |b| && (forall i :: 0 <= i < |b| && !Writes(b, ch, i) ==> t[i] == b[i])
    && (ch.Reuse? && ch.p + 10 < |b| ==> t[ch.p + 10] == b[ch.p + 10] || t[ch.p + 10] == |ch.name|)
  }

  /** Copying the saved field back. */
  function Restore(t: seq<Byte>, b: seq<Byte>, o: nat, n: nat): (r: seq<Byte>)
    requires |t| == |b| && o + n <= |b|
    ensures |r| == |b| && forall i :: 0 <= i < |b| ==> r[i] == if o <= i < o + n then b[i] else t[i]
  {
    t[..o] + b[o..o + n] + t[o + n..]
  }

  /** Minimal undo suffices: whatever a crash leaves of a change, restoring the one logged field brings
      back a whole block with exactly the old names. */
  lemma UndoRestoresNames(b: seq<Byte>, ch: Change, t: seq<Byte>)
    requires Good(b) && Applies(b, ch) && Torn(b, ch, t)
    ensures LoggedAt(ch).0 + LoggedAt(ch).1 <= |b|
    ensures var r := Restore(t, b, LoggedAt(ch).0, LoggedAt(ch).1); Good(r) && Names(r, 0) == Names(b, 0)
  {
    hide Get, RecLen, Names, Unique, Tiled;
    var r := Restore(t, b, LoggedAt(ch).0, LoggedAt(ch).1);
    match ch {
      case Split(p, name) =>
        AtRecord(b, p);
        SplitUndone(b, r, p, name);
        PrefixKeeps(b, r, 0, p);
      case Reuse(p, name) =>
        AtRecord(b, p);
        ReuseUndone(b, r, p, name);
        PrefixKeeps(b, r, 0, p);
      case Merge(prev) =>
        assert r == b;
      case Clear(p) =>
        assert r == b;
    }
  }

  lemma SplitUndone(b: seq<Byte>, r: seq<Byte>, p: nat, name: Name)
    requires |r| == |b| && p < |b| && Legal(b, p) && Tiled(b, p) && Len(b, p) >= RecLen(NameLen(b, p)) + RecLen(|name|)
    requires forall i ::
        0 <= i < |b| && !(p + RecLen(NameLen(b, p)) <= i < p + RecLen(NameLen(b, p)) + 12 + |name|) ==> r[i] == b[i]
    ensures Tiled(r, p) && Names(r, p) == Names(b, p) && (Unique(r, p) <==> Unique(b, p)) && Same(b, r, 0, p)
  {
    hide Get, RecLen, Names, Unique, Tiled;
    HeaderSame(b, r, p);
    NameSame(b, r, p);
    NextTiled(b, p);
    SuffixSame(b, r, p + Len(b, p));
    LastRecord(b, p, p + Len(b, p));
    LastRecord(r, p, p + Len(b, p));
  }

  lemma ReuseUndone(b: seq<Byte>, r: seq<Byte>, p: nat, name: Name)
    requires |r| == |b| && p < |b| && Legal(b, p) && Tiled(b, p) && Ino(b, p) == 0 && Len(b, p) >= RecLen(|name|)
    requires |name| >= 1
    requires forall i :: 0 <= i < |b| && i != p + 10 && !(p + 12 <= i < p + 12 + |name|) ==> r[i] == b[i]
    requires r[p + 10] == b[p + 10] || r[p + 10] == |name|
    ensures Tiled(r, p) && Names(r, p) == Names(b, p) && (Unique(r, p) <==> Unique(b, p)) && Same(b, r, 0, p)
  {
    hide Get, RecLen, Names, Unique, Tiled, NameAt;
    GetAgrees(b, r, p, 8);
    GetAgrees(b, r, p + 8, 2);
    NextTiled(b, p);
    SuffixSame(b, r, p + Len(b, p));
    LastRecord(b, p, p + Len(b, p));
    LastRecord(r, p, p + Len(b, p));
  }

  /** The changes themselves are among the torn states, so a commit that never happened is covered as well. */
  lemma ChangesAreTorn(b: seq<Byte>, ch: Change, ino: nat, p: nat)
    requires Good(b) && Applies(b, ch) && ino < Pow256(8)
    requires ch.Merge? ==> p == ch.prev + Len(b, ch.prev) && p < |b| && Legal(b, p)
    ensures match ch
      case Split(q, name) => Torn(b, ch, SplitAt(b, q, name, ino))
      case Reuse(q, name) => Torn(b, ch, ReuseAt(b, q, name, ino))
      case Merge(prev) => Torn(b, ch, MergeAt(b, prev, p))
      case Clear(q) => Torn(b, ch, ClearAt(b, q))
  {
    hide Get, RecLen, Names, Unique, Tiled, SplitAt, ReuseAt, SetLen, SetIno;
    match ch {
      case Split(q, name) => SplitFields(b, q, name, ino);
      case Reuse(q, name) => ReuseFields(b, q, name, ino);
      case Merge(prev) => SetLenFields(b, prev, Len(b, prev) + Len(b, p));
      case Clear(q) =>
        assert 0 < Pow256(8);
        SetInoFields(b, q, 0);
    }
  }
}
