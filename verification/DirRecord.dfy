/** Directory records as bytes of a 4 KB block: a header of 12 bytes (inode number, record length,
    name length, type), then the name. */
module DirRecord {

  type Byte = b: nat | b < 256
  type Name = seq<Byte>

  const BLOCK_BYTES: nat := 4096

  // ---- Little-endian integers -----------------------------------------------------------------------

  function Pow256(n: nat): (p: nat)
    ensures p >= 1
  {
    if n == 0 then 1 else 256 * Pow256(n - 1)
  }

  function Get(b: seq<Byte>, o: nat, n: nat): nat
    requires o + n <= |b|
    decreases n
  {
    if n == 0 then 0 else b[o] + 256 * Get(b, o + 1, n - 1)
  }

  function Put(b: seq<Byte>, o: nat, n: nat, v: nat): (r: seq<Byte>)
    requires o + n <= |b|
    ensures |r| == |b| && forall i :: 0 <= i < |b| && !(o <= i < o + n) ==> r[i] == b[i]
    decreases n
  {
    if n == 0 then b else Put(b[o := v % 256], o + 1, n - 1, v / 256)
  }

  lemma {:induction false} GetAgrees(b: seq<Byte>, c: seq<Byte>, o: nat, n: nat)
    requires o + n <= |b| && o + n <= |c| && forall i :: o <= i < o + n ==> b[i] == c[i]
    ensures Get(b, o, n) == Get(c, o, n)
    decreases n
  {
    if n > 0 {
      GetAgrees(b, c, o + 1, n - 1);
    }
  }

  lemma {:induction false} GetPut(b: seq<Byte>, o: nat, n: nat, v: nat)
    requires o + n <= |b| && v < Pow256(n)
    ensures Get(Put(b, o, n, v), o, n) == v
    decreases n
  {
    if n > 0 {
      GetPut(b[o := v % 256], o + 1, n - 1, v / 256);
    }
  }

  // ---- Fields ------------------------------------------------------------------------------------

  /** A header fits at offset o. */
  predicate HasHeader(b: seq<Byte>, o: nat) {
    o + 12 <= |b|
  }

  function Ino(b: seq<Byte>, o: nat): nat
    requires HasHeader(b, o)
  {
    Get(b, o, 8)
  }

  function Len(b: seq<Byte>, o: nat): nat
    requires HasHeader(b, o)
  {
    Get(b, o + 8, 2)
  }

  function NameLen(b: seq<Byte>, o: nat): nat
    requires HasHeader(b, o)
  {
    b[o + 10]
  }

  function NameAt(b: seq<Byte>, o: nat): Name
    requires HasHeader(b, o) && o + 12 + NameLen(b, o) <= |b|
  {
    b[o + 12..o + 12 + NameLen(b, o)]
  }

  function SetIno(b: seq<Byte>, o: nat, v: nat): (r: seq<Byte>)
    requires HasHeader(b, o)
    ensures |r| == |b|
  {
    Put(b, o, 8, v)
  }

  function SetLen(b: seq<Byte>, o: nat, v: nat): (r: seq<Byte>)
    requires HasHeader(b, o)
    ensures |r| == |b|
  {
    Put(b, o + 8, 2, v)
  }

  /** Name length and name; the type byte between them is left alone. */
  function SetName(b: seq<Byte>, o: nat, name: Name): (r: seq<Byte>)
    requires HasHeader(b, o) && |name| < 256 && o + 12 + |name| <= |b|
    ensures |r| == |b|
  {
    b[..o + 10] + [|name|] + [b[o + 11]] + name + b[o + 12 + |name|..]
  }

  /** Length of a record for a name of n bytes, rounded up to 4 (PMFS_DIR_REC_LEN). */
  function RecLen(n: nat): (r: nat)
    ensures n + 12 <= r <= n + 15 && r % 4 == 0
  {
    (n + 15) / 4 * 4
  }

  /** The bytes of a and c agree in [lo..hi). */
  ghost predicate Same(a: seq<Byte>, c: seq<Byte>, lo: nat, hi: nat) {
    |a| == |c| && hi <= |a| && forall i :: lo <= i < hi ==> a[i] == c[i]
  }

  /** A record whose header agrees reads the same; so does its name. */
  lemma HeaderSame(a: seq<Byte>, c: seq<Byte>, o: nat)
    requires o + 12 <= |a| && Same(a, c, o, o + 12)
    ensures Ino(a, o) == Ino(c, o) && Len(a, o) == Len(c, o) && NameLen(a, o) == NameLen(c, o)
  {
    GetAgrees(a, c, o, 8);
    GetAgrees(a, c, o + 8, 2);
  }

  lemma NameSame(a: seq<Byte>, c: seq<Byte>, o: nat)
    requires o + 12 <= |a| && Same(a, c, o, o + 12) && o + 12 + NameLen(a, o) <= |a|
    requires Same(a, c, o, o + 12 + NameLen(a, o))
    ensures NameLen(c, o) == NameLen(a, o) && NameAt(a, o) == NameAt(c, o)
  {
  }

  lemma SetLenFields(b: seq<Byte>, o: nat, v: nat)
    requires HasHeader(b, o) && v < 65536
    ensures var c := SetLen(b, o, v);
      && Len(c, o) == v && Ino(c, o) == Ino(b, o) && NameLen(c, o) == NameLen(b, o)
      && forall i :: 0 <= i < |b| && !(o + 8 <= i < o + 10) ==> c[i] == b[i]
  {
    assert Pow256(2) == 256 * Pow256(1);
    GetPut(b, o + 8, 2, v);
    GetAgrees(b, SetLen(b, o, v), o, 8);
  }

  lemma SetInoFields(b: seq<Byte>, o: nat, v: nat)
    requires HasHeader(b, o) && v < Pow256(8)
    ensures var c := SetIno(b, o, v);
      && Ino(c, o) == v && Len(c, o) == Len(b, o) && NameLen(c, o) == NameLen(b, o)
      && forall i :: 0 <= i < |b| && !(o <= i < o + 8) ==> c[i] == b[i]
  {
    GetPut(b, o, 8, v);
    GetAgrees(b, SetIno(b, o, v), o + 8, 2);
  }

  lemma SetNameFields(b: seq<Byte>, o: nat, name: Name)
    requires HasHeader(b, o) && |name| < 256 && o + 12 + |name| <= |b|
    ensures var c := SetName(b, o, name);
      && Ino(c, o) == Ino(b, o) && Len(c, o) == Len(b, o) && NameLen(c, o) == |name| && NameAt(c, o) == name
      && forall i :: 0 <= i < |b| && i != o + 10 && !(o + 12 <= i < o + 12 + |name|) ==> c[i] == b[i]
  {
    var c := SetName(b, o, name);
    assert forall i :: 0 <= i < |b| && i != o + 10 && !(o + 12 <= i < o + 12 + |name|) ==> c[i] == b[i];
    GetAgrees(b, c, o, 8);
    GetAgrees(b, c, o + 8, 2);
    assert NameAt(c, o) == name;
  }
}
