/** The list of inodes to be truncated after a crash: a singly linked list in persistent memory that
    mirrors the volatile one. */
module TruncateList {

  datatype Item = Item(size: nat, next: nat)

  /** The inodes' truncate items by inode number, and the head pointer; 0 ends the list. */
  datatype Memory = Memory(items: map<nat, Item>, head: nat)

  datatype View = View(durable: Memory, current: Memory)

  /** Following the pointers from h gives the inodes l. */
  ghost predicate Chain(items: map<nat, Item>, h: nat, l: seq<nat>)
    decreases |l|
  {
    if l == [] then h == 0
    else h != 0 && h == l[0] && h in items && Chain(items, items[h].next, l[1..])
  }

  ghost predicate Distinct(l: seq<nat>) {
    forall i, j :: 0 <= i < j < |l| ==> l[i] != l[j]
  }

  /** A memory holds the list l, with the sizes found in ref. */
  ghost predicate Shows(m: Memory, l: seq<nat>, ref: map<nat, Item>) {
    && Chain(m.items, m.head, l) && Distinct(l)
    && forall x :: x in l ==> x in m.items && x in ref && m.items[x].size == ref[x].size
  }

  /** What a crash may leave: every word is as fenced last or as written since. */
  ghost predicate CrashImage(v: View, img: Memory) {
    && (img.head == v.durable.head || img.head == v.current.head)
    && img.items.Keys == v.current.items.Keys == v.durable.items.Keys
    && forall x :: x in img.items ==>
         && (img.items[x].size == v.durable.items[x].size || img.items[x].size == v.current.items[x].size)
         && (img.items[x].next == v.durable.items[x].next || img.items[x].next == v.current.items[x].next)
  }

  // ---- Chains ------------------------------------------------------------------------------------------

  /** The pointers determine the list, so it is finite and has no cycle. */
  lemma {:induction false} ChainUnique(items: map<nat, Item>, h: nat, l: seq<nat>, k: seq<nat>)
    requires Chain(items, h, l) && Chain(items, h, k)
    ensures l == k
    decreases |l|
  {
    if l != [] {
      ChainUnique(items, items[h].next, l[1..], k[1..]);
      assert l == [h] + l[1..] && k == [h] + k[1..];
    }
  }

  lemma {:induction false} ChainFrame(a: map<nat, Item>, b: map<nat, Item>, h: nat, l: seq<nat>)
    requires Chain(a, h, l) && forall x :: x in l ==> x in b && (x in a ==> b[x].next == a[x].next)
    ensures Chain(b, h, l)
    decreases |l|
  {
    if l != [] {
      assert l[0] in l;
      assert forall x :: x in l[1..] ==> x in l;
      ChainFrame(a, b, a[h].next, l[1..]);
    }
  }

  lemma {:induction false} ChainNext(items: map<nat, Item>, h: nat, l: seq<nat>, i: nat)
    requires Chain(items, h, l) && i < |l|
    ensures l[i] in items && l[i] != 0 && Chain(items, items[l[i]].next, l[i + 1..])
    decreases |l|
  {
    if i > 0 {
      ChainNext(items, items[h].next, l[1..], i - 1);
      assert l[1..][i..] == l[i + 1..];
    }
  }

  function Without(l: seq<nat>, i: nat): seq<nat>
    requires i < |l|
  {
    l[..i] + l[i + 1..]
  }

  /** Redirecting the pointer in front of element i takes it out of the list. */
  lemma {:induction false} ChainRemove(items: map<nat, Item>, h: nat, l: seq<nat>, i: nat)
    requires Chain(items, h, l) && Distinct(l) && 0 < i < |l|
    ensures l[i] in items && l[i - 1] in items
    ensures Chain(items[l[i - 1] := items[l[i - 1]].(next := items[l[i]].next)], h, Without(l, i))
    decreases |l|
  {
    ChainNext(items, h, l, i);
    ChainNext(items, h, l, i - 1);
    var b := items[l[i - 1] := items[l[i - 1]].(next := items[l[i]].next)];
    if i == 1 {
      RestSame(items, b, items[l[1]].next, l[2..], l[0]);
      assert Without(l, 1) == [l[0]] + l[2..];
      assert Without(l, 1)[1..] == l[2..];
    } else {
      var t := l[1..];
      assert Distinct(t);
      ChainRemove(items, items[h].next, t, i - 1);
      assert Without(l, i)[1..] == Without(t, i - 1);
      assert Without(l, i)[0] == h;
    }
  }

  lemma RestSame(a: map<nat, Item>, b: map<nat, Item>, h: nat, l: seq<nat>, p: nat)
    requires Chain(a, h, l) && p !in l && a.Keys <= b.Keys && forall x :: x in a && x != p ==> b[x] == a[x]
    ensures Chain(b, h, l)
  {
    forall x | x in l ensures x in b && (x in a ==> b[x].next == a[x].next) {
      var i :| 0 <= i < |l| && l[i] == x;
      ChainNext(a, h, l, i);
    }
    ChainFrame(a, b, h, l);
  }

  // ---- The code ----------------------------------------------------------------------------------------

  class Truncations {
    var mem: Memory
    ghost var durable: Memory
    /** Every view so far at which a crash could strike. */
    ghost var views: seq<View>
    /** The volatile list s_truncate. */
    var list: seq<nat>
    /** The list in the durable memory; it lags behind while a head pointer written inside a
        transaction waits for the transaction's barrier. */
    ghost var persisted: seq<nat>

    ghost predicate Valid()
      reads this
    {
      && Shows(mem, list, mem.items) && durable.items == mem.items && Shows(durable, persisted, mem.items)
      && (persisted == list || (list != [] && persisted == list[1..]))
    }

    constructor (inodes: map<nat, Item>)
      ensures Valid() && list == [] && mem == Memory(inodes, 0)
    {
      mem, durable, views, list, persisted := Memory(inodes, 0), Memory(inodes, 0), [], [], [];
    }

    method Store(m: Memory)
      modifies this`mem, this`views
      ensures mem == m && views == old(views) + [View(durable, m)]
    {
      mem := m;
      views := views + [View(durable, m)];
    }

    method Fence()
      modifies this`durable, this`views
      ensures durable == mem && views == old(views) + [View(mem, mem)]
    {
      durable := mem;
      views := views + [View(mem, mem)];
    }

    /** Puts an inode at the head of the list (pmfs_truncate_add). */
    method Add(ino: nat, size: nat, inTransaction: bool)
      requires Valid() && ino != 0 && ino in mem.items
      modifies this
      ensures Valid() && mem.items.Keys == old(mem.items.Keys)
      ensures list == if ino in old(list) then old(list) else [ino] + old(list)
      ensures ino !in old(list) ==> mem.items[ino].size == size
      ensures forall x :: x in old(list) ==> x in mem.items && mem.items[x].size == old(mem.items)[x].size
      ensures ino !in old(list) && !inTransaction ==> persisted == list
      ensures old(views) <= views
      ensures forall k, img :: |old(views)| <= k < |views| && CrashImage(views[k], img) ==>
        ShowsOneOf(img, [old(persisted), old(list), list], mem.items)
    {
      hide Shows, CrashImage, Chain, Distinct, ShowsOneOf;
      ShowsMembers(mem, list, mem.items);
      if ino in list {
        return;
      }
      ghost var m0, d0, p0, l0, v0 := mem, durable, persisted, list, views;
      Store(mem.(items := mem.items[ino := Item(size, mem.head)]));
      ghost var m1 := mem;
      Fence();
      Store(mem.(head := ino));
      ghost var m2 := mem;
      persisted := l0;
      if !inTransaction {
        Fence();
        persisted := [ino] + l0;
      }
      list := [ino] + list;
      AddShows(m0, d0, p0, l0, ino, size);
      assert l0 == list[1..];
      ghost var more := [View(d0, m1), View(m1, m1), View(m1, m2)] + if inTransaction then [] else [View(m2, m2)];
      assert views == v0 + more;
      forall k, img | |v0| <= k < |views| && CrashImage(views[k], img)
        ensures ShowsOneOf(img, [p0, l0, list], m2.items)
      {
        assert views[k] == more[k - |v0|];
        AddImages(m0, d0, p0, l0, ino, size, views[k], img);
      }
    }

    /** Takes an inode out of the list (pmfs_truncate_del). */
    method Delete(ino: nat)
      requires Valid()
      modifies this
      ensures Valid() && mem.items.Keys == old(mem.items.Keys)
      ensures list == if ino in old(list) then Without(old(list), Position(old(list), ino)) else old(list)
      ensures forall x :: x in list ==> x in mem.items && mem.items[x].size == old(mem.items)[x].size
      ensures ino in old(list) ==> persisted == list
      ensures old(views) <= views
      ensures forall k, img :: |old(views)| <= k < |views| && CrashImage(views[k], img) ==>
        ShowsOneOf(img, [old(list), list], mem.items)
    {
      hide Shows, CrashImage, Chain, Distinct, ShowsOneOf;
      ShowsMembers(mem, list, mem.items);
      if ino !in list {
        return;
      }
      ghost var m0, l0, v0 := mem, list, views;
      var i := Position(list, ino);
      ShowsAt(mem, list, mem.items, i);
      var next := mem.items[ino].next;
      var prev := if i == 0 then 0 else list[i - 1];
      list := Without(list, i);
      Fence();
      if prev == 0 {
        Store(mem.(head := next));
      } else {
        Store(mem.(items := mem.items[prev := mem.items[prev].(next := next)]));
      }
      ghost var m1 := mem;
      Fence();
      persisted := list;
      DeleteShows(m0, l0, i, m1);
      ShowsMembers(m1, list, m1.items);
      assert views == v0 + [View(m0, m0), View(m0, m1), View(m1, m1)];
      forall k, img | |v0| <= k < |views| && CrashImage(views[k], img) ensures ShowsOneOf(img, [l0, list], m1.items) {
        DeleteImages(m0, l0, i, m1, views[k], img);
      }
    }
  }

  /** First position of an element. */
  function Position(l: seq<nat>, x: nat): (i: nat)
    requires x in l
    ensures i < |l| && l[i] == x
  {
    if l[0] == x then 0 else Position(l[1..], x) + 1
  }

  /** The memory shows one of these lists. */
  ghost predicate ShowsOneOf(m: Memory, ls: seq<seq<nat>>, ref: map<nat, Item>) {
    exists i :: 0 <= i < |ls| && Shows(m, ls[i], ref)
  }

  lemma OneOf(m: Memory, ls: seq<seq<nat>>, i: nat, ref: map<nat, Item>)
    requires i < |ls| && Shows(m, ls[i], ref)
    ensures ShowsOneOf(m, ls, ref)
  {
  }

  lemma ShowsMembers(m: Memory, l: seq<nat>, ref: map<nat, Item>)
    requires Shows(m, l, ref)
    ensures forall x :: x in l ==> x in m.items && x in ref && m.items[x].size == ref[x].size
  {
  }

  lemma ShowsAt(m: Memory, l: seq<nat>, ref: map<nat, Item>, i: nat)
    requires Shows(m, l, ref) && i < |l|
    ensures l[i] in m.items && l[i] != 0 && (i > 0 ==> l[i - 1] in m.items && l[i - 1] != 0)
  {
    ChainNext(m.items, m.head, l, i);
    if i > 0 {
      ChainNext(m.items, m.head, l, i - 1);
    }
  }

  /** A memory that agrees with another on the members of its list shows the same list. */
  lemma ShowsFrame(m: Memory, n: Memory, l: seq<nat>, ref: map<nat, Item>, ref': map<nat, Item>)
    requires Shows(m, l, ref) && n.head == m.head
    requires forall x :: x in l ==> x in n.items && x in ref' && n.items[x].size == ref'[x].size
    requires forall x :: x in l && x in m.items ==> n.items[x].next == m.items[x].next
    ensures Shows(n, l, ref')
  {
    hide Distinct;
    ChainFrame(m.items, n.items, m.head, l);
  }

  // ---- Adding ------------------------------------------------------------------------------------------

  /** The memory with the new item, and then with the head pointing to it. */
  lemma AddShows(m0: Memory, d0: Memory, p0: seq<nat>, l0: seq<nat>, ino: nat, size: nat)
    requires Shows(m0, l0, m0.items) && d0.items == m0.items && Shows(d0, p0, m0.items) && ino !in l0 && ino != 0
    requires ino in m0.items
    ensures var m1 := m0.(items := m0.items[ino := Item(size, m0.head)]); var m2 := m1.(head := ino);
      Shows(m1, l0, m2.items) && Shows(m2, [ino] + l0, m2.items)
  {
    hide Distinct, Chain;
    var m1 := m0.(items := m0.items[ino := Item(size, m0.head)]);
    ShowsFrame(m0, m1, l0, m0.items, m1.items);
    NewHead(m1, l0, ino);
  }

  lemma NewHead(m1: Memory, l0: seq<nat>, ino: nat)
    requires Shows(m1, l0, m1.items) && ino !in l0 && ino != 0 && ino in m1.items && m1.items[ino].next == m1.head
    ensures Shows(m1.(head := ino), [ino] + l0, m1.items)
  {
    assert ([ino] + l0)[1..] == l0;
  }

  /** Every crash image during the addition. */
  lemma AddImages(m0: Memory, d0: Memory, p0: seq<nat>, l0: seq<nat>, ino: nat, size: nat, v: View, img: Memory)
    requires Shows(m0, l0, m0.items) && d0.items == m0.items && Shows(d0, p0, m0.items)
    requires (p0 == l0 || (l0 != [] && p0 == l0[1..])) && ino !in l0 && ino != 0 && ino in m0.items
    requires var m1 := m0.(items := m0.items[ino := Item(size, m0.head)]); var m2 := m1.(head := ino);
      (v == View(d0, m1) || v == View(m1, m1) || v == View(m1, m2) || v == View(m2, m2)) && CrashImage(v, img)
    ensures ShowsOneOf(img, [p0, l0, [ino] + l0], m0.items[ino := Item(size, m0.head)])
  {
    hide Shows, ShowsOneOf, Chain, Distinct;
    var m1 := m0.(items := m0.items[ino := Item(size, m0.head)]);
    var m2 := m1.(head := ino);
    var ls := [p0, l0, [ino] + l0];
    AddShows(m0, d0, p0, l0, ino, size);
    ShowsMembers(m0, l0, m0.items);
    ShowsMembers(d0, p0, m0.items);
    ShowsMembers(m2, [ino] + l0, m2.items);
    if v == View(d0, m1) {
      if img.head == d0.head {
        ShowsFrame(d0, img, p0, m0.items, m2.items);
        OneOf(img, ls, 0, m2.items);
      } else {
        ShowsFrame(m0, img, l0, m0.items, m2.items);
        OneOf(img, ls, 1, m2.items);
      }
    } else if img.head == m1.head {
      ShowsFrame(m1, img, l0, m2.items, m2.items);
      OneOf(img, ls, 1, m2.items);
    } else {
      ShowsFrame(m2, img, [ino] + l0, m2.items, m2.items);
      OneOf(img, ls, 2, m2.items);
    }
  }

  // ---- Deleting ------------------------------------------------------------------------------------------

  /** The memory after the one pointer has been redirected. */
  ghost predicate Unlinked(m0: Memory, l0: seq<nat>, i: nat, m1: Memory) {
    && i < |l0| && l0[i] in m0.items && (i > 0 ==> l0[i - 1] in m0.items)
    && m1 == if i == 0 then m0.(head := m0.items[l0[0]].next)
             else m0.(items := m0.items[l0[i - 1] := m0.items[l0[i - 1]].(next := m0.items[l0[i]].next)])
  }

  lemma DeleteShows(m0: Memory, l0: seq<nat>, i: nat, m1: Memory)
    requires Shows(m0, l0, m0.items) && Unlinked(m0, l0, i, m1)
    ensures Shows(m1, Without(l0, i), m1.items)
    ensures forall x :: x in l0 ==> x in m1.items && m1.items[x].size == m0.items[x].size
  {
    var l1 := Without(l0, i);
    assert forall x :: x in l1 ==> x in l0;
    WithoutDistinct(l0, i);
    if i == 0 {
      assert l1 == l0[1..];
    } else {
      ChainRemove(m0.items, m0.head, l0, i);
    }
  }

  lemma WithoutDistinct(l: seq<nat>, i: nat)
    requires Distinct(l) && i < |l|
    ensures Distinct(Without(l, i))
  {
    var w := Without(l, i);
    forall a, b | 0 <= a < b < |w| ensures w[a] != w[b] {
      assert w[a] == l[if a < i then a else a + 1] && w[b] == l[if b < i then b else b + 1];
    }
  }

  lemma DeleteImages(m0: Memory, l0: seq<nat>, i: nat, m1: Memory, v: View, img: Memory)
    requires Shows(m0, l0, m0.items) && Unlinked(m0, l0, i, m1)
    requires (v == View(m0, m0) || v == View(m0, m1) || v == View(m1, m1)) && CrashImage(v, img)
    ensures ShowsOneOf(img, [l0, Without(l0, i)], m1.items)
  {
    hide Shows, ShowsOneOf, Chain, Distinct;
    DeleteShows(m0, l0, i, m1);
    ShowsMembers(m0, l0, m0.items);
    ShowsMembers(m1, Without(l0, i), m1.items);
    OneWord(m0, i, l0, m1, v, img);
    if img == m0 {
      ShowsFrame(m0, img, l0, m0.items, m1.items);
      OneOf(img, [l0, Without(l0, i)], 0, m1.items);
    } else {
      OneOf(img, [l0, Without(l0, i)], 1, m1.items);
    }
  }

  /** Only one word differs, so the crash shows it before or after. */
  lemma OneWord(m0: Memory, i: nat, l0: seq<nat>, m1: Memory, v: View, img: Memory)
    requires Unlinked(m0, l0, i, m1)
    requires (v == View(m0, m0) || v == View(m0, m1) || v == View(m1, m1)) && CrashImage(v, img)
    ensures img == m0 || img == m1
  {
    if i == 0 {
      assert img.items == m0.items;
    } else {
      var p := l0[i - 1];
      assert forall x :: x in img.items && x != p ==> img.items[x] == m0.items[x];
      if img.items[p].next == m0.items[p].next {
        assert img.items == m0.items;
      } else {
        assert img.items == m1.items;
      }
    }
  }
}
