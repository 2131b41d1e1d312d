/** Replacing worn pages of a file while it is in use: copy, fence, redirect one pointer, fence. */
module PageMigration {
  import opened BlockTree
  import opened Indexing
  import opened TreeAlloc
  import opened TreePages
  import opened TreeShape
  import opened TreeTheorems
  import opened TreeTruncate

  function WithWord(page: seq<nat>, i: nat, v: nat): (r: seq<nat>)
    requires i < |page|
    ensures |r| == |page| && r[i] == v && forall j :: 0 <= j < |page| && j != i ==> r[j] == page[j]
  {
    page[i := v]
  }

  /** What a crash may leave: every 8-byte word is either as fenced last or as written since. */
  ghost predicate CrashImage(durable: Nodes, current: Nodes, img: Nodes) {
    && img.Keys == current.Keys
    && forall x :: x in img ==>
         && |img[x]| == |current[x]|
         && forall j :: 0 <= j < |img[x]| ==>
              || img[x][j] == current[x][j]
              || (x in durable && j < |durable[x]| && img[x][j] == durable[x][j])
  }

  /** The tree in img is whole, uses no block twice, and holds the same file contents. */
  ghost predicate Intact(n: Nodes, img: Nodes, root: nat, h: nat) {
    && root != 0 && WellFormed(img, root, h) && Distinct(Tally(img, root, h)) && Stored(img, Tally(img, root, h))
    && SameContents(n, root, img, root, h)
  }

  /** Memory as it may be seen at one point of the execution: the fenced and the current view. */
  datatype View = View(durable: Nodes, current: Nodes)

  /** After a crash at any of the views from the k-th on, the tree is intact. */
  ghost predicate CrashSafe(n: Nodes, views: seq<View>, from: nat, root: nat, h: nat) {
    forall j, img :: from <= j < |views| && CrashImage(views[j].durable, views[j].current, img) ==>
      Intact(n, img, root, h)
  }

  lemma IntactTrans(n0: Nodes, n: Nodes, img: Nodes, root: nat, h: nat)
    requires Intact(n0, n, root, h) && Intact(n, img, root, h)
    ensures Intact(n0, img, root, h)
  {
    hide WellFormed, Tally, Lookup, Cap;
    forall k | 0 <= k < Cap(h) ensures SamePage(n0, Lookup(n0, root, h, k), img, Lookup(img, root, h, k)) {
      assert SamePage(n0, Lookup(n0, root, h, k), n, Lookup(n, root, h, k));
      assert SamePage(n, Lookup(n, root, h, k), img, Lookup(img, root, h, k));
    }
  }

  lemma CrashSafeTrans(n0: Nodes, n: Nodes, views: seq<View>, from: nat, root: nat, h: nat)
    requires Intact(n0, n, root, h) && CrashSafe(n, views, from, root, h)
    ensures CrashSafe(n0, views, from, root, h)
  {
    hide Intact, CrashImage;
    forall j, img | from <= j < |views| && CrashImage(views[j].durable, views[j].current, img)
      ensures Intact(n0, img, root, h)
    {
      IntactTrans(n0, n, img, root, h);
    }
  }

  /** While block d, which the tree does not use, is being written, anything may be found there. */
  lemma CopyImage(n: Nodes, img: Nodes, root: nat, h: nat, d: nat)
    requires Tree(n, root, h) && Stored(n, Tally(n, root, h)) && d !in Tally(n, root, h)
    requires forall x :: x in n && x != d ==> x in img && img[x] == n[x]
    requires forall x :: x in img ==> x in n
    ensures Intact(n, img, root, h)
  {
    hide WellFormed, Tally, Distinct;
    assert AgreeOn(n, img, Tally(n, root, h));
    TreeFrame(n, img, root, h);
    AgreedContents(n, img, root, h);
    TreeNonZero(n, root, h);
  }

  lemma TreeNonZero(n: Nodes, root: nat, h: nat)
    requires Tree(n, root, h)
    ensures root != 0
  {
  }

  lemma MovedTally(n: Nodes, n': Nodes, root: nat, h: nat, from: nat, to: nat)
    requires Moved(n, n', root, root, h, from, to)
    ensures Tally(n', root, h) + multiset{from} == Tally(n, root, h) + multiset{to}
  {
  }

  lemma MovedIntact(n: Nodes, n': Nodes, root: nat, h: nat, from: nat, to: nat, rest: seq<nat>)
    requires Moved(n, n', root, root, h, from, to) && Apart(Tally(n, root, h), [to] + rest)
    requires Stored(n, Tally(n, root, h)) && from in Tally(n, root, h)
    requires forall x :: x in n ==> x in n' && |n'[x]| == |n[x]|
    requires to in n && |n[to]| == FANOUT
    ensures Intact(n, n', root, h) && Apart(Tally(n', root, h), rest)
    ensures Tally(n', root, h) <= Tally(n, root, h) + multiset{to}
  {
    hide WellFormed, Tally, Distinct, SameContents, Apart;
    var all, all' := Tally(n, root, h), Tally(n', root, h);
    ApartTaken(all, [to], rest);
    assert forall x :: x in all' ==> (all' + multiset{from})[x] == (all + multiset{to})[x];
    assert all' <= all + multiset{to};
    assert multiset([to]) == multiset{to};
    ApartParts(all + multiset{to}, all', rest);
    ApartDistinct(all', rest);
  }

  /** The two stores of a migration, each followed by a fence: at every point in between, a crash
      finds either the old tree or the new one. */
  lemma MigrationViews(n: Nodes, n1: Nodes, n2: Nodes, b: nat, i: nat, d: nat, img: Nodes)
    requires b in n && i < |n[b]| && n[b][i] in n && d in n && b != d && |n[n[b][i]]| == |n[d]|
    requires n1 == n[d := n[n[b][i]]] && n2 == n1[b := WithWord(n1[b], i, d)]
    ensures CrashImage(n, n1, img) ==> img.Keys == n.Keys && forall x :: x in n && x != d ==> img[x] == n[x]
    ensures CrashImage(n1, n1, img) ==> img == n1
    ensures CrashImage(n1, n2, img) ==> img == n1 || img == n2
    ensures CrashImage(n2, n2, img) ==> img == n2
  {
    if CrashImage(n, n1, img) {
      forall x | x in n && x != d ensures img[x] == n[x] {
      }
    }
    if CrashImage(n1, n1, img) {
      NothingUnfenced(n1, img);
    }
    if CrashImage(n2, n2, img) {
      NothingUnfenced(n2, img);
    }
    if CrashImage(n1, n2, img) {
      OneWord(n1, n2, b, i, d, img);
    }
  }

  lemma NothingUnfenced(n: Nodes, img: Nodes)
    requires CrashImage(n, n, img)
    ensures img == n
  {
    forall x | x in n ensures img[x] == n[x] {
    }
  }

  lemma ViewsSafe(n: Nodes, n1: Nodes, n2: Nodes, b: nat, i: nat, d: nat, root: nat, h: nat)
    requires Tree(n, root, h) && Stored(n, Tally(n, root, h)) && d !in Tally(n, root, h)
    requires b in n && i < |n[b]| && n[b][i] in n && d in n && b != d && |n[n[b][i]]| == |n[d]|
    requires n1 == n[d := n[n[b][i]]] && n2 == n1[b := WithWord(n1[b], i, d)] && Intact(n, n2, root, h)
    ensures forall v, img ::
      v in [View(n, n1), View(n1, n1), View(n1, n2), View(n2, n2)] && CrashImage(v.durable, v.current, img) ==>
        Intact(n, img, root, h)
  {
    hide Tree, Stored, Intact, Tally, CrashImage;
    forall v, img | v in [View(n, n1), View(n1, n1), View(n1, n2), View(n2, n2)] &&
      CrashImage(v.durable, v.current, img)
      ensures Intact(n, img, root, h)
    {
      MigrationViews(n, n1, n2, b, i, d, img);
      if img != n2 {
        CopyImage(n, img, root, h, d);
      }
    }
  }

  lemma OneWord(n1: Nodes, n2: Nodes, b: nat, i: nat, d: nat, img: Nodes)
    requires b in n1 && i < |n1[b]| && n2 == n1[b := WithWord(n1[b], i, d)] && CrashImage(n1, n2, img)
    ensures img == n1 || img == n2
  {
    assert forall x :: x in img && x != b ==> img[x] == n1[x];
    if img[b][i] == d {
      assert img[b] == n2[b];
      assert img == n2;
    } else {
      assert img[b] == n1[b];
      assert img == n1;
    }
  }

  /** The pages below b on the way to file block k, from the top down, as far as it is mapped. */
  ghost function Path(n: Nodes, b: nat, h: nat, k: nat): (path: seq<nat>)
    ensures |path| <= h
    decreases h
  {
    if h == 0 || b == 0 || b !in n || Index(k, Cap(h - 1)) >= |n[b]| then []
    else
      var p := n[b][Index(k, Cap(h - 1))];
      if p == 0 then [] else [p] + Path(n, p, h - 1, Rest(k, Cap(h - 1)))
  }

  /** Number of worn pages among those of a path. */
  ghost function WornIn(path: seq<nat>, tired: set<nat>): nat {
    if path == [] then 0
    else WornIn(path[..|path| - 1], tired) + (if path[|path| - 1] in tired then 1 else 0)
  }

  /** The page that takes the place of page i of a path: the worn ones are exchanged, from the top down, for the
      blocks of the supply, as far as those go. */
  ghost function Other(path: seq<nat>, i: nat, tired: set<nat>, supply: seq<nat>): nat
    requires i < |path|
  {
    var j := WornIn(path[..i], tired);
    if path[i] in tired && j < |supply| then supply[j] else path[i]
  }

  ghost predicate Exchanged(path: seq<nat>, path': seq<nat>, tired: set<nat>, supply: seq<nat>) {
    |path'| == |path| && forall i :: 0 <= i < |path| ==> path'[i] == Other(path, i, tired, supply)
  }

  /** The tree's blocks are the old ones with the one path exchanged for the other, and no page has changed but
      those of the two paths and the root. */
  ghost predicate OnlyPath(n: Nodes, n': Nodes, root: nat, h: nat, path: seq<nat>, path': seq<nat>) {
    && Tally(n', root, h) + multiset(path) == Tally(n, root, h) + multiset(path')
    && forall x :: x in n && x != root && x !in path && x !in path' ==> x in n' && n'[x] == n[x]
  }

  /** The exchange has come as far as the first j pages of the path. */
  ghost predicate ExchangedTo(path: seq<nat>, path': seq<nat>, tired: set<nat>, supply: seq<nat>, j: nat) {
    && |path'| == |path| && j <= |path| && WornIn(path[..j], tired) <= |supply|
    && (forall i :: 0 <= i < j ==> path'[i] == Other(path, i, tired, supply))
    && forall i :: j <= i < |path| ==> path'[i] == path[i]
  }

  lemma NextExchanged(path: seq<nat>, path': seq<nat>, tired: set<nat>, supply: seq<nat>, j: nat)
    requires ExchangedTo(path, path', tired, supply, j) && j < |path|
    ensures var w, w' := WornIn(path[..j], tired), WornIn(path[..j + 1], tired);
      if path[j] !in tired then w' == w && ExchangedTo(path, path', tired, supply, j + 1)
      else w' == w + 1 && (w < |supply| ==> ExchangedTo(path, path'[j := supply[w]], tired, supply, j + 1))
  {
    assert path[..j + 1][..j] == path[..j];
  }

  lemma {:induction false} WornGrows(path: seq<nat>, tired: set<nat>, i: nat, j: nat)
    requires i <= j <= |path|
    ensures WornIn(path[..i], tired) <= WornIn(path[..j], tired)
  {
    if i < j {
      WornGrows(path, tired, i, j - 1);
      assert path[..j][..j - 1] == path[..j - 1];
    }
  }

  /** The supply has run out at page j, which is worn. */
  lemma RunOut(path: seq<nat>, path': seq<nat>, tired: set<nat>, supply: seq<nat>, j: nat)
    requires ExchangedTo(path, path', tired, supply, j) && j < |path| && path[j] in tired
    requires WornIn(path[..j], tired) == |supply|
    ensures Exchanged(path, path', tired, supply) && WornIn(path, tired) > |supply|
  {
    NextExchanged(path, path', tired, supply, j);
    WornGrows(path, tired, j + 1, |path|);
    assert path[..|path|] == path;
    forall i | j <= i < |path| ensures path'[i] == Other(path, i, tired, supply) {
      WornGrows(path, tired, j, i);
    }
  }

  lemma AllExchanged(path: seq<nat>, path': seq<nat>, tired: set<nat>, supply: seq<nat>)
    requires ExchangedTo(path, path', tired, supply, |path|) && forall x :: x in supply ==> x !in tired
    ensures Exchanged(path, path', tired, supply) && WornIn(path, tired) <= |supply| && WornIn(path', tired) == 0
  {
    assert path[..|path|] == path;
    forall i | 0 <= i < |path| ensures path'[i] !in tired {
      WornGrows(path, tired, i + 1, |path|);
      assert path[..i + 1][..i] == path[..i];
    }
    NoneWorn(path', tired);
  }

  lemma {:induction false} NoneWorn(path: seq<nat>, tired: set<nat>)
    requires forall i :: 0 <= i < |path| ==> path[i] !in tired
    ensures WornIn(path, tired) == 0
  {
    if path != [] {
      NoneWorn(path[..|path| - 1], tired);
    }
  }

  /** One page more has been exchanged. */
  lemma OnlyPathStep(n0: Nodes, n: Nodes, n': Nodes, root: nat, h: nat, path0: seq<nat>, path: seq<nat>, j: nat,
        b: nat, i: nat, d: nat)
    requires OnlyPath(n0, n, root, h, path0, path) && SlotMoved(n, n', b, i, d) && j < |path| == |path0|
    requires path[j] == path0[j] == n[b][i] && b == (if j == 0 then root else path[j - 1])
    requires Tally(n', root, h) + multiset{path[j]} == Tally(n, root, h) + multiset{d}
    ensures OnlyPath(n0, n', root, h, path0, path[j := d])
  {
    hide Tally;
    var path' := path[j := d];
    SwapEntry(path, j, d);
    BalanceTrans(Tally(n0, root, h), Tally(n, root, h), Tally(n', root, h), path0, path, path', path[j], d);
    forall x | x in n0 && x != root && x !in path0 && x !in path' ensures x in n' && n'[x] == n0[x] {
      NotAnEntry(path, j, d, x);
      assert path'[j] == d && (j > 0 ==> path'[j - 1] == b);
    }
  }

  lemma NotAnEntry(path: seq<nat>, j: nat, d: nat, x: nat)
    requires j < |path| && x != path[j] && x !in path[j := d]
    ensures x !in path
  {
    assert forall m :: 0 <= m < |path| && m != j ==> path[j := d][m] == path[m];
  }

  lemma SwapEntry(path: seq<nat>, j: nat, d: nat)
    requires j < |path|
    ensures multiset(path[j := d]) + multiset{path[j]} == multiset(path) + multiset{d}
  {
    assert path == path[..j] + [path[j]] + path[j + 1..];
    assert path[j := d] == path[..j] + [d] + path[j + 1..];
  }

  lemma BalanceTrans(t0: multiset<nat>, t: multiset<nat>, t': multiset<nat>, p0: seq<nat>, p: seq<nat>, p': seq<nat>,
        x: nat, d: nat)
    requires t + multiset(p0) == t0 + multiset(p)
    requires t' + multiset{x} == t + multiset{d} && multiset(p') + multiset{x} == multiset(p) + multiset{d}
    ensures t' + multiset(p0) == t0 + multiset(p')
  {
    forall y: nat ensures (t' + multiset(p0))[y] == (t0 + multiset(p'))[y] {
      assert (t + multiset(p0))[y] == (t0 + multiset(p))[y];
      assert (t' + multiset{x})[y] == (t + multiset{d})[y];
      assert (multiset(p') + multiset{x})[y] == (multiset(p) + multiset{d})[y];
    }
  }

  lemma PathDown(n: Nodes, b: nat, h: nat, k: nat)
    requires h > 0 && b != 0 && b in n && Index(k, Cap(h - 1)) < |n[b]|
    ensures var p := n[b][Index(k, Cap(h - 1))];
      Path(n, b, h, k) == if p == 0 then [] else [p] + Path(n, p, h - 1, Rest(k, Cap(h - 1)))
  {
  }

  /** The way leads through the tree's own blocks only. */
  lemma {:induction false} PathFrame(n: Nodes, n': Nodes, b: nat, h: nat, k: nat)
    requires AgreeOn(n, n', Tally(n, b, h)) && (b != 0 ==> WellFormed(n, b, h)) && k < Cap(h)
    ensures Path(n', b, h, k) == Path(n, b, h, k)
    decreases h
  {
    hide AgreeOn, TallyRange, Index, Rest, Cap;
    if h > 0 && b != 0 {
      Position(h, k);
      var i := Index(k, Cap(h - 1));
      AgreeOnChild(n, n', b, h - 1, i);
      PathFrame(n, n', n[b][i], h - 1, Rest(k, Cap(h - 1)));
    }
  }

  /** The subtree at height h on the path is itself a tree. */
  lemma {:induction false} PathTree(n: Nodes, b: nat, top: nat, k: nat, h: nat, d: nat)
    requires 0 < h <= top && Tree(n, b, top) && Stored(n, Tally(n, b, top)) && k < Cap(top)
    requires d !in Tally(n, b, top) && NodeAt(n, b, top, k, h) != 0
    ensures var bp := NodeAt(n, b, top, k, h);
      Tree(n, bp, h) && Stored(n, Tally(n, bp, h)) && d !in Tally(n, bp, h)
    decreases top
  {
    hide Index, Rest, Stored, Tally, Distinct, Cap;
    if h < top {
      TreeRoot(n, b, top);
      Position(top, k);
      PathChild(n, b, top, Index(k, Cap(top - 1)), d);
      PathTree(n, n[b][Index(k, Cap(top - 1))], top - 1, Rest(k, Cap(top - 1)), h, d);
    }
  }

  /** A page of the path replaced by its copy: the way leads through the copy and is otherwise the same. */
  lemma {:induction false} PathExchanged(n: Nodes, n': Nodes, b: nat, top: nat, k: nat, h: nat, d: nat)
    requires 0 < h <= top && Tree(n, b, top) && Stored(n, Tally(n, b, top)) && k < Cap(top)
    requires d != 0 && d !in Tally(n, b, top) && NodeAt(n, b, top, k, h) != 0
    requires SlotMoved(n, n', NodeAt(n, b, top, k, h), Index(RestAt(top, k, h), Cap(h - 1)), d)
    ensures top - h < |Path(n, b, top, k)| && Path(n', b, top, k) == Path(n, b, top, k)[top - h := d]
    decreases top
  {
    hide Index, Rest, Stored, Tally, TallyRange, Distinct, Cap, SlotMoved, Tree, WellFormed, Path, Lookup;
    RootParts(n, b, top);
    Position(top, k);
    var i, r := Index(k, Cap(top - 1)), Rest(k, Cap(top - 1));
    PathDown(n, b, top, k);
    PathStep(n, b, top, k, h);
    if h == top {
      PathInit(n, b, top, k);
      SlotParts(n, n', b, i, d);
      PathDown(n', b, top, k);
      PathCopied(n, n', b, h, i, d, k);
    } else {
      var c, bp := n[b][i], NodeAt(n, b, top, k, h);
      PathStep(n, c, top - 1, r, h);
      PathChild(n, b, top, i, d);
      PathExchanged(n, n', c, top - 1, r, h, d);
      RootNotBelow(n, b, top, i, bp, d);
      Untouched(n, n', bp, Index(RestAt(top, k, h), Cap(h - 1)), d, b);
      PathDown(n', b, top, k);
    }
  }

  lemma RootParts(n: Nodes, b: nat, h: nat)
    requires h > 0 && Tree(n, b, h)
    ensures WellFormed(n, b, h) && b != 0 && b in n && |n[b]| == FANOUT
  {
  }

  lemma SlotParts(n: Nodes, n': Nodes, b: nat, i: nat, d: nat)
    requires SlotMoved(n, n', b, i, d)
    ensures b in n && b in n' && i < |n[b]| == |n'[b]| && n'[b][i] == d && n[b][i] != 0
  {
  }

  lemma RootNotBelow(n: Nodes, b: nat, h: nat, i: nat, x: nat, d: nat)
    requires Tree(n, b, h) && h > 1 && b in n && i < |n[b]| && n[b][i] != 0 && x in Tally(n, n[b][i], h - 1)
    requires d !in Tally(n, b, h)
    ensures b != x && b != d
  {
    hide TallyRange;
    ChildDistinct(n, b, h, i);
  }

  lemma PathCopied(n: Nodes, n': Nodes, b: nat, h: nat, i: nat, d: nat, k: nat)
    requires h > 0 && Tree(n, b, h) && Stored(n, Tally(n, b, h)) && d !in Tally(n, b, h) && d != 0 && k < Cap(h)
    requires b in n && |n[b]| == FANOUT && i == Index(k, Cap(h - 1)) && SlotMoved(n, n', b, i, d)
    ensures i < FANOUT
    ensures Path(n', d, h - 1, Rest(k, Cap(h - 1))) == Path(n, n[b][i], h - 1, Rest(k, Cap(h - 1)))
  {
    hide Stored, TallyRange, Index, Rest, Cap, Distinct;
    TreeWhole(n, b, h);
    Position(h, k);
    var p, r := n[b][i], Rest(k, Cap(h - 1));
    if h > 1 {
      PathChild(n, b, h, i, d);
      TreeWhole(n, p, h - 1);
      NodeShape(n, p, h - 1);
      Position(h - 1, r);
      var j := Index(r, Cap(h - 2));
      TallyOne(n, n[p], h - 2, 0, j, FANOUT);
      AgreeAway(n, n', b, i, d, Tally(n, n[p][j], h - 2));
      PathFrame(n, n', n[p][j], h - 2, Rest(r, Cap(h - 2)));
    }
  }

  // ---- Looking up a block --------------------------------------------------------------------------------

  /** A lookup has led to block bp, or to 0: the worn pages on the way have been exchanged, and nothing else has
      been touched; what the supply lacked makes a mapped block read as a hole. */
  ghost predicate Retrieved(n0: Nodes, n: Nodes, root: nat, top: nat, k: nat, tired: set<nat>, supply0: seq<nat>,
        supply: seq<nat>, bp: nat)
  {
    var path0, path := Path(n0, root, top, k), Path(n, root, top, k);
    && Exchanged(path0, path, tired, supply0) && OnlyPath(n0, n, root, top, path0, path)
    && if WornIn(path0, tired) <= |supply0|
       then bp == Lookup(n, root, top, k) && WornIn(path, tired) == 0 && supply == supply0[WornIn(path0, tired)..]
       else bp == 0 && supply == []
  }

  /** The lookup has come down to block bp at height h, where nr is left of k. */
  ghost predicate Walked(n0: Nodes, n: Nodes, root: nat, top: nat, k: nat, h: nat, bp: nat, nr: nat, tired: set<nat>,
        supply0: seq<nat>, supply: seq<nat>)
  {
    && h <= top && bp != 0 && bp == NodeAt(n, root, top, k, h) && nr == RestAt(top, k, h)
    && Lookup(n, root, top, k) == Lookup(n, bp, h, nr) && (forall x :: x in supply0 ==> x !in tired)
    && var path0, path, j := Path(n0, root, top, k), Path(n, root, top, k), top - h;
       && ExchangedTo(path0, path, tired, supply0, j) && path[j..] == Path(n, bp, h, nr)
       && OnlyPath(n0, n, root, top, path0, path) && bp == (if j == 0 then root else path[j - 1])
       && supply == supply0[WornIn(path0[..j], tired)..] && (j > 0 ==> bp !in tired)
  }

  lemma WalkStart(n: Nodes, root: nat, top: nat, k: nat, tired: set<nat>, supply: seq<nat>)
    requires root != 0 && forall x :: x in supply ==> x !in tired
    ensures Walked(n, n, root, top, k, top, root, k, tired, supply, supply)
  {
    hide Path, Lookup, Tally, NodeAt, RestAt;
    PathInit(n, root, top, k);
    var path := Path(n, root, top, k);
    assert path[..0] == [] && path[0..] == path;
  }

  /** The walk ends at a data block or in front of a hole. */
  lemma WalkEnd(n0: Nodes, n: Nodes, root: nat, top: nat, k: nat, h: nat, bp: nat, nr: nat, tired: set<nat>,
        supply0: seq<nat>, supply: seq<nat>)
    requires Walked(n0, n, root, top, k, h, bp, nr, tired, supply0, supply) && Path(n, bp, h, nr) == []
    ensures Retrieved(n0, n, root, top, k, tired, supply0, supply, Lookup(n, bp, h, nr))
  {
    hide Path, Lookup, OnlyPath, NodeAt, RestAt, Exchanged, ExchangedTo, WornIn;
    var path0, path := Path(n0, root, top, k), Path(n, root, top, k);
    ExchangedSize(path0, path, tired, supply0, top - h);
    assert |path[top - h..]| == 0;
    assert path0[..|path0|] == path0;
    AllExchanged(path0, path, tired, supply0);
  }

  lemma ExchangedSize(path: seq<nat>, path': seq<nat>, tired: set<nat>, supply: seq<nat>, j: nat)
    requires ExchangedTo(path, path', tired, supply, j)
    ensures |path'| == |path| && j <= |path| && WornIn(path[..j], tired) <= |supply| && path'[j..] == path[j..]
    ensures forall i :: j <= i < |path| ==> path'[i] == path[i]
  {
  }

  /** The walk meets page p next. */
  lemma WalkNext(n0: Nodes, n: Nodes, root: nat, top: nat, k: nat, h: nat, bp: nat, nr: nat, tired: set<nat>,
        supply0: seq<nat>, supply: seq<nat>, p: nat)
    requires Walked(n0, n, root, top, k, h, bp, nr, tired, supply0, supply) && h > 0 && p != 0
    requires Path(n, bp, h, nr) == [p] + Path(n, p, h - 1, Rest(nr, Cap(h - 1)))
    ensures var path0, path, j := Path(n0, root, top, k), Path(n, root, top, k), top - h;
      j < |path| == |path0| && path[j] == path0[j] == p && path[j + 1..] == Path(n, p, h - 1, Rest(nr, Cap(h - 1)))
  {
    hide Path, Lookup, OnlyPath, NodeAt, RestAt, ExchangedTo, WornIn, Rest, Cap;
    var path0, path, j := Path(n0, root, top, k), Path(n, root, top, k), top - h;
    ExchangedSize(path0, path, tired, supply0, j);
    assert path[j] == path[j..][0] && path[j + 1..] == path[j..][1..];
  }

  /** It is worn, and no block is left. */
  lemma WalkOut(n0: Nodes, n: Nodes, root: nat, top: nat, k: nat, h: nat, bp: nat, nr: nat, tired: set<nat>,
        supply0: seq<nat>, supply: seq<nat>, p: nat)
    requires Walked(n0, n, root, top, k, h, bp, nr, tired, supply0, supply) && h > 0 && p != 0
    requires Path(n, bp, h, nr) == [p] + Path(n, p, h - 1, Rest(nr, Cap(h - 1)))
    requires p in tired && supply == []
    ensures Retrieved(n0, n, root, top, k, tired, supply0, supply, 0)
  {
    hide Path, Lookup, OnlyPath, NodeAt, RestAt, Exchanged, ExchangedTo, WornIn, Rest, Cap;
    var path0, path, j := Path(n0, root, top, k), Path(n, root, top, k), top - h;
    WalkNext(n0, n, root, top, k, h, bp, nr, tired, supply0, supply, p);
    ExchangedSize(path0, path, tired, supply0, j);
    RunOut(path0, path, tired, supply0, j);
  }

  /** It is good: the walk goes on there. */
  lemma WalkOn(n0: Nodes, n: Nodes, root: nat, top: nat, k: nat, h: nat, bp: nat, nr: nat, tired: set<nat>,
        supply0: seq<nat>, supply: seq<nat>, p: nat)
    requires Walked(n0, n, root, top, k, h, bp, nr, tired, supply0, supply) && h > 0 && p != 0 && p !in tired
    requires Path(n, bp, h, nr) == [p] + Path(n, p, h - 1, Rest(nr, Cap(h - 1)))
    requires p == NodeAt(n, root, top, k, h - 1) && Rest(nr, Cap(h - 1)) == RestAt(top, k, h - 1)
    requires Lookup(n, bp, h, nr) == Lookup(n, p, h - 1, Rest(nr, Cap(h - 1)))
    ensures Walked(n0, n, root, top, k, h - 1, p, Rest(nr, Cap(h - 1)), tired, supply0, supply)
  {
    hide Path, Lookup, OnlyPath, NodeAt, RestAt, ExchangedTo, WornIn, Rest, Cap;
    var path0, path, j := Path(n0, root, top, k), Path(n, root, top, k), top - h;
    WalkNext(n0, n, root, top, k, h, bp, nr, tired, supply0, supply, p);
    NextExchanged(path0, path, tired, supply0, j);
  }

  /** It is worn and has been replaced by block d: the walk goes on there. */
  lemma WalkMoved(n0: Nodes, n: Nodes, n': Nodes, root: nat, top: nat, k: nat, h: nat, bp: nat, nr: nat,
        tired: set<nat>, supply0: seq<nat>, supply: seq<nat>, i: nat, d: nat)
    requires Walked(n0, n, root, top, k, h, bp, nr, tired, supply0, [d] + supply) && h > 0
    requires bp in n && i < |n[bp]| && n[bp][i] in tired && n[bp][i] != 0
    requires Path(n, bp, h, nr) == [n[bp][i]] + Path(n, n[bp][i], h - 1, Rest(nr, Cap(h - 1)))
    requires SlotMoved(n, n', bp, i, d) && d != 0
    requires Tally(n', root, top) + multiset{n[bp][i]} == Tally(n, root, top) + multiset{d}
    requires |Path(n, root, top, k)| > top - h && Path(n', root, top, k) == Path(n, root, top, k)[top - h := d]
    requires Path(n', d, h - 1, Rest(nr, Cap(h - 1))) == Path(n, n[bp][i], h - 1, Rest(nr, Cap(h - 1)))
    requires d == NodeAt(n', root, top, k, h - 1) && Rest(nr, Cap(h - 1)) == RestAt(top, k, h - 1)
    requires Lookup(n', root, top, k) == Lookup(n', d, h - 1, Rest(nr, Cap(h - 1)))
    ensures Walked(n0, n', root, top, k, h - 1, d, Rest(nr, Cap(h - 1)), tired, supply0, supply)
  {
    hide Path, Lookup, OnlyPath, NodeAt, RestAt, ExchangedTo, WornIn, Rest, Cap, Tally, SlotMoved;
    var path0, path, j := Path(n0, root, top, k), Path(n, root, top, k), top - h;
    WalkNext(n0, n, root, top, k, h, bp, nr, tired, supply0, [d] + supply, n[bp][i]);
    NextExchanged(path0, path, tired, supply0, j);
    OnlyPathStep(n0, n, n', root, top, path0, path, j, bp, i, d);
    var w := WornIn(path0[..j], tired);
    ExchangedSize(path0, path, tired, supply0, j);
    assert supply0[w..][0] == d && supply0[w..][1..] == supply0[w + 1..];
    assert path[j := d][j + 1..] == path[j + 1..];
    assert d in supply0;
  }

  lemma WalkReplaced(n0: Nodes, n: Nodes, n': Nodes, root: nat, top: nat, k: nat, h: nat, bp: nat, nr: nat,
        tired: set<nat>, supply0: seq<nat>, supply: seq<nat>, i: nat, d: nat)
    requires Walked(n0, n, root, top, k, h, bp, nr, tired, supply0, [d] + supply) && 0 < h <= top && k < Cap(top)
    requires Tree(n, root, top) && Stored(n, Tally(n, root, top)) && d !in Tally(n, root, top) && d != 0
    requires Tree(n', root, top) && bp in n && i < |n[bp]| && n[bp][i] in tired && n[bp][i] != 0
    requires i == Index(RestAt(top, k, h), Cap(h - 1))
    requires SlotMoved(n, n', bp, i, d) && NodeAt(n', root, top, k, h) == bp && bp in n' && i < |n'[bp]|
    requires n'[bp][i] == d
    requires Tally(n', root, top) + multiset{n[bp][i]} == Tally(n, root, top) + multiset{d}
    ensures Walked(n0, n', root, top, k, h - 1, d, Rest(nr, Cap(h - 1)), tired, supply0, supply)
  {
    hide Path, Lookup, NodeAt, RestAt, Rest, Index, Cap, Tally, SlotMoved, Walked, Tree, Stored, WellFormed;
    WalkedHere(n0, n, root, top, k, h, bp, nr, tired, supply0, [d] + supply);
    TreeWhole(n, root, top);
    TreeWhole(n', root, top);
    PathStep(n, root, top, k, h);
    PathStep(n', root, top, k, h);
    NodeShape(n, bp, h);
    PathDown(n, bp, h, nr);
    LookupDown(n', bp, h, nr);
    PathExchanged(n, n', root, top, k, h, d);
    PathTree(n, root, top, k, h, d);
    PathCopied(n, n', bp, h, i, d, nr);
    WalkMoved(n0, n, n', root, top, k, h, bp, nr, tired, supply0, supply, i, d);
  }

  lemma WalkedHere(n0: Nodes, n: Nodes, root: nat, top: nat, k: nat, h: nat, bp: nat, nr: nat, tired: set<nat>,
        supply0: seq<nat>, supply: seq<nat>)
    requires Walked(n0, n, root, top, k, h, bp, nr, tired, supply0, supply)
    ensures h <= top && bp != 0 && bp == NodeAt(n, root, top, k, h) && nr == RestAt(top, k, h)
    ensures Lookup(n, root, top, k) == Lookup(n, bp, h, nr) && (h < top ==> bp !in tired)
    ensures forall x :: x in supply ==> x !in tired
  {
    hide Path, Lookup, NodeAt, RestAt, OnlyPath, ExchangedTo;
  }

  // ---- The allocator without -ENOMEM ------------------------------------------------------------------------

  /** What wpmfs_replace_tired_page does when its allocator reports -ENOSPC, for which it does not test: block g,
      whatever number the unset variable holds, gets the page under pointer i of block b and replaces it. */
  function ReplacedByUnset(n: Nodes, b: nat, i: nat, g: nat): Nodes
    requires b in n && i < |n[b]| && n[b][i] in n && b != g
  {
    var copied := n[g := n[n[b][i]]];
    copied[b := WithWord(copied[b], i, g)]
  }

  /** In a file of height 1: if that number is the data page of another file block, the contents of that block are
      gone and both file blocks share one page. */
  lemma UnsetBlockLosesPage(n: Nodes, root: nat, k: nat, other: nat)
    requires Tree(n, root, 1) && Stored(n, Tally(n, root, 1)) && k < FANOUT && other < FANOUT && k != other
    requires root in n && |n[root]| == FANOUT && n[root][k] != 0 && n[root][other] != 0
    ensures var p, g := n[root][k], n[root][other];
      && p == Lookup(n, root, 1, k) && g == Lookup(n, root, 1, other) && p in n && g in n && root != g
      && var n' := ReplacedByUnset(n, root, k, g);
         Lookup(n', root, 1, k) == g && Lookup(n', root, 1, other) == g && n'[g] == n[p]
  {
    hide Tally, Stored, Distinct;
    var p, g := n[root][k], n[root][other];
    PageOfRoot(n, root, k);
    PageOfRoot(n, root, other);
    assert Index(k, 1) == k && Index(other, 1) == other;
    assert Cap(0) == 1;
  }

  lemma PageOfRoot(n: Nodes, root: nat, k: nat)
    requires Tree(n, root, 1) && Stored(n, Tally(n, root, 1)) && k < FANOUT && root in n && |n[root]| == FANOUT
    requires n[root][k] != 0
    ensures n[root][k] in n && n[root][k] != root
  {
    hide TallyRange;
    TreeRoot(n, root, 1);
    TallyOne(n, n[root], 0, 0, k, FANOUT);
    var x := n[root][k];
    assert x in Tally(n, x, 0);
    assert x in TallyRange(n, n[root], 0, 0, FANOUT);
  }

  class PagedFile {
    /** Current contents of the device's pages, and what has been fenced. */
    var mem: Nodes
    ghost var durable: Nodes
    /** Every view so far at which a crash could strike. */
    ghost var views: seq<View>
    const root: nat
    const height: nat
    var supply: seq<nat>
    /** Pages marked as worn. */
    var tired: set<nat>

    /** A quiet file: everything fenced, the tree whole, the free blocks apart from it. */
    ghost predicate Valid()
      reads this
    {
      && durable == mem && height > 0 && Tree(mem, root, height) && Apart(Tally(mem, root, height), supply)
      && Stored(mem, Tally(mem, root, height)) && Stored(mem, multiset(supply))
    }

    method StorePage(d: nat, page: seq<nat>)
      modifies this`mem, this`views
      ensures mem == old(mem)[d := page] && views == old(views) + [View(durable, mem)]
    {
      mem := mem[d := page];
      views := views + [View(durable, mem)];
    }

    method StoreWord(b: nat, i: nat, v: nat)
      requires b in mem && i < |mem[b]|
      modifies this`mem, this`views
      ensures mem == old(mem)[b := WithWord(old(mem)[b], i, v)] && views == old(views) + [View(durable, mem)]
    {
      mem := mem[b := WithWord(mem[b], i, v)];
      views := views + [View(durable, mem)];
    }

    method Fence()
      modifies this`durable, this`views
      ensures durable == mem && views == old(views) + [View(durable, mem)]
    {
      durable := mem;
      views := views + [View(durable, mem)];
    }

    /** Copies the page under pointer i of block b to block d and redirects the pointer. */
    method MovePage(b: nat, i: nat, d: nat, ghost rest: seq<nat>, ghost k: nat, ghost h: nat)
      requires Valid() && 0 < h <= height && k < Cap(height) && supply == rest && d in mem && |mem[d]| == FANOUT
      requires Apart(Tally(mem, root, height), [d] + rest)
      requires b == NodeAt(mem, root, height, k, h) && b != 0 && b in mem
      requires i == Index(RestAt(height, k, h), Cap(h - 1))
      requires i < |mem[b]| && mem[b][i] != 0 && mem[b][i] in Tally(mem, root, height) && b in Tally(mem, root, height)
      modifies this`mem, this`durable, this`views
      ensures Valid() && Intact(old(mem), mem, root, height) && SlotMoved(old(mem), mem, b, i, d)
      ensures d !in Tally(old(mem), root, height)
      ensures Tally(mem, root, height) + multiset{old(mem)[b][i]} == Tally(old(mem), root, height) + multiset{d}
      ensures NodeAt(mem, root, height, k, h) == b && b in mem && i < |mem[b]| && mem[b][i] == d != 0
      ensures old(views) <= views && CrashSafe(old(mem), views, |old(views)|, root, height)
    {
      hide Tree, Apart, Stored, Tally, NodeAt, RestAt, Moved, Intact, Index, Cap, SlotMoved, CrashImage, WellFormed;
      ghost var n, v := mem, views;
      var p := mem[b][i];
      DestinationFree(n, root, height, b, p, d, rest);
      StorePage(d, mem[p]);
      ghost var n1 := mem;
      Fence();
      StoreWord(b, i, d);
      Fence();
      ghost var n2 := mem;
      SlotIs(n, n1, n2, b, i, d);
      PathMoved(n, n2, root, height, k, h, d);
      MovedTally(n, n2, root, height, p, d);
      assert n2.Keys == n.Keys;
      MovedIntact(n, n2, root, height, p, d, rest);
      StoredAfter(n, n2, Tally(n2, root, height), rest, Tally(n, root, height), d);
      IntactTree(n, n2, root, height);
      ViewsSafe(n, n1, n2, b, i, d, root, height);
      ghost var more := [View(n, n1), View(n1, n1), View(n1, n2), View(n2, n2)];
      assert views == v + more;
      assert forall j :: |v| <= j < |views| ==> views[j] in more;
    }

    /** Device block of a file block; worn pages met on the way are replaced first
        (__pmfs_find_data_block with wpmfs_retrieve_datablk). When the blocks run out, a mapped block reads
        as a hole. */
    method FindDataBlock(k: nat) returns (bp: nat)
      requires Valid() && k < Cap(height) && forall x :: x in supply ==> x !in tired
      modifies this`mem, this`durable, this`views, this`supply
      ensures Valid() && Intact(old(mem), mem, root, height) && old(views) <= views
      ensures CrashSafe(old(mem), views, |old(views)|, root, height)
      ensures Retrieved(old(mem), mem, root, height, k, tired, old(supply), supply, bp)
      ensures bp !in tired - {0}
    {
      hide Tree, Apart, Stored, Tally, NodeAt, RestAt, Intact, Index, Rest, Cap, WellFormed, Lookup, CrashSafe, Path,
        SlotMoved, Retrieved, Walked;
      ghost var n0, v0, s0 := mem, views, supply;
      IntactSelf(mem, root, height);
      EmptyViews(mem, views, root, height);
      WalkStart(mem, root, height, k, tired, supply);
      bp := root;
      var h: nat, nr: nat := height, k;
      while h > 0
        invariant 0 <= h <= height && bp != 0 && (h == height || bp !in tired)
        invariant Valid() && Intact(n0, mem, root, height) && v0 <= views && CrashSafe(n0, views, |v0|, root, height)
        invariant Walked(n0, mem, root, height, k, h, bp, nr, tired, s0, supply)
        decreases h
      {
        WalkedHere(n0, mem, root, height, k, h, bp, nr, tired, s0, supply);
        TreeWhole(mem, root, height);
        PathStep(mem, root, height, k, h);
        NodeShape(mem, bp, h);
        var i := Index(nr, Cap(h - 1));
        LookupDown(mem, bp, h, nr);
        PathDown(mem, bp, h, nr);
        var p := mem[bp][i];
        if p == 0 {
          WalkEnd(n0, mem, root, height, k, h, bp, nr, tired, s0, supply);
          return 0;
        }
        if p in tired {
          if supply == [] {
            WalkOut(n0, mem, root, height, k, h, bp, nr, tired, s0, supply, p);
            return 0;
          }
          PathPointer(mem, root, height, k, h);
          var d := supply[0];
          ghost var n1, v1, rest := mem, views, supply[1..];
          assert supply == [d] + rest;
          supply := supply[1..];
          SupplyStored(mem, Tally(mem, root, height), d, rest);
          MovePage(bp, i, d, rest, k, h);
          MoreViews(n0, n1, mem, v0, v1, views, root, height);
          WalkReplaced(n0, n1, mem, root, height, k, h, bp, nr, tired, s0, rest, i, d);
          p := d;
        } else {
          WalkOn(n0, mem, root, height, k, h, bp, nr, tired, s0, supply, p);
        }
        bp, nr, h := p, Rest(nr, Cap(h - 1)), h - 1;
      }
      LookupLeaf(mem, bp, nr);
      WalkEnd(n0, mem, root, height, k, h, bp, nr, tired, s0, supply);
    }

    /** Moves the data page of file block k to a block chosen by the caller
        (wpmfs_replace_single_datablk). Nothing happens to a hole. */
    method ReplaceDataBlock(k: nat, d: nat) returns (replaced: bool)
      requires Valid() && k < Cap(height) && d in mem && |mem[d]| == FANOUT
      requires Apart(Tally(mem, root, height), [d] + supply)
      modifies this`mem, this`durable, this`views
      ensures Valid() && Intact(old(mem), mem, root, height) && old(views) <= views
      ensures CrashSafe(old(mem), views, |old(views)|, root, height)
      ensures replaced <==> Lookup(old(mem), root, height, k) != 0
      ensures Lookup(mem, root, height, k) == if replaced then d else 0
      ensures var p := Lookup(old(mem), root, height, k);
        replaced ==> Tally(mem, root, height) + multiset{p} == Tally(old(mem), root, height) + multiset{d}
    {
      hide Tree, Apart, Stored, Tally, NodeAt, RestAt, Intact, Index, Rest, Cap, WellFormed, Lookup, CrashSafe;
      ghost var n0, v0 := mem, views;
      IntactSelf(mem, root, height);
      EmptyViews(mem, views, root, height);
      PathInit(mem, root, height, k);
      var b, i := root, 0;
      var h: nat, nr: nat := height, k;
      while true
        invariant 0 < h <= height && mem == n0 && views == v0 && durable == mem
        invariant b != 0 && b == NodeAt(mem, root, height, k, h) && nr == RestAt(height, k, h)
        invariant Lookup(mem, root, height, k) == Lookup(mem, b, h, nr)
        decreases h
      {
        TreeWhole(mem, root, height);
        PathStep(mem, root, height, k, h);
        NodeShape(mem, b, h);
        LookupDown(mem, b, h, nr);
        i := Index(nr, Cap(h - 1));
        if mem[b][i] == 0 {
          return false;
        }
        if h == 1 {
          break;
        }
        b, nr, h := mem[b][i], Rest(nr, Cap(h - 1)), h - 1;
      }
      PathPointer(mem, root, height, k, 1);
      LookupLeaf(mem, mem[b][i], Rest(nr, Cap(0)));
      MovePage(b, i, d, supply, k, 1);
      TreeWhole(mem, root, height);
      PathStep(mem, root, height, k, 1);
      LookupDown(mem, b, 1, nr);
      LookupLeaf(mem, d, Rest(nr, Cap(0)));
      replaced := true;
    }
  }

  lemma IntactSelf(n: Nodes, root: nat, h: nat)
    requires Tree(n, root, h) && Stored(n, Tally(n, root, h))
    ensures Intact(n, n, root, h) && root != 0
  {
    hide Tally, Distinct, WellFormed;
    AgreedContents(n, n, root, h);
    TreeNonZero(n, root, h);
  }

  lemma PathInit(n: Nodes, root: nat, h: nat, k: nat)
    ensures NodeAt(n, root, h, k, h) == root && RestAt(h, k, h) == k
  {
  }

  lemma TreeWhole(n: Nodes, root: nat, h: nat)
    requires Tree(n, root, h)
    ensures WellFormed(n, root, h)
  {
  }

  lemma NodeShape(n: Nodes, b: nat, h: nat)
    requires h > 0 && WellFormed(n, b, h)
    ensures b != 0 && b in n && |n[b]| == FANOUT
  {
  }

  lemma LookupDown(n: Nodes, b: nat, h: nat, k: nat)
    requires h > 0 && b != 0 && b in n && Index(k, Cap(h - 1)) < |n[b]|
    ensures Lookup(n, b, h, k) == Lookup(n, n[b][Index(k, Cap(h - 1))], h - 1, Rest(k, Cap(h - 1)))
    ensures n[b][Index(k, Cap(h - 1))] == 0 ==> Lookup(n, b, h, k) == 0
  {
  }

  lemma LookupLeaf(n: Nodes, b: nat, k: nat)
    ensures Lookup(n, b, 0, k) == b
  {
  }

  /** The pointer to be followed next leads to another of the tree's blocks. */
  lemma PathPointer(n: Nodes, b: nat, top: nat, k: nat, h: nat)
    requires 0 < h <= top && WellFormed(n, b, top) && k < Cap(top) && NodeAt(n, b, top, k, h) != 0
    requires NodeAt(n, b, top, k, h - 1) != 0
    ensures NodeAt(n, b, top, k, h - 1) in Tally(n, b, top)
  {
    hide TallyRange, Index, Rest;
    if h > 1 {
      PathStep(n, b, top, k, h);
      PathStep(n, b, top, k, h - 1);
    } else {
      PathStep(n, b, top, k, 1);
      var bp, r := NodeAt(n, b, top, k, 1), RestAt(top, k, 1);
      LookupDown(n, bp, 1, r);
      MappedIsUsed(n, b, top, k);
    }
  }

  lemma SupplyStored(n: Nodes, m: multiset<nat>, d: nat, rest: seq<nat>)
    requires Stored(n, multiset([d] + rest)) && Apart(m, [d] + rest)
    ensures Stored(n, multiset(rest)) && d in n && |n[d]| == FANOUT && Apart(m, rest)
  {
    hide Distinct;
    assert forall x :: x in rest ==> x in [d] + rest;
    assert d in [d] + rest;
    ApartTaken(m, [d], rest);
    ApartParts(m + multiset([d]), m, rest);
  }

  lemma MoreViews(n0: Nodes, n1: Nodes, n2: Nodes, v0: seq<View>, v1: seq<View>, v2: seq<View>, root: nat, h: nat)
    requires Intact(n0, n1, root, h) && Intact(n1, n2, root, h) && v0 <= v1 <= v2
    requires CrashSafe(n0, v1, |v0|, root, h) && CrashSafe(n1, v2, |v1|, root, h)
    ensures Intact(n0, n2, root, h) && CrashSafe(n0, v2, |v0|, root, h)
  {
    hide Intact, CrashImage;
    IntactTrans(n0, n1, n2, root, h);
    CrashSafeTrans(n0, n1, v2, |v1|, root, h);
    forall j, img | |v0| <= j < |v2| && CrashImage(v2[j].durable, v2[j].current, img) ensures Intact(n0, img, root, h) {
      if j < |v1| {
        assert v2[j] == v1[j];
      }
    }
  }

  lemma EmptyViews(n: Nodes, v: seq<View>, root: nat, h: nat)
    ensures CrashSafe(n, v, |v|, root, h)
  {
  }

  lemma DestinationFree(n: Nodes, root: nat, h: nat, b: nat, p: nat, d: nat, rest: seq<nat>)
    requires Apart(Tally(n, root, h), [d] + rest) && Stored(n, Tally(n, root, h))
    requires b in Tally(n, root, h) && p in Tally(n, root, h)
    ensures d != 0 && d !in Tally(n, root, h) && b != d && p != d && p in n && |n[p]| == FANOUT
  {
    hide Tally, Distinct;
    assert d in [d] + rest;
    if d in Tally(n, root, h) {
      ApartNotIn(Tally(n, root, h), [d] + rest, d);
    }
  }

  lemma SlotIs(n: Nodes, n1: Nodes, n2: Nodes, b: nat, i: nat, d: nat)
    requires b in n && i < |n[b]| && n[b][i] in n && n[b][i] != 0 && d in n && b != d
    requires n1 == n[d := n[n[b][i]]] && n2 == n1[b := WithWord(n1[b], i, d)]
    ensures SlotMoved(n, n2, b, i, d)
  {
  }

  lemma StoredAfter(n: Nodes, n2: Nodes, m2: multiset<nat>, rest: seq<nat>, m: multiset<nat>, d: nat)
    requires Stored(n, m) && Stored(n, multiset(rest)) && m2 <= m + multiset{d} && d in n && |n[d]| == FANOUT
    requires forall x :: x in n ==> x in n2 && |n2[x]| == |n[x]|
    ensures Stored(n2, m2) && Stored(n2, multiset(rest))
  {
  }

  lemma IntactTree(n: Nodes, n2: Nodes, root: nat, h: nat)
    requires h > 0 && Intact(n, n2, root, h)
    ensures Tree(n2, root, h) && Stored(n2, Tally(n2, root, h))
  {
  }
}
