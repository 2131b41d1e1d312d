/** Filling a range of file blocks with fresh device blocks. */
module TreeAlloc {
  import opened BlockTree
  import opened Indexing
  import opened TreeFill
  import opened TreeLevels
  import opened TreeShape
  import opened TreeTruncate

  /** One file block before and after: mappings never change, holes outside the range stay, holes
      inside are filled with blocks taken from the allocator, all of them if allocation succeeded. */
  ghost predicate Filled(old_: nat, new_: nat, inRange: bool, ok: bool, taken: seq<nat>) {
    if old_ != 0 then new_ == old_
    else if !inRange then new_ == 0
    else (new_ == 0 || new_ in taken) && (ok ==> new_ != 0)
  }

  ghost predicate FilledRange(n0: Nodes, n1: Nodes, p: nat, p': nat, h: nat, first: nat, last: nat, ok: bool,
        taken: seq<nat>) {
    forall k :: 0 <= k < Cap(h) ==> Filled(Lookup(n0, p, h, k), Lookup(n1, p', h, k), first <= k <= last, ok, taken)
  }

  /** From block last on, the new tree has a pointer behind a position only if the old one had. */
  ghost predicate NoNewBehind(n0: Nodes, p: nat, h0: nat, n1: Nodes, p': nat, h1: nat, last: nat) {
    forall m: nat :: last <= m && p' != 0 && PointerOutside(n1, p', h1, 0, m) ==>
      p != 0 && PointerOutside(n0, p, h0, 0, m)
  }

  /** The tree under p has become the tree under p'. */
  ghost predicate Grown(n0: Nodes, n1: Nodes, p: nat, p': nat, h: nat, first: nat, last: nat,
                        taken: seq<nat>, added: nat, ok: bool) {
    && (p != 0 ==> p' == p) && (p' != 0 ==> WellFormed(n1, p', h))
    && Tally(n1, p', h) == Tally(n0, p, h) + multiset(taken)
    && Leaves(n1, p', h) == Leaves(n0, p, h) + added
    && FilledRange(n0, n1, p, p', h, first, last, ok, taken)
    && NoNewBehind(n0, p, h, n1, p', h, last)
  }

  /** Metadata changed only inside m and in newly taken blocks. */
  ghost predicate Extended(n0: Nodes, n1: Nodes, m: multiset<nat>, taken: seq<nat>) {
    && (forall x :: x in n0 ==> x in n1 && (x !in m && x !in taken ==> n1[x] == n0[x]))
    && (forall x :: x in n1 ==> x in n0 || x in taken)
  }

  /** The blocks of m and the ones still to be taken are all different. */
  ghost predicate Apart(m: multiset<nat>, supply: seq<nat>) {
    Distinct(m + multiset(supply)) && 0 !in supply
  }

  lemma ApartParts(m: multiset<nat>, part: multiset<nat>, supply: seq<nat>)
    requires Apart(m, supply) && part <= m
    ensures Apart(part, supply)
  {
    assert forall x :: x in part + multiset(supply) ==> (part + multiset(supply))[x] <= (m + multiset(supply))[x];
  }

  lemma ApartTaken(m: multiset<nat>, taken: seq<nat>, rest: seq<nat>)
    requires Apart(m, taken + rest)
    ensures Apart(m + multiset(taken), rest)
  {
    assert multiset(taken + rest) == multiset(taken) + multiset(rest);
    assert m + multiset(taken + rest) == (m + multiset(taken)) + multiset(rest);
    assert forall x :: x in rest ==> x in taken + rest;
  }

  lemma ApartNotIn(m: multiset<nat>, supply: seq<nat>, x: nat)
    requires Apart(m, supply) && x in m
    ensures x !in supply && m[x] == 1
  {
    assert (m + multiset(supply))[x] == m[x] + multiset(supply)[x];
    assert x in m + multiset(supply);
  }

  lemma ApartDistinct(m: multiset<nat>, supply: seq<nat>)
    requires Apart(m, supply)
    ensures Distinct(m)
  {
    forall x | x in m ensures m[x] == 1 {
      ApartNotIn(m, supply, x);
    }
  }

  // ---- The pointers of one node ---------------------------------------------------------------------

  /** State of the loop over a node's pointers: `node` and n0 before, `cur` and n when the pointers
      below i have been dealt with; ok is false if the last of them could not be. */
  ghost predicate FillPointers(n: Nodes, b: nat, node: seq<nat>, cur: seq<nat>, i: nat) {
    && |node| == |cur| == FANOUT && b != 0 && b in n && n[b] == cur
    && forall j :: 0 <= j < FANOUT ==> (node[j] != 0 || i <= j ==> cur[j] == node[j])
  }

  ghost predicate FillTrees(n0: Nodes, n: Nodes, node: seq<nat>, cur: seq<nat>, h: nat, i: nat)
    requires |node| == |cur| == FANOUT
  {
    && (forall j :: 0 <= j < FANOUT && cur[j] != 0 ==> WellFormed(n, cur[j], h))
    && (forall j :: i <= j < FANOUT ==> AgreeOn(n0, n, Tally(n0, node[j], h)))
  }

  ghost predicate FillLookups(n0: Nodes, n: Nodes, node: seq<nat>, cur: seq<nat>, h: nat, first: nat, last: nat, i: nat,
                              ok: bool, taken: seq<nat>)
    requires |node| == |cur| == FANOUT
  {
    forall j, k :: 0 <= j < FANOUT && 0 <= k < Cap(h) ==>
      Filled(Lookup(n0, node[j], h, k), Lookup(n, cur[j], h, k), j < i && InSub(first, last, Cap(h), j, k), ok, taken)
  }

  ghost predicate FillTotals(n0: Nodes, n: Nodes, b: nat, node: seq<nat>, cur: seq<nat>, h: nat, taken: seq<nat>,
        added: nat)
    requires |node| == |cur| == FANOUT
  {
    && TallyRange(n, cur, h, 0, FANOUT) == TallyRange(n0, node, h, 0, FANOUT) + multiset(taken)
    && LeavesRange(n, cur, h, 0, FANOUT) == LeavesRange(n0, node, h, 0, FANOUT) + added
    && Extended(n0, n, multiset{b} + TallyRange(n0, node, h, 0, FANOUT), taken)
  }

  /** Only the subtree in which the range ends can have new pointers next to old ones. */
  ghost predicate FillBehind(n0: Nodes, n: Nodes, node: seq<nat>, cur: seq<nat>, h: nat, last: nat, i: nat)
    requires |node| == |cur| == FANOUT
  {
    var j := Index(last, Cap(h));
    j < i && j < FANOUT ==> NoNewBehind(n0, node[j], h, n, cur[j], h, Rest(last, Cap(h)))
  }

  ghost predicate Fill(n0: Nodes, n: Nodes, b: nat, node: seq<nat>, cur: seq<nat>, h: nat, first: nat, last: nat,
        i: nat,
                       ok: bool, taken: seq<nat>, added: nat) {
    && FillPointers(n, b, node, cur, i)
    && FillTrees(n0, n, node, cur, h, i)
    && FillLookups(n0, n, node, cur, h, first, last, i, ok, taken)
    && FillTotals(n0, n, b, node, cur, h, taken, added)
    && FillBehind(n0, n, node, cur, h, last, i)
  }

  lemma FillInit(n: Nodes, b: nat, node: seq<nat>, h: nat, first: nat, last: nat)
    requires b != 0 && b in n && n[b] == node && |node| == FANOUT
    requires forall j :: 0 <= j < FANOUT && node[j] != 0 ==> WellFormed(n, node[j], h)
    ensures Fill(n, n, b, node, node, h, first, last, Index(first, Cap(h)), true, [], 0)
  {
    hide Tally, Leaves, TallyRange, LeavesRange, WellFormed, Lookup, Cap;
  }

  /** Node b, its subtrees and the supply share nothing. */
  ghost predicate NodeApart(n: Nodes, b: nat, node: seq<nat>, h: nat, supply: seq<nat>)
    requires |node| == FANOUT
  {
    Apart(multiset{b} + TallyRange(n, node, h, 0, FANOUT), supply)
  }

  lemma FillApart(n0: Nodes, n: Nodes, b: nat, node: seq<nat>, cur: seq<nat>, h: nat, taken: seq<nat>, added: nat,
        rest: seq<nat>)
    requires |node| == |cur| == FANOUT
    requires NodeApart(n0, b, node, h, taken + rest) && FillTotals(n0, n, b, node, cur, h, taken, added)
    ensures NodeApart(n, b, cur, h, rest)
  {
    hide Apart, TallyRange, LeavesRange, Extended;
    ApartTaken(multiset{b} + TallyRange(n0, node, h, 0, FANOUT), taken, rest);
    assert multiset{b} + TallyRange(n0, node, h, 0, FANOUT) + multiset(taken) == multiset{b} +
      TallyRange(n, cur, h, 0, FANOUT);
  }

  lemma ChildApart(n: Nodes, b: nat, cur: seq<nat>, h: nat, supply: seq<nat>, i: nat)
    requires |cur| == FANOUT && NodeApart(n, b, cur, h, supply) && i < FANOUT
    ensures Apart(Tally(n, cur[i], h), supply)
    ensures Distinct(TallyRange(n, cur, h, 0, FANOUT)) && b !in TallyRange(n, cur, h, 0, FANOUT) && b !in supply
    ensures forall x :: x in supply ==> x !in TallyRange(n, cur, h, 0, FANOUT)
  {
    hide Apart, TallyRange, Tally;
    var all, below := multiset{b} + TallyRange(n, cur, h, 0, FANOUT), TallyRange(n, cur, h, 0, FANOUT);
    TallyOne(n, cur, h, 0, i, FANOUT);
    ApartParts(all, Tally(n, cur[i], h), supply);
    ApartParts(all, below, supply);
    ApartDistinct(below, supply);
    ApartNotIn(all, supply, b);
    assert all[b] == 1 + below[b];
    forall x | x in supply ensures x !in below {
      if x in below {
        ApartNotIn(below, supply, x);
      }
    }
  }

  /** The other subtrees do not notice that pointer i's subtree has grown. */
  lemma OthersAgree(n: Nodes, n': Nodes, b: nat, cur: seq<nat>, h: nat, i: nat, j: nat, ts: seq<nat>, rest: seq<nat>)
    requires |cur| == FANOUT && NodeApart(n, b, cur, h, ts + rest) && i < FANOUT && j < FANOUT && i != j
    requires Extended(n, n', multiset{b} + Tally(n, cur[i], h), ts)
    ensures AgreeOn(n, n', Tally(n, cur[j], h))
  {
    hide NodeApart, Tally, TallyRange, Distinct;
    ChildApart(n, b, cur, h, ts + rest, j);
    TallyOne(n, cur, h, 0, j, FANOUT);
    forall x | x in Tally(n, cur[j], h) ensures (x in n <==> x in n') && (x in n ==> n[x] == n'[x]) {
      RangeDisjoint(n, cur, h, i, j, x);
      assert x in TallyRange(n, cur, h, 0, FANOUT);
      assert x !in ts + rest;
    }
  }

  lemma AgreedSame(n: Nodes, n': Nodes, p: nat, h: nat)
    requires AgreeOn(n, n', Tally(n, p, h))
    ensures Tally(n', p, h) == Tally(n, p, h) && Leaves(n', p, h) == Leaves(n, p, h)
    ensures WellFormed(n', p, h) <==> WellFormed(n, p, h)
    ensures forall k :: 0 <= k < Cap(h) ==> Lookup(n', p, h, k) == Lookup(n, p, h, k)
  {
    TreeFrame(n, n', p, h);
    forall k | 0 <= k < Cap(h) ensures Lookup(n', p, h, k) == Lookup(n, p, h, k) {
      LookupFrame(n, n', p, h, k);
    }
  }

  /** One pointer's subtree grows: what becomes of the node's totals. */
  lemma GrowOne(n: Nodes, n': Nodes, cur: seq<nat>, p': nat, h: nat, i: nat, ts: seq<nat>, ad: nat)
    requires |cur| == FANOUT && i < FANOUT
    requires forall j :: 0 <= j < FANOUT && j != i ==> AgreeOn(n, n', Tally(n, cur[j], h))
    requires Tally(n', p', h) == Tally(n, cur[i], h) + multiset(ts) && Leaves(n', p', h) == Leaves(n, cur[i], h) + ad
    ensures TallyRange(n', cur[i := p'], h, 0, FANOUT) == TallyRange(n, cur, h, 0, FANOUT) + multiset(ts)
    ensures LeavesRange(n', cur[i := p'], h, 0, FANOUT) == LeavesRange(n, cur, h, 0, FANOUT) + ad
  {
    hide AgreeOn, Tally, Leaves, TallyRange, LeavesRange;
    ReplaceAgreed(n, n', cur, cur[i := p'], h, i);
    CancelSum(TallyRange(n', cur[i := p'], h, 0, FANOUT), Tally(n, cur[i], h), TallyRange(n, cur, h, 0, FANOUT),
      multiset(ts));
  }

  lemma CancelSum(t': multiset<nat>, a: multiset<nat>, t: multiset<nat>, s: multiset<nat>)
    requires t' + a == t + (a + s)
    ensures t' == t + s
  {
    forall x: nat ensures t'[x] == (t + s)[x] {
      assert (t' + a)[x] == (t + (a + s))[x];
    }
  }

  /** Pointer i has been dealt with. */
  ghost predicate StepFacts(n: Nodes, n': Nodes, b: nat, cur: seq<nat>, p': nat, h: nat, first: nat, last: nat, i: nat,
                            ts: seq<nat>, ad: nat, ok: bool, rest: seq<nat>)
    requires |cur| == FANOUT && i < FANOUT
  {
    && NodeApart(n, b, cur, h, ts + rest)
    && Extended(n, n', multiset{b} + Tally(n, cur[i], h), ts)
    && b in n' && n'[b] == cur[i := p']
    && Grown(n, n', cur[i], p', h, SubFirst(first, Cap(h), i), SubLast(last, Cap(h), i), ts, ad, ok)
  }

  lemma TotalsStep(n0: Nodes, n: Nodes, n': Nodes, b: nat, node: seq<nat>, cur: seq<nat>, p': nat, h: nat,
                   first: nat, last: nat, i: nat, taken: seq<nat>, added: nat, ts: seq<nat>, ad: nat, ok: bool,
                     rest: seq<nat>)
    requires |node| == |cur| == FANOUT && i < FANOUT && FillTotals(n0, n, b, node, cur, h, taken, added)
    requires StepFacts(n, n', b, cur, p', h, first, last, i, ts, ad, ok, rest)
    ensures FillTotals(n0, n', b, node, cur[i := p'], h, taken + ts, added + ad)
  {
    hide NodeApart, Tally, Leaves, TallyRange, LeavesRange, AgreeOn, WellFormed, FilledRange, Cap, Extended, SubFirst,
      SubLast;
    forall j | 0 <= j < FANOUT && j != i ensures AgreeOn(n, n', Tally(n, cur[j], h)) {
      OthersAgree(n, n', b, cur, h, i, j, ts, rest);
    }
    GrowOne(n, n', cur, p', h, i, ts, ad);
    TakenMore(TallyRange(n0, node, h, 0, FANOUT), taken, ts);
    TallyOne(n, cur, h, 0, i, FANOUT);
    InSum(multiset{b}, TallyRange(n0, node, h, 0, FANOUT), taken, TallyRange(n, cur, h, 0, FANOUT),
      Tally(n, cur[i], h));
    ExtendedTrans(n0, n, n', multiset{b} + TallyRange(n0, node, h, 0, FANOUT), multiset{b} + Tally(n, cur[i], h),
      taken, ts);
  }

  lemma TakenMore(all: multiset<nat>, taken: seq<nat>, ts: seq<nat>)
    ensures all + multiset(taken) + multiset(ts) == all + multiset(taken + ts)
  {
    assert multiset(taken + ts) == multiset(taken) + multiset(ts);
  }

  lemma InSum(m: multiset<nat>, all: multiset<nat>, taken: seq<nat>, sum: multiset<nat>, part: multiset<nat>)
    requires sum == all + multiset(taken) && part <= sum
    ensures forall x :: x in m + part ==> x in m + all || x in taken
  {
  }

  lemma ExtendedTrans(n0: Nodes, n: Nodes, n': Nodes, m0: multiset<nat>, m1: multiset<nat>, taken: seq<nat>,
        ts: seq<nat>)
    requires Extended(n0, n, m0, taken) && Extended(n, n', m1, ts)
    requires forall x :: x in m1 ==> x in m0 || x in taken
    ensures Extended(n0, n', m0, taken + ts)
  {
  }

  lemma FillTreesStep(n0: Nodes, n: Nodes, n': Nodes, b: nat, node: seq<nat>, cur: seq<nat>, p': nat, h: nat,
                      first: nat, last: nat, i: nat, ts: seq<nat>, ad: nat, ok: bool, rest: seq<nat>)
    requires |node| == |cur| == FANOUT && i < FANOUT && FillTrees(n0, n, node, cur, h, i)
    requires forall j :: i <= j < FANOUT ==> cur[j] == node[j]
    requires StepFacts(n, n', b, cur, p', h, first, last, i, ts, ad, ok, rest)
    ensures FillTrees(n0, n', node, cur[i := p'], h, i + 1)
  {
    hide NodeApart, Tally, Leaves, TallyRange, LeavesRange, AgreeOn, WellFormed, FilledRange, Cap, Extended;
    forall j | 0 <= j < FANOUT && j != i && cur[j] != 0 ensures WellFormed(n', cur[j], h) {
      OthersAgree(n, n', b, cur, h, i, j, ts, rest);
      TreeFrame(n, n', cur[j], h);
    }
    forall j | i < j < FANOUT ensures AgreeOn(n0, n', Tally(n0, node[j], h)) {
      OthersAgree(n, n', b, cur, h, i, j, ts, rest);
      AgreeTrans(n0, n, n', node[j], h);
    }
  }

  lemma FillLookupsStep(n0: Nodes, n: Nodes, n': Nodes, b: nat, node: seq<nat>, cur: seq<nat>, p': nat, h: nat,
                        first: nat, last: nat, i: nat, taken: seq<nat>, ts: seq<nat>, ad: nat, ok: bool, rest: seq<nat>)
    requires |node| == |cur| == FANOUT && i < FANOUT && Index(first, Cap(h)) <= i <= Index(last, Cap(h))
    requires FillLookups(n0, n, node, cur, h, first, last, i, true, taken) && FillTrees(n0, n, node, cur, h, i)
    requires cur[i] == node[i] && StepFacts(n, n', b, cur, p', h, first, last, i, ts, ad, ok, rest)
    ensures FillLookups(n0, n', node, cur[i := p'], h, first, last, i + 1, ok, taken + ts)
  {
    hide NodeApart, Tally, Leaves, TallyRange, LeavesRange, AgreeOn, WellFormed, Cap, Extended, Index, Rest, Lookup,
      Filled;
    AgreedSame(n0, n, node[i], h);
    forall j, k | 0 <= j < FANOUT && 0 <= k < Cap(h)
      ensures Filled(Lookup(n0, node[j], h, k), Lookup(n', cur[i := p'][j], h, k),
                     j < i + 1 && InSub(first, last, Cap(h), j, k), ok, taken + ts)
    {
      if j != i {
        OthersAgree(n, n', b, cur, h, i, j, ts, rest);
        AgreedSame(n, n', cur[j], h);
        FilledMore(Lookup(n0, node[j], h, k), Lookup(n, cur[j], h, k), j < i &&
          InSub(first, last, Cap(h), j, k), ok, taken, ts);
      } else {
        FilledLater(Lookup(n0, node[i], h, k), Lookup(n', p', h, k), InSub(first, last, Cap(h), i, k), ok, taken, ts);
      }
    }
  }

  lemma FilledMore(a: nat, c: nat, inRange: bool, ok: bool, taken: seq<nat>, ts: seq<nat>)
    requires Filled(a, c, inRange, true, taken)
    ensures Filled(a, c, inRange, ok, taken + ts)
  {
  }

  lemma FilledLater(a: nat, c: nat, inRange: bool, ok: bool, taken: seq<nat>, ts: seq<nat>)
    requires Filled(a, c, inRange, ok, ts)
    ensures Filled(a, c, inRange, ok, taken + ts)
  {
  }

  /** Dealing with pointer i keeps the loop's invariant. */
  lemma FillStep(n0: Nodes, n: Nodes, n': Nodes, b: nat, node: seq<nat>, cur: seq<nat>, p': nat, h: nat,
                 first: nat, last: nat, i: nat, taken: seq<nat>, added: nat, ts: seq<nat>, ad: nat, ok: bool,
                   rest: seq<nat>)
    requires Fill(n0, n, b, node, cur, h, first, last, i, true, taken, added)
    requires i < FANOUT && Index(first, Cap(h)) <= i <= Index(last, Cap(h))
    requires StepFacts(n, n', b, cur, p', h, first, last, i, ts, ad, ok, rest)
    ensures Fill(n0, n', b, node, cur[i := p'], h, first, last, i + 1, ok, taken + ts, added + ad)
  {
    hide NodeApart, FillTrees, FillLookups, FillTotals, Extended, Cap, Index, Rest, SubFirst, SubLast;
    assert cur[i] == node[i];
    TotalsStep(n0, n, n', b, node, cur, p', h, first, last, i, taken, added, ts, ad, ok, rest);
    FillTreesStep(n0, n, n', b, node, cur, p', h, first, last, i, ts, ad, ok, rest);
    FillLookupsStep(n0, n, n', b, node, cur, p', h, first, last, i, taken, ts, ad, ok, rest);
    StepGrown(n, n', b, cur, p', h, first, last, i, ts, ad, ok, rest);
    BehindStep(n0, n, n', b, node, cur, p', h, first, last, i, ts, ad, ok, rest);
  }

  lemma BehindStep(n0: Nodes, n: Nodes, n': Nodes, b: nat, node: seq<nat>, cur: seq<nat>, p': nat, h: nat,
                   first: nat, last: nat, i: nat, ts: seq<nat>, ad: nat, ok: bool, rest: seq<nat>)
    requires |node| == |cur| == FANOUT && i < FANOUT && i <= Index(last, Cap(h)) && cur[i] == node[i]
    requires FillTrees(n0, n, node, cur, h, i) && StepFacts(n, n', b, cur, p', h, first, last, i, ts, ad, ok, rest)
    ensures FillBehind(n0, n', node, cur[i := p'], h, last, i + 1)
  {
    hide NodeApart, Tally, Leaves, TallyRange, LeavesRange, AgreeOn, WellFormed, Cap, Extended, FilledRange,
      PointerOutside, Index, Rest;
    var c := Cap(h);
    if Index(last, c) == i {
      LastBound(last, c, i);
      forall m: nat | Rest(last, c) <= m && p' != 0 && PointerOutside(n', p', h, 0, m)
        ensures node[i] != 0 && PointerOutside(n0, node[i], h, 0, m)
      {
        assert SubLast(last, c, i) <= m;
        OutsideFrame(n0, n, node[i], h, 0, m);
      }
    }
  }

  lemma LastBound(last: nat, c: nat, i: nat)
    requires c >= 1 && Index(last, c) == i
    ensures SubLast(last, c, i) == Rest(last, c)
  {
  }

  lemma StepGrown(n: Nodes, n': Nodes, b: nat, cur: seq<nat>, p': nat, h: nat, first: nat, last: nat, i: nat,
                  ts: seq<nat>, ad: nat, ok: bool, rest: seq<nat>)
    requires |cur| == FANOUT && i < FANOUT && StepFacts(n, n', b, cur, p', h, first, last, i, ts, ad, ok, rest)
    ensures (cur[i] != 0 ==> p' == cur[i]) && b in n' && n'[b] == cur[i := p']
  {
    hide NodeApart, Extended, Cap;
  }

  // ---- The ways to deal with a pointer -------------------------------------------------------------

  lemma KeepLeaf(n: Nodes, b: nat, cur: seq<nat>, first: nat, last: nat, i: nat, supply: seq<nat>)
    requires |cur| == FANOUT && i < FANOUT && cur[i] != 0 && b in n && n[b] == cur && NodeApart(n, b, cur, 0, supply)
    ensures StepFacts(n, n, b, cur, cur[i], 0, first, last, i, [], 0, true, supply) && cur[i := cur[i]] == cur
  {
    hide NodeApart, SubFirst, SubLast;
    assert [] + supply == supply;
  }

  lemma NewLeaf(n: Nodes, b: nat, cur: seq<nat>, first: nat, last: nat, i: nat, d: nat, rest: seq<nat>)
    requires |cur| == FANOUT && i < FANOUT && cur[i] == 0 && b in n && NodeApart(n, b, cur, 0, [d] + rest)
    requires Index(first, Cap(0)) <= i <= Index(last, Cap(0))
    ensures StepFacts(n, n[b := cur[i := d]], b, cur, d, 0, first, last, i, [d], 1, true, rest)
  {
    hide Index, Grown, NodeApart, Tally, TallyRange, SubFirst, SubLast;
    assert d in [d] + rest;
    NonZero(n, b, cur, 0, [d] + rest, d);
    LeafBounds(first, last, i);
    LeafGrown(n, n[b := cur[i := d]], d);
  }

  lemma LeafGrown(n: Nodes, n': Nodes, d: nat)
    requires d != 0
    ensures Grown(n, n', 0, d, 0, 0, 0, [d], 1, true)
  {
  }

  lemma LeafBounds(first: nat, last: nat, i: nat)
    ensures SubFirst(first, Cap(0), i) == 0 && SubLast(last, Cap(0), i) == 0
  {
  }

  /** An existing subtree has been filled. */
  lemma OldSubtree(n: Nodes, n': Nodes, b: nat, cur: seq<nat>, h: nat, first: nat, last: nat, i: nat,
                   ts: seq<nat>, ad: nat, ok: bool, rest: seq<nat>)
    requires |cur| == FANOUT && i < FANOUT && cur[i] != 0 && b in n && n[b] == cur && NodeApart(n, b, cur, h, ts + rest)
    requires Grown(n, n', cur[i], cur[i], h, SubFirst(first, Cap(h), i), SubLast(last, Cap(h), i), ts, ad, ok)
    requires Extended(n, n', Tally(n, cur[i], h), ts)
    ensures StepFacts(n, n', b, cur, cur[i], h, first, last, i, ts, ad, ok, rest) && cur[i := cur[i]] == cur
  {
    hide NodeApart, Grown, Tally, TallyRange, Cap, SubFirst, SubLast;
    ChildApart(n, b, cur, h, ts + rest, i);
    TallyOne(n, cur, h, 0, i, FANOUT);
    assert b !in ts + rest && b !in Tally(n, cur[i], h);
  }

  /** A zeroed metadata block is a tree that maps nothing. */
  lemma EmptyNode(n: Nodes, d: nat, h: nat)
    requires h > 0 && d != 0 && d in n && n[d] == ZeroNode()
    ensures WellFormed(n, d, h) && Tally(n, d, h) == multiset{d} && Leaves(n, d, h) == 0
    ensures forall k :: 0 <= k < Cap(h) ==> Lookup(n, d, h, k) == 0
  {
    hide TallyRange, LeavesRange, Cap, Index, Rest;
    RangeOfHoles(n, ZeroNode(), h - 1, 0, FANOUT);
    forall k | 0 <= k < Cap(h) ensures Lookup(n, d, h, k) == 0 {
      Position(h, k);
      assert Lookup(n, d, h, k) == Lookup(n, 0, h - 1, Rest(k, Cap(h - 1)));
    }
  }

  /** A new metadata block d, put under pointer i of node b, has been filled. */
  lemma NewSubtree(n: Nodes, n': Nodes, b: nat, cur: seq<nat>, h: nat, first: nat, last: nat, i: nat, d: nat,
                   ts: seq<nat>, ad: nat, ok: bool, rest: seq<nat>)
    requires h > 0 && |cur| == FANOUT && i < FANOUT && cur[i] == 0 && b in n && n[b] == cur
    requires NodeApart(n, b, cur, h, ([d] + ts) + rest)
    requires var n1 := WithNode(n, b, i, d);
      && Grown(n1, n', d, d, h, SubFirst(first, Cap(h), i), SubLast(last, Cap(h), i), ts, ad, ok)
      && Extended(n1, n', Tally(n1, d, h), ts)
    ensures StepFacts(n, n', b, cur, d, h, first, last, i, [d] + ts, ad, ok, rest)
  {
    hide NodeApart, TallyRange, Cap, SubFirst, SubLast, Tally, Leaves, WellFormed, Lookup;
    var n1 := WithNode(n, b, i, d);
    ChildApart(n, b, cur, h, ([d] + ts) + rest, i);
    assert d in ([d] + ts) + rest && b !in ([d] + ts) + rest;
    NonZero(n, b, cur, h, ([d] + ts) + rest, d);
    assert b !in ts;
    EmptyNode(n1, d, h);
    EmptyPointer(n, h);
    assert multiset([d] + ts) == multiset{d} + multiset(ts);
    assert n'[b] == n1[b];
  }

  lemma NonZero(n: Nodes, b: nat, cur: seq<nat>, h: nat, supply: seq<nat>, d: nat)
    requires |cur| == FANOUT && NodeApart(n, b, cur, h, supply) && d in supply
    ensures d != 0
  {
  }

  lemma EmptyPointer(n: Nodes, h: nat)
    ensures Tally(n, 0, h) == multiset{} && Leaves(n, 0, h) == 0
    ensures forall k :: 0 <= k < Cap(h) ==> Lookup(n, 0, h, k) == 0
  {
  }

  /** Facts for dealing with pointer i. */
  lemma FillHere(n0: Nodes, n: Nodes, b: nat, node: seq<nat>, cur: seq<nat>, h: nat, first: nat, last: nat, i: nat,
                 taken: seq<nat>, added: nat, supply: seq<nat>)
    requires |node| == FANOUT && NodeApart(n0, b, node, h, taken + supply)
    requires Fill(n0, n, b, node, cur, h, first, last, i, true, taken, added)
    ensures |cur| == FANOUT && b in n && n[b] == cur && NodeApart(n, b, cur, h, supply)
    ensures forall j :: 0 <= j < FANOUT && cur[j] != 0 ==> WellFormed(n, cur[j], h)
  {
    hide NodeApart, FillLookups, FillTotals, WellFormed;
    FillApart(n0, n, b, node, cur, h, taken, added, supply);
  }

  lemma AllocReady(n: Nodes, b: nat, h: nat, supply: seq<nat>, first: nat, last: nat)
    requires h > 0 && WellFormed(n, b, h) && Apart(Tally(n, b, h), supply) && first <= last < Cap(h)
    ensures b in n && |n[b]| == FANOUT && NodeApart(n, b, n[b], h - 1, supply)
    ensures Index(first, Cap(h - 1)) <= Index(last, Cap(h - 1)) < FANOUT
  {
    hide Apart, TallyRange;
    OrderedIndex(first, last, Cap(h - 1));
    IndexBound(last, Cap(h - 1), FANOUT);
  }

  lemma OldReady(n: Nodes, b: nat, cur: seq<nat>, h: nat, i: nat, supply: seq<nat>)
    requires |cur| == FANOUT && i < FANOUT && NodeApart(n, b, cur, h, supply)
    ensures Apart(Tally(n, cur[i], h), supply)
  {
    hide NodeApart, Apart, Tally;
    ChildApart(n, b, cur, h, supply, i);
  }

  /** A new metadata block under pointer i is ready to be filled. */
  lemma NewReady(n: Nodes, b: nat, cur: seq<nat>, h: nat, i: nat, d: nat, rest: seq<nat>)
    requires h > 0 && |cur| == FANOUT && i < FANOUT && b in n && n[b] == cur && NodeApart(n, b, cur, h, [d] + rest)
    ensures d != b && d != 0
    ensures var n1 := WithNode(n, b, i, d); WellFormed(n1, d, h) && Apart(Tally(n1, d, h), rest)
  {
    hide NodeApart, TallyRange, Tally, WellFormed, Distinct;
    assert d in [d] + rest;
    ChildApart(n, b, cur, h, [d] + rest, i);
    NonZero(n, b, cur, h, [d] + rest, d);
    EmptyNode(WithNode(n, b, i, d), d, h);
    NodeOfApart(n, b, cur, h, [d] + rest);
    ApartTaken(multiset{}, [d], rest);
    assert multiset{} + multiset([d]) == multiset{d};
  }

  lemma NodeOfApart(n: Nodes, b: nat, cur: seq<nat>, h: nat, supply: seq<nat>)
    requires |cur| == FANOUT && NodeApart(n, b, cur, h, supply)
    ensures Apart(multiset{}, supply)
  {
    hide Distinct, TallyRange;
    ApartParts(multiset{b} + TallyRange(n, cur, h, 0, FANOUT), multiset{}, supply);
  }

  // ---- The whole node ------------------------------------------------------------------------------

  /** No pointer of block b has changed, except from a hole. */
  ghost predicate KeepsPointers(n0: Nodes, n: Nodes, b: nat) {
    && b in n0 && b in n && |n0[b]| == |n[b]| == FANOUT
    && forall i :: 0 <= i < FANOUT && n0[b][i] != 0 ==> n[b][i] == n0[b][i]
  }

  lemma FilledWeaker(a: nat, c: nat, r: bool, r': bool, ok: bool, ok': bool, taken: seq<nat>)
    requires Filled(a, c, r, ok, taken)
    requires (r == r' && (ok' ==> ok)) || ((r ==> r') && !ok')
    ensures Filled(a, c, r', ok', taken)
  {
  }

  /** After the loop, or where it was left because a block could not be allocated. */
  lemma FillEnd(n0: Nodes, n: Nodes, b: nat, h: nat, node: seq<nat>, cur: seq<nat>, first: nat, last: nat, i: nat,
                sofar: bool, ok: bool, taken: seq<nat>, added: nat)
    requires h > 0 && b in n0 && n0[b] == node && first <= last < Cap(h)
    requires Fill(n0, n, b, node, cur, h - 1, first, last, i, sofar, taken, added)
    requires i <= Index(last, Cap(h - 1)) + 1 && (ok ==> sofar && i == Index(last, Cap(h - 1)) + 1)
    ensures Grown(n0, n, b, b, h, first, last, taken, added, ok) && Extended(n0, n, Tally(n0, b, h), taken)
    ensures KeepsPointers(n0, n, b)
  {
    hide Cap, Index, Rest, SubFirst, SubLast, AgreeOn, Filled, FillLookups, TallyRange, LeavesRange, Lookup;
    assert multiset{b} + (TallyRange(n0, node, h - 1, 0, FANOUT) + multiset(taken))
        == (multiset{b} + TallyRange(n0, node, h - 1, 0, FANOUT)) + multiset(taken);
    forall k | 0 <= k < Cap(h) ensures Filled(Lookup(n0, b, h, k), Lookup(n, b, h, k), first <= k <= last, ok, taken) {
      FillLookupEnd(n0, n, b, h, node, cur, first, last, i, sofar, ok, taken, k);
    }
    FillBehindEnd(n0, n, b, h, node, cur, last, i);
  }

  lemma FillBehindEnd(n0: Nodes, n: Nodes, b: nat, h: nat, node: seq<nat>, cur: seq<nat>, last: nat, i: nat)
    requires h > 0 && b in n0 && n0[b] == node && FillPointers(n, b, node, cur, i) && i <= Index(last, Cap(h - 1)) + 1
    requires FillTrees(n0, n, node, cur, h - 1, i) && FillBehind(n0, n, node, cur, h - 1, last, i)
    ensures NoNewBehind(n0, b, h, n, b, h, last)
  {
    hide Tally, AgreeOn, WellFormed, Cap, PointerOutside, Index, Rest, SubLast, Keeps, FillBehind, FillTrees;
    var below := h - 1;
    forall m: nat | last <= m && PointerOutside(n, b, h, 0, m) ensures PointerOutside(n0, b, h, 0, m) {
      OutsideMeans(n, b, below, cur, 0, m);
      var j :| 0 <= j < FANOUT && Keeps(n, cur, below, 0, m, j);
      KeptBefore(n0, n, b, node, cur, below, last, i, m, j);
      OutsideMeans(n0, b, below, node, 0, m);
    }
  }

  /** A pointer behind position m was there before. */
  lemma KeptBefore(n0: Nodes, n: Nodes, b: nat, node: seq<nat>, cur: seq<nat>, h: nat, last: nat, i: nat, m: nat,
        j: nat)
    requires |node| == |cur| == FANOUT && j < FANOUT && last <= m && i <= Index(last, Cap(h)) + 1
    requires FillPointers(n, b, node, cur, i) && FillTrees(n0, n, node, cur, h, i)
    requires FillBehind(n0, n, node, cur, h, last, i)
    requires Keeps(n, cur, h, 0, m, j)
    ensures Keeps(n0, node, h, 0, m, j)
  {
    hide Tally, AgreeOn, WellFormed, Cap, PointerOutside, Index, Rest;
    var c := Cap(h);
    ZeroFirst(c, j);
    SamePlaces(last, m, c, j);
    LastBound(last, c, Index(last, c));
    if j < Index(m, c) {
      NothingOutsideAll(n, cur[j], h);
      LastPart(m, c, j);
    } else if j == Index(m, c) {
      if i <= j {
        OutsideFrame(n0, n, node[j], h, 0, SubLast(m, c, j));
      }
    }
  }

  lemma FillLookupEnd(n0: Nodes, n: Nodes, b: nat, h: nat, node: seq<nat>, cur: seq<nat>, first: nat, last: nat, i: nat,
                      sofar: bool, ok: bool, taken: seq<nat>, k: nat)
    requires h > 0 && b in n0 && n0[b] == node && first <= last && k < Cap(h)
    requires FillPointers(n, b, node, cur, i) && FillLookups(n0, n, node, cur, h - 1, first, last, i, sofar, taken)
    requires ok ==> sofar && i == Index(last, Cap(h - 1)) + 1
    ensures Filled(Lookup(n0, b, h, k), Lookup(n, b, h, k), first <= k <= last, ok, taken)
  {
    hide Cap, Index, Rest, SubFirst, SubLast, Filled;
    var j, r := Index(k, Cap(h - 1)), Rest(k, Cap(h - 1));
    Position(h, k);
    InSubIsRange(first, last, Cap(h - 1), k);
    FilledWeaker(Lookup(n0, node[j], h - 1, r), Lookup(n, cur[j], h - 1, r), j < i &&
      InSub(first, last, Cap(h - 1), j, r),
                 first <= k <= last, sofar, ok, taken);
  }

  // ---- Growing the height ------------------------------------------------------------------------

  /** The same file in a taller tree: only metadata blocks have been added. */
  ghost predicate Raised(n0: Nodes, r0: nat, h0: nat, n: Nodes, r: nat, h: nat, taken: seq<nat>) {
    && h0 <= h && (r == 0 ==> r0 == 0 && h == h0) && (r != 0 ==> WellFormed(n, r, h))
    && Tally(n, r, h) == Tally(n0, r0, h0) + multiset(taken)
    && Leaves(n, r, h) == Leaves(n0, r0, h0)
    && (forall k: nat :: FileLookup(n, r, h, k) == FileLookup(n0, r0, h0, k))
    && NoNewBehind(n0, r0, h0, n, r, h, 0)
  }

  lemma RaisedInit(n: Nodes, r: nat, h: nat)
    requires r != 0 ==> WellFormed(n, r, h)
    ensures Raised(n, r, h, n, r, h, [])
  {
    assert Tally(n, r, h) + multiset{} == Tally(n, r, h);
  }

  lemma RaisedStep(n0: Nodes, r0: nat, h0: nat, n: Nodes, r: nat, h: nat, taken: seq<nat>, d: nat, rest: seq<nat>)
    requires Raised(n0, r0, h0, n, r, h, taken) && Apart(Tally(n0, r0, h0), taken + ([d] + rest))
    ensures Raised(n0, r0, h0, WithTop(n, r, d), d, h + 1, taken + [d])
  {
    hide Tally, Leaves, FileLookup, Apart, WellFormed;
    ApartTaken(Tally(n0, r0, h0), taken, [d] + rest);
    LevelAdded(n, r, h, d, rest);
    TakenMore(Tally(n0, r0, h0), taken, [d]);
  }

  lemma LevelAdded(n: Nodes, r: nat, h: nat, d: nat, rest: seq<nat>)
    requires (r != 0 ==> WellFormed(n, r, h)) && Apart(Tally(n, r, h), [d] + rest)
    ensures var n' := WithTop(n, r, d);
      && d != 0 && WellFormed(n', d, h + 1)
      && Tally(n', d, h + 1) == Tally(n, r, h) + multiset([d])
      && Leaves(n', d, h + 1) == Leaves(n, r, h)
      && (forall k: nat :: FileLookup(n', d, h + 1, k) == FileLookup(n, r, h, k))
      && NoNewBehind(n, r, h, n', d, h + 1, 0)
  {
    hide Tally, Leaves, Cap, Lookup, Distinct;
    var n' := WithTop(n, r, d);
    assert d in [d] + rest && d !in Tally(n, r, h) by {
      if d in Tally(n, r, h) {
        ApartNotIn(Tally(n, r, h), [d] + rest, d);
      }
    }
    AgreedSame(n, n', r, h);
    OnlyFirst(n', d, h + 1);
    forall m: nat | PointerOutside(n', d, h + 1, 0, m) ensures r != 0 && PointerOutside(n, r, h, 0, m) {
      OneLevelUp(n, n', r, h, d, m);
    }
  }

  /** The new top node has one pointer, its first. */
  lemma OneLevelUp(n: Nodes, n': Nodes, r: nat, h: nat, d: nat, m: nat)
    requires d in n' && |n'[d]| == FANOUT && n'[d][0] == r && forall i :: 1 <= i < FANOUT ==> n'[d][i] == 0
    requires AgreeOn(n, n', Tally(n, r, h)) && (r != 0 ==> WellFormed(n, r, h)) && PointerOutside(n', d, h + 1, 0, m)
    ensures r != 0 && PointerOutside(n, r, h, 0, m)
  {
    hide Tally, AgreeOn, WellFormed, Cap, Index, Rest, PointerOutside;
    var c := Cap(h);
    if m < c {
      SubAtZero(m, c);
    } else {
      IndexPositive(m, c);
      LastPart(m, c, 0);
    }
    OutsideMeans(n', d, h, n'[d], 0, m);
    var i :| 0 <= i < FANOUT && Keeps(n', n'[d], h, 0, m, i);
    ZeroFirst(c, i);
    OutsideFrame(n, n', r, h, 0, SubLast(m, c, 0));
    NothingOutsideAll(n, r, h);
  }

  // ---- The whole file --------------------------------------------------------------------------------

  /** An allocation has turned the tree (n0, r0, h0) into (n, r, h). */
  ghost predicate Allocated(n0: Nodes, r0: nat, h0: nat, n: Nodes, r: nat, h: nat, first: nat, last: nat,
                            taken: seq<nat>, added: nat, ok: bool) {
    && (r == 0 ==> h == 0) && (r != 0 ==> WellFormed(n, r, h))
    && Tally(n, r, h) == Tally(n0, r0, h0) + multiset(taken)
    && Leaves(n, r, h) == Leaves(n0, r0, h0) + added
    && (forall k: nat :: Filled(FileLookup(n0, r0, h0, k), FileLookup(n, r, h, k), first <= k <= last, ok, taken))
    && NoNewBehind(n0, r0, h0, n, r, h, last)
  }

  lemma NothingAllocated(n: Nodes, r: nat, h: nat, first: nat, last: nat)
    requires (r == 0 ==> h == 0) && (r != 0 ==> WellFormed(n, r, h))
    ensures Allocated(n, r, h, n, r, h, first, last, [], 0, false)
    ensures h == 0 && last == 0 && r != 0 ==> Allocated(n, r, h, n, r, h, first, last, [], 0, true)
  {
    assert Tally(n, r, h) + multiset{} == Tally(n, r, h);
  }

  lemma OnlyRaised(n0: Nodes, r0: nat, h0: nat, n: Nodes, r: nat, h: nat, taken: seq<nat>, first: nat, last: nat)
    requires Raised(n0, r0, h0, n, r, h, taken) && (r0 == 0 ==> h0 == 0)
    ensures Allocated(n0, r0, h0, n, r, h, first, last, taken, 0, false)
  {
    hide Tally, Leaves, WellFormed, FileLookup;
  }

  lemma RootAllocated(n: Nodes, d: nat)
    requires d != 0
    ensures Allocated(n, 0, 0, n, d, 0, 0, 0, [d], 1, true)
  {
  }

  lemma RaisedAndFilled(n0: Nodes, r0: nat, h0: nat, n: Nodes, r: nat, h: nat, n': Nodes, first: nat, last: nat,
                        t1: seq<nat>, t2: seq<nat>, added: nat, ok: bool)
    requires Raised(n0, r0, h0, n, r, h, t1) && r != 0 && first <= last < Cap(h)
    requires Grown(n, n', r, r, h, first, last, t2, added, ok)
    ensures Allocated(n0, r0, h0, n', r, h, first, last, t1 + t2, added, ok)
  {
    hide Tally, Leaves, WellFormed, Lookup, Cap;
    TakenMore(Tally(n0, r0, h0), t1, t2);
    forall k: nat ensures Filled(FileLookup(n0, r0, h0, k), FileLookup(n', r, h, k), first <= k <= last, ok, t1 + t2) {
      if k < Cap(h) {
        assert Filled(Lookup(n, r, h, k), Lookup(n', r, h, k), first <= k <= last, ok, t2);
        FilledLater(Lookup(n, r, h, k), Lookup(n', r, h, k), first <= k <= last, ok, t1, t2);
        assert FileLookup(n, r, h, k) == FileLookup(n0, r0, h0, k);
      }
    }
  }

  lemma DivDiv(x: nat, a: nat, b: nat)
    requires a >= 1 && b >= 1
    ensures a * b >= 1 && (x / a) / b == x / (a * b)
  {
    DivMod(x, a);
    DivMod(x / a, b);
    var q, r1, r0 := (x / a) / b, (x / a) % b, x % a;
    assert x == q * (a * b) + (r1 * a + r0) by {
      assert (q * b + r1) * a == q * (a * b) + r1 * a;
    }
    MulMono(r1 + 1, b, a);
    Unique(x, a * b, q, r1 * a + r0);
  }

  /** Counting levels from the current height on gives the same height. */
  lemma {:induction false} HeightAbove(x: nat, h: nat)
    requires x >= Cap(h)
    ensures HeightOf(x) == h + HeightOf(x / Cap(h))
  {
    if h > 0 {
      DivDiv(x, FANOUT, Cap(h - 1));
      QuotientReaches(x, Cap(h - 1));
      HeightAbove(x / FANOUT, h - 1);
    }
  }

  lemma QuotientReaches(x: nat, c: nat)
    requires x >= FANOUT * c
    ensures x / FANOUT >= c
  {
  }

  /** A file that needs more than three levels is too large. */
  lemma HeightTop(x: nat)
    requires HeightOf(x) > 3
    ensures x >= Cap(3)
  {
    HeightReaches(x);
    CapMono(3, HeightOf(x) - 1);
  }

  lemma FirstSupplied(m: multiset<nat>, s0: seq<nat>, taken: seq<nat>, d: nat, rest: seq<nat>)
    requires Apart(m, s0) && s0 == taken + ([d] + rest)
    ensures d != 0
  {
    assert d in s0;
  }

  /** A raised tree is ready to be filled. */
  lemma RaisedReady(n0: Nodes, r0: nat, h0: nat, n: Nodes, r: nat, h: nat, taken: seq<nat>, rest: seq<nat>)
    requires Raised(n0, r0, h0, n, r, h, taken) && Apart(Tally(n0, r0, h0), taken + rest) && h > 0
    requires (r0 == 0 ==> h0 == 0)
    ensures r != 0 && WellFormed(n, r, h) && Apart(Tally(n, r, h), rest)
  {
    hide Apart, Tally, WellFormed, FileLookup, Leaves;
    ApartTaken(Tally(n0, r0, h0), taken, rest);
  }

  lemma StillApart(n0: Nodes, r0: nat, h0: nat, n: Nodes, r: nat, h: nat, first: nat, last: nat,
                   taken: seq<nat>, supply: seq<nat>, added: nat, ok: bool)
    requires Allocated(n0, r0, h0, n, r, h, first, last, taken, added, ok) && Apart(Tally(n0, r0, h0), taken + supply)
    ensures Apart(Tally(n, r, h), supply) && Distinct(Tally(n, r, h))
    ensures (r == 0 ==> h == 0) && (r != 0 ==> WellFormed(n, r, h))
  {
    hide Tally, WellFormed, Leaves, Filled, FileLookup, Apart, Distinct;
    ApartTaken(Tally(n0, r0, h0), taken, supply);
    ApartDistinct(Tally(n, r, h), supply);
  }
}
