/** The list of in-use block ranges: what it denotes, and what taking or freeing a range does to it. */
module BlockList {

  /** One interval node; the id stands for its address. */
  datatype Node = Node(id: nat, low: nat, high: nat)

  /** Block b is in use. */
  predicate In(list: seq<Node>, b: nat) {
    exists i :: 0 <= i < |list| && list[i].low <= b <= list[i].high
  }

  /** Sorted, with at least one free block between neighbours. */
  predicate Separated(list: seq<Node>) {
    && (forall i :: 0 <= i < |list| ==> list[i].low <= list[i].high)
    && forall i, j :: 0 <= i < j < |list| ==> list[i].high + 1 < list[j].low
  }

  /** Addresses are distinct, not null, and below the next fresh one. */
  predicate Addressed(list: seq<Node>, fresh_: nat) {
    && (forall i :: 0 <= i < |list| ==> 0 < list[i].id < fresh_)
    && forall i, j :: 0 <= i < j < |list| ==> list[i].id != list[j].id
  }

  predicate HasId(list: seq<Node>, id: nat) {
    exists i :: 0 <= i < |list| && list[i].id == id
  }

  /** Number of blocks in use. */
  function Total(list: seq<Node>): int {
    if list == [] then 0 else Total(list[..|list| - 1]) + (list[|list| - 1].high - list[|list| - 1].low + 1)
  }

  function Interval(low: nat, high: nat): (s: set<nat>)
    ensures forall b: nat :: b in s <==> low <= b <= high
    decreases high
  {
    if high < low then {} else if high == 0 then {0} else Interval(low, high - 1) + {high}
  }

  /** The blocks in use, as a set. */
  function Blocks(list: seq<Node>): set<nat> {
    if list == [] then {} else Blocks(list[..|list| - 1]) + Interval(list[|list| - 1].low, list[|list| - 1].high)
  }

  lemma {:induction false} IntervalSize(low: nat, high: nat)
    requires low <= high
    ensures |Interval(low, high)| == high - low + 1
    decreases high - low
  {
    if low < high {
      IntervalSize(low, high - 1);
      AddOne(Interval(low, high - 1), high);
    } else if high > 0 {
      assert Interval(low, high - 1) == {};
    }
  }

  lemma AddOne(s: set<nat>, x: nat)
    requires x !in s
    ensures |s + {x}| == |s| + 1
  {
  }

  /** The list denotes a set of Total blocks. */
  lemma {:induction false} DenotesSet(list: seq<Node>)
    requires Separated(list)
    ensures |Blocks(list)| == Total(list) && forall b: nat :: b in Blocks(list) <==> In(list, b)
  {
    hide In, Separated;
    if list != [] {
      var front, n := list[..|list| - 1], list[|list| - 1];
      SeparatedPart(list, 0, |list| - 1);
      DenotesSet(front);
      DenotesMore(list, front, n);
    } else {
      forall b: nat ensures !In(list, b) {
        InNone(b);
      }
    }
  }

  lemma InNone(b: nat)
    ensures !In([], b)
  {
  }

  lemma DenotesMore(list: seq<Node>, front: seq<Node>, n: Node)
    requires Separated(list) && list == front + [n]
    requires |Blocks(front)| == Total(front) && forall b: nat :: b in Blocks(front) <==> In(front, b)
    ensures |Blocks(list)| == Total(list) && forall b: nat :: b in Blocks(list) <==> In(list, b)
  {
    hide In;
    assert list[..|list| - 1] == front && list[|list| - 1] == n;
    forall b: nat ensures b in Blocks(list) <==> In(list, b) {
      InConcat(front, [n], b);
      InOne(n, b);
    }
    forall b | b in Blocks(front) ensures b !in Interval(n.low, n.high) {
      BeforeLast(list, front, n, b);
    }
    assert Blocks(front) !! Interval(n.low, n.high);
    IntervalSize(n.low, n.high);
  }

  lemma BeforeLast(list: seq<Node>, front: seq<Node>, n: Node, b: nat)
    requires Separated(list) && list == front + [n] && In(front, b)
    ensures b < n.low
  {
    var i :| 0 <= i < |front| && front[i].low <= b <= front[i].high;
    assert list[i].high + 1 < list[|front|].low;
  }

  // ---- Putting lists together ----------------------------------------------------------------------

  lemma InConcat(a: seq<Node>, c: seq<Node>, b: nat)
    ensures In(a + c, b) <==> In(a, b) || In(c, b)
  {
    if In(a, b) {
      var i :| 0 <= i < |a| && a[i].low <= b <= a[i].high;
      assert (a + c)[i] == a[i];
    }
    if In(c, b) {
      var i :| 0 <= i < |c| && c[i].low <= b <= c[i].high;
      assert (a + c)[|a| + i] == c[i];
    }
  }

  lemma InOne(n: Node, b: nat)
    ensures In([n], b) <==> n.low <= b <= n.high
  {
    assert [n][0] == n;
  }

  lemma In3(a: seq<Node>, m: seq<Node>, c: seq<Node>, b: nat)
    ensures In(a + m + c, b) <==> In(a, b) || In(m, b) || In(c, b)
  {
    InConcat(a + m, c, b);
    InConcat(a, m, b);
  }

  lemma {:induction false} TotalConcat(a: seq<Node>, c: seq<Node>)
    ensures Total(a + c) == Total(a) + Total(c)
    decreases |c|
  {
    if c == [] {
      assert a + c == a;
    } else {
      var front := c[..|c| - 1];
      TotalConcat(a, front);
      assert (a + c)[..|a + c| - 1] == a + front;
    }
  }

  /** All of list lies in [lo..hi]. */
  predicate Inside(list: seq<Node>, lo: nat, hi: nat) {
    forall i :: 0 <= i < |list| ==> lo <= list[i].low && list[i].high <= hi
  }

  /** Lists in front of and behind an interval, each with a gap. */
  predicate Around(a: seq<Node>, c: seq<Node>, lo: nat, hi: nat) {
    && (forall i :: 0 <= i < |a| ==> a[i].high + 1 < lo)
    && (forall i :: 0 <= i < |c| ==> hi + 1 < c[i].low)
  }

  lemma SeparatedJoin(a: seq<Node>, m: seq<Node>, c: seq<Node>, lo: nat, hi: nat)
    requires Separated(a) && Separated(m) && Separated(c) && Inside(m, lo, hi) && Around(a, c, lo, hi) && lo <= hi
    ensures Separated(a + m + c)
  {
    var l := a + m + c;
    forall i, j | 0 <= i < j < |l| ensures l[i].high + 1 < l[j].low {
      if i < |a| <= j < |a| + |m| {
        assert m[j - |a|].low >= lo;
      } else if |a| <= i < |a| + |m| <= j {
        assert m[i - |a|].high <= hi && c[j - |a| - |m|].low > hi + 1;
      }
    }
  }

  lemma SplitAround(list: seq<Node>, i: nat, k: nat)
    requires Separated(list) && i < k <= |list|
    ensures list == list[..i] + list[i..k] + list[k..]
    ensures Separated(list[..i]) && Separated(list[i..k]) && Separated(list[k..])
    ensures Around(list[..i], list[k..], list[i].low, list[k - 1].high)
    ensures Inside(list[i..k], list[i].low, list[k - 1].high)
    ensures list[i].low <= list[k - 1].high
  {
    var m, c := list[i..k], list[k..];
    assert forall j :: 0 <= j < |m| ==> m[j] == list[i + j];
    assert forall j :: 0 <= j < |c| ==> c[j] == list[k + j];
    SeparatedPart(list, 0, i);
    SeparatedPart(list, i, k);
    SeparatedPart(list, k, |list|);
    InsidePart(list, i, k);
  }

  lemma SeparatedPart(list: seq<Node>, i: nat, k: nat)
    requires Separated(list) && i <= k <= |list|
    ensures Separated(list[i..k])
  {
    var m := list[i..k];
    forall a, b | 0 <= a < b < |m| ensures m[a].high + 1 < m[b].low {
      assert m[a] == list[i + a] && m[b] == list[i + b];
    }
  }

  lemma InsidePart(list: seq<Node>, i: nat, k: nat)
    requires Separated(list) && i < k <= |list|
    ensures Inside(list[i..k], list[i].low, list[k - 1].high) && list[i].low <= list[k - 1].high
  {
    forall j | i <= j < k ensures list[i].low <= list[j].low && list[j].high <= list[k - 1].high {
      if i < j {
        assert list[i].high + 1 < list[j].low;
      }
      if j < k - 1 {
        assert list[j].high + 1 < list[k - 1].low;
      }
    }
  }

  // ---- Freeing ---------------------------------------------------------------------------------------

  /** What is left of node n when low to high is freed from it. */
  function Pieces(n: Node, low: nat, high: nat, id: nat): seq<Node>
    requires n.low <= low <= high <= n.high
  {
    (if n.low < low then [n.(high := low - 1)] else [])
    + (if high < n.high then [Node(if n.low < low then id else n.id, high + 1, n.high)] else [])
  }

  predicate Holds(list: seq<Node>, i: int, low: nat, high: nat) {
    0 <= i < |list| && list[i].low <= low && high <= list[i].high
  }

  function FreeAt(list: seq<Node>, i: nat, low: nat, high: nat, id: nat): seq<Node>
    requires low <= high && Holds(list, i, low, high)
  {
    list[..i] + Pieces(list[i], low, high, id) + list[i + 1..]
  }

  /** First node from index i on that does not end before block low. */
  function FindFrom(list: seq<Node>, low: nat, i: nat): (j: nat)
    requires i <= |list|
    ensures i <= j <= |list|
    ensures forall k :: i <= k < j ==> list[k].high < low
    ensures j < |list| ==> low <= list[j].high
    decreases |list| - i
  {
    if i < |list| && list[i].high < low then FindFrom(list, low, i + 1) else i
  }

  /** The list after freeing low to high, or unchanged if no single node holds that range. */
  function Freed(list: seq<Node>, low: nat, high: nat, id: nat): seq<Node>
    requires low <= high
  {
    var i := FindFrom(list, low, 0);
    if Holds(list, i, low, high) then FreeAt(list, i, low, high, id) else list
  }

  /** A range is held by at most one node, which is the first one not ending before it. */
  lemma HoldsAtFind(list: seq<Node>, i: nat, low: nat, high: nat)
    requires Separated(list) && low <= high && Holds(list, i, low, high)
    ensures FindFrom(list, low, 0) == i
  {
    var j := FindFrom(list, low, 0);
  }

  /** A range of blocks all in use lies within one node, because neighbours are not adjacent. */
  lemma {:induction false} InUseIsHeld(list: seq<Node>, low: nat, high: nat) returns (i: nat)
    requires Separated(list) && low <= high && forall b: nat :: low <= b <= high ==> In(list, b)
    ensures Holds(list, i, low, high)
    decreases high - low
  {
    assert In(list, high);
    if low == high {
      i :| 0 <= i < |list| && list[i].low <= low <= list[i].high;
    } else {
      i := InUseIsHeld(list, low, high - 1);
      var j :| 0 <= j < |list| && list[j].low <= high <= list[j].high;
    }
  }

  lemma PiecesOf(n: Node, low: nat, high: nat, id: nat)
    requires n.low <= low <= high <= n.high
    ensures var p := Pieces(n, low, high, id);
      && Separated(p) && Inside(p, n.low, n.high) && Total(p) == Total([n]) - (high - low + 1)
      && forall b: nat :: In(p, b) <==> n.low <= b <= n.high && !(low <= b <= high)
  {
    hide In, Total;
    var p := Pieces(n, low, high, id);
    Total2(n, n);
    if n.low < low {
      var l := n.(high := low - 1);
      if high < n.high {
        var r := Node(id, high + 1, n.high);
        assert p == [l, r];
        Total2(l, r);
        Middle2(l, r, n.low, n.high);
        forall b: nat ensures In(p, b) <==> n.low <= b <= n.high && !(low <= b <= high) {
          In2(l, r, b);
        }
      } else {
        assert p == [l];
        OnePiece(l, n.low, n.high);
      }
    } else if high < n.high {
      var r := Node(n.id, high + 1, n.high);
      assert p == [r];
      OnePiece(r, n.low, n.high);
    } else {
      assert p == [];
      NoPiece();
    }
  }

  lemma OnePiece(n: Node, lo: nat, hi: nat)
    requires lo <= n.low <= n.high <= hi
    ensures Separated([n]) && Inside([n], lo, hi) && Total([n]) == n.high - n.low + 1
    ensures forall b: nat :: In([n], b) <==> n.low <= b <= n.high
  {
    Total2(n, n);
    forall b: nat ensures In([n], b) <==> n.low <= b <= n.high {
      InOne(n, b);
    }
  }

  lemma NoPiece()
    ensures Total([]) == 0 && forall b: nat :: !In([], b)
  {
    forall b: nat ensures !In([], b) {
      InNone(b);
    }
  }

  lemma Middle2(m: Node, n: Node, lo: nat, hi: nat)
    requires lo <= m.low <= m.high && m.high + 1 < n.low <= n.high <= hi
    ensures Separated([m, n]) && Inside([m, n], lo, hi)
  {
  }

  /** Freeing removes exactly the range from the set of blocks in use. */
  lemma FreeDenotes(list: seq<Node>, i: nat, low: nat, high: nat, id: nat)
    requires Separated(list) && low <= high && Holds(list, i, low, high)
    ensures var l := FreeAt(list, i, low, high, id);
      && Separated(l) && Total(l) == Total(list) - (high - low + 1)
      && forall b: nat :: In(l, b) <==> In(list, b) && !(low <= b <= high)
  {
    hide Pieces, In, Separated, Total;
    var n, a, c, p := list[i], list[..i], list[i + 1..], Pieces(list[i], low, high, id);
    SplitAround(list, i, i + 1);
    assert list[i..i + 1] == [n];
    PiecesOf(n, low, high, id);
    SeparatedJoin(a, p, c, n.low, n.high);
    TotalConcat(a + p, c);
    TotalConcat(a, p);
    TotalConcat(a + [n], c);
    TotalConcat(a, [n]);
    forall b: nat ensures In(FreeAt(list, i, low, high, id), b) <==> In(list, b) && !(low <= b <= high) {
      In3(a, p, c, b);
      In3(a, [n], c, b);
      InOne(n, b);
      NotAround(a, c, n.low, n.high, b);
    }
  }

  lemma NotAround(a: seq<Node>, c: seq<Node>, lo: nat, hi: nat, b: nat)
    requires Around(a, c, lo, hi)
    ensures lo <= b <= hi ==> !In(a, b) && !In(c, b)
  {
  }

  // ---- Taking ----------------------------------------------------------------------------------------

  /** The list after taking the free range low to high behind node i: joined to the neighbours that
      it touches. */
  function TakeAt(list: seq<Node>, i: nat, low: nat, high: nat, id: nat): seq<Node>
    requires i < |list| && list[i].high < low <= high && (i + 1 < |list| ==> high < list[i + 1].low)
  {
    var n := list[i];
    if i + 1 < |list| && high + 1 == list[i + 1].low then
      var next := list[i + 1];
      list[..i] + (if n.high + 1 == low then [Node(n.id, n.low, next.high)] else [n, next.(low := low)]) + list[i + 2..]
    else
      list[..i] + (if n.high + 1 == low then [n.(high := high)] else [n, Node(id, low, high)]) + list[i + 1..]
  }

  lemma Total2(m: Node, n: Node)
    ensures Total([m]) == m.high - m.low + 1 && Total([m, n]) == (m.high - m.low + 1) + (n.high - n.low + 1)
  {
    TotalConcat([m], [n]);
    assert [m, n] == [m] + [n];
  }

  lemma In2(m: Node, n: Node, b: nat)
    ensures In([m, n], b) <==> m.low <= b <= m.high || n.low <= b <= n.high
  {
    InConcat([m], [n], b);
    InOne(m, b);
    InOne(n, b);
    assert [m, n] == [m] + [n];
  }

  /** l is the list with the range low to high added. */
  ghost predicate Adds(list: seq<Node>, l: seq<Node>, low: nat, high: nat) {
    && Separated(l) && Total(l) == Total(list) + (high - low + 1)
    && forall b: nat :: In(l, b) <==> In(list, b) || low <= b <= high
  }

  /** Replacing the middle of a list by another one over the same interval. */
  lemma Replaced(a: seq<Node>, m: seq<Node>, m': seq<Node>, c: seq<Node>, lo: nat, hi: nat, low: nat, high: nat)
    requires Separated(a) && Separated(c) && Separated(m') && Inside(m', lo, hi) && Around(a, c, lo, hi) && lo <= hi
    requires Total(m') == Total(m) + (high - low + 1)
    requires forall b: nat :: In(m', b) <==> In(m, b) || low <= b <= high
    ensures Adds(a + m + c, a + m' + c, low, high)
  {
    hide In, Separated, Total;
    SeparatedJoin(a, m', c, lo, hi);
    TotalConcat(a + m, c);
    TotalConcat(a, m);
    TotalConcat(a + m', c);
    TotalConcat(a, m');
    forall b: nat ensures In(a + m' + c, b) <==> In(a + m + c, b) || low <= b <= high {
      In3(a, m, c, b);
      In3(a, m', c, b);
    }
  }

  /** Taking adds exactly the range to the set of blocks in use. */
  lemma TakeDenotes(list: seq<Node>, i: nat, low: nat, high: nat, id: nat)
    requires Separated(list) && i < |list| && list[i].high < low <= high && (i + 1 < |list| ==> high < list[i + 1].low)
    ensures Adds(list, TakeAt(list, i, low, high, id), low, high)
  {
    hide Adds, In, Total, Separated;
    var n := list[i];
    if i + 1 < |list| && high + 1 == list[i + 1].low {
      var next := list[i + 1];
      TakeTouching(list, i, n, next, low, high);
      var m := if n.high + 1 == low then [Node(n.id, n.low, next.high)] else [n, next.(low := low)];
      assert TakeAt(list, i, low, high, id) == list[..i] + m + list[i + 2..];
    } else {
      TakeFree(list, i, n, low, high, id);
      var m := if n.high + 1 == low then [n.(high := high)] else [n, Node(id, low, high)];
      assert TakeAt(list, i, low, high, id) == list[..i] + m + list[i + 1..];
    }
  }

  lemma NodeOk(list: seq<Node>, i: nat)
    requires Separated(list) && i < |list|
    ensures list[i].low <= list[i].high
  {
  }

  lemma TakeTouching(list: seq<Node>, i: nat, n: Node, next: Node, low: nat, high: nat)
    requires Separated(list) && i + 1 < |list| && list[i] == n && list[i + 1] == next && n.high < low <= high
    requires high + 1 == next.low
    ensures var m := if n.high + 1 == low then [Node(n.id, n.low, next.high)] else [n, next.(low := low)];
      Adds(list, list[..i] + m + list[i + 2..], low, high)
  {
    hide In, Total, Separated, Inside, Adds;
    var m' := if n.high + 1 == low then [Node(n.id, n.low, next.high)] else [n, next.(low := low)];
    SplitAround(list, i, i + 2);
    assert list[i..i + 2] == [n, next];
    Total2(n, next);
    Total2(Node(n.id, n.low, next.high), n);
    Total2(n, next.(low := low));
    NodeOk(list, i);
    NodeOk(list, i + 1);
    if n.high + 1 == low {
      OnePiece(Node(n.id, n.low, next.high), n.low, next.high);
    } else {
      Middle2(n, next.(low := low), n.low, next.high);
    }
    forall b: nat ensures In(m', b) <==> In([n, next], b) || low <= b <= high {
      In2(n, next, b);
      In2(n, next.(low := low), b);
      InOne(Node(n.id, n.low, next.high), b);
    }
    Replaced(list[..i], [n, next], m', list[i + 2..], n.low, next.high, low, high);
  }

  lemma TakeFree(list: seq<Node>, i: nat, n: Node, low: nat, high: nat, id: nat)
    requires Separated(list) && i < |list| && list[i] == n && n.high < low <= high
    requires (i + 1 < |list| ==> high + 1 < list[i + 1].low)
    ensures var m := if n.high + 1 == low then [n.(high := high)] else [n, Node(id, low, high)];
      Adds(list, list[..i] + m + list[i + 1..], low, high)
  {
    hide In, Total, Separated, Inside, Adds;
    var m' := if n.high + 1 == low then [n.(high := high)] else [n, Node(id, low, high)];
    SplitAround(list, i, i + 1);
    assert list[i..i + 1] == [n];
    Total2(n, Node(id, low, high));
    Total2(n.(high := high), n);
    NodeOk(list, i);
    if n.high + 1 == low {
      OnePiece(n.(high := high), n.low, high);
    } else {
      Middle2(n, Node(id, low, high), n.low, high);
    }
    forall b: nat ensures In(m', b) <==> In([n], b) || low <= b <= high {
      In2(n, Node(id, low, high), b);
      InOne(n, b);
      InOne(n.(high := high), b);
    }
    var c := list[i + 1..];
    assert forall j :: 0 <= j < |c| ==> c[j] == list[i + 1 + j];
    Replaced(list[..i], [n], m', list[i + 1..], n.low, high, low, high);
  }
}
