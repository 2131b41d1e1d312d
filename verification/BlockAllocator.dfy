/** The default block allocator: a sorted list of in-use ranges with aligned first fit. */
module BlockAllocator {
  import opened BlockList
  import opened Indexing

  datatype BlockType = Small | Large | Huge

  /** Number of 4 KB blocks of a block type (pmfs_get_numblocks). */
  function NumBlocks(t: BlockType): (n: nat)
    ensures n >= 1
  {
    match t
    case Small => 1
    case Large => 512
    case Huge => 0x40000
  }

  /** First multiple of num behind block high. The code masks the low bits away, num being a power of two. */
  function AlignedAfter(high: nat, num: nat): (low: nat)
    requires num >= 1
  {
    (high + num) / num * num
  }

  /** It is the least one. */
  lemma AlignedLeast(high: nat, num: nat)
    requires num >= 1
    ensures var low := AlignedAfter(high, num); low % num == 0 && high < low <= high + num
    ensures forall c: nat :: c % num == 0 && high < c ==> AlignedAfter(high, num) <= c
  {
    var q := (high + num) / num;
    DivMod(high + num, num);
    Unique(q * num, num, q, 0);
    forall c: nat | c % num == 0 && high < c ensures q * num <= c {
      DivMod(c, num);
      MulMono(c / num + 1, q, num);
      MulMono(q, c / num, num);
    }
  }

  /** First block behind node i that is in use, or the end of the device. */
  function NextLow(list: seq<Node>, i: nat, end: nat): nat
    requires i < |list|
  {
    if i + 1 < |list| then list[i + 1].low else end
  }

  predicate Fits(list: seq<Node>, i: nat, num: nat, end: nat)
    requires num >= 1 && i < |list|
  {
    AlignedAfter(list[i].high, num) + num - 1 < NextLow(list, i, end)
  }

  /** First node from i on with room for an aligned range behind it. */
  function FirstFit(list: seq<Node>, num: nat, end: nat, i: nat): (j: nat)
    requires num >= 1 && i <= |list|
    ensures i <= j <= |list| && (j < |list| ==> Fits(list, j, num, end))
    ensures forall k :: i <= k < j ==> !Fits(list, k, num, end)
    decreases |list| - i
  {
    if i < |list| && !Fits(list, i, num, end) then FirstFit(list, num, end, i + 1) else i
  }

  /** An aligned run of num free blocks at low. */
  ghost predicate FreeRun(list: seq<Node>, start: nat, end: nat, num: nat, low: nat)
    requires num >= 1
  {
    start <= low && low + num <= end && low % num == 0 && forall b: nat :: low <= b < low + num ==> !In(list, b)
  }

  /** The state of the allocator. The first node starts at the first block and holds the reserved prefix. */
  datatype State = State(list: seq<Node>, next: nat, numFree: int)

  ghost predicate Good(s: State, start: nat, end: nat, reserved: nat) {
    && reserved >= 1 && |s.list| > 0 && Separated(s.list) && Addressed(s.list, s.next) && s.next >= 1
    && s.list[0].low == start && start + reserved - 1 <= s.list[0].high && s.list[|s.list| - 1].high < end
    && s.numFree == end - start - Total(s.list)
  }

  /** Node behind which the free block c lies. */
  lemma {:induction false} GapOf(list: seq<Node>, c: nat, n: nat) returns (i: nat)
    requires Separated(list) && 0 < n <= |list| && list[0].low <= c && !In(list, c)
    requires n == |list| || c < list[n].low
    ensures i < |list| && list[i].high < c && (i + 1 < |list| ==> c < list[i + 1].low)
    decreases n
  {
    assert !(list[n - 1].low <= c <= list[n - 1].high);
    if list[n - 1].high < c {
      i := n - 1;
    } else {
      i := GapOf(list, c, n - 1);
    }
  }

  /** A free run fits behind the node in front of it. */
  lemma RunFits(list: seq<Node>, start: nat, end: nat, num: nat, c: nat) returns (i: nat)
    requires Separated(list) && num >= 1 && |list| > 0 && list[0].low == start && FreeRun(list, start, end, num, c)
    ensures i < |list| && Fits(list, i, num, end) && AlignedAfter(list[i].high, num) <= c
    ensures list[i].high < c
  {
    assert !In(list, c);
    i := GapOf(list, c, |list|);
    AlignedLeast(list[i].high, num);
    if i + 1 < |list| {
      var n := list[i + 1];
      assert n.low <= n.high;
      assert In(list, n.low);
      assert !(c <= n.low < c + num);
    }
  }

  /** First fit finds the lowest aligned free run, and fails only if there is none. */
  lemma FirstFitIsLowest(list: seq<Node>, start: nat, end: nat, num: nat)
    requires Separated(list) && num >= 1 && |list| > 0 && list[0].low == start && list[|list| - 1].high < end
    ensures var i := FirstFit(list, num, end, 0);
      if i == |list| then forall c: nat :: !FreeRun(list, start, end, num, c)
      else
        && FreeRun(list, start, end, num, AlignedAfter(list[i].high, num))
        && forall c: nat :: FreeRun(list, start, end, num, c) ==> AlignedAfter(list[i].high, num) <= c
  {
    hide FreeRun, Fits, AlignedAfter;
    var i := FirstFit(list, num, end, 0);
    if i < |list| {
      assert i + 1 < |list| - 1 ==> list[i + 1].high + 1 < list[|list| - 1].low;
      FitIsFree(list, start, end, num, i);
    }
    forall c: nat | FreeRun(list, start, end, num, c) ensures i < |list| && AlignedAfter(list[i].high, num) <= c {
      var j := RunFits(list, start, end, num, c);
      if i < j {
        AlignedLeast(list[i].high, num);
        FitBound(list, end, num, i);
        assert list[i + 1].low <= list[j].low <= list[j].high by {
          assert i + 1 < j ==> list[i + 1].high + 1 < list[j].low;
        }
      }
    }
  }

  lemma FitBound(list: seq<Node>, end: nat, num: nat, i: nat)
    requires num >= 1 && i < |list| && Fits(list, i, num, end) && i + 1 < |list|
    ensures AlignedAfter(list[i].high, num) < list[i + 1].low
  {
  }

  lemma FitIsFree(list: seq<Node>, start: nat, end: nat, num: nat, i: nat)
    requires Separated(list) && num >= 1 && i < |list| && list[0].low == start && Fits(list, i, num, end)
    requires i + 1 < |list| ==> list[i + 1].low <= end
    ensures FreeRun(list, start, end, num, AlignedAfter(list[i].high, num))
  {
    var low := AlignedAfter(list[i].high, num);
    AlignedLeast(list[i].high, num);
    forall b: nat | low <= b < low + num ensures !In(list, b) {
      forall j | 0 <= j < |list| ensures !(list[j].low <= b <= list[j].high) {
        if j < i {
          assert list[j].high + 1 < list[i].low;
        } else if i + 1 < j {
          assert list[i + 1].high + 1 < list[j].low;
        }
      }
    }
    assert list[0].low <= list[i].high by {
      assert 0 < i ==> list[0].high + 1 < list[i].low;
    }
  }

  // ---- Steps -----------------------------------------------------------------------------------------

  /** State after an allocation of num blocks, whether or not it succeeds. */
  function Taken(s: State, num: nat, end: nat): State
    requires num >= 1
  {
    var i := FirstFit(s.list, num, end, 0);
    if i == |s.list| then s.(next := s.next + 1)
    else
      var low := AlignedAfter(s.list[i].high, num);
      if s.list[i].high < low && (i + 1 < |s.list| ==> low + num - 1 < s.list[i + 1].low) then
        State(TakeAt(s.list, i, low, low + num - 1, s.next), s.next + 1, s.numFree - num)
      else s
  }

  /** State after freeing num blocks from low on. */
  function Released(s: State, low: nat, num: nat): State
    requires num >= 1
  {
    var i := FindFrom(s.list, low, 0);
    State(Freed(s.list, low, low + num - 1, s.next), s.next + 1,
          if Holds(s.list, i, low, low + num - 1) then s.numFree + num else s.numFree)
  }

  /** Every block of the range is in use. */
  ghost predicate AllIn(list: seq<Node>, low: nat, num: nat) {
    forall b: nat :: low <= b < low + num ==> In(list, b)
  }

  lemma AddressedAfter(list: seq<Node>, list': seq<Node>, next: nat)
    requires Addressed(list, next) && next >= 1
    requires forall i :: 0 <= i < |list'| ==> list'[i].id == next || HasId(list, list'[i].id)
    requires forall i, j :: 0 <= i < j < |list'| ==> list'[i].id != list'[j].id
    ensures Addressed(list', next + 1)
  {
    forall i | 0 <= i < |list'| ensures 0 < list'[i].id < next + 1 {
      if list'[i].id != next {
        var j :| 0 <= j < |list| && list[j].id == list'[i].id;
      }
    }
  }

  lemma AddressedFree(list: seq<Node>, i: nat, low: nat, high: nat, next: nat)
    requires Addressed(list, next) && next >= 1 && low <= high && Holds(list, i, low, high)
    ensures Addressed(FreeAt(list, i, low, high, next), next + 1)
  {
    var l := FreeAt(list, i, low, high, next);
    var p := |Pieces(list[i], low, high, next)|;
    forall j | 0 <= j < |l| ensures l[j].id == next || HasId(list, l[j].id) {
      if j < i {
        assert l[j] == list[j];
      } else if j >= i + p {
        assert l[j] == list[j - p + 1];
      }
    }
    forall j, k | 0 <= j < k < |l| ensures l[j].id != l[k].id {
      if k >= i + p {
        assert l[k] == list[k - p + 1];
        if j >= i + p {
          assert l[j] == list[j - p + 1];
        }
      }
    }
    AddressedAfter(list, l, next);
  }

  /** Where the nodes of the new list come from. */
  function Origin(i: nat, d: int, j: int): int {
    if j <= i then j else if d == 1 && j == i + 1 then -1 else j - d
  }

  /** Every node of l has the address of its origin, or the new one. */
  predicate IdsFrom(list: seq<Node>, l: seq<Node>, i: nat, next: nat) {
    var d := |l| - |list|;
    && -1 <= d <= 1
    && forall j :: 0 <= j < |l| ==>
         if Origin(i, d, j) == -1 then l[j].id == next
         else 0 <= Origin(i, d, j) < |list| && l[j].id == list[Origin(i, d, j)].id
  }

  lemma SpliceIds(list: seq<Node>, l: seq<Node>, i: nat, m: seq<Node>, k: nat, next: nat)
    requires i < k <= |list| && l == list[..i] + m + list[k..] && 1 <= |m| <= 2 && k <= i + 2
    requires m[0].id == list[i].id && (|m| == 2 ==> m[1].id == if k == i + 2 then list[i + 1].id else next)
    ensures IdsFrom(list, l, i, next)
  {
    var d := |l| - |list|;
    forall j | 0 <= j < |l|
      ensures if Origin(i, d, j) == -1 then l[j].id == next
              else 0 <= Origin(i, d, j) < |list| && l[j].id == list[Origin(i, d, j)].id
    {
      if j < i {
        assert l[j] == list[j];
      } else if j < i + |m| {
        assert l[j] == m[j - i];
      } else {
        assert l[j] == list[j - d];
      }
    }
  }

  lemma TakeOrigin(list: seq<Node>, i: nat, low: nat, high: nat, next: nat)
    requires i < |list| && list[i].high < low <= high && (i + 1 < |list| ==> high < list[i + 1].low)
    ensures IdsFrom(list, TakeAt(list, i, low, high, next), i, next)
  {
    hide IdsFrom;
    var n, l := list[i], TakeAt(list, i, low, high, next);
    if i + 1 < |list| && high + 1 == list[i + 1].low {
      var m := list[i + 1];
      SpliceIds(list, l, i, if n.high + 1 == low then [Node(n.id, n.low, m.high)]
        else [n, m.(low := low)], i + 2, next);
    } else {
      SpliceIds(list, l, i, if n.high + 1 == low then [n.(high := high)] else [n, Node(next, low, high)], i + 1, next);
    }
  }

  lemma AddressedTake(list: seq<Node>, i: nat, low: nat, high: nat, next: nat)
    requires Addressed(list, next) && next >= 1
    requires i < |list| && list[i].high < low <= high && (i + 1 < |list| ==> high < list[i + 1].low)
    ensures Addressed(TakeAt(list, i, low, high, next), next + 1)
  {
    hide TakeAt;
    var l := TakeAt(list, i, low, high, next);
    var d := |l| - |list|;
    TakeOrigin(list, i, low, high, next);
    forall j | 0 <= j < |l| ensures l[j].id == next || HasId(list, l[j].id) {
      var o := Origin(i, d, j);
    }
    forall j, k | 0 <= j < k < |l| ensures l[j].id != l[k].id {
      var oj, ok := Origin(i, d, j), Origin(i, d, k);
      assert oj != -1 && ok != -1 ==> oj < ok;
    }
    AddressedAfter(list, l, next);
  }

  /** Ends of the new list, as the reserved prefix and the end of the device need them. */
  lemma TakeEnds(list: seq<Node>, i: nat, low: nat, high: nat, id: nat, end: nat)
    requires i < |list| && list[i].high < low <= high < end && (i + 1 < |list| ==> high < list[i + 1].low)
    requires Separated(list) && list[|list| - 1].high < end
    ensures var l := TakeAt(list, i, low, high, id);
      |l| > 0 && l[0].low == list[0].low && l[0].high >= list[0].high && l[|l| - 1].high < end
  {
    var l := TakeAt(list, i, low, high, id);
    if i + 1 < |list| && high + 1 == list[i + 1].low {
      assert l[|l| - 1].high == list[|list| - 1].high;
    } else if i + 1 < |list| {
      assert l[|l| - 1] == list[|list| - 1];
    } else {
      assert list[i + 1..] == [];
      assert l[|l| - 1].high == high;
    }
  }

  lemma FreeEnds(list: seq<Node>, i: nat, low: nat, high: nat, id: nat, end: nat)
    requires Separated(list) && low <= high && Holds(list, i, low, high) && list[0].low < low
    requires list[|list| - 1].high < end
    ensures var l := FreeAt(list, i, low, high, id);
      |l| > 0 && l[0].low == list[0].low && (i > 0 ==> l[0].high == list[0].high) && (i == 0 ==> l[0].high == low - 1)
      && l[|l| - 1].high < end
  {
    var l := FreeAt(list, i, low, high, id);
    if i + 1 < |list| {
      assert l[|l| - 1] == list[|list| - 1];
    } else if i > 0 && list[i].low == low && high == list[i].high {
      assert l[|l| - 1] == list[i - 1];
      assert list[i - 1].high + 1 < list[i].low;
    }
    if i > 0 {
      assert l[0] == list[0];
    }
  }

  /** Allocation: the block returned is the lowest aligned free run, it becomes used and nothing else
      changes; failure means that there is no such run. */
  lemma TakenIsRight(s: State, num: nat, start: nat, end: nat, reserved: nat)
    requires Good(s, start, end, reserved) && num >= 1
    ensures var i := FirstFit(s.list, num, end, 0); var s' := Taken(s, num, end);
      && Good(s', start, end, reserved)
      && if i == |s.list| then s' == s.(next := s.next + 1) && forall c: nat :: !FreeRun(s.list, start, end, num, c)
         else var low := AlignedAfter(s.list[i].high, num);
           && s.list[i].high < low && (i + 1 < |s.list| ==> low + num - 1 < s.list[i + 1].low)
           && s'.numFree == s.numFree - num
           && FreeRun(s.list, start, end, num, low)
           && (forall c: nat :: FreeRun(s.list, start, end, num, c) ==> low <= c)
           && forall b: nat :: In(s'.list, b) <==> In(s.list, b) || low <= b < low + num
  {
    hide In, FreeRun, Separated, Addressed, Total, TakeAt, AlignedAfter;
    FirstFitIsLowest(s.list, start, end, num);
    var i := FirstFit(s.list, num, end, 0);
    if i < |s.list| {
      var low := AlignedAfter(s.list[i].high, num);
      AlignedLeast(s.list[i].high, num);
      RunInside(s.list, start, end, num, low);
      TakeDenotes(s.list, i, low, low + num - 1, s.next);
      AddressedTake(s.list, i, low, low + num - 1, s.next);
      TakeEnds(s.list, i, low, low + num - 1, s.next, end);
    } else {
      AddressedNext(s.list, s.next);
    }
  }

  lemma RunInside(list: seq<Node>, start: nat, end: nat, num: nat, low: nat)
    requires num >= 1 && FreeRun(list, start, end, num, low)
    ensures low + num <= end
  {
  }

  lemma AddressedNext(list: seq<Node>, next: nat)
    requires Addressed(list, next)
    ensures Addressed(list, next + 1)
  {
  }

  /** Freeing a range behind the reserved prefix: exactly that range becomes free if all of it was in
      use, and otherwise nothing changes. */
  lemma ReleasedIsRight(s: State, low: nat, num: nat, start: nat, end: nat, reserved: nat)
    requires Good(s, start, end, reserved) && num >= 1 && start + reserved <= low
    ensures var s' := Released(s, low, num);
      && Good(s', start, end, reserved)
      && if AllIn(s.list, low, num)
         then s'.numFree == s.numFree + num && forall b: nat ::
             In(s'.list, b) <==> In(s.list, b) && !(low <= b < low + num)
         else s'.list == s.list && s'.numFree == s.numFree
  {
    hide In, Separated, Addressed, Total, FreeAt;
    var i, high := FindFrom(s.list, low, 0), low + num - 1;
    AllInIsHeld(s.list, low, num);
    if Holds(s.list, i, low, high) {
      FreeDenotes(s.list, i, low, high, s.next);
      AddressedFree(s.list, i, low, high, s.next);
      FreeEnds(s.list, i, low, high, s.next, end);
    } else {
      AddressedNext(s.list, s.next);
    }
  }

  lemma AllInIsHeld(list: seq<Node>, low: nat, num: nat)
    requires Separated(list) && num >= 1
    ensures AllIn(list, low, num) <==> Holds(list, FindFrom(list, low, 0), low, low + num - 1)
  {
    var i := FindFrom(list, low, 0);
    if Holds(list, i, low, low + num - 1) {
      forall b: nat | low <= b < low + num ensures In(list, b) {
        assert list[i].low <= b <= list[i].high;
      }
    }
    if AllIn(list, low, num) {
      var j := InUseIsHeld(list, low, low + num - 1);
      HoldsAtFind(list, j, low, low + num - 1);
    }
  }

  // ---- Runs ------------------------------------------------------------------------------------------

  datatype Op = New(t: BlockType) | Free(low: nat, u: BlockType)

  function Step(s: State, op: Op, end: nat): State {
    match op
    case New(t) => Taken(s, NumBlocks(t), end)
    case Free(low, t) => Released(s, low, NumBlocks(t))
  }

  function Run(s: State, ops: seq<Op>, end: nat): State {
    if ops == [] then s else Step(Run(s, ops[..|ops| - 1], end), ops[|ops| - 1], end)
  }

  /** A set of blocks from which every allocation takes the lowest aligned free run and to which every
      freed range is returned. */
  ghost predicate SetStep(used: set<nat>, used': set<nat>, op: Op, start: nat, end: nat) {
    match op
    case New(t) =>
      || (used' == used && forall c: nat :: !SetRun(used, start, end, NumBlocks(t), c))
      || exists low: nat ::
           LowestRun(used, start, end, NumBlocks(t), low) && used' == used + Interval(low, low + NumBlocks(t) - 1)
    case Free(low, t) =>
      if Interval(low, low + NumBlocks(t) - 1) <= used then used' == used - Interval(low, low + NumBlocks(t) - 1)
        else used' == used
  }

  ghost predicate SetRun(used: set<nat>, start: nat, end: nat, num: nat, low: nat)
    requires num >= 1
  {
    start <= low && low + num <= end && low % num == 0 && forall b: nat :: low <= b < low + num ==> b !in used
  }

  ghost predicate LowestRun(used: set<nat>, start: nat, end: nat, num: nat, low: nat)
    requires num >= 1
  {
    SetRun(used, start, end, num, low) && forall c: nat :: SetRun(used, start, end, num, c) ==> low <= c
  }

  /** Callers never free the reserved prefix. */
  predicate Allowed(op: Op, start: nat, reserved: nat) {
    op.Free? ==> start + reserved <= op.low
  }

  lemma RunSame(list: seq<Node>, start: nat, end: nat, num: nat, low: nat)
    requires Separated(list) && num >= 1
    ensures SetRun(Blocks(list), start, end, num, low) <==> FreeRun(list, start, end, num, low)
  {
    hide In, Blocks, Separated;
    DenotesSet(list);
  }

  /** Every step refines the step on sets, and the free count is the number of blocks not in use. */
  lemma StepRefines(s: State, op: Op, start: nat, end: nat, reserved: nat)
    requires Good(s, start, end, reserved) && Allowed(op, start, reserved)
    ensures Good(Step(s, op, end), start, end, reserved)
    ensures SetStep(Blocks(s.list), Blocks(Step(s, op, end).list), op, start, end)
  {
    hide In, Blocks, Separated, Good, Total, FreeRun, SetRun, Taken, Released, AllIn;
    GoodSeparated(s, start, end, reserved);
    match op {
      case New(t) => NewRefines(s, NumBlocks(t), t, start, end, reserved);
      case Free(low, t) => FreeRefines(s, low, t, start, end, reserved);
    }
  }

  lemma GoodSeparated(s: State, start: nat, end: nat, reserved: nat)
    requires Good(s, start, end, reserved)
    ensures Separated(s.list) && s.numFree == end - start - Total(s.list)
  {
  }

  lemma NewRefines(s: State, num: nat, t: BlockType, start: nat, end: nat, reserved: nat)
    requires Good(s, start, end, reserved) && num == NumBlocks(t)
    ensures Good(Taken(s, num, end), start, end, reserved)
    ensures SetStep(Blocks(s.list), Blocks(Taken(s, num, end).list), New(t), start, end)
  {
    hide In, Blocks, Separated, Good, Total, FreeRun, SetRun, Taken, AlignedAfter, Interval, FirstFit, NumBlocks;
    var s' := Taken(s, num, end);
    TakenIsRight(s, num, start, end, reserved);
    GoodSeparated(s, start, end, reserved);
    GoodSeparated(s', start, end, reserved);
    DenotesSet(s.list);
    DenotesSet(s'.list);
    forall c: nat ensures SetRun(Blocks(s.list), start, end, num, c) <==> FreeRun(s.list, start, end, num, c) {
      RunSame(s.list, start, end, num, c);
    }
    var i := FirstFit(s.list, num, end, 0);
    if i < |s.list| {
      var low := AlignedAfter(s.list[i].high, num);
      assert LowestRun(Blocks(s.list), start, end, num, low);
      SameSet(Blocks(s'.list), Blocks(s.list), low, num);
    }
  }

  lemma SameSet(u': set<nat>, u: set<nat>, low: nat, num: nat)
    requires num >= 1 && forall b: nat :: b in u' <==> b in u || low <= b < low + num
    ensures u' == u + Interval(low, low + num - 1)
  {
  }

  lemma FreeRefines(s: State, low: nat, t: BlockType, start: nat, end: nat, reserved: nat)
    requires Good(s, start, end, reserved) && start + reserved <= low
    ensures Good(Released(s, low, NumBlocks(t)), start, end, reserved)
    ensures SetStep(Blocks(s.list), Blocks(Released(s, low, NumBlocks(t)).list), Free(low, t), start, end)
  {
    hide In, Blocks, Separated, Good, Total, Released, Interval, NumBlocks;
    var num := NumBlocks(t);
    var s' := Released(s, low, num);
    ReleasedIsRight(s, low, num, start, end, reserved);
    GoodSeparated(s, start, end, reserved);
    GoodSeparated(s', start, end, reserved);
    DenotesSet(s.list);
    DenotesSet(s'.list);
    AllInBlocks(s.list, Blocks(s.list), low, num);
    if AllIn(s.list, low, num) {
      WithoutSet(Blocks(s'.list), Blocks(s.list), low, num);
    } else {
      assert Blocks(s'.list) == Blocks(s.list);
    }
  }

  lemma AllInBlocks(list: seq<Node>, u: set<nat>, low: nat, num: nat)
    requires num >= 1 && forall b: nat :: b in u <==> In(list, b)
    ensures AllIn(list, low, num) <==> Interval(low, low + num - 1) <= u
  {
    hide In;
    if Interval(low, low + num - 1) <= u {
      forall b: nat | low <= b < low + num ensures In(list, b) {
        assert b in Interval(low, low + num - 1);
      }
    }
  }

  lemma WithoutSet(u': set<nat>, u: set<nat>, low: nat, num: nat)
    requires num >= 1 && forall b: nat :: b in u' <==> b in u && !(low <= b < low + num)
    ensures u' == u - Interval(low, low + num - 1)
  {
  }

  /** Formatting: one node for the blocks used by the file system itself. */
  function Fresh(start: nat, end: nat, reserved: nat): State
    requires reserved >= 1
  {
    State([Node(1, start, start + reserved - 1)], 2, end - start - reserved)
  }

  /** After any sequence of allocations and frees the list is sorted and gap-separated, and the free
      count is what the set of used blocks says. */
  lemma {:induction false} RunInvariant(ops: seq<Op>, start: nat, end: nat, reserved: nat)
    requires reserved >= 1 && start + reserved <= end
    requires forall i :: 0 <= i < |ops| ==> Allowed(ops[i], start, reserved)
    ensures var s := Run(Fresh(start, end, reserved), ops, end);
      && Good(s, start, end, reserved)
      && s.numFree == end - start - |Blocks(s.list)|
      && (forall b: nat :: start <= b < start + reserved ==> b in Blocks(s.list))
      && forall b: nat :: b in Blocks(s.list) ==> start <= b < end
    decreases |ops|
  {
    hide Blocks, Step;
    if ops == [] {
      FreshGood(start, end, reserved);
    } else {
      var before := ops[..|ops| - 1];
      RunInvariant(before, start, end, reserved);
      StepRefines(Run(Fresh(start, end, reserved), before, end), ops[|ops| - 1], start, end, reserved);
    }
    GoodBlocks(Run(Fresh(start, end, reserved), ops, end), start, end, reserved);
  }

  lemma FreshGood(start: nat, end: nat, reserved: nat)
    requires reserved >= 1 && start + reserved <= end
    ensures Good(Fresh(start, end, reserved), start, end, reserved)
  {
    var n := Node(1, start, start + reserved - 1);
    assert [n][..0] == [];
  }

  lemma GoodBlocks(s: State, start: nat, end: nat, reserved: nat)
    requires Good(s, start, end, reserved)
    ensures s.numFree == end - start - |Blocks(s.list)|
    ensures forall b: nat :: start <= b < start + reserved ==> b in Blocks(s.list)
    ensures forall b: nat :: b in Blocks(s.list) ==> start <= b < end
  {
    hide Total, Blocks;
    DenotesSet(s.list);
    forall b: nat | start <= b < start + reserved ensures In(s.list, b) {
      assert s.list[0].low <= b <= s.list[0].high;
    }
    forall b: nat | In(s.list, b) ensures start <= b < end {
      var i :| 0 <= i < |s.list| && s.list[i].low <= b <= s.list[i].high;
      assert 0 < i ==> s.list[0].high + 1 < s.list[i].low;
      assert i < |s.list| - 1 ==> s.list[i].high + 1 < s.list[|s.list| - 1].low;
    }
  }

  // ---- The code ----------------------------------------------------------------------------------------

  class Balloc {
    var list: seq<Node>
    /** Next node address. */
    var next: nat
    var numFree: int
    /** num_blocknode_allocated. */
    var numNodes: int
    const start: nat
    const end: nat
    ghost const reserved: nat

    function Now(): State
      reads this
    {
      State(list, next, numFree)
    }

    ghost predicate Valid()
      reads this
    {
      Good(Now(), start, end, reserved) && numNodes == |list|
    }

    /** A fresh block map: the first blocks hold what the file system itself uses (pmfs_init_blockmap). */
    constructor (first: nat, last: nat, usedBytes: nat)
      requires usedBytes > 0 && first + (usedBytes + 4095) / 4096 <= last
      ensures Valid() && start == first && end == last && reserved == (usedBytes + 4095) / 4096
      ensures Now() == Fresh(first, last, (usedBytes + 4095) / 4096)
    {
      var used := (usedBytes + 4095) / 4096;
      start, end, reserved := first, last, used;
      list, next, numNodes := [Node(1, first, first + used - 1)], 2, 1;
      numFree := last - first - used;
      FreshGood(first, last, used);
    }

    /** The node with address id. */
    method At(id: nat) returns (i: nat)
      requires HasId(list, id) && Addressed(list, next)
      ensures i < |list| && list[i].id == id
    {
      i := 0;
      while list[i].id != id
        invariant i < |list| && forall j :: 0 <= j < i ==> list[j].id != id
        decreases |list| - i
      {
        i := i + 1;
      }
    }

    /** Frees num blocks from low on (__pmfs_free_block). The hint is the address of a node, or 0. */
    method FreeBlock(low: nat, t: BlockType, hint: nat) returns (hint': nat)
      requires Valid() && start + reserved <= low && (hint != 0 ==> HasId(list, hint))
      modifies this`list, this`next, this`numFree, this`numNodes
      ensures Valid() && Now() == Released(old(Now()), low, NumBlocks(t))
      ensures hint' != 0 ==> HasId(list, hint')
    {
      hide Good, FreeAt, In, Separated, Addressed, Total, NumBlocks;
      var high := low + NumBlocks(t) - 1;
      ReleasedIsRight(Now(), low, NumBlocks(t), start, end, reserved);
      GoodParts(Now(), start, end, reserved);
      ghost var s := Now();
      hint' := hint;
      var i := 0;
      if hint != 0 {
        var at := At(hint);
        if low >= list[at].low {
          i := at;
          BehindHint(list, at, low);
        }
      }
      while i < |list|
        invariant 0 <= i <= |list| && Now() == s && numNodes == |list| && hint' == hint
        invariant forall j :: 0 <= j < i ==> !Holds(list, j, low, high)
      {
        if low <= list[i].high {
          if Holds(list, i, low, high) {
            HoldsAtFind(list, i, low, high);
            hint' := Cut(i, low, high);
            numFree := numFree + NumBlocks(t);
            next := next + 1;
            return;
          }
        }
        i := i + 1;
      }
      NotHeld(list, low, high);
      next := next + 1;
    }

    /** Takes low to high out of node i: the four ways the range can lie in it. */
    method Cut(i: nat, low: nat, high: nat) returns (hint: nat)
      requires low <= high && Holds(list, i, low, high) && numNodes == |list| && Addressed(list, next) && next >= 1
      modifies this`list, this`numNodes
      ensures list == FreeAt(old(list), i, low, high, next) && numNodes == |list|
      ensures hint != 0 ==> HasId(list, hint)
    {
      var n, l := list[i], list;
      if low == n.low && high == n.high {
        hint := if i + 1 < |list| then list[i + 1].id else 0;
        list := list[..i] + list[i + 1..];
        numNodes := numNodes - 1;
        assert i + 1 < |l| ==> list[i] == l[i + 1];
        assert list == l[..i] + [] + l[i + 1..];
      } else if low == n.low {
        list := list[i := n.(low := high + 1)];
        hint := n.id;
        assert list == l[..i] + [n.(low := high + 1)] + l[i + 1..];
        assert list[i].id == hint;
      } else if high == n.high {
        list := list[i := n.(high := low - 1)];
        hint := if i + 1 < |list| then list[i + 1].id else 0;
        assert list == l[..i] + [n.(high := low - 1)] + l[i + 1..];
        assert i + 1 < |l| ==> list[i + 1].id == hint;
      } else {
        var curr := Node(next, high + 1, n.high);
        list := list[..i] + [n.(high := low - 1), curr] + list[i + 1..];
        numNodes := numNodes + 1;
        hint := next;
        assert list[i + 1] == curr;
      }
    }

    /** Allocates an aligned run of blocks (pmfs_new_block). */
    method NewBlock(t: BlockType) returns (ok: bool, blocknr: nat)
      requires Valid()
      modifies this`list, this`next, this`numFree, this`numNodes
      ensures Valid() && Now() == Taken(old(Now()), NumBlocks(t), end)
      ensures ok ==> FreeRun(old(list), start, end, NumBlocks(t), blocknr) && numFree == old(numFree) - NumBlocks(t)
      ensures ok ==> forall c: nat :: FreeRun(old(list), start, end, NumBlocks(t), c) ==> blocknr <= c
      ensures ok ==> forall b: nat :: In(list, b) <==> In(old(list), b) || blocknr <= b < blocknr + NumBlocks(t)
      ensures !ok ==> list == old(list) && numFree == old(numFree)
      ensures !ok ==> forall c: nat :: !FreeRun(list, start, end, NumBlocks(t), c)
    {
      hide Good, TakeAt, In, Separated, Addressed, Total, NumBlocks, FreeRun, AlignedAfter, Fits;
      var num := NumBlocks(t);
      TakenIsRight(Now(), num, start, end, reserved);
      ghost var s, fit := Now(), FirstFit(list, num, end, 0);
      ok, blocknr := false, 0;
      var i := 0;
      while i < |list|
        invariant 0 <= i <= |list| && Now() == s && numNodes == |list|
        invariant FirstFit(list, num, end, i) == fit
      {
        FitIs(list, num, end, i);
        var nextLow := if i + 1 < |list| then list[i + 1].low else end;
        var low := AlignedAfter(list[i].high, num);
        var high := low + num - 1;
        if high < nextLow {
          AlignedLeast(list[i].high, num);
          Join(i, low, high, nextLow);
          numFree := numFree - num;
          next := next + 1;
          return true, low;
        }
        i := i + 1;
      }
      next := next + 1;
    }

    /** Adds low to high behind node i: filling the gap, growing one of the two nodes around it, or as
        a node of its own. */
    method Join(i: nat, low: nat, high: nat, nextLow: nat)
      requires i < |list| && numNodes == |list| && nextLow == NextLow(list, i, end)
      requires list[i].high < low <= high < nextLow
      modifies this`list, this`numNodes
      ensures list == TakeAt(old(list), i, low, high, next) && numNodes == |list|
    {
      var n, l := list[i], list;
      if low == n.high + 1 && high == nextLow - 1 {
        if i + 1 < |list| {
          list := list[i := n.(high := list[i + 1].high)];
          list := list[..i + 1] + list[i + 2..];
          numNodes := numNodes - 1;
          assert list == l[..i] + [Node(n.id, n.low, l[i + 1].high)] + l[i + 2..];
        } else {
          list := list[i := n.(high := high)];
          assert list == l[..i] + [n.(high := high)] + l[i + 1..];
        }
      } else if low == n.high + 1 {
        list := list[i := n.(high := high)];
        assert list == l[..i] + [n.(high := high)] + l[i + 1..];
      } else if high == nextLow - 1 && i + 1 < |list| {
        list := list[i + 1 := list[i + 1].(low := low)];
        assert list == l[..i] + [n, l[i + 1].(low := low)] + l[i + 2..];
      } else {
        list := list[..i + 1] + [Node(next, low, high)] + list[i + 1..];
        numNodes := numNodes + 1;
        assert list == l[..i] + [n, Node(next, low, high)] + l[i + 1..];
      }
    }

    /** Frees a batch of ranges under one lock, passing the hint along as truncation does: the result
        is the same as without any hint. */
    method FreeAll(ranges: seq<(nat, BlockType)>)
      requires Valid() && forall j :: 0 <= j < |ranges| ==> start + reserved <= ranges[j].0
      modifies this`list, this`next, this`numFree, this`numNodes
      ensures Valid() && Now() == ReleasedAll(old(Now()), ranges)
    {
      var hint, j := 0, 0;
      assert ranges[..0] == [];
      while j < |ranges|
        invariant 0 <= j <= |ranges| && Valid() && (hint != 0 ==> HasId(list, hint))
        invariant Now() == ReleasedAll(old(Now()), ranges[..j])
      {
        hint := FreeBlock(ranges[j].0, ranges[j].1, hint);
        assert ranges[..j + 1][..j] == ranges[..j];
        j := j + 1;
      }
      assert ranges[..j] == ranges;
    }
  }

  /** Freeing ranges one after the other, each search starting at the head of the list. */
  function ReleasedAll(s: State, ranges: seq<(nat, BlockType)>): State {
    if ranges == [] then s
    else
      var r := ranges[|ranges| - 1];
      Released(ReleasedAll(s, ranges[..|ranges| - 1]), r.0, NumBlocks(r.1))
  }

  lemma GoodParts(s: State, start: nat, end: nat, reserved: nat)
    requires Good(s, start, end, reserved)
    ensures |s.list| > 0 && Separated(s.list) && Addressed(s.list, s.next) && s.next >= 1
  {
  }

  /** No node in front of the hint can hold the range. */
  lemma BehindHint(list: seq<Node>, at: nat, low: nat)
    requires Separated(list) && at < |list| && list[at].low <= low
    ensures forall j :: 0 <= j < at ==> list[j].high < low
  {
  }

  lemma NotHeld(list: seq<Node>, low: nat, high: nat)
    requires forall j :: 0 <= j < |list| ==> !Holds(list, j, low, high)
    ensures !Holds(list, FindFrom(list, low, 0), low, high)
  {
  }

  lemma FitIs(list: seq<Node>, num: nat, end: nat, i: nat)
    requires num >= 1 && i < |list|
    ensures FirstFit(list, num, end, i) == if AlignedAfter(list[i].high, num) + num - 1 < NextLow(list, i, end) then i
                                           else FirstFit(list, num, end, i + 1)
  {
  }
}
