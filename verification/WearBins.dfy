/** The wear-levelling allocator: blocks never used so far are handed out in order; freed blocks wait in
    bins by the number of writes they have suffered. */
module WearBins {

  type Bins = seq<seq<nat>>

  /** Bin for a block that has been written `writes` times (wpmfs_get_bin). */
  function BinOf(writes: nat, threshold: nat, numBins: nat): (k: nat)
    requires threshold >= 1 && numBins >= 1
    ensures k < numBins
  {
    if writes / threshold < numBins then writes / threshold else numBins - 1
  }

  /** Number of blocks in the first n bins. */
  function Count(bins: Bins, n: nat): nat
    requires n <= |bins|
  {
    if n == 0 then 0 else Count(bins, n - 1) + |bins[n - 1]|
  }

  /** Blocks in the first n bins, with their multiplicities. */
  ghost function Binned(bins: Bins, n: nat): multiset<nat>
    requires n <= |bins|
  {
    if n == 0 then multiset{} else Binned(bins, n - 1) + multiset(bins[n - 1])
  }

  /** Changing one bin changes the totals by that bin. */
  lemma {:induction false} BinChanged(bins: Bins, k: nat, bin: seq<nat>, n: nat)
    requires k < |bins| && n <= |bins|
    ensures var b := bins[k := bin];
      && (n <= k ==> Binned(b, n) == Binned(bins, n) && Count(b, n) == Count(bins, n))
      && (k < n ==> Binned(b, n) + multiset(bins[k]) == Binned(bins, n) + multiset(bin)
                    && Count(b, n) + |bins[k]| == Count(bins, n) + |bin|)
  {
    if n > 0 {
      BinChanged(bins, k, bin, n - 1);
      var b := bins[k := bin];
      if k == n - 1 {
        Swap(Binned(bins, k), multiset(bins[k]), multiset(bin));
      } else if k < n - 1 {
        AddBoth(Binned(b, n - 1), Binned(bins, n - 1), multiset(bins[k]), multiset(bin), multiset(bins[n - 1]));
      }
    }
  }

  lemma Swap(a: multiset<nat>, m: multiset<nat>, m': multiset<nat>)
    ensures (a + m') + m == (a + m) + m'
  {
  }

  lemma AddBoth(a': multiset<nat>, a: multiset<nat>, m: multiset<nat>, m': multiset<nat>, c: multiset<nat>)
    requires a' + m == a + m'
    ensures (a' + c) + m == (a + c) + m'
  {
    forall x: nat ensures ((a' + c) + m)[x] == ((a + c) + m')[x] {
      assert (a' + m)[x] == (a + m')[x];
    }
  }

  lemma {:induction false} InBin(bins: Bins, k: nat, n: nat, x: nat)
    requires k < n <= |bins| && x in bins[k]
    ensures x in Binned(bins, n) && Binned(bins, n)[x] >= multiset(bins[k])[x]
  {
    if k < n - 1 {
      InBin(bins, k, n - 1, x);
    }
  }

  lemma {:induction false} EmptyBins(bins: Bins, n: nat)
    requires n <= |bins| && forall k :: 0 <= k < n ==> bins[k] == []
    ensures Count(bins, n) == 0 && Binned(bins, n) == multiset{}
  {
    if n > 0 {
      EmptyBins(bins, n - 1);
    }
  }

  lemma {:induction false} CountPositive(bins: Bins, k: nat, n: nat)
    requires k < n <= |bins| && bins[k] != []
    ensures Count(bins, n) > 0
  {
    if k < n - 1 {
      CountPositive(bins, k, n - 1);
    }
  }

  /** Allocator state; freedAt and clock record when each binned block was freed. */
  datatype State = State(low: nat, high: nat, bins: Bins, numFree: nat, freedAt: map<nat, nat>, clock: nat)

  /** How often block b is accounted for: in the never-used range, in the bins, or in use. */
  ghost function Times(s: State, used: set<nat>, b: nat): int {
    (if s.low <= b < s.high then 1 else 0) + Binned(s.bins, |s.bins|)[b] + (if b in used then 1 else 0)
  }

  /** Bins hold the most recently freed block first. */
  ghost predicate Ordered(s: State) {
    && (forall k, i :: 0 <= k < |s.bins| && 0 <= i < |s.bins[k]| ==>
       s.bins[k][i] in s.freedAt && s.freedAt[s.bins[k][i]] < s.clock)
    && forall k, i, j :: 0 <= k < |s.bins| && 0 <= i < j < |s.bins[k]| ==>
       s.freedAt[s.bins[k][j]] < s.freedAt[s.bins[k][i]]
  }

  /** Every block of the device is in exactly one place, and the free count is right. */
  ghost predicate Good(s: State, used: set<nat>, start: nat, end: nat) {
    && s.low <= s.high && |s.bins| >= 1
    && (forall b: nat :: Times(s, used, b) == if start <= b < end then 1 else 0)
    && s.numFree == s.high - s.low + Count(s.bins, |s.bins|)
    && Ordered(s)
  }

  // ---- Steps -------------------------------------------------------------------------------------------

  /** First nonempty bin among those that may be allocated from, or the last bin. */
  function FirstBin(bins: Bins, k: nat): (r: nat)
    requires |bins| >= 1 && k < |bins|
    ensures k <= r < |bins| && (r < |bins| - 1 ==> bins[r] != [])
    ensures forall j :: k <= j < r ==> bins[j] == []
    decreases |bins| - k
  {
    if k == |bins| - 1 || bins[k] != [] then k else FirstBin(bins, k + 1)
  }

  datatype Taken = Taken(s: State, block: nat) | NoneLeft

  /** An allocation. */
  function Take(s: State): Taken
    requires |s.bins| >= 1 && s.low <= s.high
  {
    var k := FirstBin(s.bins, 0);
    if s.low < s.high then Taken.Taken(s.(low := s.low + 1, numFree := if s.numFree > 0 then s.numFree - 1
      else 0), s.low)
    else if k == |s.bins| - 1 then NoneLeft
    else
      var bin := s.bins[k];
      Taken.Taken(s.(bins := s.bins[k := bin[..|bin| - 1]], numFree := if s.numFree > 0 then s.numFree - 1
        else 0), bin[|bin| - 1])
  }

  /** Freeing a block that has been written `writes` times. */
  function Put(s: State, b: nat, writes: nat, threshold: nat): State
    requires threshold >= 1 && |s.bins| >= 1
  {
    var k := BinOf(writes, threshold, |s.bins|);
    State(s.low, s.high, s.bins[k := [b] + s.bins[k]], s.numFree + 1, s.freedAt[b := s.clock], s.clock + 1)
  }

  /** An allocation hands out a free block of the device and accounts for it; a never-used one as long as
      there are any, then the one freed longest ago from the lowest nonempty bin, but never one from
      the last bin. It fails only if all free blocks are in the last bin. */
  lemma TakeIsRight(s: State, used: set<nat>, start: nat, end: nat)
    requires Good(s, used, start, end)
    ensures Take(s).Taken? ==>
      var t, b := Take(s).s, Take(s).block;
      && b !in used && start <= b < end && Good(t, used + {b}, start, end) && t.numFree == s.numFree - 1
      && |t.bins| == |s.bins| && t.bins[|s.bins| - 1] == s.bins[|s.bins| - 1]
      && (s.low < s.high ==> b == s.low && t.bins == s.bins)
      && (s.low == s.high ==> exists k :: OldestOf(s, k, b))
    ensures Take(s).NoneLeft? <==> s.low == s.high && forall k :: 0 <= k < |s.bins| - 1 ==> s.bins[k] == []
    ensures Take(s).NoneLeft? ==> s.numFree == |s.bins[|s.bins| - 1]|
  {
    var k := FirstBin(s.bins, 0);
    if s.low < s.high {
      RangeTaken(s, used, start, end);
    } else if k < |s.bins| - 1 {
      BinTaken(s, used, start, end, k);
    } else {
      EmptyBins(s.bins, k);
    }
  }

  /** b has been free longest in bin k, the lowest nonempty bin, which is not the last one. */
  ghost predicate OldestOf(s: State, k: int, b: nat) {
    && 0 <= k < |s.bins| - 1 && b in s.bins[k] && (forall j :: 0 <= j < k ==> s.bins[j] == [])
    && forall x :: x in s.bins[k] ==> x in s.freedAt && b in s.freedAt && s.freedAt[b] <= s.freedAt[x]
  }

  lemma RangeTaken(s: State, used: set<nat>, start: nat, end: nat)
    requires Good(s, used, start, end) && s.low < s.high
    ensures s.low !in used && start <= s.low < end && s.numFree > 0
    ensures Good(s.(low := s.low + 1, numFree := s.numFree - 1), used + {s.low}, start, end)
  {
    hide Binned, Count;
    var t := s.(low := s.low + 1, numFree := s.numFree - 1);
    assert Times(s, used, s.low) == if start <= s.low < end then 1 else 0;
    forall b: nat ensures Times(t, used + {s.low}, b) == if start <= b < end then 1 else 0 {
      assert Times(s, used, b) == if start <= b < end then 1 else 0;
    }
  }

  lemma BinTaken(s: State, used: set<nat>, start: nat, end: nat, k: nat)
    requires Good(s, used, start, end) && s.low == s.high && k < |s.bins| - 1 && s.bins[k] != []
    requires forall j :: 0 <= j < k ==> s.bins[j] == []
    ensures var bin := s.bins[k]; var b := bin[|bin| - 1];
      && b !in used && start <= b < end && s.numFree > 0 && OldestOf(s, k, b)
      && Good(s.(bins := s.bins[k := bin[..|bin| - 1]], numFree := s.numFree - 1), used + {b}, start, end)
  {
    hide Binned, Count;
    var bin := s.bins[k];
    var b, rest := bin[|bin| - 1], bin[..|bin| - 1];
    CountPositive(s.bins, k, |s.bins|);
    var t := s.(bins := s.bins[k := rest], numFree := s.numFree - 1);
    assert bin == rest + [b];
    BinChanged(s.bins, k, rest, |s.bins|);
    InBin(s.bins, k, |s.bins|, b);
    assert Times(s, used, b) == if start <= b < end then 1 else 0;
    forall x: nat ensures Times(t, used + {b}, x) == if start <= x < end then 1 else 0 {
      assert Times(s, used, x) == if start <= x < end then 1 else 0;
      assert (Binned(t.bins, |s.bins|) + multiset(bin))[x] == (Binned(s.bins, |s.bins|) + multiset(rest))[x];
      assert multiset(bin)[x] == multiset(rest)[x] + multiset{b}[x];
    }
    OldestIsLast(s, k, b);
    StillOrdered(s, k, rest);
  }

  lemma OldestIsLast(s: State, k: nat, b: nat)
    requires Ordered(s) && k < |s.bins| - 1 && s.bins[k] != [] && b == s.bins[k][|s.bins[k]| - 1]
    requires forall j :: 0 <= j < k ==> s.bins[j] == []
    ensures OldestOf(s, k, b)
  {
  }

  lemma StillOrdered(s: State, k: nat, rest: seq<nat>)
    requires Ordered(s) && k < |s.bins| && rest <= s.bins[k]
    ensures Ordered(s.(bins := s.bins[k := rest], numFree := if s.numFree > 0 then s.numFree - 1 else 0))
  {
  }

  /** Bin k of n holds the blocks that have suffered this many writes: each bin but the last spans
      `threshold` writes, the last one everything above. */
  ghost predicate HoldsWear(k: int, n: nat, writes: nat, threshold: nat) {
    0 <= k < n && k * threshold <= writes && (k < n - 1 ==> writes < (k + 1) * threshold)
  }

  lemma BinHoldsWear(n: nat, writes: nat, threshold: nat)
    requires threshold >= 1 && n >= 1
    ensures HoldsWear(BinOf(writes, threshold, n), n, writes, threshold)
  {
    var k := BinOf(writes, threshold, n);
    var q, r := writes / threshold, writes % threshold;
    assert writes == q * threshold + r;
    if k < q {
      assert q * threshold == k * threshold + (q - k) * threshold;
    }
    assert (k + 1) * threshold == k * threshold + threshold;
  }

  /** b is in front of bin k, all other bins are as before, and what is behind it in the bin was
      freed before it. */
  ghost predicate PutInFront(s: State, t: State, b: nat, k: int) {
    && |t.bins| == |s.bins| && 0 <= k < |s.bins|
    && t.bins[k] == [b] + s.bins[k]
    && (forall j :: 0 <= j < |s.bins| && j != k ==> t.bins[j] == s.bins[j])
    && (forall x :: x in s.bins[k] ==> x != b && x in t.freedAt && b in t.freedAt && t.freedAt[x] < t.freedAt[b])
  }

  /** Freeing a block in use moves it to the bin for its wear, in front of the blocks freed before it. */
  lemma PutIsRight(s: State, used: set<nat>, start: nat, end: nat, b: nat, writes: nat, threshold: nat)
    requires Good(s, used, start, end) && b in used && threshold >= 1
    ensures Good(Put(s, b, writes, threshold), used - {b}, start, end)
    ensures exists k :: HoldsWear(k, |s.bins|, writes, threshold) && PutInFront(s, Put(s, b, writes, threshold), b, k)
    ensures Put(s, b, writes, threshold).numFree == s.numFree + 1
  {
    hide Binned, Count;
    var t, k := Put(s, b, writes, threshold), BinOf(writes, threshold, |s.bins|);
    var bin: seq<nat> := [b] + s.bins[k];
    BinChanged(s.bins, k, bin, |s.bins|);
    assert Times(s, used, b) == if start <= b < end then 1 else 0;
    forall x: nat ensures Times(t, used - {b}, x) == if start <= x < end then 1 else 0 {
      assert Times(s, used, x) == if start <= x < end then 1 else 0;
      assert (Binned(t.bins, |s.bins|) + multiset(s.bins[k]))[x] == (Binned(s.bins, |s.bins|) + multiset(bin))[x];
      assert multiset(bin)[x] == multiset(s.bins[k])[x] + multiset{b}[x];
    }
    NotBinned(s, used, start, end, b);
    PutOrdered(s, b, k);
    BinHoldsWear(|s.bins|, writes, threshold);
    assert PutInFront(s, t, b, k);
  }

  lemma NotBinned(s: State, used: set<nat>, start: nat, end: nat, b: nat)
    requires Good(s, used, start, end) && b in used
    ensures forall k :: 0 <= k < |s.bins| ==> b !in s.bins[k]
  {
    hide Binned, Count, Ordered;
    assert Times(s, used, b) == if start <= b < end then 1 else 0;
    forall k | 0 <= k < |s.bins| ensures b !in s.bins[k] {
      if b in s.bins[k] {
        InBin(s.bins, k, |s.bins|, b);
      }
    }
  }

  lemma PutOrdered(s: State, b: nat, k: nat)
    requires Ordered(s) && k < |s.bins| && forall j :: 0 <= j < |s.bins| ==> b !in s.bins[j]
    ensures Ordered(State(s.low, s.high, s.bins[k := [b] + s.bins[k]], s.numFree + 1, s.freedAt[b := s.clock],
      s.clock + 1))
  {
    var t := State(s.low, s.high, s.bins[k := [b] + s.bins[k]], s.numFree + 1, s.freedAt[b := s.clock], s.clock + 1);
    forall n, i | 0 <= n < |t.bins| && 0 <= i < |t.bins[n]|
      ensures t.bins[n][i] in t.freedAt && t.freedAt[t.bins[n][i]] < t.clock
    {
      if n == k && i > 0 {
        assert t.bins[n][i] == s.bins[k][i - 1];
      } else if n != k {
        assert t.bins[n][i] == s.bins[n][i];
      }
    }
    forall n, i, j | 0 <= n < |t.bins| && 0 <= i < j < |t.bins[n]|
      ensures t.freedAt[t.bins[n][j]] < t.freedAt[t.bins[n][i]]
    {
      if n == k {
        assert t.bins[n][j] == s.bins[k][j - 1];
        if i > 0 {
          assert t.bins[n][i] == s.bins[k][i - 1];
        }
      } else {
        assert t.bins[n][j] == s.bins[n][j] && t.bins[n][i] == s.bins[n][i];
      }
    }
  }

  // ---- Runs ------------------------------------------------------------------------------------------

  datatype Op = New | Free(block: nat, writes: nat)

  /** State and blocks in use; freeing a block that is not in use is not a step of a caller. */
  datatype World = World(s: State, used: set<nat>)

  ghost function Step(w: World, op: Op, threshold: nat): World
    requires threshold >= 1 && |w.s.bins| >= 1 && w.s.low <= w.s.high
  {
    match op
    case New => (match Take(w.s) case Taken(t, b) => World(t, w.used + {b}) case NoneLeft => w)
    case Free(b, writes) => if b in w.used then World(Put(w.s, b, writes, threshold), w.used - {b}) else w
  }

  ghost function FirstBlocks(start: nat, n: nat): (s: set<nat>)
    ensures forall b: nat :: b in s <==> start <= b < start + n
  {
    if n == 0 then {} else FirstBlocks(start, n - 1) + {start + n - 1}
  }

  /** After formatting: nothing binned, the first blocks in use by the file system. */
  ghost function Format(start: nat, end: nat, reserved: nat, numBins: nat): World
    requires start + reserved <= end
  {
    World(State(start + reserved, end, seq(numBins, _ => []), end - start - reserved, map[], 0),
      FirstBlocks(start, reserved))
  }

  ghost function Run(w: World, ops: seq<Op>, threshold: nat): World
    requires threshold >= 1 && |w.s.bins| >= 1 && w.s.low <= w.s.high
    ensures |Run(w, ops, threshold).s.bins| == |w.s.bins|
    ensures Run(w, ops, threshold).s.low <= Run(w, ops, threshold).s.high
    decreases |ops|
  {
    if ops == [] then w else Step(Run(w, ops[..|ops| - 1], threshold), ops[|ops| - 1], threshold)
  }

  lemma FormatIsGood(start: nat, end: nat, reserved: nat, numBins: nat)
    requires start + reserved <= end && numBins >= 1
    ensures var w := Format(start, end, reserved, numBins); Good(w.s, w.used, start, end)
  {
    var w := Format(start, end, reserved, numBins);
    EmptyBins(w.s.bins, numBins);
  }

  /** From formatting on, in any sequence of allocations and frees, every block of the device is in the
      never-used range, in exactly one place of one bin, or in use, and the free count says so. */
  lemma {:induction false} RunInvariant(ops: seq<Op>, start: nat, end: nat, reserved: nat, numBins: nat, threshold: nat)
    requires start + reserved <= end && numBins >= 1 && threshold >= 1
    ensures var w := Run(Format(start, end, reserved, numBins), ops, threshold); Good(w.s, w.used, start, end)
    decreases |ops|
  {
    hide Take, Put, Good;
    if ops == [] {
      FormatIsGood(start, end, reserved, numBins);
    } else {
      var w := Run(Format(start, end, reserved, numBins), ops[..|ops| - 1], threshold);
      RunInvariant(ops[..|ops| - 1], start, end, reserved, numBins, threshold);
      match ops[|ops| - 1] {
        case New => TakeIsRight(w.s, w.used, start, end);
        case Free(b, writes) =>
          if b in w.used {
            PutIsRight(w.s, w.used, start, end, b, writes, threshold);
          }
      }
    }
  }

  /** No block is handed out twice: what an allocation returns at any point of a run is not in use then. */
  lemma NeverTwice(ops: seq<Op>, start: nat, end: nat, reserved: nat, numBins: nat, threshold: nat)
    requires start + reserved <= end && numBins >= 1 && threshold >= 1
    ensures var w := Run(Format(start, end, reserved, numBins), ops, threshold);
      && (Take(w.s).Taken? ==> Take(w.s).block !in w.used && start + reserved <= end && start <= Take(w.s).block < end)
      && (Take(w.s).NoneLeft? ==> w.s.numFree == |w.s.bins[numBins - 1]|)
  {
    hide Take, Put, Good;
    var w := Run(Format(start, end, reserved, numBins), ops, threshold);
    RunInvariant(ops, start, end, reserved, numBins, threshold);
    TakeIsRight(w.s, w.used, start, end);
  }

  // ---- The code ----------------------------------------------------------------------------------------

  class WearAllocator {
    var unusedLow: nat
    var unusedHigh: nat
    /** block_bins: the head of a list is its first element. */
    var bins: Bins
    var numFree: nat
    const threshold: nat
    ghost var freedAt: map<nat, nat>
    ghost var clock: nat
    ghost var used: set<nat>
    ghost const start: nat
    ghost const end: nat

    ghost function Now(): State
      reads this
    {
      State(unusedLow, unusedHigh, bins, numFree, freedAt, clock)
    }

    ghost predicate Valid()
      reads this
    {
      threshold >= 1 && Good(Now(), used, start, end)
    }

    /** wpmfs_init_blockmap. */
    constructor (first: nat, last: nat, usedBytes: nat, numBins: nat, t: nat)
      requires first + (usedBytes + 4095) / 4096 <= last && numBins >= 1 && t >= 1
      ensures Valid() && start == first && end == last && threshold == t
      ensures World(Now(), used) == Format(first, last, (usedBytes + 4095) / 4096, numBins)
    {
      var taken := (usedBytes + 4095) / 4096;
      unusedLow, unusedHigh, bins, numFree := first + taken, last, seq(numBins, _ => []), last - first - taken;
      threshold, start, end, freedAt, clock := t, first, last, map[], 0;
      used := Format(first, last, taken, numBins).used;
      FormatIsGood(first, last, taken, numBins);
      new;
      assert bins == Format(first, last, taken, numBins).s.bins;
    }

    /** __wpmfs_free_block. */
    method FreeBlock(b: nat, writes: nat)
      requires Valid() && b in used
      modifies this
      ensures Valid() && Now() == Put(old(Now()), b, writes, threshold) && used == old(used) - {b}
    {
      hide Good;
      PutIsRight(Now(), used, start, end, b, writes, threshold);
      GoodBins(Now(), used, start, end);
      var k := BinOf(writes, threshold, |bins|);
      bins := bins[k := [b] + bins[k]];
      numFree := numFree + 1;
      freedAt, clock, used := freedAt[b := clock], clock + 1, used - {b};
    }

    /** __wpmfs_new_block. */
    method NewBlock() returns (ok: bool, b: nat)
      requires Valid()
      modifies this
      ensures Valid()
      ensures ok <==> old(Take(Now()).Taken?)
      ensures if ok then Taken.Taken(Now(), b) == old(Take(Now())) && used == old(used) + {b}
              else Now() == old(Now()) && used == old(used)
    {
      hide Good;
      TakeIsRight(Now(), used, start, end);
      GoodBins(Now(), used, start, end);
      ghost var s, u, first := Now(), used, FirstBin(bins, 0);
      if unusedLow < unusedHigh {
        b := unusedLow;
        unusedLow := unusedLow + 1;
        numFree := numFree - 1;
        used := used + {b};
        return true, b;
      }
      var cur := 0;
      while numFree > 0 && cur < |bins| - 1
        invariant 0 <= cur < |bins| && Now() == s && used == u && FirstBin(bins, cur) == first
      {
        if bins[cur] != [] {
          var bin := bins[cur];
          b := bin[|bin| - 1];
          bins := bins[cur := bin[..|bin| - 1]];
          numFree := numFree - 1;
          used := used + {b};
          return true, b;
        }
        cur := cur + 1;
      }
      ok, b := false, 0;
    }
  }

  lemma GoodBins(s: State, used: set<nat>, start: nat, end: nat)
    requires Good(s, used, start, end)
    ensures |s.bins| >= 1 && s.low <= s.high && s.numFree == s.high - s.low + Count(s.bins, |s.bins|)
  {
  }
}
