/** Each step of the allocator, told by what it does to the bitmaps; counts, cached indices and
    the region's free count follow, because every step keeps them right. */
module BuddySteps {
  import opened Halving
  import opened Machine
  import opened Builds
  import opened Wrappers
  import opened Buddy
  import opened BuddyBlocks

  ghost predicate SamePages(c: Blocks, d: Blocks)
  {
    forall p :: PageFree(c, p) == PageFree(d, p)
  }

  /** Everything of a zone except its bitmaps and what is computed from them. */
  ghost predicate SameRest(s: Zone, t: Zone)
  {
    s.pages == t.pages && s.full == t.full && s.free == t.free
  }

  // ---------------------------------------------------------------- one order at a time

  /** The bitmap of order k became d, its count and cached index are right, all else is as before. */
  ghost predicate Rewritten(s: Zone, t: Zone, k: Order, d: set<nat>)
  {
    && t == s.(clear := s.clear[k := d], count := s.count[k := |d|], next := s.next[k := t.next[k]])
    && NextRight(d, t.next[k])
  }

  lemma DropLowestEffect(s: Zone, k: Order)
    requires CachedAt(s, k) && s.clear[k] != {} && forall x :: x in s.clear[k] ==> x < Up(s.pages, k)
    ensures Rewritten(s, DropLowest(s, k), k, s.clear[k] - {s.next[k]})
  {
    var c, m := s.clear[k], s.next[k];
    var d := c - {m};
    assert |d| == |c| - 1;
    assert forall x :: x in d ==> m + 1 <= x;
    if |c| == 1 {
      assert |d| == 0;
    }
  }

  lemma AddHalvesEffect(s: Zone, k: Order, m: nat)
    requires CachedAt(s, k) && 2 * m !in s.clear[k] && 2 * m + 1 !in s.clear[k]
    ensures Rewritten(s, AddHalves(s, k, m), k, s.clear[k] + {2 * m, 2 * m + 1})
  {
    var c := s.clear[k];
    assert c + {2 * m} + {2 * m + 1} == c + {2 * m, 2 * m + 1};
    assert |c + {2 * m} + {2 * m + 1}| == |c| + 2;
  }

  /** Blocks o and o + 1 of order k stop being free. */
  function DropPair(s: Zone, k: Order, o: nat): Zone
  {
    var a := SetBit(SetBit(s, k, o), k, o + 1);
    var d := SetCount(a, k, Minus(a.count[k], 2));
    if d.next[k] == o || d.next[k] == o + 1 then Advance(d, k, o + 2) else d
  }

  lemma DropPairEffect(s: Zone, k: Order, m: nat)
    requires CachedAt(s, k) && 2 * m in s.clear[k] && 2 * m + 1 in s.clear[k]
    requires forall x :: x in s.clear[k] ==> x < Up(s.pages, k)
    ensures Rewritten(s, DropPair(s, k, 2 * m), k, s.clear[k] - {2 * m, 2 * m + 1})
  {
    var c := s.clear[k];
    var d := c - {2 * m, 2 * m + 1};
    assert c - {2 * m} - {2 * m + 1} == d;
    assert |c - {2 * m} - {2 * m + 1}| == |c| - 2;
    assert s.next[k] == 2 * m ==> forall x :: x in d ==> 2 * m + 2 <= x;
  }

  lemma AddEffect(s: Zone, k: Order, i: nat, minding: bool)
    requires CachedAt(s, k) && i !in s.clear[k]
    ensures var t, d := Add(s, k, i, minding), s.clear[k] + {i};
      if minding || s.count[k] > 0 || i == 0 then Rewritten(s, t, k, d)
      else t.clear[k] == d && !CachedAt(t, k)
  {
    assert |s.clear[k] + {i}| == |s.clear[k]| + 1;
  }

  lemma RewrittenCached(s: Zone, t: Zone, k: Order, d: set<nat>)
    requires Cached(s) && Rewritten(s, t, k, d)
    ensures Cached(t)
  {
    forall j: Order ensures CachedAt(t, j) {
      assert CachedAt(s, j);
    }
  }

  // ---------------------------------------------------------------- splitting

  lemma SplitHereCached(s: Zone, k: Order)
    requires k > 0 && Cached(s) && Bounded(s.clear, s.pages) && s.clear[k] != {}
    requires 2 * s.next[k] !in s.clear[k - 1] && 2 * s.next[k] + 1 !in s.clear[k - 1]
    ensures var t := SplitHere(s, k);
      Cached(t) && SameRest(s, t) && t.clear == SplitOf(s.clear, k, s.next[k])
  {
    var m := s.next[k];
    assert CachedAt(s, k) && CachedAt(s, k - 1);
    var u := AddHalves(s, k - 1, m);
    AddHalvesEffect(s, k - 1, m);
    RewrittenCached(s, u, k - 1, s.clear[k - 1] + {2 * m, 2 * m + 1});
    assert CachedAt(u, k) && u.next[k] == m && u.clear[k] == s.clear[k];
    DropLowestEffect(u, k);
    RewrittenCached(u, SplitHere(s, k), k, u.clear[k] - {m});
  }

  lemma SplitBounded(c: Blocks, n: nat, k: Order, m: nat)
    requires k > 0 && m in c[k] && Bounded(c, n)
    ensures Bounded(SplitOf(c, k, m), n)
  {
    UpStep(n, k - 1);
  }

  lemma SplitHereEffect(s: Zone, k: Order)
    requires k > 0 && Sound(s) && s.clear[k] != {}
    ensures var t := SplitHere(s, k);
      && Sound(t) && SameRest(s, t) && t.clear == SplitOf(s.clear, k, s.next[k])
      && SamePages(s.clear, t.clear)
  {
    assert CachedAt(s, k);
    SplitKeeps(s.clear, k, s.next[k]);
    SplitHereCached(s, k);
    SplitBounded(s.clear, s.pages, k, s.next[k]);
  }

  /** Order k holds just two buddies, waiting to be used. */
  ghost predicate Pair(c: Blocks, k: Order, m: nat)
  {
    c[k] == {2 * m, 2 * m + 1}
  }

  ghost predicate CoalescedExcept(c: Blocks, k: Order)
  {
    forall j: Order :: j != k ==> CoalescedAt(c, j)
  }

  /** No free block of order k or above. */
  ghost predicate NoneFrom(c: Blocks, k: nat)
  {
    forall j: Order :: k <= j ==> c[j] == {}
  }

  /** Of the free blocks of order k and above, block m of order j is the lowest of the smallest. */
  ghost predicate LowestFrom(c: Blocks, k: nat, j: Order, m: nat)
  {
    && k <= j && m in c[j] && (forall x :: x in c[j] ==> m <= x)
    && forall i: Order :: k <= i < j ==> c[i] == {}
  }

  /** If there is a free block of order k or above, there is such a block. */
  lemma {:induction false} LowestExists(s: Zone, k: nat) returns (j: Order, m: nat)
    requires Cached(s) && !NoneFrom(s.clear, k)
    ensures LowestFrom(s.clear, k, j, m)
    decreases MAX_ORDER - k
  {
    assert CachedAt(s, k);
    if s.clear[k] != {} {
      j, m := k, s.next[k];
    } else {
      if NoneFrom(s.clear, k + 1) {
        NoneFromNext(s.clear, k);
      }
      j, m := LowestExists(s, k + 1);
    }
  }

  lemma LowestHere(s: Zone, k: Order, m: nat)
    requires CachedAt(s, k) && LowestFrom(s.clear, k, k, m)
    ensures s.clear[k] != {} && s.count[k] > 0 && s.next[k] == m && First(m, k - k) == m
  {
  }

  lemma LowestAbove(c: Blocks, k: Order, j: Order, m: nat)
    requires LowestFrom(c, k, j, m) && k != j
    ensures c[k] == {} && k < j && LowestFrom(c, k + 1, j, m) && First(m, j - k) == 2 * First(m, j - (k + 1))
  {
    FirstDouble(m, j - (k + 1));
  }

  /** Order k, which had no free block, now holds two free buddies split off a larger block, blocks
      2m and 2m + 1; the free pages are the same and nothing else is uncoalesced. */
  ghost predicate Refilled(s: Zone, t: Zone, k: Order, m: nat)
  {
    && Sound(t) && SameRest(s, t) && SamePages(s.clear, t.clear)
    && CoalescedExcept(t.clear, k) && Pair(t.clear, k, m)
    && (forall j: Order :: j < k ==> t.clear[j] == s.clear[j])
  }

  lemma RefillFirst(s: Zone, k: Order)
    requires k > 0 && Inv(s) && s.clear[k - 1] == {} && s.clear[k] != {}
    ensures Refilled(s, SplitHere(s, k), k - 1, s.next[k])
  {
    assert CachedAt(s, k);
    SplitHereEffect(s, k);
    SplitCoalesced(s.clear, k, s.next[k]);
  }

  lemma PairIndex(u: Zone, k: Order, m: nat)
    requires Cached(u) && Pair(u.clear, k, m)
    ensures u.count[k] == 2 && u.next[k] == 2 * m && 2 * m in u.clear[k] && 2 * m + 1 in u.clear[k]
  {
    assert CachedAt(u, k) && 2 * m in u.clear[k] && 2 * m + 1 in u.clear[k];
  }

  lemma SamePagesThrough(c: Blocks, d: Blocks, e: Blocks)
    requires SamePages(c, d) && SamePages(d, e)
    ensures SamePages(c, e)
  {
    forall p ensures PageFree(c, p) == PageFree(e, p) {
      assert PageFree(d, p) == PageFree(e, p);
    }
  }

  lemma RefillNext(s: Zone, u: Zone, k: Order, m: nat)
    requires k > 0 && Refilled(s, u, k, m) && s.clear[k - 1] == {}
    ensures u.count[k] == 2 && Refilled(s, SplitHere(u, k), k - 1, 2 * m)
  {
    PairIndex(u, k, m);
    SplitHereEffect(u, k);
    assert u.clear[k - 1] == {};
    SplitPair(u.clear, k, m);
    SamePagesThrough(s.clear, u.clear, SplitHere(u, k).clear);
  }

  ghost predicate NoCountFrom(s: Zone, k: nat)
  {
    forall j: Order :: k <= j ==> s.count[j] == 0
  }

  lemma NoneCounted(s: Zone, k: nat)
    requires Cached(s) && NoneFrom(s.clear, k)
    ensures NoCountFrom(s, k)
  {
    forall j: Order | k <= j ensures s.count[j] == 0 {
      assert CachedAt(s, j);
    }
  }

  /** With no larger free block block_split can at most call the region full. */
  lemma {:induction false} BlockSplitNone(b: Build, s: Zone, k: nat)
    requires 0 < k < MAX_ORDER && NoCountFrom(s, k)
    ensures BlockSplit(b, s, k) == Exhausted(b, s)
    decreases MAX_ORDER - k
  {
    if k >= MAX_ORDER - 1 {
    } else {
      BlockSplitNone(b, s, k + 1);
    }
  }

  lemma NoneFromNext(c: Blocks, k: Order)
    requires c[k] == {} && NoneFrom(c, k + 1)
    ensures NoneFrom(c, k)
  {
  }

  lemma BlockSplitUnfolds(b: Build, s: Zone, k: nat)
    requires 0 < k < MAX_ORDER && CachedAt(s, k)
    ensures s.clear[k] != {} ==> BlockSplit(b, s, k) == SplitHere(s, k)
    ensures s.clear[k] == {} && k < MAX_ORDER - 1 && BlockSplit(b, s, k + 1).count[k] != 0 ==>
      BlockSplit(b, s, k) == SplitHere(BlockSplit(b, s, k + 1), k)
  {
  }

  lemma SplitAgain(b: Build, s: Zone, k: Order, m: nat)
    requires 0 < k < MAX_ORDER - 1 && CachedAt(s, k) && s.clear[k] == {} && s.clear[k - 1] == {}
    requires Refilled(s, BlockSplit(b, s, k + 1), k, m)
    ensures Refilled(s, BlockSplit(b, s, k), k - 1, 2 * m)
  {
    RefillNext(s, BlockSplit(b, s, k + 1), k, m);
    BlockSplitUnfolds(b, s, k);
  }

  /** block_split, asked to refill an order that has no free block, does so when a larger free
      block exists: the two buddies it leaves are the first two of the lowest of the smallest. */
  lemma {:induction false} BlockSplitEffect(b: Build, s: Zone, k: nat, j: Order, m: nat)
    requires 0 < k < MAX_ORDER && Inv(s) && s.clear[k - 1] == {} && LowestFrom(s.clear, k, j, m)
    ensures Refilled(s, BlockSplit(b, s, k), k - 1, First(m, j - k))
    decreases MAX_ORDER - k
  {
    assert CachedAt(s, k);
    if j == k {
      LowestHere(s, k, m);
      BlockSplitUnfolds(b, s, k);
      RefillFirst(s, k);
    } else {
      LowestAbove(s.clear, k, j, m);
      BlockSplitEffect(b, s, k + 1, j, m);
      SplitAgain(b, s, k, First(m, j - (k + 1)));
    }
  }

  /** Splitting a block of a coalesced order. */
  lemma SplitCoalesced(c: Blocks, k: Order, m: nat)
    requires k > 0 && Coalesced(c) && m in c[k] && c[k - 1] == {}
    ensures Pair(SplitOf(c, k, m), k - 1, m) && CoalescedExcept(SplitOf(c, k, m), k - 1)
  {
    forall j: Order | j != k - 1 ensures CoalescedAt(SplitOf(c, k, m), j) {
      assert CoalescedAt(c, j);
    }
  }

  /** Splitting the left one of two free buddies. */
  lemma SplitPair(c: Blocks, k: Order, m: nat)
    requires k > 0 && Pair(c, k, m) && c[k - 1] == {} && CoalescedExcept(c, k)
    ensures var d := SplitOf(c, k, 2 * m); Pair(d, k - 1, 2 * m) && CoalescedExcept(d, k - 1)
  {
    var d := SplitOf(c, k, 2 * m);
    assert d[k] == {2 * m + 1};
    forall j: Order | j != k - 1 ensures CoalescedAt(d, j) {
      if j != k {
        assert CoalescedAt(c, j);
      }
    }
  }

  // ---------------------------------------------------------------- allocating

  lemma TakeEffect(s: Zone, k: Order)
    requires Sound(s) && s.clear[k] != {}
    ensures var t := Take(s, k);
      && Sound(t) && t.pages == s.pages && t.clear == TakeOf(s.clear, k, s.next[k])
      && t.free == s.free - Pow2(k) && t.full == (s.full || t.free == 0)
      && s.next[k] in s.clear[k] && s.next[k] < Up(s.pages, k)
  {
    var m := s.next[k];
    assert CachedAt(s, k);
    TakeRemoves(s.clear, k, m);
    DropLowestEffect(s, k);
    RewrittenCached(s, DropLowest(s, k), k, s.clear[k] - {m});
    forall j: Order ensures CachedAt(Take(s, k), j) {
      assert CachedAt(DropLowest(s, k), j);
    }
  }

  /** Block i of order k, all of whose pages were free, left the free pages; nothing else changed. */
  ghost predicate Taken(s: Zone, t: Zone, k: Order, i: nat)
  {
    && t.pages == s.pages
    && i < Up(s.pages, k)
    && AllFree(s.clear, k, i)
    && (forall p :: PageFree(t.clear, p) <==> PageFree(s.clear, p) && Up(p, k) != i)
    && t.free == s.free - Pow2(k)
    && t.full == (s.full || t.free == 0)
  }

  /** pages_alloc fails when no order from the requested one up has a free block. */
  lemma AllocNone(b: Build, s: Zone, k: Order)
    requires Cached(s) && NoneFrom(s.clear, k)
    ensures Alloc(b, s, k) == (Exhausted(b, s), None)
  {
    NoneCounted(s, k);
    if k < MAX_ORDER - 1 {
      BlockSplitNone(b, s, k + 1);
    }
  }

  /** Block i of order k is the first of that size in the lowest of the smallest free blocks that
      are large enough. */
  ghost predicate Leftmost(c: Blocks, k: Order, i: nat)
  {
    exists j: Order, m: nat :: LowestFrom(c, k, j, m) && i == First(m, j - k)
  }

  /** pages_alloc succeeds when some order from the requested one up has a free block: of the lowest
      of the smallest such blocks the first part, all of whose pages were free, leaves the free
      pages, and the invariant survives. */
  lemma AllocSome(b: Build, s: Zone, k: Order)
    requires Inv(s) && !NoneFrom(s.clear, k)
    ensures var (t, r) := Alloc(b, s, k);
      Inv(t) && r.Some? && Taken(s, t, k, r.value) && Leftmost(s.clear, k, r.value)
  {
    var j, m := LowestExists(s, k);
    AllocLowest(b, s, k, j, m);
  }

  lemma AllocLowest(b: Build, s: Zone, k: Order, j: Order, m: nat)
    requires Inv(s) && LowestFrom(s.clear, k, j, m)
    ensures var (t, r) := Alloc(b, s, k); Inv(t) && r == Some(First(m, j - k)) && Taken(s, t, k, r.value)
  {
    assert CachedAt(s, k);
    if j == k {
      LowestHere(s, k, m);
      assert CoalescedAt(s.clear, k);
      TakeIsTaken(s, s, k);
    } else {
      LowestAbove(s.clear, k, j, m);
      BlockSplitEffect(b, s, k + 1, j, m);
      TakeRefilled(s, BlockSplit(b, s, k + 1), k, First(m, j - (k + 1)));
    }
  }

  lemma TakeRefilled(s: Zone, u: Zone, k: Order, m: nat)
    requires Sound(s) && Refilled(s, u, k, m)
    ensures u.count[k] == 2 && u.next[k] == 2 * m && Inv(Take(u, k)) && Taken(s, Take(u, k), k, u.next[k])
  {
    PairIndex(u, k, m);
    assert u.clear[k] - {2 * m} == {2 * m + 1};
    TakeIsTaken(s, u, k);
  }

  lemma TakeIsTaken(s: Zone, u: Zone, k: Order)
    requires Sound(s) && Sound(u) && u.clear[k] != {} && SameRest(s, u) && SamePages(s.clear, u.clear)
    requires CoalescedExcept(u.clear, k) && CoalescedAt(TakeOf(u.clear, k, u.next[k]), k)
    ensures Inv(Take(u, k)) && Taken(s, Take(u, k), k, u.next[k])
  {
    TakeEffect(u, k);
    var m := u.next[k];
    TakeRemoves(u.clear, k, m);
    forall p | Up(p, k) == m ensures PageFree(s.clear, p) {
      ContainedUp(u.clear, 0, k, p);
      assert PageFree(u.clear, p);
    }
    forall j: Order ensures CoalescedAt(Take(u, k).clear, j) {
      if j != k {
        assert CoalescedAt(u.clear, j);
      }
    }
  }

  // ---------------------------------------------------------------- freeing

  /** The program touches both orders' bits and counts before the cached index of either. */
  lemma MergeInTurn(s: Zone, k: nat, m: nat)
    requires k < MAX_ORDER - 1
    ensures MergeIndices(MergeBits(s, k, 2 * m), k, 2 * m) == Add(DropPair(s, k, 2 * m), k + 1, m, true)
  {
  }

  lemma DropThenAddCached(s: Zone, k: nat, m: nat)
    requires k < MAX_ORDER - 1 && Cached(s) && Bounded(s.clear, s.pages)
    requires 2 * m in s.clear[k] && 2 * m + 1 in s.clear[k] && m !in s.clear[k + 1]
    ensures var t := Add(DropPair(s, k, 2 * m), k + 1, m, true);
      Cached(t) && SameRest(s, t) && t.clear == MergeOf(s.clear, k, m)
  {
    assert CachedAt(s, k);
    var u := DropPair(s, k, 2 * m);
    DropPairEffect(s, k, m);
    RewrittenCached(s, u, k, s.clear[k] - {2 * m, 2 * m + 1});
    assert CachedAt(u, k + 1);
    AddEffect(u, k + 1, m, true);
    RewrittenCached(u, Add(u, k + 1, m, true), k + 1, u.clear[k + 1] + {m});
  }

  lemma MergeHereCached(s: Zone, k: nat, i: nat)
    requires k < MAX_ORDER - 1 && Cached(s) && Bounded(s.clear, s.pages)
    requires var m := i / 2; 2 * m in s.clear[k] && 2 * m + 1 in s.clear[k] && m !in s.clear[k + 1]
    ensures var t := MergeHere(s, k, i);
      Cached(t) && SameRest(s, t) && t.clear == MergeOf(s.clear, k, i / 2)
  {
    MergeInTurn(s, k, i / 2);
    DropThenAddCached(s, k, i / 2);
  }

  lemma MergeBounded(c: Blocks, n: nat, k: Order, m: nat)
    requires k < MAX_ORDER - 1 && 2 * m + 1 in c[k] && Bounded(c, n)
    ensures Bounded(MergeOf(c, k, m), n)
  {
    UpStep(n, k);
  }

  lemma MergeHereEffect(s: Zone, k: nat, i: nat)
    requires k < MAX_ORDER - 1 && Sound(s) && i in s.clear[k] && BuddyOf(i) in s.clear[k]
    ensures var t := MergeHere(s, k, i);
      Sound(t) && SameRest(s, t) && t.clear == MergeOf(s.clear, k, i / 2) && SamePages(s.clear, t.clear)
  {
    assert 2 * (i / 2) in s.clear[k] && 2 * (i / 2) + 1 in s.clear[k];
    MergeKeeps(s.clear, k, i / 2);
    MergeHereCached(s, k, i);
    MergeBounded(s.clear, s.pages, k, i / 2);
  }

  /** Below the top order, only block i of order k may have a free buddy. */
  ghost predicate CoalescedBut(c: Blocks, k: Order, i: nat)
  {
    && CoalescedExcept(c, k)
    && (k < MAX_ORDER - 1 ==> forall x, y :: x in c[k] && y in c[k] && x / 2 == y / 2 && x / 2 != i / 2 ==> x == y)
  }

  /** block_merge carries the only pair of free buddies upwards until there is none. */
  lemma {:induction false} BlockMergeEffect(s: Zone, k: nat, i: nat)
    requires k < MAX_ORDER && Sound(s) && i in s.clear[k] && BuddyOf(i) in s.clear[k]
    requires CoalescedBut(s.clear, k, i)
    ensures var t := BlockMerge(s, k, i);
      Inv(t) && SameRest(s, t) && SamePages(s.clear, t.clear)
    decreases MAX_ORDER - k
  {
    if k < MAX_ORDER - 1 {
      MergeHereEffect(s, k, i);
      var t := MergeHere(s, k, i);
      MergeCoalesced(s.clear, k, i);
      if BuddyOf(i / 2) in t.clear[k + 1] {
        BlockMergeEffect(t, k + 1, i / 2);
      } else {
        AllCoalesced(t.clear, k + 1, i / 2);
      }
    } else {
      forall j: Order ensures CoalescedAt(s.clear, j) {
      }
    }
  }

  lemma MergeCoalesced(c: Blocks, k: Order, i: nat)
    requires k < MAX_ORDER - 1 && CoalescedBut(c, k, i)
    ensures CoalescedBut(MergeOf(c, k, i / 2), k + 1, i / 2)
  {
    var d := MergeOf(c, k, i / 2);
    forall j: Order | j != k + 1 ensures CoalescedAt(d, j) {
      if j != k {
        assert CoalescedAt(c, j);
      }
    }
    assert CoalescedAt(c, k + 1);
  }

  lemma AllCoalesced(c: Blocks, k: Order, i: nat)
    requires CoalescedBut(c, k, i) && i in c[k] && BuddyOf(i) !in c[k]
    ensures Coalesced(c)
  {
    forall x, y | k < MAX_ORDER - 1 && x in c[k] && y in c[k] && x / 2 == y / 2 ensures x == y {
      if x / 2 == i / 2 {
        assert x == i || x == BuddyOf(i);
        assert y == i || y == BuddyOf(i);
      }
    }
    forall j: Order ensures CoalescedAt(c, j) {
    }
  }

  /** When pages_free leaves the cached index of an order right: as written, unless the order had
      no free block and the block freed is not its first. */
  predicate IndexKept(b: Build, s: Zone, k: Order, i: nat)
  {
    b == Repaired || s.count[k] > 0 || i == 0
  }

  /** Block i of order k, none of whose pages was free, joined the free pages; nothing else changed. */
  ghost predicate Given(b: Build, s: Zone, t: Zone, k: Order, i: nat)
  {
    && t.pages == s.pages
    && (forall p :: PageFree(t.clear, p) <==> PageFree(s.clear, p) || Up(p, k) == i)
    && t.free == s.free + Pow2(k)
    && t.full == if s.free == 0 then b == Source else s.full
  }

  /** pages_free on a block none of whose pages is free: exactly that block's pages become free, and
      the invariant survives exactly when the cached index does. */
  lemma FreeBlockEffect(b: Build, s: Zone, k: Order, i: nat)
    requires Inv(s) && i < Up(s.pages, k) && Busy(s.clear, k, i)
    ensures Inv(FreeBlock(b, s, k, i)) <==> IndexKept(b, s, k, i)
    ensures Given(b, s, FreeBlock(b, s, k, i), k, i)
  {
    GiveAdds(s.clear, k, i);
    assert CachedAt(s, k);
    var r := Refund(b, s, k);
    var u := Add(r, k, i, b == Repaired);
    assert CachedAt(r, k);
    AddEffect(r, k, i, b == Repaired);
    if IndexKept(b, s, k, i) {
      AddSound(b, s, k, i);
      if BuddyOf(i) in u.clear[k] {
        BlockMergeEffect(u, k, i);
      } else {
        AllCoalesced(u.clear, k, i);
      }
    } else {
      assert s.clear[k] == {} && u.clear[k] == {i};
    }
  }

  lemma AddSound(b: Build, s: Zone, k: Order, i: nat)
    requires Inv(s) && i < Up(s.pages, k) && Busy(s.clear, k, i) && IndexKept(b, s, k, i)
    ensures var u := Add(Refund(b, s, k), k, i, b == Repaired);
      Sound(u) && u.clear == GiveOf(s.clear, k, i) && CoalescedBut(u.clear, k, i)
  {
    var r := Refund(b, s, k);
    GiveAdds(s.clear, k, i);
    forall j: Order ensures CachedAt(r, j) {
      assert CachedAt(s, j);
    }
    AddEffect(r, k, i, b == Repaired);
    var u := Add(r, k, i, b == Repaired);
    RewrittenCached(r, u, k, s.clear[k] + {i});
    forall j: Order | j != k ensures CoalescedAt(u.clear, j) {
      assert CoalescedAt(s.clear, j);
    }
    assert CoalescedAt(s.clear, k);
  }
}
