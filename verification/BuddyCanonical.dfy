/** The bitmaps are a function of the set of free pages: what that says about the states the
    allocator can be in, and about when it can serve a request. */
module BuddyCanonical {
  import opened Halving
  import opened Builds
  import opened Buddy
  import opened BuddyBlocks
  import opened BuddySteps

  /** In a coalesced family a block whose pages are all free lies in one free block. */
  lemma {:induction false} WholeIsContained(c: Blocks, k: Order, i: nat)
    requires Coalesced(c) && AllFree(c, k, i)
    ensures Contained(c, k, i)
  {
    if k == 0 {
      assert Up(i, 0) == i;
    } else {
      forall p | Up(p, k - 1) == 2 * i || Up(p, k - 1) == 2 * i + 1 ensures PageFree(c, p) {
        UpStep(p, k - 1);
      }
      WholeIsContained(c, k - 1, 2 * i);
      WholeIsContained(c, k - 1, 2 * i + 1);
      assert (2 * i) / 2 == i && (2 * i + 1) / 2 == i && BuddyOf(2 * i) == 2 * i + 1;
      assert CoalescedAt(c, k - 1);
    }
  }

  /** A block is in the bitmap of its order exactly when its pages are all free and those of the
      block twice its size are not. */
  lemma ClearIsMaximal(c: Blocks, k: Order, i: nat)
    requires Coalesced(c) && Apart(c)
    ensures i in c[k] <==> AllFree(c, k, i) && (k < MAX_ORDER - 1 ==> !AllFree(c, k + 1, i / 2))
  {
    assert i in c[k] ==> Outermost(c, k, i);
    ContainedIsWhole(c, k, i);
    if AllFree(c, k, i) {
      WholeIsContained(c, k, i);
    }
    if k < MAX_ORDER - 1 {
      ContainedIsWhole(c, k + 1, i / 2);
      if AllFree(c, k + 1, i / 2) {
        WholeIsContained(c, k + 1, i / 2);
      }
    }
  }

  lemma ContainedIsWhole(c: Blocks, k: Order, i: nat)
    ensures Contained(c, k, i) ==> AllFree(c, k, i)
  {
    if Contained(c, k, i) {
      forall p | Up(p, k) == i ensures PageFree(c, p) {
        ContainedUp(c, 0, k, p);
      }
    }
  }

  /** Canonical form: the ten bitmaps depend on the set of free pages alone. */
  lemma BitmapsFromPages(c: Blocks, d: Blocks)
    requires Coalesced(c) && Apart(c) && Coalesced(d) && Apart(d) && SamePages(c, d)
    ensures c == d
  {
    forall k: Order ensures c[k] == d[k] {
      forall i: nat ensures i in c[k] <==> i in d[k] {
        ClearIsMaximal(c, k, i);
        ClearIsMaximal(d, k, i);
        assert forall j, x :: AllFree(c, j, x) == AllFree(d, j, x);
      }
    }
  }

  /** And so do the counts, the cached indices and the region's free count. */
  lemma ZoneFromPages(s: Zone, t: Zone)
    requires Inv(s) && Inv(t) && s.pages == t.pages && s.full == t.full && SamePages(s.clear, t.clear)
    ensures s == t
  {
    BitmapsFromPages(s.clear, t.clear);
    forall k: Order ensures s.count[k] == t.count[k] && s.next[k] == t.next[k] {
      assert CachedAt(s, k) && CachedAt(t, k);
    }
    assert s.count == t.count && s.next == t.next;
  }

  /** Completeness: pages_alloc fails exactly when the region has no aligned run of 2^k free pages. */
  lemma AllocFailsIffNoRun(b: Build, s: Zone, k: Order)
    requires Inv(s)
    ensures Alloc(b, s, k).1.None? <==> forall i: nat :: !AllFree(s.clear, k, i)
  {
    if NoneFrom(s.clear, k) {
      AllocNone(b, s, k);
      forall i: nat ensures !AllFree(s.clear, k, i) {
        if AllFree(s.clear, k, i) {
          WholeIsContained(s.clear, k, i);
          NoneContained(s.clear, k, i);
        }
      }
    } else {
      AllocSome(b, s, k);
    }
  }

  lemma {:induction false} NoneContained(c: Blocks, k: nat, i: nat)
    requires k <= MAX_ORDER && NoneFrom(c, k)
    ensures !Contained(c, k, i)
    decreases MAX_ORDER - k
  {
    if k == MAX_ORDER {
    } else {
      NoneContained(c, k + 1, i / 2);
    }
  }

  /** A freed block that was handed out by the allocator just before leaves no trace, as long as the
      program minds the cached index and the region had not run full. */
  lemma AllocThenFree(s: Zone, k: Order)
    requires Inv(s) && !NoneFrom(s.clear, k) && (s.full <==> s.free == 0)
    ensures var (t, r) := Alloc(Repaired, s, k); r.Some? && FreeBlock(Repaired, t, k, r.value) == s
  {
    AllocSome(Repaired, s, k);
    var (t, r) := Alloc(Repaired, s, k);
    FreeBlockEffect(Repaired, t, k, r.value);
    ZoneFromPages(s, FreeBlock(Repaired, t, k, r.value));
  }

  // ---------------------------------------------------------------- counting pages

  function FreePages(c: Blocks, n: nat): set<nat>
  {
    set p: nat | p < n && PageFree(c, p)
  }

  /** The region's free count is the number of free pages. */
  lemma FreeCountsPages(s: Zone)
    requires Sound(s)
    ensures s.free == |FreePages(s.clear, s.pages)|
  {
    LevelCount(s.clear, s.pages, 0);
    assert FreePages(s.clear, s.pages) == Level(s.clear, s.pages, 0);
  }

  /** The blocks of order k inside the region that are free. */
  ghost function Level(c: Blocks, n: nat, k: nat): set<nat>
    requires k <= MAX_ORDER
  {
    set x: nat | x < Up(n, k) && Contained(c, k, x)
  }

  ghost function Halves(s: set<nat>, r: nat): set<nat>
  {
    set x: nat | x in s :: 2 * x + r
  }

  lemma {:induction false} HalvesCount(s: set<nat>, r: nat)
    ensures |Halves(s, r)| == |s|
  {
    if s == {} {
    } else {
      var x :| x in s;
      var rest := s - {x};
      HalvesCount(rest, r);
      HalvesInsert(rest, x, r);
      assert s == rest + {x};
    }
  }

  lemma HalvesInsert(s: set<nat>, x: nat, r: nat)
    requires x !in s
    ensures Halves(s + {x}, r) == Halves(s, r) + {2 * x + r} && 2 * x + r !in Halves(s, r)
  {
  }

  lemma HalvesMember(s: set<nat>, r: nat, x: nat)
    requires r < 2
    ensures x in Halves(s, r) <==> x % 2 == r && x / 2 in s
  {
    if x % 2 == r && x / 2 in s {
      assert x == 2 * (x / 2) + r;
    }
  }

  /** A block that is free lies inside the region. */
  lemma {:induction false} ContainedInside(c: Blocks, n: nat, k: nat, x: nat)
    requires k <= MAX_ORDER && Bounded(c, n)
    ensures Contained(c, k, x) ==> x < Up(n, k)
    decreases MAX_ORDER - k
  {
    if k == MAX_ORDER {
    } else {
      ContainedInside(c, n, k + 1, x / 2);
      UpStep(n, k);
    }
  }

  /** A block of order k is free on its own or as half of a free block of the next order. */
  lemma LevelMember(c: Blocks, n: nat, k: Order, x: nat)
    requires Apart(c) && Bounded(c, n)
    ensures x in Level(c, n, k) <==>
      x in c[k] || x in Halves(Level(c, n, k + 1), 0) || x in Halves(Level(c, n, k + 1), 1)
    ensures x in Halves(Level(c, n, k + 1), 0) ==> x !in c[k] && x !in Halves(Level(c, n, k + 1), 1)
    ensures x in Halves(Level(c, n, k + 1), 1) ==> x !in c[k]
  {
    var up := Level(c, n, k + 1);
    assert x in c[k] ==> Outermost(c, k, x);
    HalvesMember(up, 0, x);
    HalvesMember(up, 1, x);
    UpStep(n, k);
    ContainedInside(c, n, k, x);
    ContainedInside(c, n, k + 1, x / 2);
  }

  lemma {:induction false} LevelCount(c: Blocks, n: nat, k: nat)
    requires k <= MAX_ORDER && Apart(c) && Bounded(c, n)
    ensures |Level(c, n, k)| == Weight(c, k)
    decreases MAX_ORDER - k
  {
    if k == MAX_ORDER {
      assert Level(c, n, k) == {};
    } else {
      LevelCount(c, n, k + 1);
      var even, odd := Halves(Level(c, n, k + 1), 0), Halves(Level(c, n, k + 1), 1);
      HalvesCount(Level(c, n, k + 1), 0);
      HalvesCount(Level(c, n, k + 1), 1);
      forall x: nat
        ensures x in Level(c, n, k) <==> x in c[k] + (even + odd)
        ensures !(x in even && x in odd) && !(x in c[k] && x in even + odd)
      {
        LevelMember(c, n, k, x);
      }
      SetsApart(c[k], even, odd);
      assert Level(c, n, k) == c[k] + (even + odd);
    }
  }

  lemma SetsApart(a: set<nat>, b: set<nat>, c: set<nat>)
    requires forall x :: !(x in b && x in c) && !(x in a && x in b + c)
    ensures |a + (b + c)| == |a| + |b| + |c|
  {
    assert b !! c && a !! b + c;
  }
}
