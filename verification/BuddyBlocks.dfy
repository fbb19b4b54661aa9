/** What splitting, merging, taking and giving back a block do to the set of free pages. */
module BuddyBlocks {
  import opened Halving
  import opened Buddy

  // ---------------------------------------------------------------- containment, level by level

  lemma {:induction false} SameAbove(c: Blocks, d: Blocks, k: nat, i: nat)
    requires k <= MAX_ORDER
    requires forall l: Order :: k <= l ==> c[l] == d[l]
    ensures Contained(c, k, i) == Contained(d, k, i)
    ensures Weight(c, k) == Weight(d, k)
    decreases MAX_ORDER - k
  {
    if k == MAX_ORDER {
    } else {
      SameAbove(c, d, k + 1, i / 2);
    }
  }

  /** Two families that agree on containment at order h and on the bitmaps below agree below. */
  lemma {:induction false} SameBelow(c: Blocks, d: Blocks, h: nat, k: nat, i: nat)
    requires k <= h <= MAX_ORDER
    requires forall x :: Contained(c, h, x) == Contained(d, h, x)
    requires forall l: Order :: k <= l < h ==> c[l] == d[l]
    ensures Contained(c, k, i) == Contained(d, k, i)
    decreases h - k
  {
    if k == h {
    } else {
      SameBelow(c, d, h, k + 1, i / 2);
    }
  }

  lemma {:induction false} WeightBelow(c: Blocks, d: Blocks, h: nat, k: nat, more: bool)
    requires k <= h <= MAX_ORDER
    requires forall l: Order :: k <= l < h ==> c[l] == d[l]
    requires Weight(c, h) == Weight(d, h) + if more then 1 else 0
    ensures Weight(c, k) == Weight(d, k) + if more then Pow2(h - k) else 0
    decreases h - k
  {
    if k == h {
    } else {
      WeightBelow(c, d, h, k + 1, more);
    }
  }

  /** A block lies in a free block at order k + j exactly when its ancestor there does. */
  lemma {:induction false} ContainedUp(c: Blocks, k: nat, j: nat, i: nat)
    requires k + j <= MAX_ORDER
    ensures Contained(c, k + j, Up(i, j)) ==> Contained(c, k, i)
    decreases j
  {
    if j == 0 {
    } else {
      ContainedUp(c, k + 1, j - 1, i / 2);
    }
  }

  // ---------------------------------------------------------------- splitting and its inverse

  function SplitOf(c: Blocks, k: Order, m: nat): Blocks
    requires k > 0
  {
    c[k := c[k] - {m}][k - 1 := c[k - 1] + {2 * m, 2 * m + 1}]
  }

  /** Splitting changes containment only for the block that is split, at its own order. */
  lemma SplitContained(c: Blocks, k: Order, m: nat, j: nat, i: nat)
    requires k > 0 && m in c[k] && !Contained(c, k + 1, m / 2)
    requires j <= MAX_ORDER
    ensures Contained(SplitOf(c, k, m), j, i) == (Contained(c, j, i) && !(j == k && i == m))
  {
    var d := SplitOf(c, k, m);
    var above, below := k + 1, k - 1;
    forall x: nat ensures Contained(d, above, x) == Contained(c, above, x) {
      SameAbove(c, d, above, x);
    }
    forall x: nat ensures Contained(d, below, x) == Contained(c, below, x) {
      assert Contained(d, k, x / 2) == (Contained(c, k, x / 2) && x / 2 != m);
    }
    if j > k {
      SameAbove(c, d, j, i);
    } else if j < k {
      SameBelow(c, d, k - 1, j, i);
    }
  }

  /** Splitting a free block leaves the free pages as they were. */
  lemma SplitKeeps(c: Blocks, k: Order, m: nat)
    requires k > 0 && m in c[k] && Apart(c)
    ensures 2 * m !in c[k - 1] && 2 * m + 1 !in c[k - 1]
    ensures Apart(SplitOf(c, k, m))
    ensures Weight(SplitOf(c, k, m), 0) == Weight(c, 0)
    ensures forall p :: PageFree(SplitOf(c, k, m), p) == PageFree(c, p)
  {
    var d := SplitOf(c, k, m);
    assert Outermost(c, k, m);
    assert 2 * m in c[k - 1] ==> Outermost(c, k - 1, 2 * m);
    assert 2 * m + 1 in c[k - 1] ==> Outermost(c, k - 1, 2 * m + 1);
    assert (2 * m) / 2 == m && (2 * m + 1) / 2 == m && Contained(c, k, m);
    forall p ensures PageFree(d, p) == PageFree(c, p) {
      SplitContained(c, k, m, 0, p);
    }
    forall j: Order, i | i in d[j] ensures Outermost(d, j, i) {
      assert i in c[j] ==> Outermost(c, j, i);
      SplitContained(c, k, m, j + 1, i / 2);
    }
    SameAbove(c, d, k + 1, 0);
    assert d[k - 1] == c[k - 1] + {2 * m} + {2 * m + 1};
    WeightBelow(c, d, k - 1, 0, false);
  }

  /** Two free buddies are what splitting their parent would give. */
  lemma MergeIsUnsplit(c: Blocks, k: Order, m: nat)
    requires k < MAX_ORDER - 1 && 2 * m in c[k] && 2 * m + 1 in c[k] && Apart(c)
    ensures m !in c[k + 1]
    ensures c == SplitOf(MergeOf(c, k, m), k + 1, m)
    ensures !Contained(MergeOf(c, k, m), k + 2, m / 2)
  {
    assert (2 * m) / 2 == m && Outermost(c, k, 2 * m);
    var d := MergeOf(c, k, m);
    SameAbove(c, d, k + 2, m / 2);
    var e := SplitOf(d, k + 1, m);
    assert e[k] == c[k] && e[k + 1] == c[k + 1];
    assert forall j: Order :: e[j] == c[j];
  }

  function MergeOf(c: Blocks, k: Order, m: nat): Blocks
    requires k < MAX_ORDER - 1
  {
    c[k := c[k] - {2 * m, 2 * m + 1}][k + 1 := c[k + 1] + {m}]
  }

  /** Merging two free buddies leaves the free pages as they were. */
  lemma MergeKeeps(c: Blocks, k: Order, m: nat)
    requires k < MAX_ORDER - 1 && 2 * m in c[k] && 2 * m + 1 in c[k] && Apart(c)
    ensures m !in c[k + 1]
    ensures Apart(MergeOf(c, k, m))
    ensures Weight(MergeOf(c, k, m), 0) == Weight(c, 0)
    ensures forall p :: PageFree(MergeOf(c, k, m), p) == PageFree(c, p)
  {
    var d := MergeOf(c, k, m);
    MergeIsUnsplit(c, k, m);
    forall p ensures PageFree(d, p) == PageFree(c, p) {
      SplitContained(d, k + 1, m, 0, p);
    }
    forall j: Order, i | i in d[j] ensures Outermost(d, j, i) {
      assert i in c[j] ==> Outermost(c, j, i);
      SplitContained(d, k + 1, m, j + 1, i / 2);
    }
    SplitKeeps(d, k + 1, m);
  }

  // ---------------------------------------------------------------- taking and giving back

  function TakeOf(c: Blocks, k: Order, i: nat): Blocks
  {
    c[k := c[k] - {i}]
  }

  /** Taking a free block out removes containment for its part of the tree only. */
  lemma {:induction false} TakeContained(c: Blocks, k: Order, i: nat, j: nat, x: nat)
    requires i in c[k] && Apart(c) && j <= MAX_ORDER
    ensures Contained(TakeOf(c, k, i), j, x) == (Contained(c, j, x) && !(j <= k && Up(x, k - j) == i))
    decreases MAX_ORDER - j
  {
    var d := TakeOf(c, k, i);
    assert Outermost(c, k, i);
    if j > k {
      SameAbove(c, d, j, x);
    } else if j == k {
      SameAbove(c, d, k + 1, x / 2);
    } else {
      TakeContained(c, k, i, j + 1, x / 2);
      assert x in c[j] ==> Outermost(c, j, x);
      if x in c[j] {
        ContainedUp(c, j + 1, k - j - 1, x / 2);
      }
    }
  }

  /** Taking a free block out of the bitmaps removes exactly its pages. */
  lemma TakeRemoves(c: Blocks, k: Order, i: nat)
    requires i in c[k] && Apart(c)
    ensures Apart(TakeOf(c, k, i))
    ensures Weight(TakeOf(c, k, i), 0) == Weight(c, 0) - Pow2(k)
    ensures forall p :: PageFree(TakeOf(c, k, i), p) <==> PageFree(c, p) && Up(p, k) != i
  {
    var d := TakeOf(c, k, i);
    forall p ensures PageFree(d, p) <==> PageFree(c, p) && Up(p, k) != i {
      TakeContained(c, k, i, 0, p);
    }
    forall j: Order, x | x in d[j] ensures Outermost(d, j, x) {
      assert x in c[j] ==> Outermost(c, j, x);
      TakeContained(c, k, i, j + 1, x / 2);
    }
    SameAbove(c, d, k + 1, 0);
    WeightBelow(c, d, k, 0, true);
  }

  /** A busy block touches no free block: none contains it and none lies inside it. */
  lemma BusyTouchesNone(c: Blocks, k: Order, i: nat)
    requires Busy(c, k, i)
    ensures !Contained(c, k, i)
    ensures forall j: Order, x :: x in c[j] && j <= k ==> Up(x, k - j) != i
  {
    UpFirst(i, k);
    ContainedUp(c, 0, k, First(i, k));
    forall j: Order, x | x in c[j] && j <= k ensures Up(x, k - j) != i {
      UpFirst(x, j);
      ContainedUp(c, 0, j, First(x, j));
      UpUp(First(x, j), j, k - j);
    }
  }

  function GiveOf(c: Blocks, k: Order, i: nat): Blocks
  {
    c[k := c[k] + {i}]
  }

  /** Giving back a busy block adds exactly its pages. */
  lemma GiveAdds(c: Blocks, k: Order, i: nat)
    requires Busy(c, k, i) && Apart(c)
    ensures i !in c[k]
    ensures Apart(GiveOf(c, k, i))
    ensures Weight(GiveOf(c, k, i), 0) == Weight(c, 0) + Pow2(k)
    ensures forall p :: PageFree(GiveOf(c, k, i), p) <==> PageFree(c, p) || Up(p, k) == i
  {
    var d := GiveOf(c, k, i);
    BusyTouchesNone(c, k, i);
    forall j: Order, x | x in d[j] ensures Outermost(d, j, x) {
      assert x in c[j] ==> Outermost(c, j, x);
      GiveContained(c, k, i, j + 1, x / 2);
      if j < k {
        assert Up(x, k - j) == Up(x / 2, k - j - 1);
      }
    }
    assert TakeOf(d, k, i) == c;
    TakeRemoves(d, k, i);
    forall p ensures PageFree(d, p) <==> PageFree(c, p) || Up(p, k) == i {
      if Up(p, k) == i {
        ContainedUp(d, 0, k, p);
      }
    }
  }

  lemma {:induction false} GiveContained(c: Blocks, k: Order, i: nat, j: nat, x: nat)
    requires j <= MAX_ORDER
    ensures Contained(GiveOf(c, k, i), j, x) ==> Contained(c, j, x) || (j <= k && Up(x, k - j) == i)
    decreases MAX_ORDER - j
  {
    if j > k {
      SameAbove(c, GiveOf(c, k, i), j, x);
    } else {
      GiveContained(c, k, i, j + 1, x / 2);
    }
  }
}
