/** pages_reserve as written: exactly when it does what it is for. */
module BuddyReserveSource {
  import opened Halving
  import opened Machine
  import opened Builds
  import opened Wrappers
  import opened Buddy
  import opened BuddyBlocks
  import opened BuddySteps
  import opened BuddyCanonical
  import opened BuddyReserve

  /** What pages_reserve is for, told by bitmaps and region count alone: exactly the pages of the
      block leave the free ones, and the region's free count is still their number. */
  ghost predicate Reserved(s: Zone, t: Zone, k: Order, i: nat)
  {
    && (forall p :: PageFree(t.clear, p) <==> PageFree(s.clear, p) && Up(p, k) != i)
    && t.free == |FreePages(t.clear, t.pages)|
  }

  function Twins(m: nat): set<nat>
  {
    {2 * m, 2 * m + 1}
  }

  /** The block is free itself, or it is one of the two leftmost blocks of its size inside the
      free block that holds it. */
  predicate OnLeftEdge(c: Blocks, k: Order, i: nat)
  {
    i in c[k] ||
    var j := FreeAncestor(c, k + 1, i / 2);
    j.Some? && i in Twins(First(Up(i, j.value - k), j.value - k - 1))
  }

  /** Splitting towards block x of order l, the cached index of order m comes out right: that order
      had a free block, and its lowest one is below what the program compares it with, unless the
      split is at the lowest block of the order above. */
  predicate SurvivesAt(s: Zone, l: Order, m: nat, x: nat)
    requires m < l
  {
    s.clear[m] != {} && (First(x, l - m - 1) <= s.next[m + 1] || s.next[m] < 2 * s.next[m + 1])
  }

  predicate IndicesSurvive(s: Zone, l: Order, k: nat, x: nat)
  {
    x == 0 || forall m: Order :: k <= m < l ==> SurvivesAt(s, l, m, x)
  }

  predicate ReserveIndicesSurvive(s: Zone, k: Order, i: nat)
  {
    i in s.clear[k] ||
    var j := FreeAncestor(s.clear, k + 1, i / 2);
    j.None? || IndicesSurvive(s, j.value, k, Up(i, j.value - k))
  }

  // ---------------------------------------------------------------- free pages

  /** The facts about bitmaps that hold however wrong the cached indices are. */
  ghost predicate BitsRight(s: Zone)
  {
    Bounded(s.clear, s.pages) && Apart(s.clear)
  }

  /** Only the split of free blocks into smaller ones, as far as bitmaps tell. */
  ghost predicate SplitOnly(s: Zone, t: Zone)
  {
    && BitsRight(t) && SameRest(s, t) && SamePages(s.clear, t.clear)
    && Weight(t.clear, 0) == Weight(s.clear, 0)
  }

  lemma SourceSplitBits(s: Zone, k: Order, i: nat)
    requires k > 0 && BitsRight(s) && i in s.clear[k]
    ensures var t := ZSplitHere(Source, s, k, i); SplitOnly(s, t) && t.clear == SplitOf(s.clear, k, i)
  {
    SplitKeeps(s.clear, k, i);
    SplitBounded(s.clear, s.pages, k, i);
    SourceSplitClear(s, k, i);
    assert ZSplitHere(Source, s, k, i).clear == SplitOf(s.clear, k, i);
  }

  lemma SplitOnlyTransitive(s: Zone, t: Zone, u: Zone)
    requires SplitOnly(s, t) && SplitOnly(t, u)
    ensures SplitOnly(s, u)
  {
    forall p ensures PageFree(s.clear, p) == PageFree(u.clear, p) {
      assert PageFree(t.clear, p) == PageFree(u.clear, p);
    }
  }

  lemma {:induction false} DescentSplitsOnly(s: Zone, l: Order, k: nat, x: nat, i: nat)
    requires k < l && BitsRight(s) && x in s.clear[l]
    ensures SplitOnly(s, SplitDown(Source, s, l, k, x, i))
    decreases l
  {
    SourceSplitBits(s, l, x);
    var u := ZSplitHere(Source, s, l, x);
    DescendOnce(s, l, k, x, i);
    if k == l - 1 {
    } else {
      DescentSplitsOnly(u, l - 1, k, 2 * x, i);
      SplitOnlyTransitive(s, u, SplitDown(Source, u, l - 1, k, 2 * x, i));
    }
  }

  /** The left edge is what the descent frees at order k. */
  lemma {:induction false} DescentFreesLeft(s: Zone, l: Order, k: nat, x: nat, i: nat)
    requires k < l && x in s.clear[l]
    ensures SplitDown(Source, s, l, k, x, i).clear[k] == s.clear[k] + Twins(First(x, l - k - 1))
    decreases l
  {
    SourceSplitClear(s, l, x);
    DescendOnce(s, l, k, x, i);
    if k < l - 1 {
      DescentFreesLeft(ZSplitHere(Source, s, l, x), l - 1, k, 2 * x, i);
    } else {
      assert SplitDown(Source, ZSplitHere(Source, s, l, x), k, k, 2 * x, i) == ZSplitHere(Source, s, l, x);
    }
  }

  lemma SourceSplitClear(s: Zone, k: Order, i: nat)
    requires k > 0
    ensures var c, d := s.clear, ZSplitHere(Source, s, k, i).clear;
      && d[k - 1] == c[k - 1] + Twins(i) && d[k] == c[k] - {i}
      && forall j: Order :: j != k && j != k - 1 ==> d[j] == c[j]
  {
    var low := s.clear[k - 1];
    assert low + {2 * i} + {2 * i + 1} == low + {2 * i, 2 * i + 1};
  }

  lemma DescendOnce(s: Zone, l: Order, k: nat, x: nat, i: nat)
    requires k < l && x in s.clear[l]
    ensures SplitDown(Source, s, l, k, x, i) == SplitDown(Source, ZSplitHere(Source, s, l, x), l - 1, k, 2 * x, i)
  {
  }

  /** The end of pages_reserve, which charges the region either way. */
  function ChargeEither(t: Zone, k: Order, i: nat): Zone
  {
    Charge(if i in t.clear[k] then DropDirect(t, k, i) else t, k)
  }

  lemma SourceEnds(s: Zone, t: Zone, k: Order, i: nat)
    requires Sound(s) && SplitOnly(s, t)
    ensures Reserved(s, ChargeEither(t, k, i), k, i) <==> i in t.clear[k]
  {
    if i in t.clear[k] {
      DirectBits(s, t, k, i);
    } else {
      ChargedForNothing(s, t, k);
    }
  }

  lemma MakeRoomSplitsOnly(s: Zone, k: Order, i: nat)
    requires Inv(s)
    ensures SplitOnly(s, MakeRoom(Source, s, k, i))
  {
    var j := FreeAncestor(s.clear, k + 1, i / 2);
    if i !in s.clear[k] && j.Some? {
      DescentSplitsOnly(s, j.value, k, Up(i, j.value - k), i);
    }
  }

  lemma MakeRoomFreesLeft(s: Zone, k: Order, i: nat)
    ensures i in MakeRoom(Source, s, k, i).clear[k] <==> OnLeftEdge(s.clear, k, i)
  {
    var j := FreeAncestor(s.clear, k + 1, i / 2);
    if i !in s.clear[k] && j.Some? {
      DescentFreesLeft(s, j.value, k, Up(i, j.value - k), i);
    }
  }

  /** As written, pages_reserve removes exactly the block's pages and keeps the free count right if
      and only if the block is on the left edge of the free block that holds it. */
  lemma SourceReserves(s: Zone, k: Order, i: nat)
    requires Inv(s)
    ensures Reserved(s, Reserve(Source, s, k, i).0, k, i) <==> OnLeftEdge(s.clear, k, i)
  {
    MakeRoomSplitsOnly(s, k, i);
    MakeRoomFreesLeft(s, k, i);
    SourceEnds(s, MakeRoom(Source, s, k, i), k, i);
  }

  /** As written the caller is told that it has the block either way. Where that is not so every page stays as it
      was, and the region is charged for the block all the same. */
  lemma SourceAnswers(s: Zone, k: Order, i: nat)
    requires Inv(s)
    ensures var (t, r) := Reserve(Source, s, k, i);
      && r == Some(i)
      && (!OnLeftEdge(s.clear, k, i) ==> SamePages(s.clear, t.clear) && t.free == Minus(s.free, Pow2(k)))
  {
    MakeRoomSplitsOnly(s, k, i);
    MakeRoomFreesLeft(s, k, i);
  }

  lemma BitsCount(s: Zone)
    requires BitsRight(s)
    ensures Weight(s.clear, 0) == |FreePages(s.clear, s.pages)|
  {
    LevelCount(s.clear, s.pages, 0);
    assert FreePages(s.clear, s.pages) == Level(s.clear, s.pages, 0);
  }

  lemma DirectBits(s: Zone, u: Zone, k: Order, i: nat)
    requires Sound(s) && SplitOnly(s, u) && i in u.clear[k]
    ensures Reserved(s, Charge(DropDirect(u, k, i), k), k, i)
  {
    TakeRemoves(u.clear, k, i);
    var t := Charge(DropDirect(u, k, i), k);
    assert t.clear == TakeOf(u.clear, k, i);
    BitsCount(t);
  }

  lemma ChargedForNothing(s: Zone, u: Zone, k: Order)
    requires Sound(s) && SplitOnly(s, u)
    ensures Charge(u, k).free != |FreePages(u.clear, u.pages)|
  {
    BitsCount(u);
    Pow2Monotone(k, 9);
    assert Pow2(9) == 512;
  }

  // ---------------------------------------------------------------- cached indices

  /** The cached index of order m is not a free block, and stays so when one of these two goes. */
  ghost predicate Stale(s: Zone, m: Order, p: nat)
  {
    s.next[m] !in s.clear[m] && p in s.clear[m] && p + 1 in s.clear[m] && s.count[m] != 1
  }

  ghost predicate SameAt(s: Zone, t: Zone, m: Order)
  {
    s.clear[m] == t.clear[m] && s.count[m] == t.count[m] && s.next[m] == t.next[m]
  }

  /** What decides whether splitting block x of order l leaves the index of the order below right. */
  predicate StepSurvives(s: Zone, l: Order, x: nat)
    requires l > 0
  {
    x == 0 || SurvivesAt(s, l, l - 1, x)
  }

  function Lower(x: nat, y: nat): nat
  {
    if x < y then x else y
  }

  lemma HalvesUnderCount(s: Zone, k: Order, x: nat, above: nat)
    requires CachedAt(s, k) && 2 * x !in s.clear[k] && 2 * x + 1 !in s.clear[k]
    ensures var u := AddHalvesUnder(s, k, x, above);
      && u.clear[k] == s.clear[k] + Twins(x) && u.count[k] == |s.clear[k] + Twins(x)| && u.count[k] >= 2
      && u.next[k] == Lower(s.next[k], 2 * above)
  {
    var c := s.clear[k];
    assert c + {2 * x} + {2 * x + 1} == c + Twins(x);
    assert |c + {2 * x} + {2 * x + 1}| == |c| + 2;
  }

  /** The index program line 416 computes from that of the order above. */
  lemma IndexUnder(c: set<nat>, next: nat, n: nat, x: nat)
    requires NextRight(c, next) && n <= x && 2 * n !in c && 2 * x !in c
    ensures var r := Lower(next, 2 * n);
      if x == 0 || (c != {} && (x <= n || next < 2 * n))
      then NextRight(c + Twins(x), r) && (x > 0 ==> r == Lower(next, 2 * x))
      else r !in c + Twins(x)
  {
    if c == {} && x > 0 {
      assert next == 0;
    }
  }

  lemma HalvesUnderEffect(s: Zone, l: Order, x: nat)
    requires l > 0 && BitsRight(s) && x in s.clear[l] && CachedAt(s, l) && CachedAt(s, l - 1)
    ensures var u := AddHalvesUnder(s, l - 1, x, s.next[l]);
      if StepSurvives(s, l, x)
      then CachedAt(u, l - 1) && (x > 0 ==> u.next[l - 1] == Lower(s.next[l - 1], 2 * x))
      else Stale(u, l - 1, 2 * x)
  {
    var n := s.next[l];
    SplitKeeps(s.clear, l, x);
    SplitKeeps(s.clear, l, n);
    HalvesUnderCount(s, l - 1, x, n);
    assert First(x, 0) == x;
    IndexUnder(s.clear[l - 1], s.next[l - 1], n, x);
  }

  lemma SourceSplitElsewhere(s: Zone, l: Order, x: nat)
    requires l > 0
    ensures forall j: Order :: j != l && j != l - 1 ==> SameAt(s, ZSplitHere(Source, s, l, x), j)
    ensures SameAt(AddHalvesUnder(s, l - 1, x, s.next[l]), ZSplitHere(Source, s, l, x), l - 1)
  {
  }

  lemma SourceSplitCached(s: Zone, l: Order, x: nat)
    requires l > 0 && BitsRight(s) && x in s.clear[l] && Cached(s)
    ensures var u := ZSplitHere(Source, s, l, x);
      if StepSurvives(s, l, x)
      then Cached(u) && (x > 0 ==> u.next[l - 1] == Lower(s.next[l - 1], 2 * x))
      else Stale(u, l - 1, 2 * x)
  {
    assert CachedAt(s, l) && CachedAt(s, l - 1);
    HalvesUnderEffect(s, l, x);
    var a := AddHalvesUnder(s, l - 1, x, s.next[l]);
    assert SameAt(s, a, l);
    DropAtEffect(a, l, x);
    SourceSplitElsewhere(s, l, x);
    var u := ZSplitHere(Source, s, l, x);
    assert CachedAt(u, l);
    forall j: Order | StepSurvives(s, l, x) ensures CachedAt(u, j) {
      assert CachedAt(s, j);
      assert j != l && j != l - 1 ==> SameAt(s, u, j);
    }
  }

  /** Splitting one of two buddies at an order with a stale index leaves the index wrong. */
  lemma StaleSplit(s: Zone, l: Order, x: nat)
    requires l > 0 && Stale(s, l, x)
    ensures !CachedAt(ZSplitHere(Source, s, l, x), l)
    ensures forall j: Order :: j != l && j != l - 1 ==> SameAt(s, ZSplitHere(Source, s, l, x), j)
  {
    var u := ZSplitHere(Source, s, l, x);
    assert x + 1 in u.clear[l] && u.next[l] == s.next[l];
  }

  lemma SplitLeavesAbove(s: Zone, l: Order, x: nat, m: Order)
    requires 0 < l < m
    ensures SameAt(s, ZSplitHere(Source, s, l, x), m)
  {
  }

  lemma {:induction false} DescentLeavesAbove(s: Zone, l: Order, k: nat, x: nat, i: nat, m: Order)
    requires k <= l < m && x in s.clear[l]
    ensures SameAt(s, SplitDown(Source, s, l, k, x, i), m)
    decreases l
  {
    if k == l {
    } else {
      DescendOnce(s, l, k, x, i);
      SourceSplitClear(s, l, x);
      SplitLeavesAbove(s, l, x, m);
      DescentLeavesAbove(ZSplitHere(Source, s, l, x), l - 1, k, 2 * x, i, m);
    }
  }

  /** Some index is wrong: that of an order above k, or that of order k with two buddies at p. */
  ghost predicate Misled(t: Zone, k: Order, p: nat)
  {
    (exists m: Order :: k < m && !CachedAt(t, m)) || Stale(t, k, p)
  }

  lemma SurviveNext(s: Zone, u: Zone, l: Order, k: nat, x: nat)
    requires k < l && StepSurvives(s, l, x)
    requires x > 0 ==> u.next[l - 1] == Lower(s.next[l - 1], 2 * x)
    requires forall j: Order :: j < l - 1 ==> SameAt(s, u, j)
    ensures IndicesSurvive(s, l, k, x) <==> IndicesSurvive(u, l - 1, k, 2 * x)
  {
    if x > 0 {
      var h, y := l - 1, 2 * x;
      forall m: Order | k <= m < h ensures SurvivesAt(s, l, m, x) <==> SurvivesAt(u, h, m, y) {
        assert SameAt(s, u, m);
        assert m + 1 < l - 1 ==> SameAt(s, u, m + 1);
        assert First(x, l - m - 1) == First(2 * x, l - 1 - m - 1);
        assert m + 1 == l - 1 ==> First(2 * x, l - 1 - m - 1) == 2 * x;
      }
      assert SurvivesAt(s, l, h, x);
      assert IndicesSurvive(s, l, k, x) <==> forall m: Order :: k <= m < h ==> SurvivesAt(s, l, m, x);
      assert IndicesSurvive(u, h, k, y) <==> forall m: Order :: k <= m < h ==> SurvivesAt(u, h, m, y);
    }
  }

  /** One split of the descent: what it leaves for the next one. */
  lemma DescentNext(s: Zone, l: Order, k: nat, x: nat, i: nat) returns (u: Zone)
    requires k < l && BitsRight(s) && x in s.clear[l] && Cached(s)
    ensures SplitDown(Source, s, l, k, x, i) == SplitDown(Source, u, l - 1, k, 2 * x, i)
    ensures BitsRight(u) && 2 * x in u.clear[l - 1]
    ensures StepSurvives(s, l, x) ==> Cached(u) && (IndicesSurvive(s, l, k, x) <==> IndicesSurvive(u, l - 1, k, 2 * x))
    ensures !StepSurvives(s, l, x) ==> Stale(u, l - 1, 2 * x)
  {
    DescendOnce(s, l, k, x, i);
    SourceSplitClear(s, l, x);
    SourceSplitBits(s, l, x);
    SourceSplitCached(s, l, x);
    SourceSplitElsewhere(s, l, x);
    u := ZSplitHere(Source, s, l, x);
    if StepSurvives(s, l, x) {
      SurviveNext(s, u, l, k, x);
    }
  }

  /** The descent keeps every cached index right exactly when IndicesSurvive says so. */
  lemma {:induction false} DescentIndices(s: Zone, l: Order, k: nat, x: nat, i: nat)
    requires k <= l && BitsRight(s) && x in s.clear[l] && Cached(s)
    ensures var t := SplitDown(Source, s, l, k, x, i);
      if IndicesSurvive(s, l, k, x) then Cached(t) else Misled(t, k, First(x, l - k))
    decreases l
  {
    if k == l {
    } else {
      var u := DescentNext(s, l, k, x, i);
      if StepSurvives(s, l, x) {
        DescentIndices(u, l - 1, k, 2 * x, i);
      } else {
        StaleDescent(u, l - 1, k, 2 * x, i);
        assert !SurvivesAt(s, l, l - 1, x);
      }
    }
  }

  lemma StaleDescent(u: Zone, l: Order, k: nat, x: nat, i: nat)
    requires k <= l && Stale(u, l, x)
    ensures Misled(SplitDown(Source, u, l, k, x, i), k, First(x, l - k))
  {
    if k < l {
      DescendOnce(u, l, k, x, i);
      SourceSplitClear(u, l, x);
      StaleSplit(u, l, x);
      var v := ZSplitHere(Source, u, l, x);
      DescentLeavesAbove(v, l - 1, k, 2 * x, i, l);
      var t := SplitDown(Source, u, l, k, x, i);
      assert !CachedAt(t, l);
    }
  }

  lemma {:induction false} DescentCoalesced(s: Zone, l: Order, k: nat, x: nat, i: nat)
    requires k <= l && x in s.clear[l] && CoalescedBut(s.clear, l, x)
    ensures CoalescedBut(SplitDown(Source, s, l, k, x, i).clear, k, First(x, l - k))
    decreases l
  {
    if k == l {
    } else {
      DescendOnce(s, l, k, x, i);
      SourceSplitClear(s, l, x);
      var u := ZSplitHere(Source, s, l, x);
      assert u.clear == SplitOf(s.clear, l, x);
      SplitCoalescedBut(s.clear, l, x, 2 * x);
      DescentCoalesced(u, l - 1, k, 2 * x, i);
    }
  }

  lemma MakeRoomCoalesced(s: Zone, k: Order, i: nat)
    requires Coalesced(s.clear) && OnLeftEdge(s.clear, k, i)
    ensures CoalescedBut(MakeRoom(Source, s, k, i).clear, k, i)
  {
    var j := FreeAncestor(s.clear, k + 1, i / 2);
    if i !in s.clear[k] {
      var x := Up(i, j.value - k);
      FirstDouble(x, j.value - k - 1);
      CoalescedInside(s, k, i, j.value, x);
    } else {
      InvCoalescedBut(s.clear, k, i);
    }
  }

  lemma CoalescedInside(s: Zone, k: Order, i: nat, j: Order, x: nat)
    requires k < j && Coalesced(s.clear) && x in s.clear[j] && First(x, j - k) == i / 2 * 2
    ensures CoalescedBut(SplitDown(Source, s, j, k, x, i).clear, k, i)
  {
    InvCoalescedBut(s.clear, j, x);
    DescentCoalesced(s, j, k, x, i);
  }

  /** Before the last step the cached indices are right, or will stay wrong. */
  lemma MakeRoomIndices(s: Zone, k: Order, i: nat)
    requires BitsRight(s) && Cached(s) && OnLeftEdge(s.clear, k, i)
    ensures var t := MakeRoom(Source, s, k, i);
      if ReserveIndicesSurvive(s, k, i) then Cached(t) else Misled(t, k, i / 2 * 2)
  {
    var j := FreeAncestor(s.clear, k + 1, i / 2);
    if i !in s.clear[k] {
      var x := Up(i, j.value - k);
      FirstDouble(x, j.value - k - 1);
      IndicesInside(s, k, i, j.value, x);
    }
  }

  lemma IndicesInside(s: Zone, k: Order, i: nat, j: Order, x: nat)
    requires k < j && BitsRight(s) && Cached(s) && x in s.clear[j] && First(x, j - k) == i / 2 * 2
    ensures var t := SplitDown(Source, s, j, k, x, i);
      if IndicesSurvive(s, j, k, x) then Cached(t) else Misled(t, k, i / 2 * 2)
  {
    DescentIndices(s, j, k, x, i);
  }

  /** Wrong indices stay wrong when the block itself is taken. */
  lemma MisledStays(t: Zone, k: Order, i: nat)
    requires i in t.clear[k] && Misled(t, k, i / 2 * 2)
    ensures !Cached(Charge(DropDirect(t, k, i), k))
  {
    var e := Charge(DropDirect(t, k, i), k);
    if m: Order :| k < m && !CachedAt(t, m) {
      assert SameAt(t, e, m);
      assert !CachedAt(e, m);
    } else {
      assert i / 2 * 2 in e.clear[k] || i / 2 * 2 + 1 in e.clear[k];
      assert !CachedAt(e, k);
    }
  }

  lemma DirectKeepsInv(s: Zone, t: Zone, k: Order, i: nat)
    requires Sound(s) && SplitOnly(s, t) && Cached(t) && i in t.clear[k] && CoalescedBut(t.clear, k, i)
    ensures Inv(Charge(DropDirect(t, k, i), k))
  {
    DirectIsTaken(s, t, k, i);
  }

  /** As written, pages_reserve keeps the whole invariant if and only if the block is on the left
      edge and every cached index on the way survives. */
  lemma SourceKeepsInv(s: Zone, k: Order, i: nat)
    requires Inv(s)
    ensures Inv(Reserve(Source, s, k, i).0) <==> OnLeftEdge(s.clear, k, i) && ReserveIndicesSurvive(s, k, i)
  {
    MakeRoomSplitsOnly(s, k, i);
    MakeRoomFreesLeft(s, k, i);
    var t := MakeRoom(Source, s, k, i);
    if OnLeftEdge(s.clear, k, i) {
      MakeRoomIndices(s, k, i);
      MakeRoomCoalesced(s, k, i);
      if ReserveIndicesSurvive(s, k, i) {
        DirectKeepsInv(s, t, k, i);
      } else {
        MisledStays(t, k, i);
      }
    } else {
      ChargedForNothing(s, t, k);
      if Inv(Charge(t, k)) {
        FreeCountsPages(Charge(t, k));
      }
    }
  }
}
