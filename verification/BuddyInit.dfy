/** region_map: how the free blocks of a fresh region are laid out. */
module BuddyInit {
  import opened Halving
  import opened Buddy
  import opened BuddyBlocks
  import opened BuddySteps
  import opened BuddyCanonical

  /** order_max, from order k on: the first order at which the count is odd, at most the top one. */
  function OrderMax(pages: nat, k: nat): (o: nat)
    requires k < MAX_ORDER
    ensures k <= o < MAX_ORDER
    decreases MAX_ORDER - k, pages
  {
    if k == MAX_ORDER - 1 || pages % 2 == 1 then k else OrderMax(pages / 2, k + 1)
  }

  /** The indices below len, all of which blocks_clear clears. */
  function Below(len: nat): (r: set<nat>)
    ensures forall x: nat :: x in r <==> x < len
    ensures |r| == len
  {
    if len == 0 then {} else Below(len - 1) + {len - 1}
  }

  /** The loop of _free_area_map with p pages still to place. */
  function FreeAreaMap(s: Zone, p: nat): Zone
    decreases p
  {
    var o := OrderMax(p, 0);
    OrderMaxDivides(p, 0);
    if o == MAX_ORDER - 1 || Up(s.pages, o + 1) == 0 then ClearLow(s, o, Up(p, o))
    else FreeAreaMap(PlaceLast(s, o, Up(p, o) - 1), p - Pow2(o))
  }

  function PlaceLast(s: Zone, k: Order, m: nat): Zone
  {
    var t := ClearBit(SetNext(s, k, m), k, m);
    SetCount(t, k, t.count[k] + 1)
  }

  /** blocks_clear from the first block on. */
  function BlocksClear(s: Zone, k: Order, len: nat): Zone
  {
    s.(clear := s.clear[k := s.clear[k] + Below(len)])
  }

  function ClearLow(s: Zone, k: Order, len: nat): Zone
  {
    BlocksClear(SetCount(s, k, len), k, len)
  }

  /** The state before the first block is placed. */
  function Empty(n: nat): Zone
  {
    Zone(n, seq(MAX_ORDER, i => {}), seq(MAX_ORDER, i => 0), seq(MAX_ORDER, i => 0), n, false)
  }

  function RegionMap(n: nat): Zone
  {
    FreeAreaMap(Empty(n), n)
  }

  // ---------------------------------------------------------------- divisibility

  /** It is the first order at which the halved count is odd, or the top one. */
  lemma {:induction false} OrderMaxFirst(pages: nat, k: nat)
    requires k < MAX_ORDER
    ensures var o := OrderMax(pages, k);
      && (o < MAX_ORDER - 1 ==> Up(pages, o - k) % 2 == 1)
      && forall j: nat :: j < o - k ==> Up(pages, j) % 2 == 0
    decreases MAX_ORDER - k
  {
    assert Up(pages, 0) == pages;
    if k == MAX_ORDER - 1 || pages % 2 == 1 {
    } else {
      OrderMaxFirst(pages / 2, k + 1);
      var o := OrderMax(pages, k);
      forall j: nat | j < o - k
        ensures Up(pages, j) % 2 == 0
      {
        assert j > 0 ==> Up(pages, j) == Up(pages / 2, j - 1);
      }
    }
  }

  lemma {:induction false} OrderMaxDivides(p: nat, k: nat)
    requires k < MAX_ORDER
    ensures var o := OrderMax(p, k) - k;
      p == First(Up(p, o), o) && (k + o < MAX_ORDER - 1 ==> Up(p, o) % 2 == 1)
      && (k + o < MAX_ORDER - 1 ==> p >= Pow2(o))
    decreases MAX_ORDER - k
  {
    if k >= MAX_ORDER - 1 || p % 2 == 1 {
    } else {
      OrderMaxDivides(p / 2, k + 1);
      var o := OrderMax(p, k) - k;
      FirstDouble(Up(p, o), o - 1);
    }
  }

  lemma {:induction false} UpOfFirst(i: nat, k: nat, j: nat)
    requires j <= k
    ensures Up(First(i, k), j) == First(i, k - j)
  {
    if j == 0 {
    } else {
      UpOfFirst(i, k, j - 1);
      UpStep(First(i, k), j - 1);
      FirstDouble(i, k - j);
    }
  }

  /** After a block of order o is placed, what is left divides by a larger power of two. */
  lemma {:induction false} OrderMaxGrows(y: nat, o: nat, k: nat)
    requires k <= o < MAX_ORDER - 1
    ensures OrderMax(First(2 * y, o - k), k) > o
    decreases o - k
  {
    var p := First(2 * y, o - k);
    if k == o {
    } else {
      var q := First(2 * y, o - k - 1);
      FirstDouble(2 * y, o - k - 1);
      assert p == 2 * q;
      OrderMaxGrows(y, o, k + 1);
      assert OrderMax(p, k) == OrderMax(q, k + 1);
    }
  }

  // ---------------------------------------------------------------- the loop

  /** Pages from p up are placed; the orders that p still divides by are untouched. */
  ghost predicate Placed(s: Zone, p: nat)
  {
    && p <= s.pages
    && Bounded(s.clear, s.pages) && Apart(s.clear) && Coalesced(s.clear) && Cached(s)
    && Weight(s.clear, 0) == s.pages - p
    && (forall q: nat :: PageFree(s.clear, q) <==> p <= q < s.pages)
    && (forall j: Order :: OrderMax(p, 0) <= j ==> s.clear[j] == {})
  }

  /** The block placed last before page p is the run of 2^o pages that ends at p. */
  lemma LastBlock(p: nat, o: Order)
    requires o == OrderMax(p, 0) < MAX_ORDER - 1
    ensures p >= Pow2(o) && Up(p, o) > 0
    ensures p - Pow2(o) == First(Up(p, o) - 1, o)
    ensures forall q: nat :: Up(q, o) == Up(p, o) - 1 <==> p - Pow2(o) <= q < p
    ensures OrderMax(p - Pow2(o), 0) > o
  {
    OrderMaxDivides(p, 0);
    var m := Up(p, o) - 1;
    FirstNext(m, o);
    forall q: nat ensures Up(q, o) == m <==> p - Pow2(o) <= q < p {
      UpIsRange(q, o, m);
    }
    assert m == 2 * (m / 2);
    OrderMaxGrows(m / 2, o, 0);
  }

  lemma PlaceOne(s: Zone, p: nat, o: Order)
    requires Placed(s, p) && o == OrderMax(p, 0) < MAX_ORDER - 1
    ensures p >= Pow2(o) && Up(p, o) > 0 && Placed(PlaceLast(s, o, Up(p, o) - 1), p - Pow2(o))
  {
    LastBlock(p, o);
    var m := Up(p, o) - 1;
    var t := PlaceLast(s, o, m);
    assert s.clear[o] == {};
    GiveAdds(s.clear, o, m);
    assert t.clear == GiveOf(s.clear, o, m);
    UpMonotone(p, s.pages, o);
    PlaceCached(s, o, m);
  }

  lemma PlaceCached(s: Zone, o: Order, m: nat)
    requires Cached(s) && Coalesced(s.clear) && s.clear[o] == {}
    ensures Cached(PlaceLast(s, o, m)) && Coalesced(PlaceLast(s, o, m).clear)
  {
    var t := PlaceLast(s, o, m);
    assert CachedAt(s, o);
    assert t.clear[o] == {m};
    RewrittenCached(s, t, o, {m});
    forall j: Order ensures CoalescedAt(t.clear, j) {
      assert CoalescedAt(s.clear, j);
    }
  }

  lemma {:induction false} GiveBelow(c: Blocks, k: Order, len: nat)
    requires Apart(c) && c[k] == {} && forall q :: Up(q, k) < len ==> !PageFree(c, q)
    ensures var d := c[k := Below(len)];
      && Apart(d) && Weight(d, 0) == Weight(c, 0) + First(len, k)
      && forall q :: PageFree(d, q) <==> PageFree(c, q) || Up(q, k) < len
    decreases len
  {
    if len == 0 {
      assert Below(0) == {} && c[k := Below(0)] == c;
      FirstIsProduct(0, k);
    } else {
      GiveBelow(c, k, len - 1);
      var e := c[k := Below(len - 1)];
      GiveAdds(e, k, len - 1);
      assert Below(len) == Below(len - 1) + {len - 1};
      assert GiveOf(e, k, len - 1) == c[k := Below(len)];
      FirstNext(len - 1, k);
    }
  }

  /** A fresh region: all of its pages are free and the invariant holds. */
  ghost predicate Fresh(s: Zone)
  {
    Inv(s) && forall p: nat :: PageFree(s.clear, p) <==> p < s.pages
  }

  lemma BelowIsPrefix(p: nat, k: nat)
    requires p == First(Up(p, k), k)
    ensures forall q: nat :: Up(q, k) < Up(p, k) <==> q < p
  {
    forall q: nat ensures Up(q, k) < Up(p, k) <==> q < p {
      if q < p {
        UpMonotone(q, p, k);
        UpIsRange(q, k, Up(p, k));
      } else {
        UpMonotone(p, q, k);
      }
    }
  }

  lemma PlaceLow(s: Zone, p: nat, o: Order)
    requires Placed(s, p) && s.free == s.pages && o == OrderMax(p, 0)
    requires o == MAX_ORDER - 1 || Up(s.pages, o + 1) == 0
    ensures Fresh(ClearLow(s, o, Up(p, o)))
  {
    var len := Up(p, o);
    var t := ClearLow(s, o, len);
    OrderMaxDivides(p, 0);
    BelowIsPrefix(p, o);
    GiveBelow(s.clear, o, len);
    assert s.clear[o] == {} && {} + Below(len) == Below(len);
    assert t.clear == s.clear[o := Below(len)];
    LowCached(s, o, len);
    UpMonotone(p, s.pages, o);
    UpMonotone(p, s.pages, o + 1);
    UpStep(p, o);
    LowCoalesced(s.clear, o, len);
  }

  lemma LowCached(s: Zone, o: Order, len: nat)
    requires Cached(s) && s.clear[o] == {}
    ensures Cached(ClearLow(s, o, len))
  {
    assert CachedAt(s, o);
    assert {} + Below(len) == Below(len);
    RewrittenCached(s, ClearLow(s, o, len), o, Below(len));
  }

  lemma LowCoalesced(c: Blocks, o: Order, len: nat)
    requires Coalesced(c) && (o == MAX_ORDER - 1 || len <= 1)
    ensures Coalesced(c[o := Below(len)])
  {
    var d := c[o := Below(len)];
    forall j: Order ensures CoalescedAt(d, j) {
      assert CoalescedAt(c, j);
    }
  }

  lemma FreeAreaMapUnfolds(s: Zone, p: nat, o: Order)
    requires o == OrderMax(p, 0)
    ensures o == MAX_ORDER - 1 || Up(s.pages, o + 1) == 0 ==> FreeAreaMap(s, p) == ClearLow(s, o, Up(p, o))
    ensures o < MAX_ORDER - 1 && Up(s.pages, o + 1) > 0 ==>
      p >= Pow2(o) && Up(p, o) > 0
      && FreeAreaMap(s, p) == FreeAreaMap(PlaceLast(s, o, Up(p, o) - 1), p - Pow2(o))
  {
    OrderMaxDivides(p, 0);
  }

  lemma {:induction false} FreeAreaMapFresh(s: Zone, p: nat)
    requires Placed(s, p) && s.free == s.pages
    ensures var t := FreeAreaMap(s, p); Fresh(t) && t.pages == s.pages && t.full == s.full && t.free == s.free
    decreases p
  {
    var o := OrderMax(p, 0);
    FreeAreaMapUnfolds(s, p, o);
    if o == MAX_ORDER - 1 || Up(s.pages, o + 1) == 0 {
      PlaceLow(s, p, o);
    } else {
      PlaceOne(s, p, o);
      FreeAreaMapFresh(PlaceLast(s, o, Up(p, o) - 1), p - Pow2(o));
    }
  }

  /** Initial decomposition: for every page count the loop ends with free blocks that tile the
      region, with no free buddies and with every counter and cached index right. */
  lemma RegionMapFresh(n: nat)
    ensures var s := RegionMap(n); Fresh(s) && s.pages == n && s.free == n && !s.full
  {
    var e: Blocks := seq(MAX_ORDER, i => {});
    var s := Zone(n, e, seq(MAX_ORDER, i => 0), seq(MAX_ORDER, i => 0), n, false);
    EmptyContainsNone(e, 0, 0);
    forall p: nat ensures !PageFree(e, p) {
      EmptyContainsNone(e, 0, p);
    }
    assert Apart(e);
    FreeAreaMapFresh(s, n);
  }

  lemma {:induction false} EmptyContainsNone(c: Blocks, k: nat, i: nat)
    requires k <= MAX_ORDER && forall j: Order :: c[j] == {}
    ensures !Contained(c, k, i) && Weight(c, k) == 0
    decreases MAX_ORDER - k
  {
    if k == MAX_ORDER {
    } else {
      EmptyContainsNone(c, k + 1, i / 2);
    }
  }

  /** Which blocks those are: below the top order at most the last one, for each set bit of n, and
      every block of the top order. */
  lemma FreshBlocks(s: Zone, k: Order)
    requires Fresh(s)
    ensures s.clear[k] == if k == MAX_ORDER - 1 then Below(Up(s.pages, k))
                          else if Up(s.pages, k) % 2 == 1 then {Up(s.pages, k) - 1} else {}
  {
    UpStep(s.pages, k);
    forall i: nat
      ensures i in s.clear[k] <==> i < Up(s.pages, k) && (k < MAX_ORDER - 1 ==> i / 2 >= Up(s.pages, k + 1))
    {
      FreshAllFree(s, k, i);
      FreshAllFree(s, k + 1, i / 2);
      ClearIsMaximal(s.clear, k, i);
    }
  }

  lemma FreshAllFree(s: Zone, k: nat, i: nat)
    requires Fresh(s)
    ensures AllFree(s.clear, k, i) <==> i < Up(s.pages, k)
  {
    if i < Up(s.pages, k) {
      forall p | Up(p, k) == i ensures PageFree(s.clear, p) {
        InsideBlock(p, s.pages, k);
      }
    } else {
      UpIsRange(s.pages, k, i);
      UpFirst(i + 1, k);
      FirstNext(i, k);
      var p := First(i + 1, k) - 1;
      UpIsRange(p, k, i);
      if p < s.pages {
        UpMonotone(First(i + 1, k), s.pages, k);
      }
    }
  }
}
