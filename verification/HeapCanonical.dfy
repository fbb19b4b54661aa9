/** The blocks handed out determine the heap: lists of segments, sizes and maxima follow from them. So what kmalloc
    does is told by where its block is and how large, and kfree undoes it. */
module HeapCanonical {
  import opened Machine
  import opened Builds
  import opened Wrappers
  import opened Segments
  import opened Heap

  // ---------------------------------------------------------------- one list of segments

  /** Of two lists that hand out the same blocks the first segments are both free or both not, and the first one's
      is not the shorter. */
  lemma HeadsAgree(x: seq<Seg>, y: seq<Seg>, start: nat, end: nat)
    requires Tiles(x, start, end) && Tiles(y, start, end) && Coalesced(x) && x != [] && y != []
    requires Live(x, start, end) == Live(y, start, end)
    ensures IsFree(y[0]) ==> IsFree(x[0])
    ensures IsFree(x[0]) && IsFree(y[0]) ==> NextAt(x, end) >= NextAt(y, end)
  {
    HeadLive(x, start, end);
    NotLater(y, start, end);
    HeadLive(y, start, end);
    TilesForward(y[1..], NextAt(y, end), end);
    if IsFree(x[0]) && IsFree(y[0]) && |x| > 1 {
      Neighbours(x);
      HeadLive(x[1..], NextAt(x, end), end);
      LiveInside(y[1..], NextAt(y, end), end, NextAt(x, end) + LINK);
    }
  }

  lemma HeadLiveIs(segs: seq<Seg>, start: nat, end: nat)
    requires Tiles(segs, start, end) && segs != [] && !IsFree(segs[0])
    ensures start + LINK in Live(segs, start, end)
    ensures Live(segs, start, end)[start + LINK] == NextAt(segs, end) - start - LINK
    ensures Live(segs[1..], NextAt(segs, end), end) == Live(segs, start, end) - {start + LINK}
  {
    NotLater(segs, start, end);
  }

  lemma TailsAgree(x: seq<Seg>, y: seq<Seg>, start: nat, end: nat)
    requires Tiles(x, start, end) && Tiles(y, start, end) && Coalesced(x) && Coalesced(y) && x != [] && y != []
    requires Live(x, start, end) == Live(y, start, end)
    ensures NextAt(x, end) == NextAt(y, end) && x[0] == y[0]
    ensures Live(x[1..], NextAt(x, end), end) == Live(y[1..], NextAt(y, end), end)
  {
    HeadsAgree(x, y, start, end);
    HeadsAgree(y, x, start, end);
    if IsFree(x[0]) {
      HeadLive(x, start, end);
      HeadLive(y, start, end);
    } else {
      HeadLiveIs(x, start, end);
      HeadLiveIs(y, start, end);
    }
  }

  /** The blocks handed out determine a coalesced list. */
  lemma {:induction false} SegmentsFromLive(x: seq<Seg>, y: seq<Seg>, start: nat, end: nat)
    requires Tiles(x, start, end) && Tiles(y, start, end) && Coalesced(x) && Coalesced(y)
    requires Live(x, start, end) == Live(y, start, end)
    ensures x == y
    decreases |x|
  {
    TilesForward(if x == [] then y else x, start, end);
    if x == [] || y == [] {
      EmptyTiles(x, start, end);
      EmptyTiles(y, start, end);
    } else {
      TailsAgree(x, y, start, end);
      TailCoalesced(x);
      TailCoalesced(y);
      SegmentsFromLive(x[1..], y[1..], NextAt(x, end), end);
      assert x == [x[0]] + x[1..] && y == [y[0]] + y[1..];
    }
  }

  lemma EmptyTiles(segs: seq<Seg>, start: nat, end: nat)
    requires Tiles(segs, start, end)
    ensures segs == [] <==> start == end
  {
    if segs != [] {
      TilesForward(segs[1..], NextAt(segs, end), end);
    }
  }

  lemma TailCoalesced(segs: seq<Seg>)
    requires Coalesced(segs) && segs != []
    ensures Coalesced(segs[1..])
  {
    if |segs| > 1 {
      Neighbours(segs);
      CoalescedTail(segs);
    }
  }

  // ---------------------------------------------------------------- the heap

  /** The same headers, whatever is in them. */
  predicate SameFrames(hs: seq<Header>, gs: seq<Header>)
  {
    |gs| == |hs| && forall i :: 0 <= i < |hs| ==> gs[i].at == hs[i].at && gs[i].size == hs[i].size
  }

  lemma HeaderFromLive(hs: seq<Header>, gs: seq<Header>, i: nat)
    requires HeapInv(hs) && HeapInv(gs) && SameFrames(hs, gs) && HeapLive(hs) == HeapLive(gs) && i < |hs|
    ensures hs[i] == gs[i]
  {
    var h, g := hs[i], gs[i];
    var l, m := HeaderLive(h), HeaderLive(g);
    forall b: nat
      ensures AgreeAt(l, m, b)
    {
      if h.at < b < End(h) {
        LiveAt(hs, i, b);
        LiveAt(gs, i, b);
      } else {
        if b in l {
          HeaderLiveInside(h, b);
        }
        if b in m {
          HeaderLiveInside(g, b);
        }
      }
    }
    MapsEqual(l, m);
    SegmentsFromLive(h.segs, g.segs, h.at + HEADER, End(h));
  }

  lemma MapsEqual(l: map<nat, nat>, m: map<nat, nat>)
    requires forall b: nat :: AgreeAt(l, m, b)
    ensures l == m
  {
    forall b: nat
      ensures b in l <==> b in m
      ensures b in l ==> l[b] == m[b]
    {
      assert AgreeAt(l, m, b);
    }
  }

  /** Canonical form: two heaps on the same headers that hand out the same blocks are the same heap. */
  lemma HeapFromLive(hs: seq<Header>, gs: seq<Header>)
    requires HeapInv(hs) && HeapInv(gs) && SameFrames(hs, gs) && HeapLive(hs) == HeapLive(gs)
    ensures hs == gs
  {
    forall i | 0 <= i < |hs|
      ensures hs[i] == gs[i]
    {
      HeaderFromLive(hs, gs, i);
    }
  }

  // ---------------------------------------------------------------- where kmalloc finds its block

  /** Segment j of header i is the first of all, in chain order, that has room. */
  ghost predicate FirstRoom(hs: seq<Header>, i: nat, j: nat, bytes: nat)
  {
    && i < |hs| && j < |hs[i].segs| && hs[i].segs[j].size >= bytes
    && (forall k :: 0 <= k < j ==> hs[i].segs[k].size < bytes)
    && forall h, k :: 0 <= h < i && 0 <= k < |hs[h].segs| ==> hs[h].segs[k].size < bytes
  }

  lemma FirstRoomExists(hs: seq<Header>, bytes: nat) returns (i: nat, j: nat)
    requires HeapInv(hs) && bytes > 0 && HasRoom(hs, bytes)
    ensures FirstRoom(hs, i, j, bytes)
  {
    CachedMaximum(hs, bytes);
    i := FirstHeader(hs, bytes, 0);
    FitExists(hs[i].segs, bytes);
    j := FirstFit(hs[i].segs, bytes, 0);
  }

  /** The block comes from segment j of header i: it starts behind the segment's pointer, the extent is the one that
      the segment's size says, and it is the only one added. */
  ghost predicate Cuts(hs: seq<Header>, r: Outcome, i: nat, j: nat, bytes: nat)
    requires HeapInv(hs) && i < |hs| && j < |hs[i].segs|
  {
    var a := hs[i].segs[j].at + LINK;
    && r.answer == Block(a) && HeapInv(r.hs) && SameFrames(hs, r.hs)
    && a !in HeapLive(hs) && a in HeapLive(r.hs) && Cut(hs[i].segs[j].size, bytes, HeapLive(r.hs)[a])
    && HeapLive(r.hs) == HeapLive(hs)[a := HeapLive(r.hs)[a]]
  }

  lemma FirstFitIs(segs: seq<Seg>, bytes: nat, j: nat)
    requires j < |segs| && segs[j].size >= bytes && forall k :: 0 <= k < j ==> segs[k].size < bytes
    ensures FirstFit(segs, bytes, 0) == j
  {
  }

  lemma FramesRenewed(hs: seq<Header>, i: nat, segs: seq<Seg>)
    requires i < |hs|
    ensures SameFrames(hs, hs[i := Renewed(hs[i], segs)])
  {
  }

  lemma TakenExtent(hs: seq<Header>, i: nat, j: nat, bytes: nat, g: Header, a: nat)
    requires HeapInv(hs) && i < |hs| && j < |hs[i].segs| && 0 < bytes <= hs[i].segs[j].size
    requires g == Renewed(hs[i], Carve(hs[i].segs, j, bytes)) && a == hs[i].segs[j].at + LINK
    requires HeapInv(hs[i := g])
    ensures a in HeapLive(hs[i := g]) && Cut(hs[i].segs[j].size, bytes, HeapLive(hs[i := g])[a])
  {
    CarvedHeader(hs[i], j, bytes);
    LiveAt(hs[i := g], i, a);
  }

  lemma TakenCuts(hs: seq<Header>, i: nat, j: nat, bytes: nat)
    requires HeapInv(hs) && i < |hs| && j < |hs[i].segs| && 0 < bytes <= hs[i].segs[j].size
    ensures Cuts(hs, Taken(hs, i, j, bytes), i, j, bytes)
  {
    TakenKeeps(hs, i, j, bytes);
    FramesRenewed(hs, i, Carve(hs[i].segs, j, bytes));
    TakenExtent(hs, i, j, bytes, Renewed(hs[i], Carve(hs[i].segs, j, bytes)), hs[i].segs[j].at + LINK);
  }

  lemma TakeCuts(hs: seq<Header>, i: nat, j: nat, bytes: nat)
    requires HeapInv(hs) && bytes > 0 && FirstRoom(hs, i, j, bytes)
    ensures Cuts(hs, Take(hs, i, bytes), i, j, bytes)
  {
    FirstFitIs(hs[i].segs, bytes, j);
    TakenCuts(hs, i, j, bytes);
  }

  /** kmalloc, in either build: if some segment has room, the block is cut from the first that has. */
  lemma MallocCuts(b: Build, hs: seq<Header>, bytes: nat, granted: Option<nat>, i: nat, j: nat)
    requires HeapInv(hs) && bytes > 0 && FirstRoom(hs, i, j, bytes)
    ensures Cuts(hs, Kmalloc(b, hs, bytes, granted), i, j, bytes)
  {
    assert HasRoom(hs, bytes);
    CachedMaximum(hs, bytes);
    var h := FirstHeader(hs, bytes, 0);
    RoomIsHere(hs, h, i, j, bytes);
    TakeCuts(hs, i, j, bytes);
  }

  lemma RoomIsHere(hs: seq<Header>, h: nat, i: nat, j: nat, bytes: nat)
    requires HeapInv(hs) && bytes > 0 && FirstRoom(hs, i, j, bytes) && h == FirstHeader(hs, bytes, 0)
    ensures h == i
  {
    assert hs[i].max >= hs[i].segs[j].size;
  }

  /** A header grown has room in its one segment. */
  lemma GrownFirst(hs: seq<Header>, g: Header, bytes: nat)
    requires HeapInv(hs) && !HasRoom(hs, bytes) && |g.segs| == 1 && g.segs[0].size >= bytes
    ensures FirstRoom(hs + [g], |hs|, 0, bytes)
  {
    var gs := hs + [g];
    forall h, k | 0 <= h < |hs| && 0 <= k < |gs[h].segs|
      ensures gs[h].segs[k].size < bytes
    {
      assert gs[h] == hs[h];
    }
  }

  lemma NoneGrows(hs: seq<Header>, bytes: nat, granted: Option<nat>)
    requires HeapInv(hs) && 0 < bytes <= LIMIT && !HasRoom(hs, bytes) && granted != None
    ensures GrowOrder(Repaired, bytes) != None
    ensures var g := Grown(Repaired, granted.value, GrowOrder(Repaired, bytes).value);
      Kmalloc(Repaired, hs, bytes, granted) == Take(hs + [g], |hs|, bytes)
  {
    GrowthSuffices(bytes);
    CachedMaximum(hs, bytes);
  }

  /** Otherwise, mended, from the one segment of the header that it grows. */
  lemma MallocGrows(hs: seq<Header>, bytes: nat, granted: Option<nat>)
    requires HeapInv(hs) && 0 < bytes <= LIMIT && Grants(hs, bytes, granted) && !HasRoom(hs, bytes) && granted != None
    ensures GrowOrder(Repaired, bytes) != None
    ensures var gs := hs + [Grown(Repaired, granted.value, GrowOrder(Repaired, bytes).value)];
      && HeapInv(gs) && HeapLive(gs) == HeapLive(hs)
      && Cuts(gs, Kmalloc(Repaired, hs, bytes, granted), |hs|, 0, bytes)
  {
    NoneGrows(hs, bytes, granted);
    GrowKeeps(hs, bytes, granted);
    var g := Grown(Repaired, granted.value, GrowOrder(Repaired, bytes).value);
    GrownFirst(hs, g, bytes);
    TakeCuts(hs + [g], |hs|, 0, bytes);
  }

  // ---------------------------------------------------------------- kfree undoes kmalloc

  /** What giving a block back leaves. */
  ghost predicate Without(hs: seq<Header>, gs: seq<Header>, gone: set<nat>)
    requires HeapInv(hs)
  {
    HeapInv(gs) && SameFrames(hs, gs) && HeapLive(gs) == HeapLive(hs) - gone
  }

  lemma FreeWithout(hs: seq<Header>, a: nat)
    requires HeapInv(hs)
    ensures Without(hs, Kfree(Repaired, hs, a), {a})
  {
    FreeKeeps(hs, a);
    FreeFrames(hs, a);
  }

  lemma FreeFrames(hs: seq<Header>, a: nat)
    ensures SameFrames(hs, Kfree(Repaired, hs, a))
  {
  }

  lemma WithoutBoth(hs: seq<Header>, gs: seq<Header>, fs: seq<Header>, a: nat, b: nat)
    requires HeapInv(hs) && Without(hs, gs, {a}) && Without(gs, fs, {b})
    ensures Without(hs, fs, {a, b})
  {
    assert HeapLive(hs) - {a} - {b} == HeapLive(hs) - {a, b};
  }

  lemma WithoutUnique(hs: seq<Header>, gs: seq<Header>, fs: seq<Header>, gone: set<nat>)
    requires HeapInv(hs) && Without(hs, gs, gone) && Without(hs, fs, gone)
    ensures gs == fs
  {
    HeapFromLive(gs, fs);
  }

  lemma CutsWithout(hs: seq<Header>, r: Outcome, i: nat, j: nat, bytes: nat)
    requires HeapInv(hs) && i < |hs| && j < |hs[i].segs| && Cuts(hs, r, i, j, bytes)
    ensures HeapInv(r.hs) && Without(r.hs, hs, {r.answer.address})
  {
    var a, l, m := r.answer.address, HeapLive(hs), HeapLive(r.hs);
    assert m - {a} == l;
  }

  /** Giving a block back right after it was cut restores the whole heap. */
  lemma CutsThenFree(hs: seq<Header>, r: Outcome, i: nat, j: nat, bytes: nat)
    requires HeapInv(hs) && i < |hs| && j < |hs[i].segs| && Cuts(hs, r, i, j, bytes)
    ensures Kfree(Repaired, r.hs, r.answer.address) == hs
  {
    CutsWithout(hs, r, i, j, bytes);
    FreeWithout(r.hs, r.answer.address);
    WithoutUnique(r.hs, hs, Kfree(Repaired, r.hs, r.answer.address), {r.answer.address});
  }

  /** kmalloc and then kfree: every header, segment and maximum is as before, but for a header grown, which is left
      as one free segment. */
  lemma MallocThenFree(hs: seq<Header>, bytes: nat, granted: Option<nat>)
    requires HeapInv(hs) && bytes < WORD && Grants(hs, bytes, granted)
    requires Kmalloc(Repaired, hs, bytes, granted).answer.Block?
    ensures var r := Kmalloc(Repaired, hs, bytes, granted);
      && (HasRoom(hs, bytes) || (granted != None && GrowOrder(Repaired, bytes) != None))
      && Kfree(Repaired, r.hs, r.answer.address) == if HasRoom(hs, bytes) then hs
         else hs + [Grown(Repaired, granted.value, GrowOrder(Repaired, bytes).value)]
  {
    var r := Kmalloc(Repaired, hs, bytes, granted);
    MallocKeeps(hs, bytes, granted);
    if HasRoom(hs, bytes) {
      var i, j := FirstRoomExists(hs, bytes);
      MallocCuts(Repaired, hs, bytes, granted, i, j);
      CutsThenFree(hs, r, i, j, bytes);
    } else {
      MallocGrows(hs, bytes, granted);
      CutsThenFree(hs + [Grown(Repaired, granted.value, GrowOrder(Repaired, bytes).value)], r, |hs|, 0, bytes);
    }
  }

  /** The order in which blocks are given back does not matter. */
  lemma FreesCommute(hs: seq<Header>, a: nat, b: nat)
    requires HeapInv(hs)
    ensures Kfree(Repaired, Kfree(Repaired, hs, a), b) == Kfree(Repaired, Kfree(Repaired, hs, b), a)
  {
    FreeTwice(hs, a, b);
    FreeTwice(hs, b, a);
    assert {a, b} == {b, a};
    WithoutUnique(hs, Kfree(Repaired, Kfree(Repaired, hs, a), b), Kfree(Repaired, Kfree(Repaired, hs, b), a), {a, b});
  }

  lemma FreeTwice(hs: seq<Header>, a: nat, b: nat)
    requires HeapInv(hs)
    ensures Without(hs, Kfree(Repaired, Kfree(Repaired, hs, a), b), {a, b})
  {
    FreeWithout(hs, a);
    FreeWithout(Kfree(Repaired, hs, a), b);
    WithoutBoth(hs, Kfree(Repaired, hs, a), Kfree(Repaired, Kfree(Repaired, hs, a), b), a, b);
  }
}
