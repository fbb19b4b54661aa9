/** kmalloc and kfree as written: exactly when a call does what the heap relies on. */
module HeapSource {
  import opened Machine
  import opened Builds
  import opened Wrappers
  import opened Segments
  import opened Heap

  // ---------------------------------------------------------------- kmalloc

  /** The block is handed out as it should be, or the heap is left alone and NULL is the answer. */
  ghost predicate MallocRight(hs: seq<Header>, r: Outcome, bytes: nat)
    requires HeapInv(hs)
  {
    match r.answer
    case Null => r.hs == hs
    case Block(a) => HeapInv(r.hs) && Adds(hs, r.hs, a, bytes)
    case Fault => false
  }

  /** A block cut from a header that the code grew leaves a segment that claims too much, or is itself too small. */
  lemma GrownTakeWrong(hs: seq<Header>, g: Header, at: nat, order: nat, bytes: nat)
    requires HeapInv(hs) && 0 < bytes && g == Grown(Source, at, order)
    ensures !MallocRight(hs, Take(hs + [g], |hs|, bytes), bytes)
  {
    var gs, i := hs + [g], |hs|;
    var r := Take(gs, i, bytes);
    var s := g.segs[0];
    assert g.segs == [s];
    if bytes <= s.size {
      assert FirstFit(g.segs, bytes, 0) == 0;
      assert Carve(g.segs, 0, bytes) == Pieces(s, bytes);
      var f := Renewed(g, Pieces(s, bytes));
      assert r.hs[i] == f && r.answer == Block(s.at + LINK);
      if s.size - bytes > LINK {
        PiecesClaim(f, at, order, bytes);
      } else if HeapInv(r.hs) && Adds(hs, r.hs, s.at + LINK, bytes) {
        LiveAt(r.hs, i, s.at + LINK);
        WholeTooSmall(f, at, order);
      }
    } else {
      assert FirstFit(g.segs, bytes, 0) == 1;
    }
  }

  /** The rest of the one segment records 40 bytes more than there are. */
  lemma PiecesClaim(f: Header, at: nat, order: nat, bytes: nat)
    requires var s := Grown(Source, at, order).segs[0];
      bytes <= s.size && s.size - bytes > LINK && f == Renewed(Grown(Source, at, order), Pieces(s, bytes))
    ensures !HeaderInv(f)
  {
    if Tiles(f.segs, f.at + HEADER, End(f)) {
      SecondFits(f.segs, f.at + HEADER, End(f));
    }
  }

  lemma SecondFits(segs: seq<Seg>, start: nat, end: nat)
    requires |segs| == 2 && Tiles(segs, start, end)
    ensures IsFree(segs[1]) ==> segs[1].at + LINK + segs[1].size == end
  {
    var rest := segs[1..];
    assert rest == [segs[1]] && Tiles(rest, segs[1].at, end);
    assert NextAt(rest, end) == end;
  }

  /** The whole segment handed out has 40 bytes less than it claimed. */
  lemma WholeTooSmall(f: Header, at: nat, order: nat)
    requires f == Renewed(Grown(Source, at, order), [Seg(at + HEADER, 0)]) && HeaderInv(f)
    ensures var a := at + HEADER + LINK; a in HeaderLive(f) ==> HeaderLive(f)[a] + LINK < f.size - LINK
  {
    var a := at + HEADER + LINK;
    if a in HeaderLive(f) {
      HeaderLiveInside(f, a);
    }
  }

  /** Exactly when kmalloc as written is right: nothing is asked for, a free segment has room, or the heap cannot
      grow. A block from a header it grows is never right. */
  lemma SourceMallocIff(hs: seq<Header>, bytes: nat, granted: Option<nat>)
    requires HeapInv(hs) && bytes < WORD
    ensures MallocRight(hs, Kmalloc(Source, hs, bytes, granted), bytes)
      <==> bytes == 0 || HasRoom(hs, bytes) || GrowOrder(Source, bytes) == None || granted == None
  {
    if bytes > 0 {
      CachedMaximum(hs, bytes);
      var i := FirstHeader(hs, bytes, 0);
      if i < |hs| {
        TakeKeeps(hs, i, bytes);
      } else if GrowOrder(Source, bytes) != None && granted != None {
        var order := GrowOrder(Source, bytes).value;
        GrownTakeWrong(hs, Grown(Source, granted.value, order), granted.value, order, bytes);
      }
    }
  }

  /** Exactly when it serves a request as it should. */
  lemma SourceServesIff(hs: seq<Header>, bytes: nat, granted: Option<nat>)
    requires HeapInv(hs) && 0 < bytes < WORD
    ensures var r := Kmalloc(Source, hs, bytes, granted);
      r.answer.Block? && MallocRight(hs, r, bytes) <==> HasRoom(hs, bytes)
  {
    SourceMallocIff(hs, bytes, granted);
    CachedMaximum(hs, bytes);
    var i := FirstHeader(hs, bytes, 0);
    if i < |hs| {
      TakeKeeps(hs, i, bytes);
    }
  }

  // ---------------------------------------------------------------- kfree

  /** kfree as written finds no segment, or one whose recorded size is what it computes. */
  predicate FreeIdle(hs: seq<Header>, a: nat)
  {
    var i := FindHeader(hs, a, 0);
    i == |hs| ||
    var h := hs[i];
    var p := Target(Source, h, a);
    p == |h.segs| || FreedSize(Source, h.segs, p, a, End(h)) == h.segs[p].size
  }

  /** Merging that keeps the number of segments keeps the segments. */
  lemma {:induction false} MergedShrinks(b: Build, segs: seq<Seg>)
    ensures |Merged(b, segs)| < |segs| || Merged(b, segs) == segs
    decreases |segs|
  {
    if |segs| < 2 {
    } else if IsFree(segs[0]) && IsFree(segs[1]) {
      MergedShrinks(b, [Joined(b, segs[0], segs[1])] + segs[2..]);
    } else {
      MergedShrinks(b, segs[1..]);
    }
  }

  /** Exactly when kfree as written changes nothing, for every argument. */
  lemma SourceFreeIdleIff(hs: seq<Header>, a: nat)
    requires HeapInv(hs)
    ensures Kfree(Source, hs, a) == hs <==> FreeIdle(hs, a)
  {
    var i := FindHeader(hs, a, 0);
    if i < |hs| && Target(Source, hs[i], a) < |hs[i].segs| {
      var h, p := hs[i], Target(Source, hs[i], a);
      var size := FreedSize(Source, h.segs, p, a, End(h));
      ReleaseIdle(h, p, size);
      assert hs[i := Release(Source, h, p, a)][i] == Release(Source, h, p, a);
    }
  }

  lemma ReleaseIdle(h: Header, p: nat, size: nat)
    requires HeaderInv(h) && p < |h.segs|
    ensures Renewed(h, Merged(Source, Freed(h.segs, p, size))) == h <==> size == h.segs[p].size
  {
    var f := Freed(h.segs, p, size);
    MergedShrinks(Source, f);
    if size == h.segs[p].size {
      assert f == h.segs;
      MergedSame(Source, h.segs);
    } else {
      assert f[p] != h.segs[p];
    }
  }

  /** The block at a is given back, and nothing else happens. */
  ghost predicate FreeRight(hs: seq<Header>, gs: seq<Header>, a: nat)
    requires HeapInv(hs)
  {
    HeapInv(gs) && Drops(hs, gs, a)
  }

  /** A segment that merging leaves handed out was handed out before. */
  lemma {:induction false} MergedAllocated(b: Build, segs: seq<Seg>, s: Seg)
    requires s in Merged(b, segs) && !IsFree(s)
    ensures s in segs
    decreases |segs|
  {
    if |segs| < 2 {
    } else if IsFree(segs[0]) && IsFree(segs[1]) {
      var r := [Joined(b, segs[0], segs[1])] + segs[2..];
      MergedAllocated(b, r, s);
      assert s != r[0];
    } else if s != segs[0] {
      MergedAllocated(b, segs[1..], s);
    }
  }

  /** Another size for a segment that is handed out takes its block off. */
  lemma FreedGone(segs: seq<Seg>, start: nat, end: nat, p: nat, size: nat)
    requires Tiles(segs, start, end) && p < |segs| && size > 0
    requires Tiles(Merged(Source, Freed(segs, p, size)), start, end)
    ensures segs[p].at + LINK !in Live(Merged(Source, Freed(segs, p, size)), start, end)
  {
    var f := Freed(segs, p, size);
    var m := Merged(Source, f);
    var a := segs[p].at + LINK;
    if a in Live(m, start, end) {
      var k := LiveHasSegment(m, start, end, a);
      MergedAllocated(Source, f, m[k]);
      var q :| 0 <= q < |f| && f[q] == m[k];
      if q < p {
        PointersDiffer(segs, start, end, q, p);
      } else if p < q {
        PointersDiffer(segs, start, end, p, q);
      }
    }
  }

  /** Another size for a free segment: what is left no longer tiles, or hands the segment out. */
  lemma FreedWrong(segs: seq<Seg>, start: nat, end: nat, p: nat, size: nat)
    requires Tiles(segs, start, end) && Coalesced(segs) && p < |segs| && IsFree(segs[p]) && size != segs[p].size
    requires Tiles(Merged(Source, Freed(segs, p, size)), start, end)
    ensures segs[p].at + LINK in Live(Merged(Source, Freed(segs, p, size)), start, end)
    ensures segs[p].at + LINK !in Live(segs, start, end)
  {
    var f := Freed(segs, p, size);
    StillCoalesced(segs, p, size);
    MergedSame(Source, f);
    AddressNew(segs, p, start, end);
    TilesSplit(segs, p, start, end);
    TilesSplit(f, p, start, end);
    assert segs[p..][1..] == f[p..][1..];
    assert NextAt(f[p..], end) == NextAt(segs[p..], end);
    HeadLive(f[p..], f[p].at, end);
  }

  lemma StillCoalesced(segs: seq<Seg>, p: nat, size: nat)
    requires Coalesced(segs) && p < |segs| && IsFree(segs[p])
    ensures Coalesced(Freed(segs, p, size))
  {
    var f := Freed(segs, p, size);
    forall i | 0 < i < |f|
      ensures !(IsFree(f[i - 1]) && IsFree(f[i]))
    {
      assert !(IsFree(segs[i - 1]) && IsFree(segs[i]));
    }
  }

  /** Exactly when kfree as written is right: there is nothing to give back, and it notices. In particular it never
      gives back a block that is handed out. */
  lemma SourceFreeIff(hs: seq<Header>, a: nat)
    requires HeapInv(hs)
    ensures FreeRight(hs, Kfree(Source, hs, a), a) <==> a !in HeapLive(hs) && FreeIdle(hs, a)
  {
    SourceFreeIdleIff(hs, a);
    if FreeIdle(hs, a) {
      if a !in HeapLive(hs) {
        DropsNothing(hs, a);
      }
    } else {
      var i := FindHeader(hs, a, 0);
      NotIdleWrong(hs, i, Target(Source, hs[i], a), a);
    }
  }

  lemma NotIdleWrong(hs: seq<Header>, i: nat, p: nat, a: nat)
    requires HeapInv(hs) && i < |hs| && p < |hs[i].segs| && hs[i].segs[p].at + LINK < a
    requires FreedSize(Source, hs[i].segs, p, a, End(hs[i])) != hs[i].segs[p].size
    ensures !FreeRight(hs, hs[i := Release(Source, hs[i], p, a)], a)
  {
    var h, g := hs[i], Release(Source, hs[i], p, a);
    var gs, b := hs[i := g], h.segs[p].at + LINK;
    if FreeRight(hs, gs, a) {
      PointersInside(h, p);
      OthersStay(hs, gs, i, a, b);
      ReleaseDiffers(h, p, a);
    }
  }

  lemma ReleaseDiffers(h: Header, p: nat, a: nat)
    requires HeaderInv(h) && p < |h.segs| && HeaderInv(Release(Source, h, p, a))
    requires FreedSize(Source, h.segs, p, a, End(h)) != h.segs[p].size
    ensures var b := h.segs[p].at + LINK; b in HeaderLive(h) <==> b !in HeaderLive(Release(Source, h, p, a))
  {
    LiveDiffers(h.segs, h.at + HEADER, End(h), p, FreedSize(Source, h.segs, p, a, End(h)));
  }

  /** Of a header's blocks only the one at a is given back. */
  lemma OthersStay(hs: seq<Header>, gs: seq<Header>, i: nat, a: nat, b: nat)
    requires HeapInv(hs) && FreeRight(hs, gs, a) && i < |hs| == |gs| && b != a
    requires gs[i].at == hs[i].at && gs[i].size == hs[i].size && hs[i].at < b < End(hs[i])
    ensures HeaderInv(gs[i]) && (b in HeaderLive(hs[i]) <==> b in HeaderLive(gs[i]))
  {
    LiveAt(hs, i, b);
    LiveAt(gs, i, b);
  }

  /** Whether a segment is handed out changes when its size does. */
  lemma LiveDiffers(segs: seq<Seg>, start: nat, end: nat, p: nat, size: nat)
    requires Tiles(segs, start, end) && Coalesced(segs) && p < |segs| && size != segs[p].size
    requires Tiles(Merged(Source, Freed(segs, p, size)), start, end)
    ensures var b := segs[p].at + LINK;
      b in Live(segs, start, end) <==> b !in Live(Merged(Source, Freed(segs, p, size)), start, end)
  {
    if IsFree(segs[p]) {
      FreedWrong(segs, start, end, p, size);
    } else {
      FreedGone(segs, start, end, p, size);
      TilesSplit(segs, p, start, end);
      HeadLive(segs[p..], segs[p].at, end);
    }
  }
}
