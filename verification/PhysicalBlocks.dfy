/** Stretches of physical memory and the free pages of the regions: what is handed out was free before and is not
    free afterwards. */
module PhysicalBlocks {
  import opened Halving
  import opened Machine
  import opened Builds
  import opened Buddy
  import opened BuddyRuns
  import opened Chain

  /** Regions begin at page boundaries and end below 2^52. */
  ghost predicate Aligned(rs: seq<Entry>)
  {
    forall i: nat :: i < |rs| ==> rs[i].start % PAGE == 0 && rs[i].start + rs[i].size <= TOP
  }

  ghost predicate FreePage(rs: seq<Entry>, i: nat, p: nat)
  {
    i < |rs| && PageFree(rs[i].zone.clear, p)
  }

  /** No page of a stretch is free. */
  ghost predicate Off(rs: seq<Entry>, a: nat, n: nat)
  {
    forall i: nat, p: nat :: FreePage(rs, i, p) ==> Disjoint(rs[i].start + PAGE * p, PAGE, a, n)
  }

  /** A byte of a free page. */
  ghost predicate FreeByte(rs: seq<Entry>, x: nat)
  {
    exists i: nat, p: nat :: FreePage(rs, i, p) && rs[i].start + PAGE * p <= x < rs[i].start + PAGE * p + PAGE
  }

  /** All of a stretch is free pages. */
  ghost predicate AllOn(rs: seq<Entry>, a: nat, n: nat)
  {
    forall x: nat :: a <= x < a + n ==> FreeByte(rs, x)
  }

  /** The regions stay where they are and no page became free. */
  ghost predicate Shrinks(rs: seq<Entry>, ss: seq<Entry>)
  {
    && |ss| == |rs|
    && (forall i: nat :: i < |rs| ==> SamePlace(rs[i], ss[i]))
    && forall i: nat, p: nat :: FreePage(ss, i, p) ==> FreePage(rs, i, p)
  }

  predicate SamePlace(e: Entry, f: Entry)
  {
    f.start == e.start && f.size == e.size && f.attrib == e.attrib && f.zone.pages == e.zone.pages
  }

  lemma AlignedStays(rs: seq<Entry>, ss: seq<Entry>)
    requires Shrinks(rs, ss) && Aligned(rs)
    ensures Aligned(ss)
  {
    assert forall i: nat :: i < |ss| ==> SamePlace(rs[i], ss[i]);
  }

  lemma ShrinksTwice(rs: seq<Entry>, ss: seq<Entry>, ts: seq<Entry>)
    requires Shrinks(rs, ss) && Shrinks(ss, ts)
    ensures Shrinks(rs, ts)
  {
    assert forall i: nat :: i < |ts| ==> SamePlace(rs[i], ss[i]) && SamePlace(ss[i], ts[i]);
  }

  lemma OffStays(rs: seq<Entry>, ss: seq<Entry>, a: nat, n: nat)
    requires Shrinks(rs, ss) && Off(rs, a, n)
    ensures Off(ss, a, n)
  {
    forall i: nat, p: nat | FreePage(ss, i, p)
      ensures Disjoint(ss[i].start + PAGE * p, PAGE, a, n)
    {
      assert FreePage(rs, i, p) && SamePlace(rs[i], ss[i]);
    }
  }

  lemma OnBefore(rs: seq<Entry>, ss: seq<Entry>, a: nat, n: nat)
    requires Shrinks(rs, ss) && AllOn(ss, a, n)
    ensures AllOn(rs, a, n)
  {
    forall x: nat | a <= x < a + n
      ensures FreeByte(rs, x)
    {
      assert FreeByte(ss, x);
      var i: nat, p: nat :| FreePage(ss, i, p) && ss[i].start + PAGE * p <= x < ss[i].start + PAGE * p + PAGE;
      assert FreePage(rs, i, p) && SamePlace(rs[i], ss[i]);
    }
  }

  /** What is free and what is not have no byte in common. */
  lemma OnOffDisjoint(rs: seq<Entry>, a: nat, n: nat, b: nat, m: nat)
    requires AllOn(rs, a, n) && Off(rs, b, m) && n > 0 && m > 0
    ensures Disjoint(a, n, b, m)
  {
    var x := if a < b then b else a;
    assert a <= x < a + n ==> FreeByte(rs, x);
    if b <= x < b + m {
      NotBoth(rs, x, b, m);
    }
  }

  lemma NotBoth(rs: seq<Entry>, x: nat, a: nat, n: nat)
    requires Off(rs, a, n) && a <= x < a + n
    ensures !FreeByte(rs, x)
  {
    forall i: nat, p: nat | FreePage(rs, i, p)
      ensures !(rs[i].start + PAGE * p <= x < rs[i].start + PAGE * p + PAGE)
    {
      assert Disjoint(rs[i].start + PAGE * p, PAGE, a, n);
    }
  }

  // ---------------------------------------------------------------- a block served

  /** Regions lie one after the other and have room for the pages they manage. */
  ghost predicate InOrder(rs: seq<Entry>)
  {
    && (forall i: nat :: i < |rs| ==> Inv(rs[i].zone) && rs[i].size >= PAGE * rs[i].zone.pages)
    && forall i: nat, j: nat :: i < j < |rs| ==> rs[i].start + rs[i].size <= rs[j].start
  }

  lemma OrderOf(b: Build, c: State)
    requires ChainInv(b, c)
    ensures InOrder(c.regions)
  {
    forall i: nat | i < |c.regions|
      ensures Inv(c.regions[i].zone) && c.regions[i].size >= PAGE * c.regions[i].zone.pages
    {
      assert EntryGood(b, c.regions[i]);
    }
  }

  /** The pages of a block are those from its first on, and they are all inside. */
  lemma BlockInside(e: Entry, k: Order, m: nat)
    requires m < Up(e.zone.pages, k)
    ensures Address(e.start, k, m) == e.start + PAGE * First(m, k)
    ensures BlockSize(k) == PAGE * (First(m + 1, k) - First(m, k))
    ensures First(m + 1, k) <= e.zone.pages
  {
    AddressIsFirst(e.start, k, m);
    FirstNext(m, k);
    UpFirst(m, k);
    var last := First(m + 1, k) - 1;
    assert Pow2(k) > 0;
    UpIsRange(last, k, m);
    InsideBlock(last, e.zone.pages, k);
  }

  lemma ServedShrinks(rs: seq<Entry>, ss: seq<Entry>, i: nat, k: Order, m: nat, a: nat)
    requires Served(rs, ss, i, k, m, a)
    ensures Shrinks(rs, ss)
  {
    forall j: nat | j < |rs|
      ensures SamePlace(rs[j], ss[j])
      ensures forall p: nat :: PageFree(ss[j].zone.clear, p) ==> PageFree(rs[j].zone.clear, p)
    {
      assert j != i ==> ss[j] == rs[j];
    }
  }

  /** A block that is served lies inside its region and was all free pages before. */
  lemma ServedWasOn(rs: seq<Entry>, ss: seq<Entry>, i: nat, k: Order, m: nat, a: nat)
    requires InOrder(rs) && Served(rs, ss, i, k, m, a)
    ensures rs[i].start <= a && a + BlockSize(k) <= rs[i].start + rs[i].size
    ensures AllOn(rs, a, BlockSize(k))
  {
    BlockInside(rs[i], k, m);
    forall x: nat | a <= x < a + BlockSize(k)
      ensures FreeByte(rs, x)
    {
      var p := (x - rs[i].start) / PAGE;
      InPage(rs[i].start, x, p);
      UpIsRange(p, k, m);
      assert FreePage(rs, i, p);
    }
  }

  lemma InPage(start: nat, x: nat, p: nat)
    requires x >= start && p == (x - start) / PAGE
    ensures start + PAGE * p <= x < start + PAGE * p + PAGE
  {
  }

  lemma ServedAligned(rs: seq<Entry>, ss: seq<Entry>, i: nat, k: Order, m: nat, a: nat)
    requires Served(rs, ss, i, k, m, a) && rs[i].start % PAGE == 0
    ensures a % PAGE == 0
  {
    AddressIsFirst(rs[i].start, k, m);
  }

  /** It is not free afterwards. */
  lemma ServedIsOff(rs: seq<Entry>, ss: seq<Entry>, i: nat, k: Order, m: nat, a: nat)
    requires InOrder(rs) && Served(rs, ss, i, k, m, a)
    ensures Off(ss, a, BlockSize(k))
  {
    BlockInside(rs[i], k, m);
    forall j: nat, p: nat | FreePage(ss, j, p)
      ensures Disjoint(ss[j].start + PAGE * p, PAGE, a, BlockSize(k))
    {
      if j == i {
        UpIsRange(p, k, m);
      } else {
        assert ss[j] == rs[j];
        PagesInside(rs[j].zone, p);
      }
    }
  }

  /** A block that is served is disjoint from all that was handed out before, in whichever region. */
  lemma ServedDisjoint(rs: seq<Entry>, ss: seq<Entry>, i: nat, k: Order, m: nat, a: nat, b: nat, n: nat)
    requires InOrder(rs) && Served(rs, ss, i, k, m, a) && Off(rs, b, n) && n > 0
    ensures Disjoint(a, BlockSize(k), b, n)
  {
    ServedWasOn(rs, ss, i, k, m, a);
    OnOffDisjoint(rs, a, BlockSize(k), b, n);
  }

  /** Every block that clients of a region hold is off its free pages. */
  lemma GrantIsOff(rs: seq<Entry>, i: nat, k: Order, m: nat)
    requires InOrder(rs) && i < |rs| && m < Up(rs[i].zone.pages, k) && Busy(rs[i].zone.clear, k, m)
    ensures Off(rs, Address(rs[i].start, k, m), BlockSize(k))
  {
    BlockInside(rs[i], k, m);
    var a := Address(rs[i].start, k, m);
    forall j: nat, p: nat | FreePage(rs, j, p)
      ensures Disjoint(rs[j].start + PAGE * p, PAGE, a, BlockSize(k))
    {
      PagesInside(rs[j].zone, p);
      if j == i {
        UpIsRange(p, k, m);
      }
    }
  }
}
