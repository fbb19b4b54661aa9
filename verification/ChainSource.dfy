/** The chain of regions as written: exactly when its answers are right. */
module ChainSource {
  import opened Halving
  import opened Machine
  import opened Builds
  import opened Wrappers
  import opened Buddy
  import opened BuddySteps
  import opened BuddyInit
  import opened BuddyRuns
  import opened BuddyFlag
  import opened BuddyFreeSource
  import opened Chain

  // ---------------------------------------------------------------- alloc_pages

  /** Some region that alloc_pages asks has a free block large enough. */
  ghost predicate SomeServes(c: State, k: Order)
  {
    !c.outOfMem && c.cursor.Some? &&
    exists j: nat :: Asked(c.regions, c.cursor.value, j) && !NoneFrom(c.regions[j].zone.clear, k)
  }

  /** A usable region that alloc_pages does not ask: it is marked full, and the cursor is elsewhere. */
  predicate Skipped(c: State, j: nat)
  {
    j < |c.regions| && Usable(c.regions[j]) && c.regions[j].zone.full && c.cursor != Some(j)
  }

  /** One region after a call: as before, called full, or with a block less. */
  ghost predicate After(e: Entry, f: Entry, k: Order)
  {
    || f == e
    || f == e.(zone := Exhausted(Source, e.zone))
    || (!NoneFrom(e.zone.clear, k) && f == e.(zone := Alloc(Source, e.zone, k).0))
  }

  lemma AfterGood(e: Entry, f: Entry, k: Order)
    requires EntryGood(Source, e) && After(e, f, k)
    ensures EntryGood(Source, f) && f.start == e.start && f.size == e.size && f.attrib == e.attrib
    ensures e.zone.full ==> f.zone.full
  {
    ExhaustedInv(Source, e.zone);
    if !NoneFrom(e.zone.clear, k) {
      AllocEntry(Source, e, k);
    }
  }

  /** What happened to each region when the one that serves is n. */
  lemma TriedAfter(rs: seq<Entry>, ss: seq<Entry>, i: nat, n: nat, k: Order, a: nat, j: nat)
    requires Tried(Source, rs, ss, i, n, k, a) && j < |rs|
    ensures |ss| == |rs| && After(rs[j], ss[j], k)
    ensures j != n && j < n && Asked(rs, i, j) ==> ss[j] == rs[j].(zone := Exhausted(Source, rs[j].zone))
    ensures j != n && !(j < n && Asked(rs, i, j)) ==> ss[j] == rs[j]
  {
    if a != 0 {
      var tt := ss[n := rs[n]];
      assert tt[j] == if j < n && Asked(rs, i, j) then rs[j].(zone := Exhausted(Source, rs[j].zone)) else rs[j];
    }
  }

  /** As written alloc_pages keeps the chain's invariant: the regions asked in vain are called full, the first one
      that has a block large enough serves. */
  lemma SourceServes(c: State, k: Order) returns (n: nat)
    requires ChainInv(Source, c) && !c.outOfMem
    ensures var (d, phaddr) := PagesFrom(Source, c, k);
      && Tried(Source, c.regions, d.regions, c.cursor.value, n, k, phaddr)
      && d == c.(regions := d.regions) && ChainInv(Source, d)
  {
    var rs, i := c.regions, c.cursor.value;
    n := TryFromServes(Source, rs, i, k);
    var (ss, a) := TryFrom(Source, rs, i, k);
    forall j: nat | j < |rs|
      ensures |ss| == |rs| && EntryGood(Source, ss[j]) && ss[j].start == rs[j].start && ss[j].size == rs[j].size
      ensures Usable(ss[j]) == Usable(rs[j]) && (rs[j].zone.full ==> ss[j].zone.full)
    {
      TriedAfter(rs, ss, i, n, k, a, j);
      AfterGood(rs[j], ss[j], k);
    }
    assert |ss| == |rs|;
  }

  /** Exactly when alloc_pages as written fails. */
  lemma SourceFailsIff(c: State, k: Order)
    requires ChainInv(Source, c)
    ensures PagesFrom(Source, c, k).1 == 0 <==> !SomeServes(c, k)
  {
    if !c.outOfMem {
      var n := SourceServes(c, k);
      assert PagesFrom(Source, c, k).1 == 0 ==> n == |c.regions|;
    }
  }

  /** Exactly when that answer is right, that is, when it fails for want of a run and for nothing else: a region
      that is asked has a block large enough, or no region that is skipped has. */
  lemma SourceAnswersRight(c: State, k: Order)
    requires ChainInv(Source, c)
    ensures (PagesFrom(Source, c, k).1 == 0 <==> NoRunAnywhere(c.regions, k))
      <==> SomeServes(c, k) || forall j: nat :: Skipped(c, j) ==> NoneFrom(c.regions[j].zone.clear, k)
  {
    SourceFailsIff(c, k);
    var rs := c.regions;
    RunsAreBlocks(Source, rs, k);
    if SomeServes(c, k) {
      var j: nat :| Asked(rs, c.cursor.value, j) && !NoneFrom(rs[j].zone.clear, k);
      assert Usable(rs[j]);
    } else {
      forall j: nat | j < |rs| && Usable(rs[j]) && !NoneFrom(rs[j].zone.clear, k)
        ensures Skipped(c, j)
      {
        if !c.outOfMem {
          assert !Asked(rs, c.cursor.value, j);
        }
      }
    }
  }

  /** Every region behind n is full, and so is n once it has served. */
  predicate LastServed(rs: seq<Entry>, n: nat, k: Order)
    requires n < |rs|
  {
    && (rs[n].zone.full || rs[n].zone.free == Pow2(k))
    && forall j: nat :: n < j < |rs| && Usable(rs[j]) ==> rs[j].zone.full
  }

  /** Exactly when alloc_pages leaves the chain such that the next alloc_page fails: it failed itself, or the region
      that served is full now and none behind it is not. Pages left in regions before it are forgotten. */
  lemma NextPageFailsIff(c: State, k: Order) returns (n: nat)
    requires ChainInv(Source, c) && !c.outOfMem
    ensures var (d, phaddr) := PagesFrom(Source, c, k);
      && Tried(Source, c.regions, d.regions, c.cursor.value, n, k, phaddr)
      && (PageFrom(Source, d).1 == 0 <==> phaddr == 0 || LastServed(c.regions, n, k))
  {
    n := SourceServes(c, k);
    var (d, phaddr) := PagesFrom(Source, c, k);
    var rs, ss, i := c.regions, d.regions, c.cursor.value;
    PageFromKeeps(Source, d);
    forall j: nat | j < |rs|
      ensures Usable(ss[j]) == Usable(rs[j])
      ensures j < n && Usable(rs[j]) ==> ss[j].zone.full
      ensures n < j ==> ss[j] == rs[j]
    {
      TriedAfter(rs, ss, i, n, k, phaddr, j);
    }
    if phaddr != 0 {
      AllocSome(Source, rs[n].zone, k);
    }
    LastFull(rs, ss, n, k, phaddr);
  }

  lemma LastFull(rs: seq<Entry>, ss: seq<Entry>, n: nat, k: Order, a: nat)
    requires |ss| == |rs| && (if a == 0 then n == |rs| else n < |rs| && Usable(rs[n]))
    requires forall j: nat :: j < |rs| ==> Usable(ss[j]) == Usable(rs[j])
    requires forall j: nat :: j < |rs| && j < n && Usable(rs[j]) ==> ss[j].zone.full
    requires forall j: nat :: n < j < |rs| ==> ss[j] == rs[j]
    requires a != 0 ==> (ss[n].zone.full <==> rs[n].zone.full || rs[n].zone.free == Pow2(k))
    ensures AllFull(ss) <==> a == 0 || LastServed(rs, n, k)
  {
    if a != 0 {
      assert Usable(ss[n]);
      forall j: nat | n < j < |rs|
        ensures ss[j].zone.full == rs[j].zone.full && Usable(ss[j]) == Usable(rs[j])
      {
        assert ss[j] == rs[j];
      }
    }
  }

  /** It does happen: one usable region with fewer than 512 pages, all of them free, is asked for a block of the
      top order. */
  lemma UntouchedChainFails(start: nat, n: nat)
    requires start > 0 && 0 < n < 512
    ensures var c := State([Entry(start, PAGE * n, USE, RegionMap(n))], Some(0), false);
      && ChainInv(Source, c) && !NoRunAnywhere(c.regions, 0)
      && PagesFrom(Source, c, 9).1 == 0
      && PageFrom(Source, PagesFrom(Source, c, 9).0).1 == 0
      && PagesFrom(Source, c, 9).0.regions[0].zone.free == n
  {
    var e := Entry(start, PAGE * n, USE, RegionMap(n));
    var c := State([e], Some(0), false);
    UntouchedMarkedFull(start, n);
    RegionMapFresh(n);
    FreshBlocks(e.zone, 9);
    FreshAllFree(e.zone, 0, 0);
    UpSmall(n);
    assert NoneFrom(e.zone.clear, 9);
    OneUsable(c);
    SourceFailsIff(c, 9);
    OneFailureLosesChain(c, 9);
    assert AllFree(c.regions[0].zone.clear, 0, 0);
  }

  lemma OneUsable(c: State)
    requires |c.regions| == 1 && EntryGood(Source, c.regions[0]) && c.cursor == Some(0) && !c.outOfMem
    requires c.regions[0].attrib == USE && c.regions[0].size >= PAGE
    ensures ChainInv(Source, c) && Usable(c.regions[0])
  {
    assert USE & AVOID == 0;
  }

  /** Exactly when alloc_page as written is right to fail, and right not to: some usable region is not marked full,
      or none that is has a free page. */
  lemma SourcePageAnswersRight(c: State)
    requires ChainInv(Source, c)
    ensures var rs := c.regions;
      (PageFrom(Source, c).1 == 0 <==> forall i: nat :: i < |rs| && Usable(rs[i]) ==> rs[i].zone.free == 0)
      <==> !AllFull(rs) || forall i: nat :: i < |rs| && Usable(rs[i]) && rs[i].zone.full ==> rs[i].zone.free == 0
  {
    PageFromKeeps(Source, c);
    assert forall i: nat :: i < |c.regions| ==> EntryGood(Source, c.regions[i]);
  }

  // ---------------------------------------------------------------- free_pages

  /** A block came back to its region, the cursor stands there unless it stood before it, and nothing else changed. */
  ghost predicate Returned(c: State, d: Option<State>, i: nat, k: Order, m: nat)
    requires i < |c.regions|
  {
    && d.Some? && ChainInv(Source, d.value)
    && !d.value.outOfMem && d.value.cursor == Some(Earlier(c.cursor, i))
    && |d.value.regions| == |c.regions| && d.value.regions == SetZone(c.regions, i, d.value.regions[i].zone)
    && Given(Source, c.regions[i].zone, d.value.regions[i].zone, k, m)
  }

  /** Exactly when free_pages as written gives a block back: there is a cursor, the division finds the block, and
      the cached index survives. */
  lemma SourceBackIff(c: State, i: nat, k: Order, m: nat)
    requires ChainInv(Source, c) && i < |c.regions| && Usable(c.regions[i])
    requires m < Up(c.regions[i].zone.pages, k) && Busy(c.regions[i].zone.clear, k, m)
    ensures Returned(c, PagesBack(Source, c, Address(c.regions[i].start, k, m), k), i, k, m)
      <==> c.cursor.Some? && (k == 0 || m == 0) && IndexKept(Source, c.regions[i].zone, k, m)
  {
    var e := c.regions[i];
    var a := Address(e.start, k, m);
    AddressInside(e.start, e.zone.pages, k, m);
    RegionOfAddress(c.regions, a, 0, i);
    SourceGivesBack(e.zone, e.start, e.size, k, m);
    PagesBackMoves(Source, c, a, k);
    if c.cursor.Some? {
      var z := PagesFree(Source, e.zone, e.start, e.size, a, k).0;
      var d := PagesBack(Source, c, a, k).value;
      assert d.regions == SetZone(c.regions, i, z);
      if Inv(z) && Given(Source, e.zone, z, k, m) {
        BackKeeps(c, d, i, z);
      } else {
        assert !(EntryGood(Source, d.regions[i]) && Given(Source, e.zone, d.regions[i].zone, k, m));
      }
    }
  }

  lemma BackKeeps(c: State, d: State, i: nat, z: Zone)
    requires ChainInv(Source, c) && c.cursor.Some? && i < |c.regions| && Usable(c.regions[i])
    requires Inv(z) && FullRight(Source, z) && z.pages == c.regions[i].zone.pages
    requires d == State(SetZone(c.regions, i, z),
                        if c.regions[i].start < c.regions[c.cursor.value].start then Some(i) else c.cursor, false)
    ensures ChainInv(Source, d)
  {
    assert EntryGood(Source, d.regions[i]);
  }

  /** free_pages gives back block m of order k of region i. */
  predicate GivesBack(b: Build, c: State, i: nat, k: Order, m: nat)
    requires i < |c.regions|
  {
    b == Source ==> c.cursor.Some? && (k == 0 || m == 0) && IndexKept(Source, c.regions[i].zone, k, m)
  }

  lemma BackGiven(b: Build, c: State, i: nat, k: Order, m: nat)
    requires ChainInv(b, c) && i < |c.regions| && Usable(c.regions[i])
    requires m < Up(c.regions[i].zone.pages, k) && Busy(c.regions[i].zone.clear, k, m) && GivesBack(b, c, i, k, m)
    ensures var d := PagesBack(b, c, Address(c.regions[i].start, k, m), k);
      && d.Some? && ChainInv(b, d.value) && !d.value.outOfMem && d.value.cursor == Some(Earlier(c.cursor, i))
      && |d.value.regions| == |c.regions| && d.value.regions == SetZone(c.regions, i, d.value.regions[i].zone)
      && Given(b, c.regions[i].zone, d.value.regions[i].zone, k, m)
  {
    match b
    case Source => SourceBackIff(c, i, k, m);
    case Repaired => PagesBackKeeps(c, i, k, m);
  }

  /** Given back, a block can be had again: the region is asked by the next alloc_pages if it is not behind the cursor
      or no longer called full, which repaired it never is, and if it is asked a request of that order is served. */
  lemma BackIsServed(b: Build, c: State, i: nat, k: Order, m: nat)
    requires ChainInv(b, c) && i < |c.regions| && Usable(c.regions[i])
    requires m < Up(c.regions[i].zone.pages, k) && Busy(c.regions[i].zone.clear, k, m) && GivesBack(b, c, i, k, m)
    ensures var d := PagesBack(b, c, Address(c.regions[i].start, k, m), k);
      && d.Some? && d.value.cursor.Some? && d.value.cursor.value < |d.value.regions| == |c.regions|
      && var asked := Asked(d.value.regions, d.value.cursor.value, i);
      && (asked <==> c.cursor.None? || i <= c.cursor.value || !d.value.regions[i].zone.full)
      && (b == Repaired ==> asked)
      && (asked ==> PagesFrom(b, d.value, k).1 > 0)
  {
    BackGiven(b, c, i, k, m);
    var d := PagesBack(b, c, Address(c.regions[i].start, k, m), k).value;
    assert EntryGood(b, d.regions[i]);
    assert AllFree(d.regions[i].zone.clear, k, m);
    NoRun(d.regions[i].zone, k);
    var n := TryFromServes(b, d.regions, d.cursor.value, k);
  }

  /** free_pages returns with the lock of the region it found held. */
  predicate BackHolds(b: Build, c: State, phaddr: nat, k: Order)
  {
    match FindRegion(c.regions, phaddr, 0)
    case None => false
    case Some(i) =>
      var e := c.regions[i];
      PagesFree(b, e.zone, e.start, e.size, phaddr, k).1
  }

  /** As written exactly when the address lies in some region and the block it works out there is free already. */
  lemma BackHoldsIff(b: Build, c: State, phaddr: nat, k: Order)
    ensures var i := FindRegion(c.regions, phaddr, 0);
      BackHolds(b, c, phaddr, k)
      <==> b == Source && i.Some? && var e := c.regions[i.value]; FreeOffset(b, e.start, phaddr, k) in e.zone.clear[k]
  {
  }
}
