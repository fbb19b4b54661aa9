/** One region and its clients: every run of pages_alloc, pages_free and pages_reserve. */
module BuddyRuns {
  import opened Halving
  import opened Machine
  import opened Builds
  import opened Wrappers
  import opened Buddy
  import opened BuddyBlocks
  import opened BuddySteps
  import opened BuddyCanonical
  import opened BuddyInit
  import opened BuddyReserve
  import opened BuddyReserveSource

  // ---------------------------------------------------------------- addresses

  /** BLOCK_ORDER_SIZE. */
  function BlockSize(k: nat): nat
  {
    PAGE * Pow2(k)
  }

  function Address(start: nat, k: nat, i: nat): nat
  {
    BlockSize(k) * i + start
  }

  /** pages_alloc's result: failure is address 0. */
  function PagesAlloc(b: Build, s: Zone, start: nat, k: nat): (Zone, nat)
  {
    var (t, r) := Alloc(b, s, k);
    (t, if r.None? then 0 else Address(start, k, r.value))
  }

  /** The block number pages_free computes. As written it divides by the size of one page whatever the
      order; repaired, by the size of the block, here one page and then k halvings. */
  function FreeOffset(b: Build, start: nat, phaddr: nat, k: nat): nat
    requires phaddr >= start
  {
    var page := (phaddr - start) / PAGE;
    if b == Source then page else Up(page, k)
  }

  /** pages_free: the new state, and whether the call returned with the lock held. */
  function PagesFree(b: Build, s: Zone, start: nat, size: nat, phaddr: nat, k: Order): (Zone, bool)
  {
    if phaddr < start || phaddr >= start + size then (s, b == Source)
    else
      var i := FreeOffset(b, start, phaddr, k);
      if i in s.clear[k] then (s, b == Source) else (FreeBlock(b, s, k, i), false)
  }

  lemma AddressIsFirst(start: nat, k: nat, i: nat)
    ensures Address(start, k, i) == PAGE * First(i, k) + start
  {
    FirstIsProduct(i, k);
    assert BlockSize(k) * i == PAGE * (Pow2(k) * i);
  }

  /** The block number comes back from its address; as written, exactly for single pages and for
      the first block of the region. */
  lemma OffsetOfAddress(b: Build, start: nat, k: nat, i: nat)
    ensures Address(start, k, i) >= start
    ensures FreeOffset(b, start, Address(start, k, i), k) == i <==> b == Repaired || k == 0 || i == 0
  {
    AddressIsFirst(start, k, i);
    UpFirst(i, k);
    FirstGrows(i, k);
  }

  lemma {:induction false} FirstGrows(i: nat, k: nat)
    ensures First(i, k) >= i && (k > 0 && i > 0 ==> First(i, k) > i) && (i == 0 ==> First(i, k) == 0)
    decreases k
  {
    if k == 0 {
    } else {
      FirstGrows(2 * i, k - 1);
    }
  }

  /** Address 0 is a failure, unless the region starts at 0 and its first block was handed out: then
      the block is gone although the caller was told it got nothing. */
  lemma ZeroIsFailure(b: Build, s: Zone, start: nat, k: nat)
    ensures var r := Alloc(b, s, k).1;
      PagesAlloc(b, s, start, k).1 == 0 <==> r.None? || (start == 0 && r.value == 0)
  {
    var r := Alloc(b, s, k).1;
    if r.Some? {
      AddressIsFirst(start, k, r.value);
      FirstGrows(r.value, k);
    }
  }

  /** An aligned block inside the region has an address inside it. */
  lemma AddressInside(start: nat, n: nat, k: nat, i: nat)
    requires i < Up(n, k)
    ensures start <= Address(start, k, i) < start + PAGE * n
  {
    UpFirst(i, k);
    InsideBlock(First(i, k), n, k);
    AddressIsFirst(start, k, i);
  }

  /** The address that pages_alloc answers is where the lowest of the smallest free blocks that are large
      enough starts. */
  lemma AllocAddress(b: Build, s: Zone, start: nat, k: Order, j: Order, m: nat)
    requires Inv(s) && LowestFrom(s.clear, k, j, m)
    ensures PagesAlloc(b, s, start, k).1 == Address(start, j, m)
  {
    AllocLowest(b, s, k, j, m);
    AddressIsFirst(start, j, m);
    AddressIsFirst(start, k, First(m, j - k));
    FirstFirst(m, j - k, k);
  }

  /** If there is a block large enough, a is where the lowest of the smallest such blocks starts. */
  ghost predicate LowestStart(c: Blocks, start: nat, k: nat, a: nat)
  {
    forall j: Order, m: nat :: LowestFrom(c, k, j, m) ==> a == Address(start, j, m)
  }

  lemma AllocStart(b: Build, s: Zone, start: nat, k: nat)
    requires Inv(s)
    ensures LowestStart(s.clear, start, k, PagesAlloc(b, s, start, k).1)
  {
    forall j: Order, m: nat | LowestFrom(s.clear, k, j, m)
      ensures PagesAlloc(b, s, start, k).1 == Address(start, j, m)
    {
      AllocAddress(b, s, start, k, j, m);
    }
  }

  // ---------------------------------------------------------------- clients

  /** A block a client holds; it knows the block by its address. */
  datatype Grant = Grant(order: Order, index: nat)

  /** The calls; pages_free takes any address. */
  datatype Op = AllocOp(request: nat) | FreeOp(order: Order, address: nat) | ReserveOp(order: Order, index: nat)

  /** The block of order k that an address falls into. */
  function GrantAt(start: nat, k: Order, a: nat): Grant
  {
    Grant(k, if a < start then 0 else FreeOffset(Repaired, start, a, k))
  }

  /** The block number that pages_free works out for an address is the one of the block that the address lies in;
      as written, the one of the page. */
  lemma OffsetBrackets(b: Build, start: nat, k: nat, a: nat, i: nat)
    requires a >= start
    ensures var h := if b == Source then 0 else k;
      FreeOffset(b, start, a, k) == i <==> Address(start, h, i) <= a < Address(start, h, i + 1)
  {
    var h := if b == Source then 0 else k;
    UpIsRange((a - start) / PAGE, h, i);
    AddressIsFirst(start, h, i);
    AddressIsFirst(start, h, i + 1);
    PagesBracket(a - start, First(i, h), First(i + 1, h));
  }

  lemma PagesBracket(d: nat, x: nat, y: nat)
    ensures x <= d / PAGE < y <==> PAGE * x <= d < PAGE * y
  {
  }

  datatype System = System(start: nat, size: nat, zone: Zone, live: set<Grant>)

  function Step(b: Build, y: System, op: Op): System
  {
    match op
    case AllocOp(k) =>
      var (t, r) := Alloc(b, y.zone, k);
      y.(zone := t, live := if r.Some? then y.live + {Grant(k, r.value)} else y.live)
    case FreeOp(k, a) =>
      var t := PagesFree(b, y.zone, y.start, y.size, a, k).0;
      y.(zone := t, live := y.live - {GrantAt(y.start, k, a)})
    case ReserveOp(k, i) =>
      var (t, r) := Reserve(b, y.zone, k, i);
      y.(zone := t, live := if r.Some? then y.live + {Grant(k, i)} else y.live)
  }

  function Run(b: Build, y: System, ops: seq<Op>): System
    decreases |ops|
  {
    if ops == [] then y else Run(b, Step(b, y, ops[0]), ops[1..])
  }

  /** Clients free what they hold. The program as written asks more of them: its own offset and cached
      indices must come out right, which the state before the call tells. */
  predicate Allowed(b: Build, y: System, op: Op)
  {
    match op
    case AllocOp(k) => true
    case FreeOp(k, a) =>
      var g := GrantAt(y.start, k, a);
      a >= y.start && g in y.live &&
      (b == Repaired || (FreeOffset(Source, y.start, a, k) == g.index && IndexKept(Source, y.zone, k, g.index)))
    case ReserveOp(k, i) =>
      b == Repaired || (OnLeftEdge(y.zone.clear, k, i) && ReserveIndicesSurvive(y.zone, k, i))
  }

  predicate AllowedRun(b: Build, y: System, ops: seq<Op>)
    decreases |ops|
  {
    ops == [] || (Allowed(b, y, ops[0]) && AllowedRun(b, Step(b, y, ops[0]), ops[1..]))
  }

  // ---------------------------------------------------------------- the partition

  predicate Holds(g: Grant, p: nat)
  {
    Up(p, g.order) == g.index
  }

  ghost predicate Owned(live: set<Grant>, p: nat)
  {
    exists g :: g in live && Holds(g, p)
  }

  /** Free pages and granted blocks tile the region: every page is free or granted, none is both, and
      none is granted twice. */
  ghost predicate Partition(y: System)
  {
    && (forall g :: g in y.live ==> g.index < Up(y.zone.pages, g.order))
    && (forall p: nat :: p < y.zone.pages ==> (PageFree(y.zone.clear, p) <==> !Owned(y.live, p)))
    && (forall g, h, p: nat :: g in y.live && h in y.live && Holds(g, p) && Holds(h, p) ==> g == h)
  }

  /** The full flag: repaired, it says that no page is free; as written it only follows from that. */
  predicate FullRight(b: Build, s: Zone)
  {
    if b == Repaired then s.full <==> s.free == 0 else s.free == 0 ==> s.full
  }

  ghost predicate Good(b: Build, y: System)
  {
    Inv(y.zone) && Partition(y) && FullRight(b, y.zone) && y.size >= PAGE * y.zone.pages
  }

  lemma PagesInside(s: Zone, p: nat)
    requires Inv(s) && PageFree(s.clear, p)
    ensures p < s.pages
  {
    ContainedInside(s.clear, s.pages, 0, p);
  }

  lemma OwnedInsert(live: set<Grant>, g: Grant, p: nat)
    ensures Owned(live + {g}, p) <==> Owned(live, p) || Holds(g, p)
  {
    if h :| h in live && Holds(h, p) {
      assert h in live + {g};
    }
    assert g in live + {g};
  }

  lemma OwnedRemove(live: set<Grant>, g: Grant, p: nat)
    requires g in live && forall h :: h in live && Holds(h, p) && Holds(g, p) ==> h == g
    ensures Owned(live - {g}, p) <==> Owned(live, p) && !Holds(g, p)
  {
    if h :| h in live && Holds(h, p) && !Holds(g, p) {
      assert h in live - {g};
    }
  }

  /** Granting a block whose pages were all free. */
  lemma GrantKeeps(b: Build, y: System, t: Zone, k: Order, i: nat)
    requires Good(b, y) && Inv(t) && Taken(y.zone, t, k, i)
    ensures Good(b, y.(zone := t, live := y.live + {Grant(k, i)}))
  {
    var g := Grant(k, i);
    var live := y.live + {g};
    forall p: nat | p < t.pages ensures PageFree(t.clear, p) <==> !Owned(live, p) {
      OwnedInsert(y.live, g, p);
    }
    forall h, p: nat | h in y.live && Holds(h, p) ensures !Holds(g, p) {
      if Holds(g, p) {
        InsideBlock(p, t.pages, k);
        assert PageFree(y.zone.clear, p) && Owned(y.live, p);
      }
    }
  }

  /** No page of a granted block is free. */
  lemma LiveIsBusy(y: System, g: Grant)
    requires Inv(y.zone) && Partition(y) && g in y.live
    ensures Busy(y.zone.clear, g.order, g.index)
  {
    forall p | Up(p, g.order) == g.index ensures !PageFree(y.zone.clear, p) {
      InsideBlock(p, y.zone.pages, g.order);
      assert Holds(g, p) && Owned(y.live, p);
    }
  }

  lemma ReleaseKeeps(b: Build, y: System, t: Zone, g: Grant)
    requires Good(b, y) && g in y.live && Inv(t) && Given(b, y.zone, t, g.order, g.index)
    ensures Good(b, y.(zone := t, live := y.live - {g}))
  {
    forall p: nat | p < t.pages ensures PageFree(t.clear, p) <==> !Owned(y.live - {g}, p) {
      OwnedRemove(y.live, g, p);
    }
  }

  lemma StepKeeps(b: Build, y: System, op: Op)
    requires Good(b, y) && Allowed(b, y, op)
    ensures Good(b, Step(b, y, op))
  {
    match op
    case AllocOp(k) =>
      if k < MAX_ORDER {
        AllocKeeps(b, y, k);
      }
    case FreeOp(k, a) =>
      FreeKeeps(b, y, k, a);
    case ReserveOp(k, i) =>
      if b == Repaired {
        ReserveEffect(y.zone, k, i);
        if AllFree(y.zone.clear, k, i) {
          GrantKeeps(b, y, Reserve(b, y.zone, k, i).0, k, i);
        }
      } else {
        SourceReserveTakes(y.zone, k, i);
        GrantKeeps(b, y, Reserve(b, y.zone, k, i).0, k, i);
      }
  }

  lemma AllocKeeps(b: Build, y: System, k: Order)
    requires Good(b, y)
    ensures Good(b, Step(b, y, AllocOp(k)))
  {
    if NoneFrom(y.zone.clear, k) {
      AllocNone(b, y.zone, k);
      ExhaustedInv(b, y.zone);
    } else {
      AllocSome(b, y.zone, k);
      var (t, r) := Alloc(b, y.zone, k);
      GrantKeeps(b, y, t, k, r.value);
    }
  }

  lemma ExhaustedInv(b: Build, s: Zone)
    requires Inv(s)
    ensures Inv(Exhausted(b, s))
  {
    forall k: Order ensures CachedAt(Exhausted(b, s), k) {
      assert CachedAt(s, k);
    }
  }

  lemma FreeKeeps(b: Build, y: System, k: Order, a: nat)
    requires Good(b, y) && Allowed(b, y, FreeOp(k, a))
    ensures Good(b, Step(b, y, FreeOp(k, a)))
  {
    var g := GrantAt(y.start, k, a);
    AllowedFree(b, y, k, a);
    ReleaseKeeps(b, y, FreeBlock(b, y.zone, k, g.index), g);
  }

  /** An allowed call gives back the block that its address falls into. */
  lemma AllowedFree(b: Build, y: System, k: Order, a: nat)
    requires Good(b, y) && Allowed(b, y, FreeOp(k, a))
    ensures var g := GrantAt(y.start, k, a); var t := FreeBlock(b, y.zone, k, g.index);
      && PagesFree(b, y.zone, y.start, y.size, a, k) == (t, false)
      && Inv(t) && Given(b, y.zone, t, k, g.index)
  {
    var g := GrantAt(y.start, k, a);
    LiveIsBusy(y, g);
    InsideBlock((a - y.start) / PAGE, y.zone.pages, k);
    GiveAdds(y.zone.clear, k, g.index);
    FreeBlockEffect(b, y.zone, k, g.index);
  }

  lemma SourceReserveTakes(s: Zone, k: Order, i: nat)
    requires Inv(s) && OnLeftEdge(s.clear, k, i) && ReserveIndicesSurvive(s, k, i)
    ensures var (t, r) := Reserve(Source, s, k, i); Inv(t) && r == Some(i) && Taken(s, t, k, i)
  {
    SourceKeepsInv(s, k, i);
    MakeRoomSplitsOnly(s, k, i);
    MakeRoomFreesLeft(s, k, i);
    MakeRoomIndices(s, k, i);
    MakeRoomCoalesced(s, k, i);
    var t := MakeRoom(Source, s, k, i);
    if !Cached(t) {
      MisledStays(t, k, i);
    }
    DirectIsTaken(s, t, k, i);
  }

  /** Partition: after every run free pages and granted blocks tile the region. */
  lemma {:induction false} RunKeeps(b: Build, y: System, ops: seq<Op>)
    requires Good(b, y) && AllowedRun(b, y, ops)
    ensures Good(b, Run(b, y, ops))
    decreases |ops|
  {
    if ops == [] {
    } else {
      StepKeeps(b, y, ops[0]);
      RunKeeps(b, Step(b, y, ops[0]), ops[1..]);
    }
  }

  function Initial(start: nat, n: nat): System
  {
    System(start, PAGE * n, RegionMap(n), {})
  }

  lemma InitialGood(b: Build, start: nat, n: nat)
    requires n > 0
    ensures Good(b, Initial(start, n))
  {
    RegionMapFresh(n);
  }

  lemma {:induction false} RunFrame(b: Build, y: System, ops: seq<Op>)
    requires Good(b, y) && AllowedRun(b, y, ops)
    ensures var z := Run(b, y, ops); z.zone.pages == y.zone.pages && z.start == y.start && z.size == y.size
    decreases |ops|
  {
    if ops == [] {
    } else {
      StepKeeps(b, y, ops[0]);
      StepFrame(b, y, ops[0]);
      RunFrame(b, Step(b, y, ops[0]), ops[1..]);
    }
  }

  lemma StepFrame(b: Build, y: System, op: Op)
    requires Good(b, y) && Allowed(b, y, op)
    ensures Step(b, y, op).zone.pages == y.zone.pages
  {
    match op
    case AllocOp(k) =>
      if k < MAX_ORDER {
        if NoneFrom(y.zone.clear, k) { AllocNone(b, y.zone, k); } else { AllocSome(b, y.zone, k); }
      }
    case FreeOp(k, a) =>
      AllowedFree(b, y, k, a);
    case ReserveOp(k, i) =>
      if b == Repaired { ReserveEffect(y.zone, k, i); } else { SourceReserveTakes(y.zone, k, i); }
  }

  /** Conservation: once every granted block is back, in whatever order, bitmaps, counts and cached
      indices are exactly those region_map built; repaired, the full flag is too. */
  lemma AllBackRestores(b: Build, start: nat, n: nat, ops: seq<Op>)
    requires n > 0 && AllowedRun(b, Initial(start, n), ops) && Run(b, Initial(start, n), ops).live == {}
    ensures var y := Run(b, Initial(start, n), ops);
      y.zone.(full := false) == RegionMap(n) && (b == Repaired ==> y == Initial(start, n))
  {
    var y0 := Initial(start, n);
    InitialGood(b, start, n);
    RegionMapFresh(n);
    RunKeeps(b, y0, ops);
    RunFrame(b, y0, ops);
    var y := Run(b, y0, ops);
    var s := y.zone.(full := false);
    forall k: Order ensures CachedAt(s, k) {
      assert CachedAt(y.zone, k);
    }
    forall p: nat ensures PageFree(s.clear, p) == PageFree(y0.zone.clear, p) {
      if p < n {
        assert !Owned(y.live, p);
      } else if PageFree(s.clear, p) {
        PagesInside(y.zone, p);
      }
    }
    ZoneFromPages(s, RegionMap(n));
  }

  // ---------------------------------------------------------------- what goes wrong as written

  /** Whenever pages_free leaves a stale cached index, the next request for that order is given
      block 0 of the order, which is not the block that was freed and is no free block. */
  lemma StaleIndexHandsOutBlockZero(s: Zone, k: Order, i: nat)
    requires Inv(s) && i < Up(s.pages, k) && Busy(s.clear, k, i) && !IndexKept(Source, s, k, i)
    ensures var t := FreeBlock(Source, s, k, i);
      Alloc(Source, t, k).1 == Some(0) && t.clear[k] == {i} && i != 0
  {
    GiveAdds(s.clear, k, i);
    assert CachedAt(s, k);
    AddEffect(Refund(Source, s, k), k, i, false);
  }

  /** Given the address of the second block of two pages, pages_free as written frees the third. */
  lemma SecondPairMissed(start: nat)
    ensures FreeOffset(Source, start, Address(start, 1, 1), 1) == 2
  {
    AddressIsFirst(start, 1, 1);
  }

  /** Reserving the third page of an untouched region of 512 pages as written does not take that page alone. */
  lemma ThirdPageMissed(n: nat)
    requires n == 512
    ensures var s := RegionMap(n);
      Inv(s) && AllFree(s.clear, 0, 2) && !OnLeftEdge(s.clear, 0, 2) && !Reserved(s, Reserve(Source, s, 0, 2).0, 0, 2)
  {
    var s := RegionMap(n);
    RegionMapFresh(n);
    OneTopBlock(s);
    FreshAllFree(s, 0, 2);
    OnlyTop(s.clear, 0, 2);
    SourceReserves(s, 0, 2);
  }

  /** On the left edge is not enough: reserving the third block of order 8 of 1024 untouched pages as written takes
      that block and leaves a cached index wrong, because order 8 had no free block before. */
  lemma IndexLost(n: nat)
    requires n == 1024
    ensures var s := RegionMap(n);
      && Inv(s) && OnLeftEdge(s.clear, 8, 2) && !ReserveIndicesSurvive(s, 8, 2)
      && Reserved(s, Reserve(Source, s, 8, 2).0, 8, 2) && !Inv(Reserve(Source, s, 8, 2).0)
  {
    var s := RegionMap(n);
    RegionMapFresh(n);
    FreshBlocks(s, 9);
    FreshBlocks(s, 8);
    FirstIsProduct(2, 9);
    FirstIsProduct(4, 8);
    assert Pow2(4) == 16 && Pow2(8) == 256;
    UpFirst(2, 9);
    UpFirst(4, 8);
    assert 1 in s.clear[9] && s.clear[8] == {};
    TwoTopBlocks(s);
    SourceReserves(s, 8, 2);
    SourceKeepsInv(s, 8, 2);
  }

  lemma TwoTopBlocks(s: Zone)
    requires 1 in s.clear[9] && s.clear[8] == {}
    ensures OnLeftEdge(s.clear, 8, 2) && !ReserveIndicesSurvive(s, 8, 2)
  {
    assert FreeAncestor(s.clear, 9, 1) == Some(9);
    assert Up(2, 1) == 1 && First(1, 0) == 1;
    assert !SurvivesAt(s, 9, 8, 1);
  }

  lemma OneTopBlock(s: Zone)
    requires Fresh(s) && s.pages == 512
    ensures forall k: Order :: s.clear[k] == if k == 9 then {0} else {}
  {
    forall k: Order
      ensures s.clear[k] == if k == 9 then {0} else {}
    {
      FreshBlocks(s, k);
      UpOf512(k);
    }
  }

  lemma UpOf512(k: Order)
    ensures Up(512, k) == Pow2(9 - k)
  {
    FirstIsProduct(Pow2(9 - k), k);
    UpFirst(Pow2(9 - k), k);
    PowOf512(k);
  }

  lemma PowOf512(k: Order)
    ensures Pow2(k) * Pow2(9 - k) == 512
  {
    assert Pow2(4) == 16;
    if k > 4 {
      assert Pow2(9 - k) <= 16 && Pow2(k) == 32 * Pow2(k - 5);
    }
  }

  /** When only the first block of the top order is free, the pages at its left edge are the first two. */
  lemma OnlyTop(c: Blocks, k: Order, i: nat)
    requires (forall j: Order :: c[j] == if j == 9 then {0} else {}) && k < 9
    ensures OnLeftEdge(c, k, i) ==> i < 2
  {
    var j := FreeAncestor(c, k + 1, i / 2);
    if j.Some? {
      assert Up(i / 2, j.value - k - 1) in c[j.value];
      assert j.value == 9;
      assert Up(i, 9 - k) == 0;
      FirstGrows(0, 9 - k - 1);
    }
  }

  /** Order 0 of a region of two pages. */
  predicate Singles(s: Zone, clear: set<nat>, count: nat, next: nat)
  {
    s.pages == 2 && s.clear[0] == clear && s.count[0] == count && s.next[0] == next
  }

  lemma TwoPages()
    ensures var s := RegionMap(2);
      Singles(s, {}, 0, 0) && s.clear[1] == {0} && s.count[1] == 1 && s.next[1] == 0
  {
    var s := RegionMap(2);
    RegionMapFresh(2);
    FreshBlocks(s, 0);
    FreshBlocks(s, 1);
    assert Up(2, 0) == 2 && Up(2, 1) == 1;
    assert CachedAt(s, 0) && CachedAt(s, 1);
  }

  lemma FirstPage(s: Zone)
    requires Singles(s, {}, 0, 0) && s.clear[1] == {0} && s.count[1] == 1 && s.next[1] == 0
    ensures var (t, r) := Alloc(Source, s, 0); r == Some(0) && Singles(t, {1}, 1, 1)
  {
    AddHalvesEffect(s, 0, 0);
    var t := SplitHere(s, 1);
    assert BlockSplit(Source, s, 1) == t;
    assert Singles(t, {0, 1}, 2, 0);
    SecondLeft(t);
  }

  lemma SecondLeft(t: Zone)
    requires Singles(t, {0, 1}, 2, 0)
    ensures Singles(Take(t, 0), {1}, 1, 1)
  {
    assert {0, 1} - {0} == {1};
    assert Up(2, 0) == 2;
  }

  lemma SecondPage(s: Zone)
    requires Singles(s, {1}, 1, 1)
    ensures var (t, r) := Alloc(Source, s, 0); r == Some(1) && Singles(t, {}, 0, 0)
  {
  }

  lemma SecondBack(s: Zone)
    requires Singles(s, {}, 0, 0)
    ensures Singles(FreeBlock(Source, s, 0, 1), {1}, 1, 0)
  {
  }

  /** Two pages handed out, the second one given back: the next page handed out is the first one,
      although a client still holds it. */
  lemma PageGrantedTwice(start: nat)
    ensures var y := Run(Source, Initial(start, 2), [AllocOp(0), AllocOp(0), FreeOp(0, Address(start, 0, 1))]);
      Grant(0, 0) in y.live && Alloc(Source, y.zone, 0).1 == Some(0)
  {
    var y0 := Initial(start, 2);
    TwoPages();
    FirstPage(y0.zone);
    var y1 := Step(Source, y0, AllocOp(0));
    SecondPage(y1.zone);
    var y2 := Step(Source, y1, AllocOp(0));
    SecondBack(y2.zone);
    OffsetOfAddress(Source, start, 0, 1);
    AddressIsFirst(start, 0, 1);
    var y3 := Step(Source, y2, FreeOp(0, Address(start, 0, 1)));
    assert y3.zone == FreeBlock(Source, y2.zone, 0, 1);
    RunThree(Source, y0, AllocOp(0), AllocOp(0), FreeOp(0, Address(start, 0, 1)));
  }

  lemma RunThree(b: Build, y: System, o: Op, p: Op, q: Op)
    ensures Run(b, y, [o, p, q]) == Step(b, Step(b, Step(b, y, o), p), q)
  {
    assert [o, p, q][1..] == [p, q] && [p, q][1..] == [q] && [q][1..] == [];
    var z := Step(b, y, o);
    assert Run(b, y, [o, p, q]) == Run(b, z, [p, q]);
    assert Run(b, z, [p, q]) == Run(b, Step(b, z, p), [q]);
    assert Run(b, Step(b, z, p), [q]) == Run(b, Step(b, Step(b, z, p), q), []);
  }
}
