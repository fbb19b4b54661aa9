/** The chain of memory regions on top of the buddy allocator: searched from a cursor that moves
    forward over full regions and back when an earlier region gets pages. */
module Chain {
  import opened Halving
  import opened Machine
  import opened Builds
  import opened Wrappers
  import opened Buddy
  import opened BuddyBlocks
  import opened BuddySteps
  import opened BuddyCanonical
  import opened BuddyRuns

  const USE: bv8 := 0x43      // AVAILABLE, READ and WRITE
  const AVOID: bv8 := 0x34    // BAD, PRESERVE and PROTECTED

  datatype Entry = Entry(start: nat, size: nat, attrib: bv8, zone: Zone)

  /** regions in chain order, next_region as a position in it (None for NULL), and outOfMem. */
  datatype State = State(regions: seq<Entry>, cursor: Option<nat>, outOfMem: bool)

  predicate Usable(e: Entry)
  {
    e.attrib & USE == USE && e.attrib & AVOID == 0 && e.size >= PAGE
  }

  predicate Marked(e: Entry, mark: bv8)
  {
    e.attrib & mark == mark
  }

  /** A usable region is available (bit 6), can be read (bit 0) and written (bit 1), is not protected (bit 2), bad
      (bit 4) or to be preserved (bit 5), and holds a page. */
  lemma UsableMeans(e: Entry)
    ensures Usable(e) <==>
      && Marked(e, 64) && Marked(e, 1) && Marked(e, 2) && !Marked(e, 4) && !Marked(e, 16) && !Marked(e, 32)
      && e.size >= 4096
  {
  }

  /** findNextRegion. */
  function FindNext(rs: seq<Entry>, i: nat): (r: Option<nat>)
    ensures r.Some? ==> i <= r.value < |rs| && Usable(rs[r.value])
    ensures forall j: nat :: i <= j < |rs| && Usable(rs[j]) ==> r.Some? && r.value <= j
    decreases |rs| - i
  {
    if i >= |rs| then None else if Usable(rs[i]) then Some(i) else FindNext(rs, i + 1)
  }

  /** findFreeRegion: the first usable region from i on that is not full. Finding none also sets
      outOfMem, which is left to the callers here. */
  function FindFree(rs: seq<Entry>, i: nat): (r: Option<nat>)
    ensures r.Some? ==> i <= r.value < |rs| && Usable(rs[r.value]) && !rs[r.value].zone.full
    ensures forall j: nat :: i <= j < |rs| && Usable(rs[j]) && !rs[j].zone.full ==> r.Some? && r.value <= j
    decreases |rs| - i
  {
    match FindNext(rs, i)
    case None => None
    case Some(j) => if rs[j].zone.full then FindFree(rs, i + 1) else Some(j)
  }

  predicate HoldsAddress(e: Entry, phaddr: nat)
  {
    e.start <= phaddr < e.start + e.size
  }

  /** findRegion: the first region from i on that holds the address. */
  function FindRegion(rs: seq<Entry>, phaddr: nat, i: nat): (r: Option<nat>)
    ensures r.Some? ==> i <= r.value < |rs| && HoldsAddress(rs[r.value], phaddr)
    ensures forall j: nat :: i <= j < |rs| && HoldsAddress(rs[j], phaddr) ==> r.Some? && r.value <= j
    decreases |rs| - i
  {
    if i >= |rs| then None
    else if HoldsAddress(rs[i], phaddr) then Some(i)
    else FindRegion(rs, phaddr, i + 1)
  }

  function SetZone(rs: seq<Entry>, i: nat, z: Zone): seq<Entry>
    requires i < |rs|
  {
    rs[i := rs[i].(zone := z)]
  }

  /** alloc_page, in a state whose cursor is set unless memory is out. */
  function PageFrom(b: Build, c: State): (State, nat)
    requires c.cursor.None? ==> c.outOfMem
    requires c.cursor.Some? ==> c.cursor.value < |c.regions|
  {
    if c.outOfMem then (c, 0)
    else
      match NextFree(c.regions, c.cursor.value)
      case None => (c.(cursor := None, outOfMem := true), 0)
      case Some(j) => PageOf(b, c.regions, j)
  }

  /** The region alloc_page turns to from region i: i itself unless it is full. */
  function NextFree(rs: seq<Entry>, i: nat): (r: Option<nat>)
    requires i < |rs|
    ensures r.Some? ==> r.value < |rs| && !rs[r.value].zone.full
  {
    if rs[i].zone.full then FindFree(rs, i + 1) else Some(i)
  }

  /** One page of region j, the cursor standing there. */
  function PageOf(b: Build, rs: seq<Entry>, j: nat): (State, nat)
    requires j < |rs|
  {
    var (z, phaddr) := PagesAlloc(b, rs[j].zone, rs[j].start, 0);
    (State(SetZone(rs, j, z), Some(j), false), phaddr)
  }

  /** Standing at a full region is as good as standing at the next one that is not. */
  lemma PageFromMoves(b: Build, c: State)
    requires !c.outOfMem && c.cursor.Some? && c.cursor.value < |c.regions| && c.regions[c.cursor.value].zone.full
    ensures var j := FindFree(c.regions, c.cursor.value + 1);
      PageFrom(b, c) == PageFrom(b, c.(cursor := j, outOfMem := j.None?))
  {
    var j := FindFree(c.regions, c.cursor.value + 1);
    assert NextFree(c.regions, c.cursor.value) == j;
    if j.Some? {
      assert NextFree(c.regions, j.value) == j;
    }
  }

  /** The loop of alloc_pages, standing at region i. */
  function TryFrom(b: Build, rs: seq<Entry>, i: nat, k: nat): (seq<Entry>, nat)
    requires i < |rs|
    decreases |rs| - i
  {
    var (z, phaddr) := PagesAlloc(b, rs[i].zone, rs[i].start, k);
    var ss := SetZone(rs, i, z);
    if phaddr != 0 then (ss, phaddr)
    else
      var j := FindFree(ss, i + 1);
      if j.None? then (ss, 0) else TryFrom(b, ss, j.value, k)
  }

  /** alloc_pages. Running out here does not last: the flag is cleared before the call returns. */
  function PagesFrom(b: Build, c: State, k: nat): (State, nat)
    requires c.cursor.None? ==> c.outOfMem
    requires c.cursor.Some? ==> c.cursor.value < |c.regions|
  {
    if c.outOfMem then (c, 0)
    else
      var (rs, phaddr) := TryFrom(b, c.regions, c.cursor.value, k);
      (c.(regions := rs), phaddr)
  }

  /** free_pages. As written it reads the start of the region at the cursor even when there is none:
      None then. Repaired, a missing cursor counts as beyond every region. */
  function PagesBack(b: Build, c: State, phaddr: nat, k: Order): Option<State>
    requires c.cursor.Some? ==> c.cursor.value < |c.regions|
  {
    match FindRegion(c.regions, phaddr, 0)
    case None => Some(c)
    case Some(i) =>
      if c.cursor.None? && b == Source then None
      else
        var e := c.regions[i];
        var rs := SetZone(c.regions, i, PagesFree(b, e.zone, e.start, e.size, phaddr, k).0);
        var back := c.cursor.None? || e.start < c.regions[c.cursor.value].start;
        Some(State(rs, if back then Some(i) else c.cursor, false))
  }

  // ---------------------------------------------------------------- the program

  class RegionChain {
    const build: Build
    var regions: seq<Entry>
    var cursor: Option<nat>
    var outOfMem: bool

    ghost function View(): State
      reads this
    {
      State(regions, cursor, outOfMem)
    }

    predicate CursorInside()
      reads this
    {
      (cursor.None? ==> outOfMem) && (cursor.Some? ==> cursor.value < |regions|)
    }

    method FindNextRegion(from: nat) returns (r: Option<nat>)
      ensures r == FindNext(regions, from)
    {
      var region := from;
      while region < |regions|
        invariant from <= region
        invariant FindNext(regions, region) == FindNext(regions, from)
      {
        if Usable(regions[region]) {
          return Some(region);
        }
        region := region + 1;
      }
      r := None;
    }

    method FindFreeRegion(from: nat) returns (r: Option<nat>)
      modifies this`outOfMem
      ensures r == FindFree(regions, from) && outOfMem == (old(outOfMem) || r.None?)
    {
      var at := from;
      r := FindNextRegion(at);
      while r.Some? && regions[r.value].zone.full
        invariant outOfMem == old(outOfMem)
        invariant r == FindNext(regions, at) && FindFree(regions, at) == FindFree(regions, from)
        decreases |regions| - at
      {
        at := at + 1;
        r := FindNextRegion(at);
      }
      if r.None? {
        outOfMem := true;
      }
    }

    method FindRegionOf(phaddr: nat) returns (r: Option<nat>)
      ensures r == FindRegion(regions, phaddr, 0)
    {
      var region := 0;
      while region < |regions|
        invariant FindRegion(regions, phaddr, region) == FindRegion(regions, phaddr, 0)
      {
        if regions[region].start <= phaddr < regions[region].start + regions[region].size {
          return Some(region);
        }
        region := region + 1;
      }
      r := None;
    }

    /** pages_alloc on one region of the chain. */
    method AllocIn(i: nat, order: nat) returns (phaddr: nat)
      requires i < |regions|
      modifies this`regions
      ensures var (z, a) := PagesAlloc(build, old(regions)[i].zone, old(regions)[i].start, order);
        regions == SetZone(old(regions), i, z) && phaddr == a
    {
      var (z, a) := PagesAlloc(build, regions[i].zone, regions[i].start, order);
      regions := SetZone(regions, i, z);
      phaddr := a;
    }

    method AllocPage() returns (phaddr: nat)
      requires CursorInside()
      modifies this
      ensures (View(), phaddr) == PageFrom(build, old(View()))
    {
      while !outOfMem && regions[cursor.value].zone.full
        invariant CursorInside() && regions == old(regions)
        invariant PageFrom(build, View()) == PageFrom(build, old(View()))
        decreases if cursor.Some? then |regions| - cursor.value else 0
      {
        PageFromMoves(build, View());
        cursor := FindFreeRegion(cursor.value + 1);
      }
      if outOfMem {
        return 0;
      }
      phaddr := AllocIn(cursor.value, 0);
    }

    method AllocPages(order: nat) returns (phaddr: nat)
      requires CursorInside()
      modifies this
      ensures (View(), phaddr) == PagesFrom(build, old(View()), order)
    {
      if outOfMem {
        return 0;
      }
      ghost var target := TryFrom(build, regions, cursor.value, order);
      var areg := cursor;
      while true
        invariant cursor == old(cursor)
        invariant outOfMem ==> target == (regions, 0)
        invariant !outOfMem ==>
          areg.Some? && areg.value < |regions| && target == TryFrom(build, regions, areg.value, order)
        decreases if outOfMem then 0 else |regions| - areg.value + 1
      {
        if outOfMem {
          outOfMem := false;
          return 0;
        }
        phaddr := AllocIn(areg.value, order);
        if phaddr != 0 {
          return;
        }
        areg := FindFreeRegion(areg.value + 1);
      }
    }

    /** As written this reads a region at the cursor whenever the address lies in some region. Without a cursor that
        is a fault, and the block has been given back by then. */
    method FreePages(phaddr: nat, order: Order) returns (fault: bool)
      requires CursorInside()
      modifies this
      ensures fault <==> PagesBack(build, old(View()), phaddr, order).None?
      ensures !fault ==> Some(View()) == PagesBack(build, old(View()), phaddr, order)
      ensures fault ==> FindRegion(old(regions), phaddr, 0).Some? && cursor == None
      ensures fault ==> var i := FindRegion(old(regions), phaddr, 0).value; var e := old(regions)[i];
        regions == SetZone(old(regions), i, PagesFree(build, e.zone, e.start, e.size, phaddr, order).0)
    {
      var reg := FindRegionOf(phaddr);
      if reg.None? {
        return false;
      }
      var e := regions[reg.value];
      regions := SetZone(regions, reg.value, PagesFree(build, e.zone, e.start, e.size, phaddr, order).0);
      if cursor.None? && build == Source {
        return true;
      }
      if cursor.None? || e.start < regions[cursor.value].start {
        cursor := reg;
      }
      outOfMem := false;
      return false;
    }
  }

  // ---------------------------------------------------------------- what the chain keeps

  ghost predicate EntryGood(b: Build, e: Entry)
  {
    Inv(e.zone) && FullRight(b, e.zone) && e.size >= PAGE * e.zone.pages && e.start > 0
  }

  /** Usable regions before the i-th are full. */
  predicate FullBefore(rs: seq<Entry>, i: nat)
  {
    forall j: nat :: j < i && j < |rs| && Usable(rs[j]) ==> rs[j].zone.full
  }

  /** Regions lie one after the other; every usable one before the cursor is full; there is no cursor
      exactly when memory is out, and then every usable region is full. */
  ghost predicate ChainInv(b: Build, c: State)
  {
    && (forall i: nat :: i < |c.regions| ==> EntryGood(b, c.regions[i]))
    && (forall i: nat, j: nat :: i < j < |c.regions| ==> c.regions[i].start + c.regions[i].size <= c.regions[j].start)
    && (c.cursor.None? <==> c.outOfMem)
    && (c.cursor.Some? ==> c.cursor.value < |c.regions| && Usable(c.regions[c.cursor.value]))
    && FullBefore(c.regions, if c.cursor.Some? then c.cursor.value else |c.regions|)
  }

  /** A block of order k of usable region i left the free pages; the other regions are as before. */
  ghost predicate Served(rs: seq<Entry>, ss: seq<Entry>, i: nat, k: Order, m: nat, phaddr: nat)
  {
    && i < |rs| && Usable(rs[i]) && |ss| == |rs| && ss == SetZone(rs, i, ss[i].zone)
    && Taken(rs[i].zone, ss[i].zone, k, m) && phaddr == Address(rs[i].start, k, m)
  }

  ghost predicate AllFull(rs: seq<Entry>)
  {
    FullBefore(rs, |rs|)
  }

  lemma NotEmpty(s: Zone)
    requires Inv(s) && s.free > 0
    ensures !NoneFrom(s.clear, 0)
  {
    if NoneFrom(s.clear, 0) {
      WeightNone(s.clear, 0);
    }
  }

  lemma {:induction false} WeightNone(c: Blocks, k: nat)
    requires k <= MAX_ORDER && NoneFrom(c, k)
    ensures Weight(c, k) == 0
    decreases MAX_ORDER - k
  {
    if k == MAX_ORDER {
    } else {
      WeightNone(c, k + 1);
    }
  }

  lemma ServedEntry(b: Build, e: Entry, k: Order)
    requires EntryGood(b, e) && !NoneFrom(e.zone.clear, k)
    ensures var (z, r) := Alloc(b, e.zone, k);
      EntryGood(b, e.(zone := z)) && r.Some? && Taken(e.zone, z, k, r.value) && Address(e.start, k, r.value) > 0
  {
    AllocSome(b, e.zone, k);
    AddressIsFirst(e.start, k, Alloc(b, e.zone, k).1.value);
  }

  /** A request on one region: it gives a positive address, or fails and leaves the region good. */
  lemma AllocEntry(b: Build, e: Entry, k: Order)
    requires EntryGood(b, e)
    ensures var (z, a) := PagesAlloc(b, e.zone, e.start, k);
      EntryGood(b, e.(zone := z))
      && if NoneFrom(e.zone.clear, k) then a == 0 && z == Exhausted(b, e.zone)
         else a > 0 && Alloc(b, e.zone, k).1.Some? && var m := Alloc(b, e.zone, k).1.value;
           Taken(e.zone, z, k, m) && a == Address(e.start, k, m)
  {
    if NoneFrom(e.zone.clear, k) {
      AllocNone(b, e.zone, k);
      ExhaustedInv(b, e.zone);
    } else {
      ServedEntry(b, e, k);
    }
  }

  /** Region i is the first usable one that is not called full. */
  predicate FirstFree(rs: seq<Entry>, i: nat)
  {
    i < |rs| && Usable(rs[i]) && !rs[i].zone.full && FullBefore(rs, i)
  }

  /** alloc_page: it keeps the chain's invariant and fails exactly when every usable region is called
      full; otherwise one page of the first that is not leaves the free ones, and the cursor stands there. */
  lemma PageFromKeeps(b: Build, c: State)
    requires ChainInv(b, c)
    ensures var (d, phaddr) := PageFrom(b, c);
      && ChainInv(b, d)
      && (phaddr == 0 <==> AllFull(c.regions))
      && (phaddr == 0 ==> d == c.(cursor := None, outOfMem := true))
      && (phaddr > 0 ==> !d.outOfMem && d.cursor.Some? && FirstFree(c.regions, d.cursor.value))
      && (phaddr > 0 ==> exists m :: Served(c.regions, d.regions, d.cursor.value, 0, m, phaddr))
  {
    if c.outOfMem {
      assert PageFrom(b, c) == (c, 0);
    } else {
      var i := c.cursor.value;
      match NextFree(c.regions, i)
      case None => NoneLeft(b, c);
      case Some(j) => PageOfKeeps(b, c, j);
    }
  }

  lemma NoneLeft(b: Build, c: State)
    requires ChainInv(b, c) && !c.outOfMem
    requires c.regions[c.cursor.value].zone.full && FindFree(c.regions, c.cursor.value + 1) == None
    ensures AllFull(c.regions) && ChainInv(b, c.(cursor := None, outOfMem := true))
  {
  }

  lemma PageOfKeeps(b: Build, c: State, j: nat)
    requires ChainInv(b, c) && !c.outOfMem
    requires j < |c.regions| && Usable(c.regions[j]) && !c.regions[j].zone.full && FullBefore(c.regions, j)
    ensures var (d, phaddr) := PageOf(b, c.regions, j);
      && ChainInv(b, d) && phaddr > 0 && d.cursor == Some(j) && !d.outOfMem
      && exists m :: Served(c.regions, d.regions, j, 0, m, phaddr)
  {
    var e := c.regions[j];
    assert e.zone.free > 0;
    NotEmpty(e.zone);
    AllocEntry(b, e, 0);
    var (z, a) := PagesAlloc(b, e.zone, e.start, 0);
    var m := Alloc(b, e.zone, 0).1.value;
    assert Served(c.regions, PageOf(b, c.regions, j).0.regions, j, 0, m, a);
  }

  /** Repaired: alloc_page fails exactly when no usable region has a free page. */
  lemma PageFailsIffNonePage(c: State)
    requires ChainInv(Repaired, c)
    ensures PageFrom(Repaired, c).1 == 0 <==>
      forall i: nat :: i < |c.regions| && Usable(c.regions[i]) ==> c.regions[i].zone.free == 0
  {
    PageFromKeeps(Repaired, c);
    assert forall i: nat :: i < |c.regions| ==> EntryGood(Repaired, c.regions[i]);
  }

  // ---------------------------------------------------------------- alloc_pages

  /** Region j was asked from region i on: the one at i, and every usable one after it that is not full. */
  predicate Asked(rs: seq<Entry>, i: nat, j: nat)
  {
    j < |rs| && (j == i || (i < j && Usable(rs[j]) && !rs[j].zone.full))
  }

  /** What happens to the regions asked before region n: nothing, or they are called full. */
  ghost predicate OnlyExhausted(b: Build, rs: seq<Entry>, ss: seq<Entry>, i: nat, n: nat)
  {
    |ss| == |rs| && forall j: nat :: j < |rs| ==>
      ss[j] == if j < n && Asked(rs, i, j) then rs[j].(zone := Exhausted(b, rs[j].zone)) else rs[j]
  }

  ghost predicate AllGood(b: Build, rs: seq<Entry>)
  {
    forall i: nat :: i < |rs| ==> EntryGood(b, rs[i])
  }

  /** What alloc_pages did from region i on: n is the region that served it, or the number of regions. */
  ghost predicate Tried(b: Build, rs: seq<Entry>, ss: seq<Entry>, i: nat, n: nat, k: Order, a: nat)
  {
    && (forall j: nat :: j < n && Asked(rs, i, j) ==> NoneFrom(rs[j].zone.clear, k))
    && if a == 0 then n == |rs| && OnlyExhausted(b, rs, ss, i, n)
       else
         && i <= n < |rs| == |ss| && Asked(rs, i, n) && !NoneFrom(rs[n].zone.clear, k)
         && OnlyExhausted(b, rs, ss[n := rs[n]], i, n)
         && Alloc(b, rs[n].zone, k).1.Some? && ss[n] == rs[n].(zone := Alloc(b, rs[n].zone, k).0)
         && a == Address(rs[n].start, k, Alloc(b, rs[n].zone, k).1.value)
  }

  /** The first region asked that can serve the request serves it; if none can, the request fails. */
  lemma {:induction false} TryFromServes(b: Build, rs: seq<Entry>, i: nat, k: Order) returns (n: nat)
    requires i < |rs| && AllGood(b, rs)
    ensures var (ss, a) := TryFrom(b, rs, i, k); Tried(b, rs, ss, i, n, k, a)
    decreases |rs| - i
  {
    AllocEntry(b, rs[i], k);
    var (z, a) := PagesAlloc(b, rs[i].zone, rs[i].start, k);
    var ss := SetZone(rs, i, z);
    var j := FindFree(ss, i + 1);
    if a != 0 {
      n := i;
      assert SetZone(rs, i, z)[n := rs[n]] == rs;
    } else if j.None? {
      n := |rs|;
      AskedLast(rs, ss, i);
    } else {
      n := TryFromServes(b, ss, j.value, k);
      var (tt, r) := TryFrom(b, ss, j.value, k);
      AskedNext(rs, ss, i, j.value);
      TriedNext(b, rs, ss, tt, i, j.value, n, k, r);
    }
  }

  lemma AskedLast(rs: seq<Entry>, ss: seq<Entry>, i: nat)
    requires i < |rs| == |ss| && ss == SetZone(rs, i, ss[i].zone) && FindFree(ss, i + 1) == None
    ensures forall h: nat :: Asked(rs, i, h) ==> h == i
  {
    assert forall h: nat :: Asked(rs, i, h) && h != i ==> ss[h] == rs[h];
  }

  lemma AskedNext(rs: seq<Entry>, ss: seq<Entry>, i: nat, j: nat)
    requires i < |rs| == |ss| && ss == SetZone(rs, i, ss[i].zone) && FindFree(ss, i + 1) == Some(j)
    ensures i < j && forall h: nat :: Asked(rs, i, h) <==> h == i || Asked(ss, j, h)
  {
    forall h: nat ensures Asked(rs, i, h) <==> h == i || Asked(ss, j, h) {
      assert h != i && h < |rs| ==> ss[h] == rs[h];
    }
  }

  lemma TriedNext(b: Build, rs: seq<Entry>, ss: seq<Entry>, tt: seq<Entry>, i: nat, j: nat, n: nat, k: Order, a: nat)
    requires i < j < |rs| == |ss| && Tried(b, ss, tt, j, n, k, a)
    requires forall h: nat :: Asked(rs, i, h) <==> h == i || Asked(ss, j, h)
    requires NoneFrom(rs[i].zone.clear, k) && ss == SetZone(rs, i, Exhausted(b, rs[i].zone))
    ensures Tried(b, rs, tt, i, n, k, a)
  {
    forall h: nat | h < |rs| && h != i ensures ss[h] == rs[h] {
    }
    assert a != 0 ==> n != i;
    forall h: nat | h < n && Asked(rs, i, h) ensures NoneFrom(rs[h].zone.clear, k) {
      assert h != i ==> Asked(ss, j, h);
    }
  }

  /** Repaired: alloc_pages fails exactly when no usable region has an aligned run of that many free
      pages, and then it changes nothing; otherwise one block of one usable region leaves the free
      pages. The chain's invariant survives either way. */
  lemma PagesFromServes(c: State, k: Order)
    requires ChainInv(Repaired, c)
    ensures var (d, phaddr) := PagesFrom(Repaired, c, k);
      && ChainInv(Repaired, d)
      && (phaddr == 0 <==> NoRunAnywhere(c.regions, k))
      && (phaddr == 0 ==> d == c)
      && d == c.(regions := d.regions)
      && (phaddr > 0 ==> exists i, m :: Served(c.regions, d.regions, i, k, m, phaddr))
  {
    var (d, phaddr) := PagesFrom(Repaired, c, k);
    RunsAreBlocks(Repaired, c.regions, k);
    if c.outOfMem {
      forall i: nat | i < |c.regions| && Usable(c.regions[i]) ensures NoneFrom(c.regions[i].zone.clear, k) {
        FullServesNone(c.regions[i], k);
      }
    } else {
      var i := c.cursor.value;
      var n := TryFromServes(Repaired, c.regions, i, k);
      if phaddr == 0 {
        assert d.regions == c.regions;
        forall j: nat | j < |c.regions| && Usable(c.regions[j]) ensures NoneFrom(c.regions[j].zone.clear, k) {
          if !Asked(c.regions, i, j) {
            FullServesNone(c.regions[j], k);
          }
        }
      } else {
        ServedKeeps(c, d, i, n, k, phaddr);
      }
    }
  }

  /** No usable region has an aligned run of 2^k free pages. */
  ghost predicate NoRunAnywhere(rs: seq<Entry>, k: Order)
  {
    forall i: nat, m: nat :: i < |rs| && Usable(rs[i]) ==> !AllFree(rs[i].zone.clear, k, m)
  }

  lemma RunsAreBlocks(b: Build, rs: seq<Entry>, k: Order)
    requires AllGood(b, rs)
    ensures NoRunAnywhere(rs, k) <==> forall j: nat :: j < |rs| && Usable(rs[j]) ==> NoneFrom(rs[j].zone.clear, k)
  {
    forall j: nat | j < |rs|
      ensures NoneFrom(rs[j].zone.clear, k) <==> forall m: nat :: !AllFree(rs[j].zone.clear, k, m)
    {
      NoRun(rs[j].zone, k);
    }
  }

  lemma NoRun(s: Zone, k: Order)
    requires Inv(s)
    ensures NoneFrom(s.clear, k) <==> forall m: nat :: !AllFree(s.clear, k, m)
  {
    AllocFailsIffNoRun(Repaired, s, k);
    if NoneFrom(s.clear, k) {
      AllocNone(Repaired, s, k);
    } else {
      AllocSome(Repaired, s, k);
    }
  }

  lemma FullServesNone(e: Entry, k: Order)
    requires EntryGood(Repaired, e) && e.zone.full
    ensures NoneFrom(e.zone.clear, k)
  {
    if !NoneFrom(e.zone.clear, k) {
      AllocSome(Repaired, e.zone, k);
    }
  }

  lemma ServedKeeps(c: State, d: State, i: nat, n: nat, k: Order, phaddr: nat)
    requires ChainInv(Repaired, c) && !c.outOfMem && c.cursor == Some(i) && i <= n < |c.regions|
    requires Asked(c.regions, i, n) && !NoneFrom(c.regions[n].zone.clear, k)
    requires d == c.(regions := d.regions) && |d.regions| == |c.regions|
    requires OnlyExhausted(Repaired, c.regions, d.regions[n := c.regions[n]], i, n)
    requires d.regions[n] == c.regions[n].(zone := Alloc(Repaired, c.regions[n].zone, k).0)
    requires Alloc(Repaired, c.regions[n].zone, k).1.Some?
    requires phaddr == Address(c.regions[n].start, k, Alloc(Repaired, c.regions[n].zone, k).1.value)
    ensures ChainInv(Repaired, d) && exists i, m :: Served(c.regions, d.regions, i, k, m, phaddr)
  {
    var rs, ss := c.regions, d.regions;
    ServedEntry(Repaired, rs[n], k);
    forall j: nat | j < |rs| && j != n ensures ss[j] == rs[j] {
      assert ss[n := rs[n]][j] == ss[j];
    }
    assert ss == SetZone(rs, n, ss[n].zone);
    assert Served(rs, ss, n, k, Alloc(Repaired, rs[n].zone, k).1.value, phaddr);
  }

  // ---------------------------------------------------------------- free_pages

  /** The earlier of region i and the one at the cursor; no cursor stands behind every region. */
  function Earlier(cursor: Option<nat>, i: nat): nat
  {
    if cursor.Some? && cursor.value < i then cursor.value else i
  }

  /** free_pages for any address: as written it faults exactly when the address lies in a region and there is no
      cursor. If the address lies in no region nothing changes; otherwise only that region does, memory is not
      out, and the cursor stands there unless it stood before it. */
  lemma PagesBackMoves(b: Build, c: State, phaddr: nat, k: Order)
    requires ChainInv(b, c)
    ensures var r, d := FindRegion(c.regions, phaddr, 0), PagesBack(b, c, phaddr, k);
      && (d.None? <==> r.Some? && c.cursor.None? && b == Source)
      && (d.Some? ==> if r.None? then d.value == c else
           && |d.value.regions| == |c.regions|
           && d.value.regions == SetZone(c.regions, r.value, d.value.regions[r.value].zone)
           && d.value.cursor == Some(Earlier(c.cursor, r.value)) && !d.value.outOfMem)
  {
    var r := FindRegion(c.regions, phaddr, 0);
    if r.Some? && c.cursor.Some? && c.cursor.value != r.value {
      CursorOrder(b, c, r.value);
    }
  }

  /** The chain order is the order of the start addresses. */
  lemma CursorOrder(b: Build, c: State, i: nat)
    requires ChainInv(b, c) && c.cursor.Some? && i < |c.regions| && c.regions[i].size > 0
    ensures c.regions[i].start < c.regions[c.cursor.value].start <==> i < c.cursor.value
  {
  }

  /** A block of a usable region comes back to that region and to no other, the cursor stands there unless it stood
      before it, and every usable region before the cursor is still full. */
  lemma PagesBackKeeps(c: State, i: nat, k: Order, m: nat)
    requires ChainInv(Repaired, c) && i < |c.regions| && Usable(c.regions[i])
    requires m < Up(c.regions[i].zone.pages, k) && Busy(c.regions[i].zone.clear, k, m)
    ensures var d := PagesBack(Repaired, c, Address(c.regions[i].start, k, m), k);
      && d.Some? && ChainInv(Repaired, d.value)
      && !d.value.outOfMem && d.value.cursor == Some(Earlier(c.cursor, i))
      && |d.value.regions| == |c.regions| && d.value.regions == SetZone(c.regions, i, d.value.regions[i].zone)
      && Given(Repaired, c.regions[i].zone, d.value.regions[i].zone, k, m)
  {
    var e := c.regions[i];
    var a := Address(e.start, k, m);
    EntryBack(e, k, m);
    AddressInside(e.start, e.zone.pages, k, m);
    RegionOfAddress(c.regions, a, 0, i);
    PagesBackMoves(Repaired, c, a, k);
    var d := PagesBack(Repaired, c, a, k).value;
    assert d.regions == SetZone(c.regions, i, FreeBlock(Repaired, e.zone, k, m));
    assert EntryGood(Repaired, d.regions[i]);
  }

  /** One region takes a block back. */
  lemma EntryBack(e: Entry, k: Order, m: nat)
    requires EntryGood(Repaired, e) && m < Up(e.zone.pages, k) && Busy(e.zone.clear, k, m)
    ensures var z := FreeBlock(Repaired, e.zone, k, m);
      && PagesFree(Repaired, e.zone, e.start, e.size, Address(e.start, k, m), k).0 == z
      && Given(Repaired, e.zone, z, k, m) && EntryGood(Repaired, e.(zone := z))
  {
    AddressInside(e.start, e.zone.pages, k, m);
    OffsetOfAddress(Repaired, e.start, k, m);
    GiveAdds(e.zone.clear, k, m);
    FreeBlockEffect(Repaired, e.zone, k, m);
  }

  lemma {:induction false} RegionOfAddress(rs: seq<Entry>, a: nat, j: nat, i: nat)
    requires j <= i < |rs| && rs[i].start <= a < rs[i].start + rs[i].size
    requires forall g: nat, h: nat :: g < h < |rs| ==> rs[g].start + rs[g].size <= rs[h].start
    ensures FindRegion(rs, a, j) == Some(i)
    decreases i - j
  {
    if j == i {
    } else {
      RegionOfAddress(rs, a, j + 1, i);
    }
  }

  // ---------------------------------------------------------------- what goes wrong as written

  /** As written, one request that no usable region can serve makes the chain forget all of them: every
      later alloc_page fails, whatever is free, and after that every free_pages of an address in any
      region reads a region that is not there. */
  lemma OneFailureLosesChain(c: State, k: Order)
    requires ChainInv(Source, c) && !c.outOfMem && PagesFrom(Source, c, k).1 == 0
    ensures var d := PagesFrom(Source, c, k).0;
      && AllFull(d.regions)
      && |d.regions| == |c.regions|
      && (forall i: nat :: i < |c.regions| ==> d.regions[i].zone.free == c.regions[i].zone.free)
      && PageFrom(Source, d) == (d.(cursor := None, outOfMem := true), 0)
      && forall phaddr: nat, j: Order :: FindRegion(d.regions, phaddr, 0).Some? ==>
           PagesBack(Source, PageFrom(Source, d).0, phaddr, j).None?
  {
    var d := PagesFrom(Source, c, k).0;
    var i := c.cursor.value;
    var n := TryFromServes(Source, c.regions, i, k);
    assert OnlyExhausted(Source, c.regions, d.regions, i, n);
    forall j: nat | j < |d.regions| && Usable(d.regions[j]) ensures d.regions[j].zone.full {
      assert Usable(c.regions[j]);
    }
    var j := FindFree(d.regions, i + 1);
    assert j.None?;
  }
}
