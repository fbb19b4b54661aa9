/** The heap on real pages: each header lies on pages that the finder of virtual pages found absent, mapped to a
    block that the chain of regions handed out; the tables that map them lie on pages of the same chain. What the
    heap assumes of the pages it is given follows from that, and so does that no two bytes of it share a byte of
    memory and none lies in a page table. */
module HeapPages {
  import opened Halving
  import opened Machine
  import opened Builds
  import opened Wrappers
  import opened PageBits
  import opened PageWalk
  import opened PageEntries
  import opened PageRights
  import opened Paging
  import opened VirtualPages
  import opened Heap
  import opened PhysicalBlocks
  import Buddy
  import BuddySteps
  import BuddyRuns
  import Chain
  import HeapRuns

  /** The block of physical memory behind a header. */
  datatype Home = Home(phys: nat, order: Buddy.Order)

  function Size(home: Home): nat
  {
    PAGE * Pow2(home.order)
  }

  /** Page i from an address on is mapped, writable, to page i from a physical address on. */
  ghost predicate PageIs(m: Memory, root: nat, at: Word, i: nat, phys: nat)
  {
    var e := PageEntry(m, root, PathAt(at, i));
    e.Some? && FrameOf(e.value) == phys / PAGE + i && Bit(e.value, WRITE) == 1
  }

  /** A header's pages are mapped to its home. */
  ghost predicate OnPages(m: Memory, root: nat, h: Header, home: Home)
  {
    && h.size == PAGE * Pow2(home.order) && h.at % PAGE == 0 && h.at < WORD && Usable(h.at, Pow2(home.order))
    && home.phys % PAGE == 0 && home.phys + h.size <= TOP
    && forall i: nat :: i < Pow2(home.order) ==> PageIs(m, root, h.at, i, home.phys)
  }

  ghost predicate HomesApart(a: Home, b: Home)
  {
    Disjoint(a.phys, Size(a), b.phys, Size(b))
  }

  /** Every header lies on a block of its own that is handed out. */
  ghost predicate Backed(rs: seq<Chain.Entry>, m: Memory, root: nat, hs: seq<Header>, homes: seq<Home>)
  {
    && |homes| == |hs|
    && (forall j :: 0 <= j < |hs| ==> OnPages(m, root, hs[j], homes[j]))
    && (forall j :: 0 <= j < |homes| ==> Off(rs, homes[j].phys, Size(homes[j])))
    && forall i, j :: 0 <= i < j < |homes| ==> HomesApart(homes[i], homes[j])
  }

  ghost predicate TableApart(t: nat, home: Home)
  {
    Disjoint(t * PAGE, PAGE, home.phys, Size(home))
  }

  /** No table lies in a header's block. */
  ghost predicate TablesApart(own: map<nat, seq<nat>>, homes: seq<Home>)
  {
    forall t, j :: t in own && 0 <= j < |homes| ==> TableApart(t, homes[j])
  }

  // ---------------------------------------------------------------- old pages and new pages

  /** A page that is mapped is not among pages that are absent. */
  lemma MappedNotAbsent(m: Memory, root: nat, at: Word, i: nat, phys: nat, a: Word, j: nat, n: nat)
    requires PageIs(m, root, at, i, phys) && AllAbsent(m, root, a, 0, n) && j < n
    ensures PathAt(at, i) != PathAt(a, j)
  {
    AbsentEntry(m, root, a, j);
    assert Absent(m, root, a, j);
  }

  /** So a header lies apart from the new pages. */
  lemma NewPagesApart(m: Memory, root: nat, h: Header, home: Home, a: Word, n: nat)
    requires OnPages(m, root, h, home) && a % PAGE == 0 && AllAbsent(m, root, a, 0, n) && n > 0
    ensures h.at + h.size <= a || a + PAGE * n <= h.at
  {
    var p, q := h.at / PAGE, a / PAGE;
    if p < q + n && q < p + Pow2(home.order) {
      var page := if p < q then q else p;
      MappedNotAbsent(m, root, h.at, page - p, home.phys, a, page - q, n);
    } else if p >= q + n {
      assert PAGE * p >= PAGE * (q + n);
    } else {
      assert PAGE * q >= PAGE * (p + Pow2(home.order));
    }
  }

  /** And keeps its own. */
  lemma OldPagesStay(m: Memory, n: Memory, root: nat, h: Header, home: Home, a: Word, phys: nat, flags: nat, pages: nat)
    requires OnPages(m, root, h, home) && Placed(m, n, root, a, phys, flags, pages)
    ensures OnPages(n, root, h, home)
  {
    forall i: nat | i < Pow2(home.order)
      ensures PageIs(n, root, h.at, i, home.phys)
    {
      assert PageIs(m, root, h.at, i, home.phys);
      var path := PathAt(h.at, i);
      if Within(path, a, pages) {
        var j: nat :| j < pages && path == PathAt(a, j);
        MappedNotAbsent(m, root, h.at, i, home.phys, a, j, pages);
      }
      UsablePage(h.at, Pow2(home.order), i);
    }
  }

  /** The new pages are mapped to the block. */
  lemma NewPagesMapped(m: Memory, n: Memory, root: nat, a: Word, phys: nat, pages: nat, i: nat)
    requires Placed(m, n, root, a, phys, 0, pages) && i < pages && phys % PAGE == 0 && phys + PAGE * pages <= TOP
    ensures PageIs(n, root, a, i, phys)
  {
    assert EntryIs(n, root, a, i, phys, 0);
    EntryMeans(phys + 4096 * i, 0);
    assert !Flag(0, 1) && !Flag(0, 2);
    FrameNumber(phys, i, pages);
  }

  lemma FrameNumber(phys: nat, i: nat, pages: nat)
    requires i < pages && phys % PAGE == 0 && phys + PAGE * pages <= TOP
    ensures (phys + 4096 * i) / 4096 % 0x100_0000_0000 == phys / PAGE + i
  {
    assert (phys + 4096 * i) / 4096 == phys / 4096 + i;
    assert phys / 4096 + i < 0x100_0000_0000;
  }

  // ---------------------------------------------------------------- what keeps everything in place

  /** Free pages only go, tables only come from free pages, and new mappings only go to absent pages. */
  lemma MappedElsewhere(rs: seq<Chain.Entry>, ss: seq<Chain.Entry>, own: map<nat, seq<nat>>, own': map<nat, seq<nat>>,
                        m: Memory, n: Memory, root: nat, a: Word, phys: nat, flags: nat, pages: nat,
                        hs: seq<Header>, homes: seq<Home>)
    requires Drew(rs, ss, own, own') && Placed(m, n, root, a, phys, flags, pages)
    requires Backed(rs, m, root, hs, homes) && TablesApart(own, homes)
    ensures Backed(ss, n, root, hs, homes) && TablesApart(own', homes)
  {
    forall j | 0 <= j < |hs|
      ensures OnPages(n, root, hs[j], homes[j]) && Off(ss, homes[j].phys, Size(homes[j]))
    {
      OldPagesStay(m, n, root, hs[j], homes[j], a, phys, flags, pages);
      OffStays(rs, ss, homes[j].phys, Size(homes[j]));
    }
    forall t, j | t in own' && 0 <= j < |homes|
      ensures TableApart(t, homes[j])
    {
      if t !in own {
        OnOffDisjoint(rs, t * PAGE, PAGE, homes[j].phys, Size(homes[j]));
      }
    }
  }

  /** A block for someone else concerns no home. */
  lemma ServedElsewhere(rs: seq<Chain.Entry>, ss: seq<Chain.Entry>, m: Memory, root: nat, hs: seq<Header>,
                        homes: seq<Home>)
    requires Shrinks(rs, ss) && Backed(rs, m, root, hs, homes)
    ensures Backed(ss, m, root, hs, homes)
  {
    forall j | 0 <= j < |homes|
      ensures Off(ss, homes[j].phys, Size(homes[j]))
    {
      OffStays(rs, ss, homes[j].phys, Size(homes[j]));
    }
  }

  /** Nothing that leaves a header where it is concerns its pages. */
  lemma ReshapedBacked(rs: seq<Chain.Entry>, m: Memory, root: nat, hs: seq<Header>, gs: seq<Header>, homes: seq<Home>)
    requires Backed(rs, m, root, hs, homes) && SamePlaces(hs, gs)
    ensures Backed(rs, m, root, gs, homes)
  {
    forall j | 0 <= j < |gs|
      ensures OnPages(m, root, gs[j], homes[j])
    {
      assert OnPages(m, root, hs[j], homes[j]);
    }
  }

  predicate SamePlaces(hs: seq<Header>, gs: seq<Header>)
  {
    |gs| == |hs| && forall j :: 0 <= j < |hs| ==> gs[j].at == hs[j].at && gs[j].size == hs[j].size
  }

  // ---------------------------------------------------------------- a new header

  lemma RangeEnds(a: Word, n: nat)
    requires Usable(a, n) && a % PAGE == 0
    ensures a + PAGE * n < WORD
  {
  }

  /** The new header on its own: its pages, and the block behind them. */
  lemma HeaderPlaced(rs: seq<Chain.Entry>, ss: seq<Chain.Entry>, i: nat, k: Buddy.Order, b: nat, phys: nat,
                     m: Memory, n: Memory, root: nat, a: Word)
    requires InOrder(rs) && Aligned(rs) && Chain.Served(rs, ss, i, k, b, phys)
    requires Placed(m, n, root, a, phys, 0, Pow2(k))
    ensures var g, home := Grown(Repaired, a, k), Home(phys, k);
      && End(g) < WORD && OnPages(n, root, g, home)
      && AllOn(rs, phys, Size(home)) && Off(ss, phys, Size(home)) && Shrinks(rs, ss)
  {
    ServedShrinks(rs, ss, i, k, b, phys);
    ServedWasOn(rs, ss, i, k, b, phys);
    ServedIsOff(rs, ss, i, k, b, phys);
    ServedAligned(rs, ss, i, k, b, phys);
    RangeEnds(a, Pow2(k));
    forall j: nat | j < Pow2(k)
      ensures PageIs(n, root, a, j, phys)
    {
      NewPagesMapped(m, n, root, a, phys, Pow2(k), j);
    }
  }

  lemma ApartFromAll(rs: seq<Chain.Entry>, m: Memory, root: nat, a: Word, g: Header, home: Home,
                     hs: seq<Header>, homes: seq<Home>)
    requires Backed(rs, m, root, hs, homes) && AllOn(rs, home.phys, Size(home))
    requires g.at == a && g.size == Size(home) && a % PAGE == 0 && AllAbsent(m, root, a, 0, Pow2(home.order))
    ensures forall j :: 0 <= j < |hs| ==> Apart(hs[j], g) && HomesApart(homes[j], home)
  {
    forall j | 0 <= j < |hs|
      ensures Apart(hs[j], g) && HomesApart(homes[j], home)
    {
      NewPagesApart(m, root, hs[j], homes[j], a, Pow2(home.order));
      OnOffDisjoint(rs, home.phys, Size(home), homes[j].phys, Size(homes[j]));
    }
  }

  /** A header on a block just served, at pages just found, keeps everything backed; its pages lie apart from those
      of every other header, and its block from every table. */
  lemma HeaderAdded(rs: seq<Chain.Entry>, ss: seq<Chain.Entry>, ts: seq<Chain.Entry>, i: nat, k: Buddy.Order, b: nat,
                    phys: nat, own: map<nat, seq<nat>>, own': map<nat, seq<nat>>, m: Memory, n: Memory, root: nat,
                    a: Word, hs: seq<Header>, homes: seq<Home>)
    requires InOrder(rs) && Aligned(rs) && Chain.Served(rs, ss, i, k, b, phys) && Drew(ss, ts, own, own')
    requires Placed(m, n, root, a, phys, 0, Pow2(k))
    requires Backed(rs, m, root, hs, homes) && TablesOff(rs, own) && TablesApart(own, homes)
    ensures var g := Grown(Repaired, a, k);
      && End(g) < WORD && (forall j :: 0 <= j < |hs| ==> Apart(hs[j], g))
      && Backed(ts, n, root, hs + [g], homes + [Home(phys, k)]) && TablesApart(own', homes + [Home(phys, k)])
  {
    var g, home := Grown(Repaired, a, k), Home(phys, k);
    HeaderPlaced(rs, ss, i, k, b, phys, m, n, root, a);
    ServedElsewhere(rs, ss, m, root, hs, homes);
    MappedElsewhere(ss, ts, own, own', m, n, root, a, phys, 0, Pow2(k), hs, homes);
    OffStays(ss, ts, phys, Size(home));
    ApartFromAll(rs, m, root, a, g, home, hs, homes);
    TablesApartToo(rs, ss, ts, own, own', home);
  }

  /** The block that was served and the tables, old and new, lie apart. */
  lemma TablesApartToo(rs: seq<Chain.Entry>, ss: seq<Chain.Entry>, ts: seq<Chain.Entry>,
                       own: map<nat, seq<nat>>, own': map<nat, seq<nat>>, home: Home)
    requires AllOn(rs, home.phys, Size(home)) && Off(ss, home.phys, Size(home))
    requires TablesOff(rs, own) && Drew(ss, ts, own, own')
    ensures forall t :: t in own' ==> TableApart(t, home)
  {
    forall t | t in own'
      ensures TableApart(t, home)
    {
      if t in own {
        OnOffDisjoint(rs, home.phys, Size(home), t * PAGE, PAGE);
      } else {
        OnOffDisjoint(ss, t * PAGE, PAGE, home.phys, Size(home));
      }
    }
  }

  // ---------------------------------------------------------------- kmalloc down to the regions

  /** The chain of regions, the page tables and where they hang, the heap with what was asked of it, and where its
      headers live. */
  datatype World = World(
    chain: Chain.State,
    memory: Memory,
    own: map<nat, seq<nat>>,
    heap: HeapRuns.State,
    homes: seq<Home>
  )

  /** The invariant of every layer, and that they keep out of each other's way. */
  ghost predicate Sane(root: nat, w: World)
  {
    && Chain.ChainInv(Repaired, w.chain) && Aligned(w.chain.regions)
    && Tree(w.memory, root, w.own) && TablesOff(w.chain.regions, w.own)
    && HeapRuns.Inv(Repaired, w.heap) && Backed(w.chain.regions, w.memory, root, w.heap.hs, w.homes)
    && TablesApart(w.own, w.homes)
  }

  /** kmalloc has to grow the heap. */
  predicate Grows(hs: seq<Header>, bytes: nat)
  {
    bytes > 0 && FirstHeader(hs, bytes, 0) == |hs| && GrowOrder(Repaired, bytes) != None
  }

  /** There is a cursor unless memory is out. */
  predicate Ready(c: Chain.State)
  {
    (c.cursor.None? ==> c.outOfMem) && (c.cursor.Some? ==> c.cursor.value < |c.regions|)
  }

  /** Pages are mapped at absent addresses; the tables they need come from the chain. */
  ghost predicate MapsRun(root: nat, c: Chain.State, w: World, x: World, a: Word, phys: nat, flags: nat, pages: nat)
  {
    && Placed(w.memory, x.memory, root, a, phys, flags, pages) && Linked(w.memory, w.own, x.memory, x.own)
    && Drew(c.regions, x.chain.regions, w.own, x.own)
    && Chain.ChainInv(Repaired, x.chain) && Tree(x.memory, root, x.own) && TablesOff(x.chain.regions, x.own)
  }

  /** A call of kmalloc: if the heap must grow, alloc_pages is asked for a block, and vpages_map places it. When no
      tables can be had for all of its pages, the heap gets none of them. */
  ghost predicate Mallocs(root: nat, w: World, x: World, bytes: nat, a: Word)
  {
    if !Grows(w.heap.hs, bytes) then
      x == w.(heap := HeapRuns.Step(Repaired, w.heap, HeapRuns.Malloc(bytes, None)))
    else
      Ready(w.chain) &&
      var k := GrowOrder(Repaired, bytes).value;
      var (d, phys) := Chain.PagesFrom(Repaired, w.chain, k);
      if phys == 0 then
        x == w.(chain := d, heap := HeapRuns.Step(Repaired, w.heap, HeapRuns.Malloc(bytes, None)))
      else
        exists done: nat :: GrowsBy(root, d, w, x, bytes, k, a, phys, done)
  }

  /** The first done pages of the new header could be mapped. */
  ghost predicate GrowsBy(root: nat, d: Chain.State, w: World, x: World, bytes: nat, k: Buddy.Order, a: Word, phys: nat,
                          done: nat)
  {
    done <= Pow2(k) && MapsRun(root, d, w, x, a, phys, 0, done) &&
    if done == Pow2(k) then
      x.heap == HeapRuns.Step(Repaired, w.heap, HeapRuns.Malloc(bytes, Some(a))) && x.homes == w.homes + [Home(phys, k)]
    else
      x.heap == HeapRuns.Step(Repaired, w.heap, HeapRuns.Malloc(bytes, None)) && x.homes == w.homes
  }

  /** A call of kfree, with any argument. */
  predicate Frees(w: World, x: World, address: nat)
  {
    x == w.(heap := HeapRuns.Step(Repaired, w.heap, HeapRuns.Free(address)))
  }

  /** Someone else calls alloc_pages or alloc_page. */
  predicate OthersAlloc(w: World, x: World, k: Buddy.Order)
  {
    Ready(w.chain)
    && (x == w.(chain := Chain.PagesFrom(Repaired, w.chain, k).0)
        || x == w.(chain := Chain.PageFrom(Repaired, w.chain).0))
  }

  /** Someone else maps absent pages to whatever they like. */
  ghost predicate OthersMap(root: nat, w: World, x: World, a: Word, phys: nat, flags: nat, pages: nat)
  {
    MapsRun(root, w.chain, w, x, a, phys, flags, pages) && x.heap == w.heap && x.homes == w.homes
  }

  /** The block is someone else's: no part of it is a table's or a header's. */
  ghost predicate Theirs(w: World, i: nat, k: Buddy.Order, b: nat)
  {
    && i < |w.chain.regions| && Chain.Usable(w.chain.regions[i])
    && b < Up(w.chain.regions[i].zone.pages, k) && Buddy.Busy(w.chain.regions[i].zone.clear, k, b)
    && var a := BuddyRuns.Address(w.chain.regions[i].start, k, b);
    && (forall t :: t in w.own ==> Disjoint(t * PAGE, PAGE, a, BuddyRuns.BlockSize(k)))
    && forall j :: 0 <= j < |w.homes| ==> Disjoint(w.homes[j].phys, Size(w.homes[j]), a, BuddyRuns.BlockSize(k))
  }

  /** Someone else gives back a block of theirs. */
  ghost predicate OthersFree(w: World, x: World, i: nat, k: Buddy.Order, b: nat)
  {
    Ready(w.chain) && Theirs(w, i, k, b) &&
    var d := Chain.PagesBack(Repaired, w.chain, BuddyRuns.Address(w.chain.regions[i].start, k, b), k);
    d.Some? && x == w.(chain := d.value)
  }

  ghost predicate Next(root: nat, w: World, x: World)
  {
    || (exists bytes: nat, a: Word :: bytes < WORD && Mallocs(root, w, x, bytes, a))
    || (exists address: nat :: Frees(w, x, address))
    || (exists k: Buddy.Order :: OthersAlloc(w, x, k))
    || (exists a: Word, phys: nat, flags: nat, pages: nat :: OthersMap(root, w, x, a, phys, flags, pages))
    || (exists i: nat, k: Buddy.Order, b: nat :: OthersFree(w, x, i, k, b))
  }

  ghost predicate Trace(root: nat, ws: seq<World>)
  {
    ws != [] && forall j :: 0 < j < |ws| ==> Next(root, ws[j - 1], ws[j])
  }

  // ---------------------------------------------------------------- every step keeps everything sane

  /** What the heap assumes of the pages it is granted is what the page allocator and the page finder provide. */
  lemma GrantedPages(root: nat, w: World, x: World, bytes: nat, a: Word)
    requires Sane(root, w) && bytes < WORD && Grows(w.heap.hs, bytes)
    requires var k := GrowOrder(Repaired, bytes).value; var (d, phys) := Chain.PagesFrom(Repaired, w.chain, k);
      phys > 0 && MapsRun(root, d, w, x, a, phys, 0, Pow2(k)) && x.homes == w.homes + [Home(phys, k)]
    ensures Grants(w.heap.hs, bytes, Some(a))
    ensures var g := Grown(Repaired, a, GrowOrder(Repaired, bytes).value);
      Backed(x.chain.regions, x.memory, root, w.heap.hs + [g], x.homes) && TablesApart(x.own, x.homes)
      && Aligned(x.chain.regions)
  {
    var k := GrowOrder(Repaired, bytes).value;
    var (d, phys) := Chain.PagesFrom(Repaired, w.chain, k);
    Chain.PagesFromServes(w.chain, k);
    OrderOf(Repaired, w.chain);
    var rs := w.chain.regions;
    var i: nat, b: nat :| Chain.Served(rs, d.regions, i, k, b, phys);
    HeaderAdded(rs, d.regions, x.chain.regions, i, k, b, phys, w.own, x.own, w.memory, x.memory, root, a, w.heap.hs,
                w.homes);
    ServedShrinks(rs, d.regions, i, k, b, phys);
    AlignedStays(rs, d.regions);
    AlignedStays(d.regions, x.chain.regions);
  }

  /** alloc_pages on its own. */
  lemma ChainMoves(root: nat, w: World, k: Buddy.Order)
    requires Sane(root, w)
    ensures var d := Chain.PagesFrom(Repaired, w.chain, k).0;
      Shrinks(w.chain.regions, d.regions) && Sane(root, w.(chain := d))
  {
    var (d, phys) := Chain.PagesFrom(Repaired, w.chain, k);
    Chain.PagesFromServes(w.chain, k);
    if phys != 0 {
      var i: nat, b: nat :| Chain.Served(w.chain.regions, d.regions, i, k, b, phys);
      ServedShrinks(w.chain.regions, d.regions, i, k, b, phys);
    } else {
      Unmoved(w.chain.regions, d.regions);
    }
    ShrunkSane(root, w, d);
  }

  lemma ShrunkSane(root: nat, w: World, d: Chain.State)
    requires Sane(root, w) && Chain.ChainInv(Repaired, d) && Shrinks(w.chain.regions, d.regions)
    ensures Sane(root, w.(chain := d))
  {
    AlignedStays(w.chain.regions, d.regions);
    TablesOffStay(w.chain.regions, d.regions, w.own);
    ServedElsewhere(w.chain.regions, d.regions, w.memory, root, w.heap.hs, w.homes);
  }

  lemma PageMoves(root: nat, w: World)
    requires Sane(root, w)
    ensures Sane(root, w.(chain := Chain.PageFrom(Repaired, w.chain).0))
  {
    var (d, phys) := Chain.PageFrom(Repaired, w.chain);
    Chain.PageFromKeeps(Repaired, w.chain);
    if phys != 0 {
      PageServed(Repaired, w.chain);
    } else {
      Unmoved(w.chain.regions, d.regions);
    }
    ShrunkSane(root, w, d);
  }

  /** Mapping absent pages keeps everything but the heap's own state in place. */
  lemma MapMoves(root: nat, w: World, x: World, a: Word, phys: nat, flags: nat, pages: nat)
    requires Sane(root, w) && OthersMap(root, w, x, a, phys, flags, pages)
    ensures Sane(root, x)
  {
    AlignedStays(w.chain.regions, x.chain.regions);
    MappedElsewhere(w.chain.regions, x.chain.regions, w.own, x.own, w.memory, x.memory, root, a, phys, flags, pages,
                    w.heap.hs, w.homes);
  }

  /** kmalloc and kfree leave every header that there was in place. */
  lemma HeadersStay(s: HeapRuns.State, op: HeapRuns.Op)
    ensures var gs := HeapRuns.Step(Repaired, s, op).hs;
      match op
      case Free(_) => SamePlaces(s.hs, gs)
      case Malloc(bytes, granted) =>
        SamePlaces(if Grows(s.hs, bytes) && granted != None
                   then s.hs + [Grown(Repaired, granted.value, GrowOrder(Repaired, bytes).value)] else s.hs, gs)
  {
  }

  /** A step of the heap that leaves the headers in place. */
  lemma HeapMoves(root: nat, w: World, op: HeapRuns.Op)
    requires Sane(root, w) && HeapRuns.Allowed(Repaired, w.heap, op)
    requires SamePlaces(w.heap.hs, HeapRuns.Step(Repaired, w.heap, op).hs)
    ensures Sane(root, w.(heap := HeapRuns.Step(Repaired, w.heap, op)))
  {
    HeapRuns.StepKeeps(Repaired, w.heap, op);
    ReshapedBacked(w.chain.regions, w.memory, root, w.heap.hs, HeapRuns.Step(Repaired, w.heap, op).hs, w.homes);
  }

  lemma MallocSane(root: nat, w: World, x: World, bytes: nat, a: Word)
    requires Sane(root, w) && Mallocs(root, w, x, bytes, a) && bytes < WORD
    ensures Sane(root, x)
  {
    HeadersStay(w.heap, HeapRuns.Malloc(bytes, None));
    if !Grows(w.heap.hs, bytes) {
      HeapMoves(root, w, HeapRuns.Malloc(bytes, None));
    } else {
      var k := GrowOrder(Repaired, bytes).value;
      var (d, phys) := Chain.PagesFrom(Repaired, w.chain, k);
      ChainMoves(root, w, k);
      var v := w.(chain := d);
      if phys == 0 {
        HeapMoves(root, v, HeapRuns.Malloc(bytes, None));
      } else {
        var done: nat :| GrowsBy(root, d, w, x, bytes, k, a, phys, done);
        if done == Pow2(k) {
          GrownSane(root, w, x, bytes, a);
        } else {
          var u := x.(heap := w.heap);
          MapMoves(root, v, u, a, phys, 0, done);
          HeapMoves(root, u, HeapRuns.Malloc(bytes, None));
        }
      }
    }
  }

  lemma GrownSane(root: nat, w: World, x: World, bytes: nat, a: Word)
    requires Sane(root, w) && bytes < WORD && Grows(w.heap.hs, bytes)
    requires var k := GrowOrder(Repaired, bytes).value; var (d, phys) := Chain.PagesFrom(Repaired, w.chain, k);
      phys > 0 && MapsRun(root, d, w, x, a, phys, 0, Pow2(k)) && x.homes == w.homes + [Home(phys, k)]
    requires x.heap == HeapRuns.Step(Repaired, w.heap, HeapRuns.Malloc(bytes, Some(a)))
    ensures Sane(root, x)
  {
    var op := HeapRuns.Malloc(bytes, Some(a));
    GrantedPages(root, w, x, bytes, a);
    HeapRuns.StepKeeps(Repaired, w.heap, op);
    HeadersStay(w.heap, op);
    var gs := w.heap.hs + [Grown(Repaired, a, GrowOrder(Repaired, bytes).value)];
    ReshapedBacked(x.chain.regions, x.memory, root, gs, x.heap.hs, x.homes);
  }

  lemma FreeSane(root: nat, w: World, x: World, address: nat)
    requires Sane(root, w) && Frees(w, x, address)
    ensures Sane(root, x)
  {
    HeadersStay(w.heap, HeapRuns.Free(address));
    HeapMoves(root, w, HeapRuns.Free(address));
  }

  /** A block that is given back makes free only its own pages. */
  lemma GivenOff(rs: seq<Chain.Entry>, z: Buddy.Zone, i: nat, k: Buddy.Order, b: nat, a: nat, n: nat)
    requires InOrder(rs) && i < |rs| && b < Up(rs[i].zone.pages, k) && BuddySteps.Given(Repaired, rs[i].zone, z, k, b)
    requires Off(rs, a, n) && Disjoint(a, n, BuddyRuns.Address(rs[i].start, k, b), BuddyRuns.BlockSize(k))
    ensures Off(Chain.SetZone(rs, i, z), a, n)
  {
    var ss := Chain.SetZone(rs, i, z);
    BlockInside(rs[i], k, b);
    forall j: nat, p: nat | FreePage(ss, j, p)
      ensures Disjoint(ss[j].start + PAGE * p, PAGE, a, n)
    {
      if j == i && Up(p, k) == b {
        UpIsRange(p, k, b);
        PageInBlock(rs[i].start, p, First(b, k), First(b + 1, k), a, n);
      } else {
        assert FreePage(rs, j, p);
      }
    }
  }

  lemma PageInBlock(start: nat, p: nat, first: nat, last: nat, a: nat, n: nat)
    requires first <= p < last && Disjoint(a, n, start + PAGE * first, PAGE * (last - first))
    ensures Disjoint(start + PAGE * p, PAGE, a, n)
  {
  }

  lemma OthersFreeSane(root: nat, w: World, x: World, i: nat, k: Buddy.Order, b: nat)
    requires Sane(root, w) && OthersFree(w, x, i, k, b)
    ensures Sane(root, x)
  {
    var rs, d := w.chain.regions, x.chain;
    OrderOf(Repaired, w.chain);
    Chain.PagesBackKeeps(w.chain, i, k, b);
    var z := d.regions[i].zone;
    forall t | t in w.own
      ensures Off(d.regions, t * PAGE, PAGE)
    {
      GivenOff(rs, z, i, k, b, t * PAGE, PAGE);
    }
    forall j | 0 <= j < |w.homes|
      ensures Off(d.regions, w.homes[j].phys, Size(w.homes[j]))
    {
      GivenOff(rs, z, i, k, b, w.homes[j].phys, Size(w.homes[j]));
    }
  }

  lemma NextSane(root: nat, w: World, x: World)
    requires Sane(root, w) && Next(root, w, x)
    ensures Sane(root, x)
  {
    if bytes: nat, a: Word :| bytes < WORD && Mallocs(root, w, x, bytes, a) {
      MallocSane(root, w, x, bytes, a);
    } else if address: nat :| Frees(w, x, address) {
      FreeSane(root, w, x, address);
    } else if k: Buddy.Order :| OthersAlloc(w, x, k) {
      ChainMoves(root, w, k);
      PageMoves(root, w);
    } else if a: Word, phys: nat, flags: nat, pages: nat :| OthersMap(root, w, x, a, phys, flags, pages) {
      MapMoves(root, w, x, a, phys, flags, pages);
    } else {
      var i: nat, k: Buddy.Order, b: nat :| OthersFree(w, x, i, k, b);
      OthersFreeSane(root, w, x, i, k, b);
    }
  }

  lemma {:induction false} TraceSane(root: nat, ws: seq<World>)
    requires Trace(root, ws) && Sane(root, ws[0])
    ensures Sane(root, ws[|ws| - 1])
    decreases |ws|
  {
    if |ws| == 1 {
    } else {
      TraceSane(root, ws[..|ws| - 1]);
      NextSane(root, ws[|ws| - 2], ws[|ws| - 1]);
    }
  }

  /** mm_init: a page from alloc_page, placed by vpage_map. */
  lemma BootSane(root: nat, w: World, x: World, a: Word)
    requires Chain.ChainInv(Repaired, w.chain) && Aligned(w.chain.regions)
    requires Tree(w.memory, root, w.own) && TablesOff(w.chain.regions, w.own)
    requires var (d, phys) := Chain.PageFrom(Repaired, w.chain);
      phys > 0 && MapsRun(root, d, w, x, a, phys, 0, 1) && x.homes == [Home(phys, 0)]
    requires x.heap == HeapRuns.Boot(a)
    ensures Sane(root, x)
  {
    var (d, phys) := Chain.PageFrom(Repaired, w.chain);
    Chain.PageFromKeeps(Repaired, w.chain);
    PageServed(Repaired, w.chain);
    OrderOf(Repaired, w.chain);
    var i: nat, b: nat :| Chain.Served(w.chain.regions, d.regions, i, 0, b, phys);
    AlignedStays(d.regions, x.chain.regions);
    BootBacked(root, w.chain.regions, d.regions, x.chain.regions, i, b, phys, w.own, x.own, w.memory, x.memory, a);
  }

  lemma BootBacked(root: nat, rs: seq<Chain.Entry>, ss: seq<Chain.Entry>, ts: seq<Chain.Entry>, i: nat, b: nat,
                   phys: nat, own: map<nat, seq<nat>>, own': map<nat, seq<nat>>, m: Memory, n: Memory, a: Word)
    requires InOrder(rs) && Aligned(rs) && Chain.Served(rs, ss, i, 0, b, phys) && Drew(ss, ts, own, own')
    requires Placed(m, n, root, a, phys, 0, 1) && TablesOff(rs, own)
    ensures HeapRuns.Inv(Repaired, HeapRuns.Boot(a)) && Backed(ts, n, root, HeapRuns.Boot(a).hs, [Home(phys, 0)])
    ensures TablesApart(own', [Home(phys, 0)])
  {
    assert Pow2(0) == 1;
    HeaderAdded(rs, ss, ts, i, 0, b, phys, own, own', m, n, root, a, [], []);
    RangeEnds(a, 1);
    HeapRuns.BootInv(Repaired, a);
    assert [] + [Grown(Repaired, a, 0)] == HeapRuns.Boot(a).hs;
    assert [] + [Home(phys, 0)] == [Home(phys, 0)];
  }

  // ---------------------------------------------------------------- no two bytes in one place

  /** Where a byte of a header is. */
  lemma ByteOf(m: Memory, root: nat, h: Header, home: Home, x: Word)
    requires OnPages(m, root, h, home) && h.at <= x < End(h)
    ensures Translate(m, root, x) == Some(home.phys + (x - h.at))
  {
    var i := x / PAGE - h.at / PAGE;
    assert i < Pow2(home.order);
    assert PageIs(m, root, h.at, i, home.phys);
    UsableWord(h.at, Pow2(home.order), i, x);
    EntryTranslates(m, root, x);
  }

  /** In every reachable state two different bytes of the blocks that kmalloc has handed out are two different bytes
      of physical memory, and neither lies in a page table. */
  lemma NoAliasing(root: nat, ws: seq<World>, a: nat, b: nat, x: Word, y: Word)
    requires Trace(root, ws) && Sane(root, ws[0])
    requires var asked := ws[|ws| - 1].heap.asked;
      a in asked && b in asked && a <= x < a + asked[a] && b <= y < b + asked[b] && x != y
    ensures var m := ws[|ws| - 1].memory;
      Translate(m, root, x) != None && Translate(m, root, y) != None && Translate(m, root, x) != Translate(m, root, y)
    ensures var w := ws[|ws| - 1]; forall t :: t in w.own ==> OutsideFrame(w.memory, root, x, t)
  {
    TraceSane(root, ws);
    var w := ws[|ws| - 1];
    var i := HeapRuns.BlockWhere(Repaired, w.heap, a);
    var j := HeapRuns.BlockWhere(Repaired, w.heap, b);
    BytesApart(w.chain.regions, w.memory, root, w.heap.hs, w.homes, i, j, x, y);
    forall t | t in w.own
      ensures OutsideFrame(w.memory, root, x, t)
    {
      assert TableApart(t, w.homes[i]);
      ByteOutside(w.memory, root, w.heap.hs[i], w.homes[i], x, t);
    }
  }

  /** A byte is not in a frame. */
  predicate OutsideFrame(m: Memory, root: nat, x: Word, t: nat)
  {
    match Translate(m, root, x)
    case None => true
    case Some(b) => b < t * PAGE || b >= t * PAGE + PAGE
  }

  lemma ByteOutside(m: Memory, root: nat, h: Header, home: Home, x: Word, t: nat)
    requires OnPages(m, root, h, home) && h.at <= x < End(h) && TableApart(t, home)
    ensures OutsideFrame(m, root, x, t)
  {
    ByteOf(m, root, h, home, x);
  }

  lemma BytesApart(rs: seq<Chain.Entry>, m: Memory, root: nat, hs: seq<Header>, homes: seq<Home>, i: nat, j: nat,
                   x: Word, y: Word)
    requires Backed(rs, m, root, hs, homes) && i < |hs| && j < |hs| && x != y
    requires hs[i].at <= x < End(hs[i]) && hs[j].at <= y < End(hs[j])
    ensures Translate(m, root, x) != None && Translate(m, root, y) != None
    ensures Translate(m, root, x) != Translate(m, root, y)
  {
    ByteOf(m, root, hs[i], homes[i], x);
    ByteOf(m, root, hs[j], homes[j], y);
    assert i < j ==> HomesApart(homes[i], homes[j]);
    assert j < i ==> HomesApart(homes[j], homes[i]);
  }

  // ---------------------------------------------------------------- every byte can be written

  ghost predicate Writable(w: World)
  {
    TablesAllow(w.memory, w.own, WRITE, 1)
  }

  lemma RunWritable(root: nat, c: Chain.State, w: World, x: World, a: Word, phys: nat, flags: nat, pages: nat)
    requires MapsRun(root, c, w, x, a, phys, flags, pages) && Writable(w)
    ensures Writable(x)
  {
    TablesStay(w.memory, w.own, x.memory, x.own, WRITE);
  }

  lemma MallocWritable(root: nat, w: World, x: World, bytes: nat, a: Word)
    requires Mallocs(root, w, x, bytes, a) && Writable(w)
    ensures Writable(x)
  {
    if Grows(w.heap.hs, bytes) {
      var k := GrowOrder(Repaired, bytes).value;
      var (d, phys) := Chain.PagesFrom(Repaired, w.chain, k);
      if phys != 0 {
        var done: nat :| GrowsBy(root, d, w, x, bytes, k, a, phys, done);
        RunWritable(root, d, w, x, a, phys, 0, done);
      }
    }
  }

  /** No step of anyone makes a table read-only. */
  lemma NextWritable(root: nat, w: World, x: World)
    requires Next(root, w, x) && Writable(w)
    ensures Writable(x)
  {
    if bytes: nat, a: Word :| bytes < WORD && Mallocs(root, w, x, bytes, a) {
      MallocWritable(root, w, x, bytes, a);
    } else if a: Word, phys: nat, flags: nat, pages: nat :| OthersMap(root, w, x, a, phys, flags, pages) {
      RunWritable(root, w.chain, w, x, a, phys, flags, pages);
    }
  }

  lemma {:induction false} TraceWritable(root: nat, ws: seq<World>)
    requires Trace(root, ws) && Writable(ws[0])
    ensures Writable(ws[|ws| - 1])
    decreases |ws|
  {
    if |ws| == 1 {
    } else {
      TraceWritable(root, ws[..|ws| - 1]);
      NextWritable(root, ws[|ws| - 2], ws[|ws| - 1]);
    }
  }

  lemma ByteWritable(m: Memory, root: nat, own: map<nat, seq<nat>>, h: Header, home: Home, x: Word)
    requires Tree(m, root, own) && TablesAllow(m, own, WRITE, 1) && OnPages(m, root, h, home) && h.at <= x < End(h)
    ensures Allows(m, root, PathOf(x), WRITE, 1)
  {
    var i := x / PAGE - h.at / PAGE;
    assert i < Pow2(home.order);
    assert PageIs(m, root, h.at, i, home.phys);
    UsableWord(h.at, Pow2(home.order), i, x);
    UsablePage(h.at, Pow2(home.order), i);
    TablesOpen(m, root, own, PathOf(x)[..3], WRITE, 1);
    PageAllows(m, root, PathOf(x), PageEntry(m, root, PathOf(x)).value, WRITE, 1);
  }

  /** In every reachable state each byte of the blocks that kmalloc has handed out can be written: the entries of all
      four levels allow it, if the tables that the loader left do. */
  lemma BlocksWritable(root: nat, ws: seq<World>, a: nat, x: Word)
    requires Trace(root, ws) && Sane(root, ws[0]) && Writable(ws[0])
    requires var asked := ws[|ws| - 1].heap.asked; a in asked && a <= x < a + asked[a]
    ensures Allows(ws[|ws| - 1].memory, root, PathOf(x), WRITE, 1)
  {
    TraceSane(root, ws);
    TraceWritable(root, ws);
    var w := ws[|ws| - 1];
    var i := HeapRuns.BlockWhere(Repaired, w.heap, a);
    ByteWritable(w.memory, root, w.own, w.heap.hs[i], w.homes[i], x);
  }
}
