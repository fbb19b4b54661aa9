/** kmalloc and kfree running on the finder of virtual pages, the page tables and the chain of regions. Every method
    is shown to be a step of HeapPages. */
module PagedHeap {
  import opened Halving
  import opened Machine
  import opened Builds
  import opened Wrappers
  import opened PageBits
  import opened PageEntries
  import opened Paging
  import opened VirtualPages
  import opened Heap
  import opened HeapPages
  import Buddy
  import Chain
  import HeapRuns
  import KernelHeap

  class PagedHeap {
    const chain: Chain.RegionChain
    const finder: Finder
    const heap: KernelHeap.KernelHeap
    /** What was asked for each block not yet given back. */
    ghost var asked: map<nat, nat>
    /** The block behind each header. */
    ghost var homes: seq<Home>

    ghost function View(): World
      reads this, chain, finder.mmu, heap
    {
      World(chain.View(), finder.mmu.memory, finder.mmu.own, HeapRuns.State(heap.headers, asked), homes)
    }

    ghost predicate Valid()
      reads this, chain, finder, finder.mmu, heap
    {
      && finder.mmu.chain == chain && chain.build == Repaired && heap.build == Repaired
      && finder.mmu.Valid() && finder.Points() && Sane(finder.mmu.root, View())
    }

    /** The finder will find that many pages, and one more behind them. */
    ghost predicate RoomAhead(pages: nat)
      reads finder, finder.mmu
    {
      RunAhead(finder.mmu.memory, finder.mmu.root, finder.next, pages)
      && Ahead(finder.mmu.memory, finder.mmu.root, finder.next, pages)
    }

    constructor (chain: Chain.RegionChain, finder: Finder, heap: KernelHeap.KernelHeap, ghost homes: seq<Home>)
      ensures this.chain == chain && this.finder == finder && this.heap == heap && this.homes == homes && asked == map[]
    {
      this.chain, this.finder, this.heap, this.homes, asked := chain, finder, heap, homes, map[];
    }

    /** __get_free_pages: None for NULL. Answering NULL when not all pages could be mapped is a repair. */
    method GetFreePages(order: Buddy.Order) returns (granted: Option<nat>, ghost at: Word, ghost done: nat)
      requires Valid() && RoomAhead(Pow2(order))
      modifies finder`next, finder.mmu, chain
      ensures finder.mmu.Valid() && finder.Points()
      ensures var (d, phys) := Chain.PagesFrom(Repaired, old(chain.View()), order);
        if phys == 0 then granted == None && View() == old(View()).(chain := d)
        else
          && done <= Pow2(order) && granted == (if done == Pow2(order) then Some(at) else None)
          && MapsRun(finder.mmu.root, d, old(View()), View(), at, phys, 0, done)
    {
      ghost var c := chain.View();
      ChainMoves(finder.mmu.root, View(), order);
      var phys := chain.AllocPages(order);
      if phys == 0 {
        return None, 0, 0;
      }
      var a, k, n := finder.VpagesMap(phys, order, 0);
      at, done := a, n;
      granted := if n == Pow2(order) then Some(a) else None;
    }

    /** kmalloc. The search of the chain of headers comes first, as in the program; its result decides whether pages
        are asked for. */
    method Kmalloc(bytes: nat) returns (r: Answer)
      requires Valid() && bytes < WORD
      requires Grows(heap.headers, bytes) ==> RoomAhead(Pow2(GrowOrder(Repaired, bytes).value))
      modifies this, finder`next, finder.mmu, chain, heap
      ensures Valid() && r != Fault
      ensures exists at: Word :: Mallocs(finder.mmu.root, old(View()), View(), bytes, at)
      ensures r == Null ==> asked == old(asked)
      ensures r.Block? ==> r.address !in old(asked) && asked == old(asked)[r.address := bytes]
    {
      ghost var w := View();
      var granted: Option<nat> := None;
      ghost var at: Word, done := 0, 0;
      if Grows(heap.headers, bytes) {
        granted, at, done := GetFreePages(GrowOrder(Repaired, bytes).value);
      }
      ghost var v := View();
      r := heap.Kmalloc(bytes, granted);
      asked := if r.Block? then asked[r.address := bytes] else asked;
      homes := HomesAfter(w, bytes, granted);
      MallocDone(finder.mmu.root, w, v, View(), bytes, granted, at, done);
    }

    /** kfree, for any argument. */
    method Kfree(address: nat)
      requires Valid()
      modifies this`asked, heap
      ensures Valid() && Frees(old(View()), View(), address)
      ensures asked == old(asked) - {address}
    {
      ghost var w := View();
      heap.Kfree(address);
      asked := asked - {address};
      FreeSane(finder.mmu.root, w, View(), address);
    }
  }

  /** A header more when pages were granted. */
  ghost function HomesAfter(w: World, bytes: nat, granted: Option<nat>): seq<Home>
    requires granted != None ==> Grows(w.heap.hs, bytes) && Ready(w.chain)
  {
    if granted == None then w.homes
    else
      var k := GrowOrder(Repaired, bytes).value;
      w.homes + [Home(Chain.PagesFrom(Repaired, w.chain, k).1, k)]
  }

  /** What __get_free_pages did on the way from w to v. */
  ghost predicate Granted(root: nat, w: World, v: World, bytes: nat, granted: Option<nat>, at: Word, done: nat)
  {
    if !Grows(w.heap.hs, bytes) then granted == None && v == w
    else
      Ready(w.chain) &&
      var k := GrowOrder(Repaired, bytes).value;
      var (d, phys) := Chain.PagesFrom(Repaired, w.chain, k);
      if phys == 0 then granted == None && v == w.(chain := d)
      else
        && done <= Pow2(k) && granted == (if done == Pow2(k) then Some(at) else None)
        && MapsRun(root, d, w, v, at, phys, 0, done) && v.heap == w.heap && v.homes == w.homes
  }

  /** The whole call is a step of HeapPages, and what it answers fits what is asked for afterwards. */
  lemma MallocDone(root: nat, w: World, v: World, x: World, bytes: nat, granted: Option<nat>, at: Word, done: nat)
    requires Sane(root, w) && bytes < WORD && Granted(root, w, v, bytes, granted, at, done)
    requires granted != None ==> Grows(w.heap.hs, bytes)
    requires x == v.(heap := HeapRuns.Step(Repaired, w.heap, HeapRuns.Malloc(bytes, granted)),
                     homes := HomesAfter(w, bytes, granted))
    ensures Mallocs(root, w, x, bytes, at) && Sane(root, x)
    ensures var r := Heap.Kmalloc(Repaired, w.heap.hs, bytes, granted).answer;
      r != Fault && (r.Block? ==> r.address !in w.heap.asked)
  {
    if Grows(w.heap.hs, bytes) {
      var k := GrowOrder(Repaired, bytes).value;
      var (d, phys) := Chain.PagesFrom(Repaired, w.chain, k);
      assert phys > 0 ==> GrowsBy(root, d, w, x, bytes, k, at, phys, done);
    }
    if granted != None {
      GrantedPages(root, w, x, bytes, at);
    }
    MallocKeeps(w.heap.hs, bytes, granted);
    MallocSane(root, w, x, bytes, at);
  }

  /** mm_init; null where the program panics, which it does only once every region is full. */
  method MmInit(chain: Chain.RegionChain, finder: Finder) returns (h: PagedHeap?)
    requires finder.mmu.chain == chain && chain.build == Repaired && finder.mmu.Valid() && finder.mmu.Fed()
    requires finder.Points() && Usable(finder.next, 1)
    requires Ahead(finder.mmu.memory, finder.mmu.root, finder.next, 1)
    modifies chain, finder`next, finder.mmu
    ensures h != null ==> fresh(h) && fresh(h.heap) && h.Valid()
    ensures h != null ==> h.chain == chain && h.finder == finder && h.asked == map[]
    ensures h != null ==> exists a: Word :: h.heap.headers == HeapRuns.Boot(a).hs
    ensures h == null ==> Chain.AllFull(chain.regions)
  {
    ghost var w := World(chain.View(), finder.mmu.memory, finder.mmu.own, HeapRuns.State([], map[]), []);
    Chain.PageFromKeeps(Repaired, w.chain);
    var phys := chain.AllocPage();
    if phys == 0 {
      return null;
    }
    PageServed(Repaired, w.chain);
    TablesOffStay(w.chain.regions, chain.regions, finder.mmu.own);
    var a, done := finder.VpageMap(phys, 0);
    if done == 0 {
      return null;
    }
    var heap := new KernelHeap.KernelHeap(Repaired, a);
    h := new PagedHeap(chain, finder, heap, [Home(phys, 0)]);
    BootSane(finder.mmu.root, w, h.View(), a);
  }
}
