/** The buddy page allocator of one memory region, as a state and its operations.

    A clear bit of a bitmap marks a free block, so a bitmap is the set of its clear indices. */
module Buddy {
  import opened Halving
  import opened Machine
  import opened Builds
  import opened Wrappers

  const MAX_ORDER: nat := 10

  type Order = k: nat | k < MAX_ORDER

  /** For each order, the indices whose bit is clear. */
  type Blocks = c: seq<set<nat>> | |c| == MAX_ORDER witness seq(MAX_ORDER, i => {})

  type Table = t: seq<nat> | |t| == MAX_ORDER witness seq(MAX_ORDER, i => 0)

  /** bpa_map_t together with the counters of its mregion_t. */
  datatype Zone = Zone(
    pages: nat,     // pages in the region
    clear: Blocks,  // free_area
    count: Table,   // pages_free[]
    next: Table,    // next_free_page[]
    free: nat,      // region->pages_free
    full: bool)     // region->mem_full

  // ---------------------------------------------------------------- what the bitmaps mean

  /** Block i of order k is free, by itself or as part of a larger free block. */
  predicate Contained(c: Blocks, k: nat, i: nat)
    requires k <= MAX_ORDER
    decreases |c| - k
  {
    k < MAX_ORDER && (i in c[k] || Contained(c, k + 1, i / 2))
  }

  predicate PageFree(c: Blocks, p: nat)
  {
    Contained(c, 0, p)
  }

  function BuddyOf(i: nat): nat
  {
    if i % 2 == 0 then i + 1 else i - 1
  }

  /** Every free block lies inside a region of n pages. */
  ghost predicate Bounded(c: Blocks, n: nat)
  {
    forall k: Order, i :: i in c[k] ==> i < Up(n, k)
  }

  /** Block i of order k does not lie inside a larger free block. */
  ghost predicate Outermost(c: Blocks, k: Order, i: nat)
  {
    !Contained(c, k + 1, i / 2)
  }

  /** No free block lies inside a larger free block. */
  ghost predicate Apart(c: Blocks)
  {
    forall k: Order, i: nat {:trigger Outermost(c, k, i)} :: i in c[k] ==> Outermost(c, k, i)
  }

  /** At order k no two buddies are both free. */
  ghost predicate CoalescedAt(c: Blocks, k: Order)
  {
    k < MAX_ORDER - 1 ==> forall i, j :: i in c[k] && j in c[k] && i / 2 == j / 2 ==> i == j
  }

  ghost predicate Coalesced(c: Blocks)
  {
    forall k: Order :: CoalescedAt(c, k)
  }

  /** The cached index is the lowest free one, or 0 when there is none. */
  ghost predicate NextRight(c: set<nat>, next: nat)
  {
    if c == {} then next == 0 else next in c && forall x :: x in c ==> next <= x
  }

  ghost predicate CachedAt(s: Zone, k: Order)
  {
    s.count[k] == |s.clear[k]| && NextRight(s.clear[k], s.next[k])
  }

  ghost predicate Cached(s: Zone)
  {
    forall k: Order :: CachedAt(s, k)
  }

  /** Pages in the free blocks of order k and above, counted in blocks of order k. */
  ghost function Weight(c: Blocks, k: nat): nat
    requires k <= MAX_ORDER
    decreases |c| - k
  {
    if k == MAX_ORDER then 0 else |c[k]| + 2 * Weight(c, k + 1)
  }

  /** Everything but coalescing, which fails between the steps of one operation. */
  ghost predicate Sound(s: Zone)
  {
    Bounded(s.clear, s.pages) && Apart(s.clear) && Cached(s) && s.free == Weight(s.clear, 0)
  }

  ghost predicate Inv(s: Zone)
  {
    Sound(s) && Coalesced(s.clear)
  }

  /** No page of block i of order k is free. */
  ghost predicate Busy(c: Blocks, k: nat, i: nat)
  {
    forall p :: Up(p, k) == i ==> !PageFree(c, p)
  }

  /** Every page of block i of order k is free. */
  ghost predicate AllFree(c: Blocks, k: nat, i: nat)
  {
    forall p :: Up(p, k) == i ==> PageFree(c, p)
  }

  // ---------------------------------------------------------------- bits and cached indices

  function SetBit(s: Zone, k: Order, i: nat): Zone
  {
    s.(clear := s.clear[k := s.clear[k] - {i}])
  }

  function ClearBit(s: Zone, k: Order, i: nat): Zone
  {
    s.(clear := s.clear[k := s.clear[k] + {i}])
  }

  function SetCount(s: Zone, k: Order, x: nat): Zone
  {
    s.(count := s.count[k := x])
  }

  function SetNext(s: Zone, k: Order, x: nat): Zone
  {
    s.(next := s.next[k := x])
  }

  /** The first clear index from i up. */
  function Scan(c: set<nat>, i: nat, len: nat): (r: Option<nat>)
    ensures r.Some? ==> i <= r.value < len && r.value in c && forall x :: x in c && i <= x ==> r.value <= x
    ensures r.None? ==> forall x :: x in c && i <= x ==> len <= x
    decreases len - i
  {
    if i >= len then None else if i in c then Some(i) else Scan(c, i + 1, len)
  }

  /** Stores in next[k] what find_next_free_page returns; finding nothing zeroes the count. */
  function Advance(s: Zone, k: Order, start: nat): Zone
  {
    match Scan(s.clear[k], start, Up(s.pages, k))
    case Some(i) => SetNext(s, k, i)
    case None => SetNext(SetCount(s, k, 0), k, 0)
  }

  function OutOfMem(s: Zone): Zone
  {
    s.(full := true)
  }

  // ---------------------------------------------------------------- splitting and allocating

  /** The lowest free block of order k stops being free. */
  function DropLowest(s: Zone, k: Order): Zone
  {
    PassOn(SetBit(s, k, s.next[k]), k, s.next[k])
  }

  /** The cached index moves past m, and one block fewer is counted. */
  function PassOn(s: Zone, k: Order, m: nat): Zone
  {
    var d := if s.count[k] != 1 then Advance(s, k, m + 1) else SetNext(s, k, 0);
    SetCount(d, k, Minus(d.count[k], 1))
  }

  /** The two halves of block m of order k + 1 become free blocks of order k. */
  function AddHalves(s: Zone, k: Order, m: nat): Zone
  {
    var a := ClearBit(ClearBit(s, k, 2 * m), k, 2 * m + 1);
    var d := if a.next[k] > 2 * m || a.count[k] == 0 then SetNext(a, k, 2 * m) else a;
    SetCount(d, k, d.count[k] + 2)
  }

  /** The body of block_split for an order that has a free block. */
  function SplitHere(s: Zone, k: Order): Zone
    requires k > 0
  {
    DropLowest(AddHalves(s, k - 1, s.next[k]), k)
  }

  /** The program calls a region full when one high order is exhausted; repaired, it does not. */
  function Exhausted(b: Build, s: Zone): Zone
  {
    if b == Source then OutOfMem(s) else s
  }

  function BlockSplit(b: Build, s: Zone, k: nat): Zone
    decreases MAX_ORDER - k
  {
    if k == 0 || k >= MAX_ORDER then s
    else if s.count[k] > 0 then SplitHere(s, k)
    else if k == MAX_ORDER - 1 then Exhausted(b, s)
    else
      var t := BlockSplit(b, s, k + 1);
      if t.count[k] == 0 then Exhausted(b, t) else SplitHere(t, k)
  }

  /** Handing out the lowest free block of an order that has one. */
  function Take(s: Zone, k: Order): Zone
  {
    Charge(DropLowest(s, k), k)
  }

  /** The pages of a block leave the region's free count. */
  function Charge(s: Zone, k: Order): Zone
  {
    var e := if s.free <= Pow2(k) then OutOfMem(s) else s;
    e.(free := Minus(e.free, Pow2(k)))
  }

  function Alloc(b: Build, s: Zone, k: nat): (Zone, Option<nat>)
  {
    if k >= MAX_ORDER then (s, None)
    else if s.count[k] > 0 then (Take(s, k), Some(s.next[k]))
    else if k == MAX_ORDER - 1 then (Exhausted(b, s), None)
    else
      var t := BlockSplit(b, s, k + 1);
      if t.count[k] == 0 then (Exhausted(b, t), None) else (Take(t, k), Some(t.next[k]))
  }

  // ---------------------------------------------------------------- freeing and merging

  /** Block i of order k becomes free. The cached index of an order that had no free block
      is set only if minding says so. */
  function Add(s: Zone, k: Order, i: nat, minding: bool): Zone
  {
    var a := ClearBit(s, k, i);
    var d := SetCount(a, k, a.count[k] + 1);
    if i < d.next[k] || (minding && d.count[k] == 1) then SetNext(d, k, i) else d
  }

  /** Blocks o and o + 1 of order k stop being free and the block they make up becomes free. */
  function MergeBits(s: Zone, k: nat, o: nat): Zone
    requires k < MAX_ORDER - 1
  {
    var a := ClearBit(SetBit(SetBit(s, k, o), k, o + 1), k + 1, o / 2);
    SetCount(SetCount(a, k, Minus(a.count[k], 2)), k + 1, a.count[k + 1] + 1)
  }

  function MergeIndices(s: Zone, k: nat, o: nat): Zone
    requires k < MAX_ORDER - 1
  {
    var d := if s.next[k] == o || s.next[k] == o + 1 then Advance(s, k, o + 2) else s;
    if d.next[k + 1] > o / 2 || d.count[k + 1] == 1 then SetNext(d, k + 1, o / 2) else d
  }

  /** Two free buddies become their parent. */
  function MergeHere(s: Zone, k: nat, i: nat): Zone
    requires k < MAX_ORDER - 1
  {
    MergeIndices(MergeBits(s, k, i / 2 * 2), k, i / 2 * 2)
  }

  function BlockMerge(s: Zone, k: nat, i: nat): Zone
    decreases MAX_ORDER - k
  {
    if k >= MAX_ORDER - 1 then s
    else
      var t := MergeHere(s, k, i);
      if BuddyOf(i / 2) in t.clear[k + 1] then BlockMerge(t, k + 1, i / 2) else t
  }

  /** The pages of a block join the region's free count. The program calls a region that had no
      free page full here; repaired, it no longer does. */
  function Refund(b: Build, s: Zone, k: Order): Zone
  {
    var f := if s.free == 0 then s.(full := b == Source) else s;
    f.(free := f.free + Pow2(k))
  }

  /** pages_free from the offset on. As written it does not set the cached index of an order
      that had no free block. */
  function FreeBlock(b: Build, s: Zone, k: Order, i: nat): Zone
  {
    if i in s.clear[k] then s
    else
      var t := Add(Refund(b, s, k), k, i, b == Repaired);
      if BuddyOf(i) in t.clear[k] then BlockMerge(t, k, i) else t
  }
}
