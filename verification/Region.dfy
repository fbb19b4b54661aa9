/** A memory region as the program keeps it: bitmaps in one byte buffer, counters in two arrays.
    Every method is proved to do to the region's zone what the operation of the same name in
    Buddy, BuddyInit, BuddyReserve and BuddyRuns says. */
module Region {
  import opened Halving
  import opened Machine
  import opened Builds
  import opened Buddy
  import opened BuddyBlocks
  import opened BuddySteps
  import opened BuddyReserve
  import opened Bitmaps
  import BuddyInit
  import BuddyRuns

  lemma ClearNone(s: Zone, k: Order)
    ensures BuddyInit.BlocksClear(s, k, 0) == s
  {
    assert s.clear[k] + BuddyInit.Below(0) == s.clear[k];
  }

  lemma ClearOneMore(s: Zone, k: Order, i: nat)
    ensures ClearBit(BuddyInit.BlocksClear(s, k, i), k, i) == BuddyInit.BlocksClear(s, k, i + 1)
  {
    assert s.clear[k] + BuddyInit.Below(i) + {i} == s.clear[k] + BuddyInit.Below(i + 1);
  }

  /** A cached index that will be used is that of a block inside the region. */
  ghost predicate NextInside(s: Zone)
  {
    forall k: Order :: s.count[k] > 0 ==> s.next[k] < Up(s.pages, k)
  }

  lemma InvNextInside(s: Zone)
    requires Sound(s)
    ensures NextInside(s)
  {
    forall k: Order | s.count[k] > 0 ensures s.next[k] < Up(s.pages, k) {
      assert CachedAt(s, k);
    }
  }

  lemma SplitInside(s: Zone, k: Order)
    requires NextInside(s) && k > 0 && s.count[k] > 0
    ensures s.next[k] < Bits(s.pages, k) && 2 * s.next[k] + 1 < Bits(s.pages, k - 1)
    ensures NextInside(SplitHere(s, k))
  {
    BitsCover(s.pages, k, s.next[k]);
    BitsCover(s.pages, k - 1, s.next[k]);
    UpStep(s.pages, k - 1);
    HalvesInside(s, k - 1, s.next[k]);
    PassOnInside(SetBit(AddHalves(s, k - 1, s.next[k]), k, s.next[k]), k, s.next[k]);
  }

  lemma HalvesInside(s: Zone, k: Order, m: nat)
    requires NextInside(s) && 2 * m < Up(s.pages, k)
    ensures NextInside(AddHalves(s, k, m))
  {
  }

  lemma PassOnInside(s: Zone, k: Order, m: nat)
    requires NextInside(s) && Up(s.pages, k) > 0
    ensures NextInside(Buddy.PassOn(s, k, m))
  {
  }

  /** The program sets the bit of the block before it clears those of its halves. */
  lemma SplitInProgramOrder(s: Zone, k: Order)
    requires k > 0
    ensures Buddy.PassOn(AddHalves(SetBit(s, k, s.next[k]), k - 1, s.next[k]), k, s.next[k]) == SplitHere(s, k)
  {
    var m, c := s.next[k], s.clear;
    assert c[k := c[k] - {m}][k - 1 := c[k - 1] + {2 * m} + {2 * m + 1}]
        == c[k - 1 := c[k - 1] + {2 * m} + {2 * m + 1}][k := c[k] - {m}];
    assert AddHalves(SetBit(s, k, m), k - 1, m) == SetBit(AddHalves(s, k - 1, m), k, m);
  }

  lemma PairBelow(i: nat, half: nat)
    ensures i < 2 * half ==> i / 2 * 2 + 1 < 2 * half
  {
  }

  function ZHalves(b: Build, s: Zone, k: Order, i: nat): Zone
    requires k > 0
  {
    if b == Source then AddHalvesUnder(s, k - 1, i, s.next[k]) else AddHalves(s, k - 1, i)
  }

  /** The two halves may be cleared before or after the bit of the block is set. */
  lemma ZSplitInTurn(b: Build, s: Zone, k: Order, i: nat)
    requires k > 0
    ensures BuddyReserve.ZPassOn(ZHalves(b, SetBit(s, k, i), k, i), k, i) == ZSplitHere(b, s, k, i)
  {
    var c := s.clear;
    assert c[k := c[k] - {i}][k - 1 := c[k - 1] + {2 * i} + {2 * i + 1}]
        == c[k - 1 := c[k - 1] + {2 * i} + {2 * i + 1}][k := c[k] - {i}];
    assert ZHalves(b, SetBit(s, k, i), k, i) == SetBit(ZHalves(b, s, k, i), k, i);
  }

  lemma ZSplitClear(b: Build, s: Zone, k: Order, i: nat)
    requires k > 0
    ensures ZSplitHere(b, s, k, i).clear == SplitOf(s.clear, k, i)
    ensures i in s.clear[k] && Bounded(s.clear, s.pages) ==> Bounded(ZSplitHere(b, s, k, i).clear, s.pages)
  {
    var c := s.clear;
    assert c[k - 1] + {2 * i} + {2 * i + 1} == c[k - 1] + {2 * i, 2 * i + 1};
    if i in c[k] && Bounded(c, s.pages) {
      SplitBounded(c, s.pages, k, i);
    }
  }

  lemma MapNext(n: nat, k: nat)
    requires k > 0
    ensures MapStart(n, k) == MapStart(n, k - 1) + MapSize(n, k - 1) && MapSize(n, k) == (MapSize(n, k - 1) + 1) / 2
  {
  }

  lemma MakeRoomAt(b: Build, s: Zone, k: Order, i: nat, j: Order, x: nat)
    requires i !in s.clear[k] && k < j && x == Up(i, j - k) && x in s.clear[j]
    requires FreeAncestor(s.clear, j, x) == FreeAncestor(s.clear, k + 1, i / 2)
    ensures BuddyReserve.MakeRoom(b, s, k, i) == SplitDown(b, s, j, k, x, i)
  {
  }

  lemma MakeRoomNowhere(b: Build, s: Zone, k: Order, i: nat, x: nat)
    requires i !in s.clear[k]
    requires FreeAncestor(s.clear, MAX_ORDER, x) == FreeAncestor(s.clear, k + 1, i / 2)
    ensures BuddyReserve.MakeRoom(b, s, k, i) == s
  {
  }

  lemma PlaceInside(p: nat, n: nat, k: nat)
    requires p <= n
    ensures Up(p, k) <= Bits(n, k)
  {
    UpMonotone(p, n, k);
    BitsEnough(n, k);
  }

  lemma PlaceStep(s: Zone, t: Zone, p: nat, o: Order)
    requires o == BuddyInit.OrderMax(p, 0) < MAX_ORDER - 1 && Up(s.pages, o + 1) > 0
    requires p >= Pow2(o) && Up(p, o) > 0 && t == BuddyInit.PlaceLast(s, o, Up(p, o) - 1)
    ensures BuddyInit.FreeAreaMap(s, p) == BuddyInit.FreeAreaMap(t, p - Pow2(o))
  {
    BuddyInit.FreeAreaMapUnfolds(s, p, o);
  }

  /** One round of the loop that splits towards a block. */
  lemma DescendStep(b: Build, s: Zone, t: Zone, l: nat, k: nat, x: nat, y: nat, i: nat)
    requires k < l < MAX_ORDER && x in s.clear[l] && t == ZBlockSplit(b, s, l, x)
    requires y == if b == Source then 2 * x else Up(i, l - 1 - k)
    requires b == Repaired ==> x == Up(i, l - k)
    ensures SplitDown(b, s, l, k, x, i) == SplitDown(b, t, l - 1, k, y, i) && y in t.clear[l - 1]
  {
    ZSplitClear(b, s, l, x);
    UpStep(i, l - 1 - k);
  }

  class Region {
    const build: Build
    const start: nat
    const size: nat
    const pages: nat
    const bytes: array<bv8>   // free_area[0] and the nine bitmaps after it
    const area: array<nat>    // free_area[], as offsets into bytes
    const count: array<nat>   // pages_free[]
    const next: array<nat>    // next_free_page[]
    var pagesFree: nat
    var memFull: bool
    var lock: nat
    ghost var clear: Blocks   // what the bitmaps in bytes say

    ghost predicate Valid()
      reads this, bytes, area, count, next
    {
      && Bitmaps.Holds(bytes[..], pages) && Matches(bytes[..], pages, clear)
      && area.Length == count.Length == next.Length == MAX_ORDER
      && count != next && count != area && next != area
      && bytes as object !in {count as object, next, area}
      && forall k: Order :: area[k] == MapStart(pages, k)
    }

    ghost function View(): Zone
      reads this, bytes, area, count, next
      requires Valid()
    {
      Zone(pages, clear, count[..], next[..], pagesFree, memFull)
    }

    // -------------------------------------------------------------- bits

    method BlockCheck(order: Order, offset: nat) returns (set_: bool)
      requires Valid() && offset < Bits(pages, order)
      ensures set_ <==> offset !in View().clear[order]
    {
      InBuffer(bytes[..], pages, order, offset);
      SmallIndex(offset % 8);
      set_ := (bytes[area[order] + offset / 8] >> ((offset % 8) as bv8)) & 1 == 1;
      assert set_ == BitAt(bytes[..], pages, order, offset);
      assert Agrees(bytes[..], pages, clear, order, offset);
    }

    method BlockSet(order: Order, offset: nat)
      requires Valid() && offset < Bits(pages, order)
      modifies this`clear, bytes
      ensures Valid() && View() == SetBit(old(View()), order, offset)
    {
      SetWrite(bytes[..], pages, clear, order, offset);
      var at := area[order] + offset / 8;
      ghost var b := bytes[..];
      var byte := bytes[at] | (1 << ((offset % 8) as bv8));
      bytes[at] := byte;
      assert byte == ByteSet(b[at], offset % 8);
      assert bytes[..] == b[at := byte];
      clear := clear[order := clear[order] - {offset}];
    }

    method BlockClear(order: Order, offset: nat)
      requires Valid() && offset < Bits(pages, order)
      modifies this`clear, bytes
      ensures Valid() && View() == ClearBit(old(View()), order, offset)
    {
      ClearWrite(bytes[..], pages, clear, order, offset);
      var at := area[order] + offset / 8;
      ghost var b := bytes[..];
      var byte := bytes[at] & !(1 << ((offset % 8) as bv8));
      bytes[at] := byte;
      assert byte == ByteClear(b[at], offset % 8);
      assert bytes[..] == b[at := byte];
      clear := clear[order := clear[order] + {offset}];
    }

    method BlocksClear(order: Order, length: nat)
      requires Valid() && length <= Bits(pages, order)
      modifies this`clear, bytes
      ensures Valid() && View() == BuddyInit.BlocksClear(old(View()), order, length)
    {
      ghost var s := View();
      ClearNone(s, order);
      for i := 0 to length
        invariant Valid() && View() == BuddyInit.BlocksClear(s, order, i)
      {
        BlockClear(order, i);
        ClearOneMore(s, order, i);
      }
    }

    /** map->pages_free[order] = x */
    method PutCount(order: Order, x: nat)
      requires Valid()
      modifies count
      ensures Valid() && View() == SetCount(old(View()), order, x)
    {
      ghost var c := count[..];
      count[order] := x;
      assert count[..] == c[order := x];
    }

    /** map->next_free_page[order] = x */
    method PutNext(order: Order, x: nat)
      requires Valid()
      modifies next
      ensures Valid() && View() == SetNext(old(View()), order, x)
    {
      ghost var c := next[..];
      next[order] := x;
      assert next[..] == c[order := x];
    }

    method FreeAreaLength(p: nat, order: nat) returns (r: nat)
      ensures r == Up(p, order)
    {
      r := p;
      for i := 0 to order
        invariant r == Up(p, i)
      {
        UpStep(p, i);
        r := r / 2;
      }
    }

    method OrderMax(p: nat) returns (order: nat)
      ensures order == BuddyInit.OrderMax(p, 0)
    {
      var rest := p;
      order := 0;
      while order < MAX_ORDER
        invariant order < MAX_ORDER ==> BuddyInit.OrderMax(rest, order) == BuddyInit.OrderMax(p, 0)
        invariant order <= MAX_ORDER
        invariant order == MAX_ORDER ==> BuddyInit.OrderMax(p, 0) == MAX_ORDER - 1
      {
        if rest % 2 == 1 {
          return;
        }
        rest := rest / 2;
        order := order + 1;
      }
      order := MAX_ORDER - 1;
    }

    /** The result is stored in next[order] by every caller. */
    method FindNextFreePage(order: Order, from: nat) returns (r: nat)
      requires Valid()
      modifies count
      ensures Valid() && SetNext(View(), order, r) == Advance(old(View()), order, from)
    {
      ghost var s := View();
      var len := FreeAreaLength(pages, order);
      BitsEnough(pages, order);
      var i := from;
      while i < len
        invariant Valid() && View() == s
        invariant i >= from
        invariant Scan(s.clear[order], i, len) == Scan(s.clear[order], from, len)
      {
        var set_ := BlockCheck(order, i);
        if !set_ {
          return i;
        }
        i := i + 1;
      }
      PutCount(order, 0);
      r := 0;
    }

    // -------------------------------------------------------------- allocating

    method OutOfMem()
      modifies this`memFull
      requires Valid()
      ensures Valid() && View() == Buddy.OutOfMem(old(View()))
    {
      memFull := true;
    }

    /** The bookkeeping block_split and pages_alloc share once block m of the order is taken. */
    method PassOn(order: Order, m: nat)
      requires Valid()
      modifies count, next
      ensures Valid() && View() == Buddy.PassOn(old(View()), order, m)
    {
      if count[order] != 1 {
        var r := FindNextFreePage(order, m + 1);
        PutNext(order, r);
      } else {
        PutNext(order, 0);
      }
      PutCount(order, Minus(count[order], 1));
    }

    method HalveBlock(order: Order, m: nat)
      requires Valid() && order > 0 && m < Bits(pages, order) && 2 * m + 1 < Bits(pages, order - 1)
      modifies this`clear, bytes, count, next
      ensures Valid() && View() == AddHalves(SetBit(old(View()), order, m), order - 1, m)
    {
      BlockSet(order, m);
      BlockClear(order - 1, m * 2);
      BlockClear(order - 1, m * 2 + 1);
      if next[order - 1] > m * 2 || count[order - 1] == 0 {
        PutNext(order - 1, m * 2);
      }
      PutCount(order - 1, count[order - 1] + 2);
    }

    method SplitHere(order: Order)
      requires Valid() && NextInside(View()) && order > 0 && count[order] > 0
      modifies this`clear, bytes, count, next
      ensures Valid() && View() == Buddy.SplitHere(old(View()), order) && NextInside(View())
    {
      SplitInside(View(), order);
      SplitInProgramOrder(View(), order);
      var m := next[order];
      HalveBlock(order, m);
      PassOn(order, m);
    }

    method BlockSplit(order: nat)
      requires Valid() && NextInside(View())
      modifies this`clear, bytes, count, next, this`memFull
      ensures Valid() && View() == Buddy.BlockSplit(build, old(View()), order) && NextInside(View())
      decreases MAX_ORDER - order
    {
      if order == 0 || order >= MAX_ORDER {
        return;
      }
      if count[order] == 0 {
        if order == MAX_ORDER - 1 {
          if build == Source { OutOfMem(); }
          return;
        }
        BlockSplit(order + 1);
        if count[order] == 0 {
          if build == Source { OutOfMem(); }
          return;
        }
      }
      SplitHere(order);
    }

    /** The region's count of free pages after a block of the order is taken. */
    method Charge(order: Order)
      requires Valid()
      modifies this`pagesFree, this`memFull
      ensures Valid() && View() == Buddy.Charge(old(View()), order)
    {
      if pagesFree <= Pow2(order) { OutOfMem(); }
      pagesFree := Minus(pagesFree, Pow2(order));
    }

    /** Waiting for the lock never ends when the caller is the one who holds it. */
    method Lock()
      requires Valid() && lock == 0
      modifies this`lock
      ensures Valid() && lock == 1 && View() == old(View())
    {
      lock := 1;
    }

    method Unlock()
      requires Valid()
      modifies this`lock
      ensures Valid() && lock == 0 && View() == old(View())
    {
      lock := 0;
    }

    /** Physical address of a block; 0 when there is none. */
    method PagesAlloc(order: nat) returns (phaddr: nat)
      requires Valid() && Inv(View()) && lock == 0
      modifies bytes, count, next, this
      ensures Valid() && lock == 0 && (View(), phaddr) == BuddyRuns.PagesAlloc(build, old(View()), start, order)
      ensures BuddyRuns.LowestStart(old(View()).clear, start, order, phaddr)
    {
      BuddyRuns.AllocStart(build, View(), start, order);
      InvNextInside(View());
      if order >= MAX_ORDER {
        return 0;
      }
      Lock();
      if count[order] == 0 {
        if order == MAX_ORDER - 1 {
          if build == Source { OutOfMem(); }
          Unlock();
          return 0;
        }
        BlockSplit(order + 1);
        if count[order] == 0 {
          if build == Source { OutOfMem(); }
          Unlock();
          return 0;
        }
      }
      var m := next[order];
      BitsCover(pages, order, m);
      BlockSet(order, m);
      phaddr := BuddyRuns.Address(start, order, m);
      PassOn(order, m);
      Charge(order);
      Unlock();
    }

    // -------------------------------------------------------------- freeing

    method MergeBits(order: nat, offset: nat)
      requires Valid() && order < MAX_ORDER - 1
      requires offset + 1 < Bits(pages, order) && offset / 2 < Bits(pages, order + 1)
      modifies this`clear, bytes, count
      ensures Valid() && View() == Buddy.MergeBits(old(View()), order, offset)
    {
      BlockSet(order, offset);
      BlockSet(order, offset + 1);
      BlockClear(order + 1, offset / 2);
      PutCount(order, Minus(count[order], 2));
      PutCount(order + 1, count[order + 1] + 1);
    }

    method MergeIndices(order: nat, offset: nat)
      requires Valid() && order < MAX_ORDER - 1
      modifies count, next
      ensures Valid() && View() == Buddy.MergeIndices(old(View()), order, offset)
    {
      if next[order] == offset || next[order] == offset + 1 {
        var r := FindNextFreePage(order, offset + 2);
        PutNext(order, r);
      }
      if next[order + 1] > offset / 2 || count[order + 1] == 1 {
        PutNext(order + 1, offset / 2);
      }
    }

    method Merge(order: nat, block: nat)
      requires Valid() && order < MAX_ORDER - 1 && block < Bits(pages, order)
      modifies this`clear, bytes, count, next
      ensures Valid() && View() == MergeHere(old(View()), order, block)
    {
      BitsCover(pages, order, block);
      PairBelow(block, 4 * MapSize(pages, order));
      var offset := block / 2 * 2;
      MergeBits(order, offset);
      MergeIndices(order, offset);
    }

    method BlockMerge(order: nat, block: nat)
      requires Valid() && (order < MAX_ORDER ==> block < Bits(pages, order))
      modifies this`clear, bytes, count, next
      ensures Valid() && View() == Buddy.BlockMerge(old(View()), order, block)
      decreases MAX_ORDER - order
    {
      if order >= MAX_ORDER - 1 {
        return;
      }
      BitsCover(pages, order, block);
      BitsCover(pages, order + 1, block / 2);
      Merge(order, block);
      var buddyBusy := BlockCheck(order + 1, if block / 2 % 2 == 0 then block / 2 + 1 else block / 2 - 1);
      if !buddyBusy {
        BlockMerge(order + 1, block / 2);
      }
    }

    /** Lines 562 to 571: the block joins the free ones, before its buddy is looked at. */
    method AddBlock(order: Order, offset: nat)
      requires Valid() && offset < Bits(pages, order)
      modifies this`clear, bytes, count, next, this`pagesFree, this`memFull
      ensures Valid() && View() == Add(Refund(build, old(View()), order), order, offset, build == Repaired)
    {
      BlockClear(order, offset);
      if pagesFree == 0 {
        memFull := build == Source;
      }
      pagesFree := pagesFree + Pow2(order);
      PutCount(order, count[order] + 1);
      if offset < next[order] || (build == Repaired && count[order] == 1) {
        PutNext(order, offset);
      }
    }

    /** An address the region rejects leaves the program as written holding the lock. */
    method PagesFree(phaddr: nat, order: Order)
      requires Valid() && lock == 0
      requires start <= phaddr < start + size ==>
        BuddyRuns.FreeOffset(build, start, phaddr, order) < Bits(pages, order)
      modifies bytes, count, next, this
      ensures Valid()
      ensures (View(), lock == 1) == BuddyRuns.PagesFree(build, old(View()), start, size, phaddr, order)
    {
      Lock();
      if phaddr < start || phaddr >= start + size {
        if build == Repaired { Unlock(); }
        return;
      }
      var offset := BuddyRuns.FreeOffset(build, start, phaddr, order);
      var busy := BlockCheck(order, offset);
      if !busy {
        if build == Repaired { Unlock(); }
        return;
      }
      GiveBack(order, offset);
      Unlock();
    }

    /** Lines 562 to 579. */
    method GiveBack(order: Order, offset: nat)
      requires Valid() && offset < Bits(pages, order) && offset !in View().clear[order]
      modifies this`clear, bytes, count, next, this`pagesFree, this`memFull
      ensures Valid() && View() == FreeBlock(build, old(View()), order, offset)
    {
      AddBlock(order, offset);
      BitsCover(pages, order, offset);
      var buddyBusy := BlockCheck(order, if offset % 2 == 1 then offset - 1 else offset + 1);
      if !buddyBusy {
        BlockMerge(order, offset);
      }
    }

    // -------------------------------------------------------------- reserving

    method DropDirect(order: Order, offset: nat)
      requires Valid() && offset < Bits(pages, order)
      modifies this`clear, bytes, count, next
      ensures Valid() && View() == BuddyReserve.DropDirect(old(View()), order, offset)
    {
      BlockSet(order, offset);
      PutCount(order, Minus(count[order], 1));
      if next[order] == offset {
        var r := FindNextFreePage(order, offset + 1);
        PutNext(order, r);
      }
    }

    method ZHalveBlock(order: Order, offset: nat)
      requires Valid() && order > 0 && offset < Bits(pages, order) && 2 * offset + 1 < Bits(pages, order - 1)
      modifies this`clear, bytes, count, next
      ensures Valid() && View() == ZHalves(build, SetBit(old(View()), order, offset), order, offset)
    {
      BlockSet(order, offset);
      BlockClear(order - 1, offset * 2);
      BlockClear(order - 1, offset * 2 + 1);
      if build == Source {
        if next[order - 1] > next[order] * 2 { PutNext(order - 1, next[order] * 2); }
      } else {
        if next[order - 1] > offset * 2 || count[order - 1] == 0 { PutNext(order - 1, offset * 2); }
      }
      PutCount(order - 1, count[order - 1] + 2);
    }

    method ZPassOn(order: Order, offset: nat)
      requires Valid()
      modifies count, next
      ensures Valid() && View() == BuddyReserve.ZPassOn(old(View()), order, offset)
    {
      if count[order] == 1 {
        PutNext(order, 0);
      } else if offset == next[order] {
        var r := FindNextFreePage(order, offset + 1);
        PutNext(order, r);
      }
      PutCount(order, Minus(count[order], 1));
    }

    method ZBlockSplit(order: nat, offset: nat)
      requires Valid() && Bounded(View().clear, pages) && (order < MAX_ORDER ==> offset < Bits(pages, order))
      modifies this`clear, bytes, count, next
      ensures Valid() && View() == BuddyReserve.ZBlockSplit(build, old(View()), order, offset)
      ensures Bounded(View().clear, pages)
      decreases MAX_ORDER - order
    {
      if order == 0 || order >= MAX_ORDER {
        return;
      }
      var busy := BlockCheck(order, offset);
      if busy {
        if order == MAX_ORDER - 1 {
          return;
        }
        BitsCover(pages, order, offset);
        ZBlockSplit(order + 1, offset / 2);
        busy := BlockCheck(order, offset);
        if busy {
          return;
        }
      }
      SplitAt(order, offset);
    }

    /** Lines 411 to 423. */
    method SplitAt(order: Order, offset: nat)
      requires Valid() && order > 0 && offset < Bits(pages, order) && offset in View().clear[order]
      requires Bounded(View().clear, pages)
      modifies this`clear, bytes, count, next
      ensures Valid() && View() == ZSplitHere(build, old(View()), order, offset)
      ensures Bounded(View().clear, pages)
    {
      BitsCover(pages, order - 1, offset);
      ZSplitInTurn(build, View(), order, offset);
      ZSplitClear(build, View(), order, offset);
      ZHalveBlock(order, offset);
      ZPassOn(order, offset);
    }

    /** Lines 525 to 539. */
    method MakeRoom(order: Order, offset: nat)
      requires Valid() && Bounded(View().clear, pages) && offset < Bits(pages, order)
      requires offset !in View().clear[order]
      modifies this`clear, bytes, count, next
      ensures Valid() && View() == BuddyReserve.MakeRoom(build, old(View()), order, offset)
    {
      ghost var s := View();
      var p := offset / 2;
      var i := order + 1;
      BitsCover(pages, order, offset);
      while i < MAX_ORDER
        invariant order < i <= MAX_ORDER && Valid() && View() == s
        invariant p == Up(offset, i - order) && (i < MAX_ORDER ==> p < Bits(pages, i))
        invariant FreeAncestor(s.clear, i, p) == FreeAncestor(s.clear, order + 1, offset / 2)
      {
        var busy := BlockCheck(i, p);
        if !busy {
          MakeRoomAt(build, s, order, offset, i, p);
          SplitTo(i, order, p, offset);
          return;
        }
        BitsCover(pages, i, p);
        UpStep(offset, i - order);
        p := p / 2;
        i := i + 1;
      }
      MakeRoomNowhere(build, s, order, offset, p);
    }

    /** Block b of order level is the one that holds block i of a lower order. */
    static predicate Above(i: nat, order: Order, level: nat, b: nat)
    {
      order <= level && b == Up(i, level - order)
    }

    /** One round of the loop below; the result is the block to split next. */
    method SplitOnce(level: Order, order: Order, block: nat, offset: nat) returns (below: nat)
      requires Valid() && Bounded(View().clear, pages) && order < level && block in View().clear[level]
      requires build == Repaired ==> Above(offset, order, level, block)
      modifies this`clear, bytes, count, next
      ensures Valid() && Bounded(View().clear, pages) && below in View().clear[level - 1]
      ensures build == Repaired ==> Above(offset, order, level - 1, below)
      ensures SplitDown(build, View(), level - 1, order, below, offset)
        == SplitDown(build, old(View()), level, order, block, offset)
    {
      BitsCover(pages, level, block);
      ZBlockSplit(level, block);
      below := if build == Source then block * 2 else Up(offset, level - 1 - order);
      DescendStep(build, old(View()), View(), level, order, block, below, offset);
    }

    method SplitTo(top: Order, order: Order, block: nat, offset: nat)
      requires Valid() && Bounded(View().clear, pages)
      requires order < top && block in View().clear[top] && block == Up(offset, top - order)
      modifies this`clear, bytes, count, next
      ensures Valid() && View() == SplitDown(build, old(View()), top, order, block, offset)
    {
      ghost var target := SplitDown(build, View(), top, order, block, offset);
      var p := block;
      var i := top;
      while i > order
        invariant order <= i <= top && Valid() && Bounded(View().clear, pages) && p in View().clear[i]
        invariant build == Repaired ==> Above(offset, order, i, p)
        invariant SplitDown(build, View(), i, order, p, offset) == target
      {
        var level := i;
        i := i - 1;
        p := SplitOnce(level, order, p, offset);
      }
    }

    method PagesReserve(order: Order, offset: nat) returns (phaddr: nat)
      requires Valid() && Bounded(View().clear, pages) && offset < Bits(pages, order) && lock == 0
      modifies bytes, count, next, this
      ensures Valid() && lock == 0
      ensures var (t, r) := Reserve(build, old(View()), order, offset);
        View() == t && phaddr == if r.Some? then BuddyRuns.Address(start, order, r.value) else 0
    {
      Lock();
      phaddr := BuddyRuns.Address(start, order, offset);
      var busy := BlockCheck(order, offset);
      if !busy {
        DropDirect(order, offset);
        Charge(order);
        Unlock();
        return;
      }
      MakeRoom(order, offset);
      busy := BlockCheck(order, offset);
      if !busy {
        DropDirect(order, offset);
      } else if build == Repaired {
        Unlock();
        return 0;
      }
      Charge(order);
      Unlock();
    }

    // -------------------------------------------------------------- region_map

    /** One round of the loop below: the block that ends at page p. */
    method PlaceLast(p: nat, order: Order) returns (rest: nat)
      requires Valid() && p <= pages && order == BuddyInit.OrderMax(p, 0) < MAX_ORDER - 1
      requires Up(pages, order + 1) > 0
      modifies this`clear, bytes, count, next
      ensures Valid() && rest < p
      ensures BuddyInit.FreeAreaMap(View(), rest) == BuddyInit.FreeAreaMap(old(View()), p)
    {
      BuddyInit.LastBlock(p, order);
      PlaceInside(p, pages, order);
      var length := FreeAreaLength(p, order);
      PutNext(order, length - 1);
      BlockClear(order, length - 1);
      PutCount(order, count[order] + 1);
      rest := p - Pow2(order);
      PlaceStep(old(View()), View(), p, order);
    }

    method FreeAreaMap()
      requires Valid()
      modifies this`clear, bytes, count, next
      ensures Valid() && View() == BuddyInit.FreeAreaMap(old(View()), pages)
    {
      ghost var target := BuddyInit.FreeAreaMap(View(), pages);
      var p: nat := pages;
      var order := OrderMax(p);
      var above := FreeAreaLength(pages, order + 1);
      while order != MAX_ORDER - 1 && above != 0
        invariant Valid() && p <= pages && order == BuddyInit.OrderMax(p, 0)
        invariant order < MAX_ORDER && above == Up(pages, order + 1)
        invariant BuddyInit.FreeAreaMap(View(), p) == target
        decreases p
      {
        p := PlaceLast(p, order);
        order := OrderMax(p);
        above := FreeAreaLength(pages, order + 1);
      }
      BuddyInit.FreeAreaMapUnfolds(View(), p, order);
      PlaceInside(p, pages, order);
      var length := FreeAreaLength(p, order);
      PutCount(order, length);
      BlocksClear(order, length);
    }

    /** Lines 346 to 355: where each bitmap starts. */
    method LayOut()
      requires area.Length == MAX_ORDER
      modifies area
      ensures forall k: Order :: area[k] == MapStart(pages, k)
    {
      area[0] := 0;
      var lastPos := 0;
      var lastSize := (pages + 7) / 8;
      for i := 1 to MAX_ORDER
        invariant lastPos == MapStart(pages, i - 1) && lastSize == MapSize(pages, i - 1)
        invariant forall k: nat :: k < i ==> area[k] == MapStart(pages, k)
      {
        MapNext(pages, i);
        lastPos := lastPos + lastSize;
        area[i] := lastPos;
        lastSize := (lastSize + 1) / 2;
      }
    }

    /** Regions whose bitmaps do not fit their buffer are written past its end; RoomForAll tells them apart. */
    constructor (build: Build, start: nat, size: nat, pages: nat)
      requires RoomForAll(pages)
      ensures Valid() && lock == 0 && View() == BuddyInit.RegionMap(pages)
      ensures this.build == build && this.start == start && this.size == size && this.pages == pages
      ensures fresh(bytes) && fresh(count) && fresh(next) && fresh(area)
    {
      this.build, this.start, this.size, this.pages := build, start, size, pages;
      bytes := new bv8[BufferSize(pages)](_ => 0xFF);
      area := new nat[MAX_ORDER];
      count := new nat[MAX_ORDER](_ => 0);
      next := new nat[MAX_ORDER](_ => 0);
      pagesFree := pages;
      memFull := false;
      lock := 0;
      new;
      LayOut();
      FitsIff(pages);
      clear := BuddyInit.Empty(pages).clear;
      AllSet(bytes[..], pages, clear);
      assert count[..] == BuddyInit.Empty(pages).count;
      assert next[..] == BuddyInit.Empty(pages).next;
      assert View() == BuddyInit.Empty(pages);
      FreeAreaMap();
    }
  }
}
