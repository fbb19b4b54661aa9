/** pages_free as written, given the address of a block that is handed out: exactly when it gives that block back. */
module BuddyFreeSource {
  import opened Halving
  import opened Machine
  import opened Builds
  import opened Buddy
  import opened BuddyBlocks
  import opened BuddySteps
  import opened BuddyCanonical
  import opened BuddyRuns

  /** The block whose merging starts lies in a free block afterwards. */
  lemma {:induction false} MergeCovers(s: Zone, k: nat, i: nat)
    requires k < MAX_ORDER && i in s.clear[k]
    ensures Contained(BlockMerge(s, k, i).clear, k, i)
    decreases MAX_ORDER - k
  {
    if k >= MAX_ORDER - 1 {
    } else {
      var t := MergeHere(s, k, i);
      assert i / 2 in t.clear[k + 1];
      if BuddyOf(i / 2) in t.clear[k + 1] {
        MergeCovers(t, k + 1, i / 2);
      }
    }
  }

  lemma FreedCovers(s: Zone, k: Order, i: nat)
    requires i !in s.clear[k]
    ensures Contained(FreeBlock(Source, s, k, i).clear, k, i)
  {
    var t := Add(Refund(Source, s, k), k, i, false);
    assert i in t.clear[k];
    if BuddyOf(i) in t.clear[k] {
      MergeCovers(t, k, i);
    }
  }

  /** Freeing a number that is not the block's own never gives that block back. */
  lemma WrongOffset(s: Zone, k: Order, m: nat, i: nat)
    requires Inv(s) && i != m && i !in s.clear[k]
    ensures var t := FreeBlock(Source, s, k, i); !(Inv(t) && Given(Source, s, t, k, m))
  {
    var t := FreeBlock(Source, s, k, i);
    if Inv(t) && Given(Source, s, t, k, m) {
      FreedCovers(s, k, i);
      ContainedIsWhole(t.clear, k, i);
      assert AllFree(s.clear, k, i);
      WholeIsContained(s.clear, k, i);
      InsideLarger(s, k, i);
    }
  }

  lemma NotByItself(c: Blocks, k: Order, i: nat)
    requires Apart(c) && Contained(c, k + 1, i / 2)
    ensures i !in c[k]
  {
    assert !Outermost(c, k, i);
  }

  /** Freeing a block inside a larger free block leaves one free block inside another. */
  lemma InsideLarger(s: Zone, k: Order, i: nat)
    requires Apart(s.clear) && Contained(s.clear, k + 1, i / 2)
    ensures !Apart(FreeBlock(Source, s, k, i).clear)
  {
    NotByItself(s.clear, k, i);
    NotByItself(s.clear, k, BuddyOf(i));
    var t := FreeBlock(Source, s, k, i);
    assert t.clear == GiveOf(s.clear, k, i);
    SameAbove(s.clear, t.clear, k + 1, i / 2);
    assert !Outermost(t.clear, k, i);
  }

  /** As written, pages_free gives a block back and keeps the invariant if and only if the division by the page
      size finds the block and the cached index survives. */
  lemma SourceGivesBack(s: Zone, start: nat, size: nat, k: Order, m: nat)
    requires Inv(s) && m < Up(s.pages, k) && Busy(s.clear, k, m) && size >= PAGE * s.pages
    ensures var t := PagesFree(Source, s, start, size, Address(start, k, m), k).0;
      Inv(t) && Given(Source, s, t, k, m) <==> (k == 0 || m == 0) && IndexKept(Source, s, k, m)
  {
    var a := Address(start, k, m);
    AddressInside(start, s.pages, k, m);
    OffsetOfAddress(Source, start, k, m);
    GiveAdds(s.clear, k, m);
    FreeBlockEffect(Source, s, k, m);
    var i := FreeOffset(Source, start, a, k);
    if i != m && i !in s.clear[k] {
      WrongOffset(s, k, m, i);
    }
  }
}
