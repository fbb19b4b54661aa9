/** pages_reserve: taking one given block, splitting a larger free block that holds it.

    As written the program always descends to the left half of what it splits, does not look at
    the right entry when it lowers the cached index of the order below, and charges the region's
    free count even if it reserved nothing. Repaired, it descends towards the block. */
module BuddyReserve {
  import opened Halving
  import opened Machine
  import opened Builds
  import opened Wrappers
  import opened Buddy
  import opened BuddyBlocks
  import opened BuddySteps
  import opened BuddyCanonical

  // ---------------------------------------------------------------- the program

  /** zblock_split's bookkeeping for the block it takes out. */
  function DropAt(s: Zone, k: Order, i: nat): Zone
  {
    ZPassOn(SetBit(s, k, i), k, i)
  }

  function ZPassOn(s: Zone, k: Order, i: nat): Zone
  {
    var d := if s.count[k] == 1 then SetNext(s, k, 0) else if i == s.next[k] then Advance(s, k, i + 1) else s;
    SetCount(d, k, Minus(d.count[k], 1))
  }

  /** As written: the cached index is lowered to twice that of the order above. */
  function AddHalvesUnder(s: Zone, k: Order, m: nat, above: nat): Zone
  {
    var a := ClearBit(ClearBit(s, k, 2 * m), k, 2 * m + 1);
    var d := if a.next[k] > 2 * above then SetNext(a, k, 2 * above) else a;
    SetCount(d, k, d.count[k] + 2)
  }

  function ZSplitHere(b: Build, s: Zone, k: Order, i: nat): Zone
    requires k > 0
  {
    DropAt(if b == Source then AddHalvesUnder(s, k - 1, i, s.next[k]) else AddHalves(s, k - 1, i), k, i)
  }

  function ZBlockSplit(b: Build, s: Zone, k: nat, i: nat): Zone
    decreases MAX_ORDER - k
  {
    if k == 0 || k >= MAX_ORDER then s
    else if i in s.clear[k] then ZSplitHere(b, s, k, i)
    else if k == MAX_ORDER - 1 then s
    else
      var t := ZBlockSplit(b, s, k + 1, i / 2);
      if i in t.clear[k] then ZSplitHere(b, t, k, i) else t
  }

  /** The lowest order from k up at which the block above i is free. */
  function FreeAncestor(c: Blocks, k: nat, i: nat): (r: Option<nat>)
    requires k <= MAX_ORDER
    ensures r.Some? <==> Contained(c, k, i)
    ensures r.Some? ==> k <= r.value < MAX_ORDER && Up(i, r.value - k) in c[r.value]
    decreases |c| - k
  {
    if k == MAX_ORDER then None else if i in c[k] then Some(k) else FreeAncestor(c, k + 1, i / 2)
  }

  /** The loop that splits from order l, block x, down to order k. */
  function SplitDown(b: Build, s: Zone, l: nat, k: nat, x: nat, i: nat): Zone
    decreases l
  {
    if l <= k then s
    else SplitDown(b, ZBlockSplit(b, s, l, x), l - 1, k, if b == Source then 2 * x else Up(i, l - 1 - k), i)
  }

  /** The bookkeeping of pages_reserve for the block it takes out. */
  function DropDirect(s: Zone, k: Order, i: nat): Zone
  {
    var a := SetBit(s, k, i);
    var d := SetCount(a, k, Minus(a.count[k], 1));
    if d.next[k] == i then Advance(d, k, i + 1) else d
  }

  /** The splits pages_reserve does before it looks at the block once more. */
  function MakeRoom(b: Build, s: Zone, k: Order, i: nat): Zone
  {
    if i in s.clear[k] then s
    else
      var j := FreeAncestor(s.clear, k + 1, i / 2);
      if j.Some? then SplitDown(b, s, j.value, k, Up(i, j.value - k), i) else s
  }

  function Reserve(b: Build, s: Zone, k: Order, i: nat): (Zone, Option<nat>)
  {
    var t := MakeRoom(b, s, k, i);
    if i in t.clear[k] then (Charge(DropDirect(t, k, i), k), Some(i))
    else if b == Source then (Charge(t, k), Some(i)) else (t, None)
  }

  // ---------------------------------------------------------------- one step

  lemma DropAtEffect(s: Zone, k: Order, i: nat)
    requires CachedAt(s, k) && i in s.clear[k] && forall x :: x in s.clear[k] ==> x < Up(s.pages, k)
    ensures Rewritten(s, DropAt(s, k, i), k, s.clear[k] - {i})
    ensures Rewritten(s, DropDirect(s, k, i), k, s.clear[k] - {i})
  {
    var c := s.clear[k];
    var d := c - {i};
    assert |d| == |c| - 1;
    assert i == s.next[k] ==> forall x :: x in d ==> i + 1 <= x;
    if |c| == 1 {
      assert |d| == 0;
    }
  }

  lemma ZSplitHereCached(s: Zone, k: Order, i: nat)
    requires k > 0 && Cached(s) && Bounded(s.clear, s.pages) && i in s.clear[k]
    requires 2 * i !in s.clear[k - 1] && 2 * i + 1 !in s.clear[k - 1]
    ensures var t := ZSplitHere(Repaired, s, k, i);
      Cached(t) && SameRest(s, t) && t.clear == SplitOf(s.clear, k, i)
  {
    assert CachedAt(s, k) && CachedAt(s, k - 1);
    var u := AddHalves(s, k - 1, i);
    AddHalvesEffect(s, k - 1, i);
    RewrittenCached(s, u, k - 1, s.clear[k - 1] + {2 * i, 2 * i + 1});
    assert CachedAt(u, k) && u.clear[k] == s.clear[k];
    DropAtEffect(u, k, i);
    RewrittenCached(u, ZSplitHere(Repaired, s, k, i), k, u.clear[k] - {i});
  }

  lemma ZSplitHereEffect(s: Zone, k: Order, i: nat)
    requires k > 0 && Sound(s) && i in s.clear[k]
    ensures var t := ZSplitHere(Repaired, s, k, i);
      && Sound(t) && SameRest(s, t) && t.clear == SplitOf(s.clear, k, i) && SamePages(s.clear, t.clear)
  {
    SplitKeeps(s.clear, k, i);
    ZSplitHereCached(s, k, i);
    SplitBounded(s.clear, s.pages, k, i);
  }

  // ---------------------------------------------------------------- repaired

  /** The block is free by itself now, its buddy the only uncoalesced one, the free pages as before. */
  ghost predicate Opened(s: Zone, t: Zone, k: Order, i: nat)
  {
    Sound(t) && SameRest(s, t) && SamePages(s.clear, t.clear) && i in t.clear[k] && CoalescedBut(t.clear, k, i)
  }

  lemma OpenedThrough(s: Zone, u: Zone, t: Zone, k: Order, i: nat)
    requires SameRest(s, u) && SamePages(s.clear, u.clear) && Opened(u, t, k, i)
    ensures Opened(s, t, k, i)
  {
    forall p ensures PageFree(s.clear, p) == PageFree(t.clear, p) {
      assert PageFree(s.clear, p) == PageFree(u.clear, p);
    }
  }

  /** One split on the path: what it leaves for the next one. */
  lemma SplitOnPath(s: Zone, l: Order, k: nat, i: nat)
    requires k < l && Sound(s) && Up(i, l - k) in s.clear[l] && CoalescedBut(s.clear, l, Up(i, l - k))
    ensures var u, y := ZSplitHere(Repaired, s, l, Up(i, l - k)), Up(i, l - 1 - k);
      && Sound(u) && SameRest(s, u) && SamePages(s.clear, u.clear)
      && y in u.clear[l - 1] && CoalescedBut(u.clear, l - 1, y)
  {
    ZSplitHereEffect(s, l, Up(i, l - k));
    UpStep(i, l - k - 1);
    SplitCoalescedBut(s.clear, l, Up(i, l - k), Up(i, l - 1 - k));
  }

  lemma PathStep(s: Zone, l: Order, k: nat, i: nat) returns (u: Zone)
    requires k < l && Sound(s) && Up(i, l - k) in s.clear[l] && CoalescedBut(s.clear, l, Up(i, l - k))
    ensures SplitDown(Repaired, s, l, k, Up(i, l - k), i) == SplitDown(Repaired, u, l - 1, k, Up(i, l - 1 - k), i)
    ensures Sound(u) && SameRest(s, u) && SamePages(s.clear, u.clear)
    ensures Up(i, l - 1 - k) in u.clear[l - 1] && CoalescedBut(u.clear, l - 1, Up(i, l - 1 - k))
  {
    SplitOnPath(s, l, k, i);
    DescendOnPath(s, l, k, i);
    u := ZSplitHere(Repaired, s, l, Up(i, l - k));
  }

  /** The path of splits ends with the wanted block free and its buddy the only uncoalesced one. */
  lemma {:induction false} SplitDownEffect(s: Zone, l: Order, k: nat, i: nat)
    requires k <= l && Sound(s) && Up(i, l - k) in s.clear[l] && CoalescedBut(s.clear, l, Up(i, l - k))
    ensures Opened(s, SplitDown(Repaired, s, l, k, Up(i, l - k), i), k, i)
    decreases l
  {
    if l == k {
    } else {
      var u := PathStep(s, l, k, i);
      SplitDownEffect(u, l - 1, k, i);
      OpenedThrough(s, u, SplitDown(Repaired, u, l - 1, k, Up(i, l - 1 - k), i), k, i);
    }
  }

  lemma DescendOnPath(s: Zone, l: Order, k: nat, i: nat)
    requires k < l && Up(i, l - k) in s.clear[l]
    ensures SplitDown(Repaired, s, l, k, Up(i, l - k), i)
      == SplitDown(Repaired, ZSplitHere(Repaired, s, l, Up(i, l - k)), l - 1, k, Up(i, l - 1 - k), i)
  {
  }

  lemma SplitCoalescedBut(c: Blocks, k: Order, x: nat, y: nat)
    requires k > 0 && x in c[k] && CoalescedBut(c, k, x) && x == y / 2
    ensures CoalescedBut(SplitOf(c, k, x), k - 1, y)
  {
    var d := SplitOf(c, k, x);
    forall j: Order | j != k - 1 ensures CoalescedAt(d, j) {
      if j != k {
        assert CoalescedAt(c, j);
      }
    }
    assert CoalescedAt(c, k - 1);
  }

  lemma DirectIsTaken(s: Zone, u: Zone, k: Order, i: nat)
    requires Sound(s) && Sound(u) && SameRest(s, u) && SamePages(s.clear, u.clear)
    requires i in u.clear[k] && CoalescedBut(u.clear, k, i)
    ensures var t := Charge(DropDirect(u, k, i), k); Inv(t) && Taken(s, t, k, i)
  {
    var t := Charge(DropDirect(u, k, i), k);
    TakeRemoves(u.clear, k, i);
    assert CachedAt(u, k);
    DropAtEffect(u, k, i);
    RewrittenCached(u, DropDirect(u, k, i), k, u.clear[k] - {i});
    forall j: Order ensures CachedAt(t, j) && CoalescedAt(t.clear, j) {
      assert CachedAt(DropDirect(u, k, i), j);
      if j != k {
        assert CoalescedAt(u.clear, j);
      }
    }
    forall p | Up(p, k) == i ensures PageFree(s.clear, p) {
      ContainedUp(u.clear, 0, k, p);
      assert PageFree(u.clear, p);
    }
  }

  lemma MakeRoomInside(s: Zone, k: Order, i: nat, j: Order)
    requires Inv(s) && i !in s.clear[k] && FreeAncestor(s.clear, k + 1, i / 2) == Some(j)
    ensures Opened(s, MakeRoom(Repaired, s, k, i), k, i)
  {
    assert Up(i, j - k) == Up(i / 2, j - k - 1);
    InvCoalescedBut(s.clear, j, Up(i, j - k));
    SplitDownEffect(s, j, k, i);
  }

  lemma InvCoalescedBut(c: Blocks, k: Order, i: nat)
    requires Coalesced(c)
    ensures CoalescedBut(c, k, i)
  {
    assert CoalescedAt(c, k);
  }

  /** Targeted reservation, repaired: it succeeds exactly when every page of the block is free, and
      then exactly those pages leave the free ones. */
  lemma ReserveEffect(s: Zone, k: Order, i: nat)
    requires Inv(s)
    ensures var (t, r) := Reserve(Repaired, s, k, i);
      if AllFree(s.clear, k, i) then Inv(t) && r == Some(i) && Taken(s, t, k, i) else t == s && r == None
  {
    ContainedIsWhole(s.clear, k, i);
    if AllFree(s.clear, k, i) {
      WholeIsContained(s.clear, k, i);
      if i in s.clear[k] {
        InvCoalescedBut(s.clear, k, i);
      } else {
        MakeRoomInside(s, k, i, FreeAncestor(s.clear, k + 1, i / 2).value);
      }
      DirectIsTaken(s, MakeRoom(Repaired, s, k, i), k, i);
    }
  }
}
