/** The finder of free virtual pages: a cursor that points at an absent page. */
module VirtualPages {
  import opened Wrappers
  import opened Machine
  import opened Halving
  import opened PageBits
  import opened PageWalk
  import opened PageEntries
  import opened PageRights
  import opened Paging
  import Chain

  /** The i-th page from v on is not mapped. */
  predicate Absent(m: Memory, root: nat, v: Word, i: nat)
  {
    Descend(m, root, PathAt(v, i)) == None
  }

  ghost predicate AllAbsent(m: Memory, root: nat, v: Word, i: nat, n: nat)
  {
    forall j: nat :: i <= j < i + n ==> Absent(m, root, v, j)
  }

  /** a is the first absent page from v on. */
  ghost predicate FirstAbsent(m: Memory, root: nat, v: Word, a: Word)
  {
    exists k: nat :: FirstAt(m, root, v, k) && a == v + 4096 * k
  }

  ghost predicate FirstAt(m: Memory, root: nat, v: Word, k: nat)
  {
    Absent(m, root, v, k) && NoneBefore(m, root, v, k)
  }

  ghost predicate NoneBefore(m: Memory, root: nat, v: Word, k: nat)
  {
    forall j: nat :: j < k ==> !Absent(m, root, v, j)
  }

  /** The pages from v on reach one that is absent. */
  ghost predicate Ahead(m: Memory, root: nat, v: Word, i: nat)
  {
    exists n: nat :: i <= n && Usable(v, n + 1) && Absent(m, root, v, n)
  }

  /** A run of n absent pages starts somewhere from v on, and one more absent page follows it. */
  ghost predicate RunAhead(m: Memory, root: nat, v: Word, n: nat)
  {
    exists k: nat :: RunAt(m, root, v, k, n)
  }

  ghost predicate RunAt(m: Memory, root: nat, v: Word, k: nat, n: nat)
  {
    Usable(v, k + n + 1) && AllAbsent(m, root, v, k, n)
  }

  /** Once n pages from a on are mapped the cursor, if it stood there, is at the first absent page behind them;
      otherwise it stays. */
  ghost predicate Moves(m: Memory, root: nat, cursor: Word, a: Word, n: nat, next: Word)
  {
    if a == cursor then a + 4096 * n < WORD && FirstAbsent(m, root, a + 4096 * n, next) else next == cursor
  }

  lemma AbsentEntry(m: Memory, root: nat, v: Word, i: nat)
    ensures Absent(m, root, v, i) <==> PageEntry(m, root, PathAt(v, i)) == None
  {
    var p := PathAt(v, i);
    assert p[..3 + 1] == p;
    LevelPresent(m, root, p, 3);
  }

  /** The pages from v + 4096 k on. */
  lemma PathShift(v: Word, k: nat, j: nat)
    requires v + 4096 * k < WORD
    ensures PathAt(v + 4096 * k, j) == PathAt(v, k + j)
  {
    assert (v + 4096 * k) / 4096 == v / 4096 + k;
  }

  lemma UsableShift(v: Word, n: nat, k: nat)
    requires Usable(v, n) && k < n
    ensures v + 4096 * k < WORD && Usable(v + 4096 * k, n - k)
  {
    assert (v + 4096 * k) / 4096 == v / 4096 + k;
  }

  lemma UsableLess(v: Word, n: nat, k: nat)
    requires Usable(v, n) && k <= n
    ensures Usable(v, k)
  {
  }

  /** Mapping pages k to k + n - 1 from v on does not touch another page of the stretch. */
  lemma OutsideKept(m: Memory, s: Memory, root: nat, v: Word, k: nat, n: nat, limit: nat, j: nat)
    requires Usable(v, limit) && k + n <= limit && j < limit && v + 4096 * k < WORD
    requires OthersKept(m, s, root, v + 4096 * k, n) && !(k <= j < k + n)
    ensures Absent(s, root, v, j) <==> Absent(m, root, v, j)
  {
    var w: Word, p := v + 4096 * k, PathAt(v, j);
    if Within(p, w, n) {
      var i: nat :| i < n && p == PathAt(w, i);
      PathShift(v, k, i);
      if k + i < j {
        DistinctPages(v, limit, k + i, j);
      } else {
        DistinctPages(v, limit, j, k + i);
      }
      assert false;
    }
    UsablePage(v, limit, j);
    AbsentEntry(m, root, v, j);
    AbsentEntry(s, root, v, j);
  }

  /** Mapping pages within the first n keeps a page ahead of them absent, seen also from the page that follows. */
  lemma AheadKept(m: Memory, s: Memory, root: nat, v: Word, n: nat, done: nat)
    requires Ahead(m, root, v, n) && OthersKept(m, s, root, v, done) && done <= n
    ensures v + 4096 * n < WORD && Ahead(s, root, v + 4096 * n, 0)
  {
    var k: nat :| n <= k && Usable(v, k + 1) && Absent(m, root, v, k);
    OutsideKept(m, s, root, v, 0, done, k + 1, k);
    AheadFrom(s, root, v, n, k);
  }

  lemma AheadFrom(m: Memory, root: nat, v: Word, n: nat, k: nat)
    requires n <= k && Usable(v, k + 1) && Absent(m, root, v, k)
    ensures v + 4096 * n < WORD && Ahead(m, root, v + 4096 * n, 0)
  {
    UsableShift(v, k + 1, n);
    PathShift(v, n, k - n);
    assert Absent(m, root, v + 4096 * n, k - n);
  }

  /** Seen from a page that was not mapped, too. */
  lemma AheadHere(m: Memory, s: Memory, root: nat, v: Word, n: nat, done: nat)
    requires Ahead(m, root, v, n) && OthersKept(m, s, root, v, done) && done <= n
    ensures Ahead(s, root, v, 0)
  {
    var k: nat :| n <= k && Usable(v, k + 1) && Absent(m, root, v, k);
    OutsideKept(m, s, root, v, 0, done, k + 1, k);
  }

  /** A run further on leaves the page at the start alone. */
  lemma StartKept(m: Memory, s: Memory, root: nat, v: Word, k: nat, n: nat, done: nat)
    requires Usable(v, k + n + 1) && done <= n && 0 < k && v + 4096 * k < WORD
    requires OthersKept(m, s, root, v + 4096 * k, done) && Absent(m, root, v, 0)
    ensures Absent(s, root, v, 0)
  {
    OutsideKept(m, s, root, v, k, done, k + n + 1, 0);
  }

  /** A run of absent pages that starts at a page boundary was mapped. */
  ghost predicate Placed(m: Memory, n: Memory, root: nat, a: Word, address: nat, flags: nat, pages: nat)
  {
    a % PAGE == 0 && Usable(a, pages) && AllAbsent(m, root, a, 0, pages) && Maps(m, n, root, a, address, flags, pages)
  }

  /** The pages that were mapped of a run of absent ones. */
  lemma IsPlaced(m: Memory, n: Memory, root: nat, a: Word, address: nat, flags: nat, pages: nat, done: nat)
    requires a % PAGE == 0 && Usable(a, pages) && AllAbsent(m, root, a, 0, pages) && done <= pages
    requires Maps(m, n, root, a, address, flags, done)
    ensures Placed(m, n, root, a, address, flags, done)
  {
    UsableLess(a, pages, done);
  }

  /** The run as seen from its own start. */
  lemma RunFrom(m: Memory, root: nat, v: Word, k: nat, n: nat)
    requires v + 4096 * k < WORD && AllAbsent(m, root, v, k, n)
    ensures AllAbsent(m, root, v + 4096 * k, 0, n)
  {
    var w: Word := v + 4096 * k;
    forall j: nat | j < n
      ensures Absent(m, root, w, j)
    {
      PathShift(v, k, j);
      var i := k + j;
      assert Absent(m, root, v, i);
    }
  }

  /** Whole pages from a page boundary on is a page boundary. */
  lemma StaysAligned(v: nat, k: nat)
    ensures v % PAGE == 0 ==> (v + 4096 * k) % PAGE == 0
  {
  }

  /** An absent page as seen from itself. */
  lemma AbsentFrom(m: Memory, root: nat, v: Word, k: nat)
    requires v + 4096 * k < WORD && Absent(m, root, v, k)
    ensures Absent(m, root, v + 4096 * k, 0) && (v % PAGE == 0 ==> (v + 4096 * k) % PAGE == 0)
  {
    PathShift(v, k, 0);
    StaysAligned(v, k);
  }

  class Finder {
    const mmu: Mmu
    /** next_free_vpage. */
    var next: Word

    constructor (mmu: Mmu, next: Word)
      ensures this.mmu == mmu && this.next == next
    {
      this.mmu, this.next := mmu, next;
    }

    /** The cursor is at a page boundary, and its page is absent. */
    ghost predicate Points()
      reads this, mmu
    {
      next % PAGE == 0 && Absent(mmu.memory, mmu.root, next, 0)
    }

    /** pga_ispresent of the i-th page from v on. */
    method PgaIsPresent(w: Word, ghost v: Word, ghost i: nat) returns (r: bool)
      requires mmu.Valid() && w == v + 4096 * i
      ensures r <==> !Absent(mmu.memory, mmu.root, v, i)
    {
      PathAtAddress(v, i);
      assert PathOf(w)[..4] == PathOf(w);
      r := mmu.PageIsPresent(w, 1);
    }

    /** fnfp: the first absent page from an address on. */
    method FindFree(v: Word) returns (a: Word, ghost k: nat)
      requires mmu.Valid() && Ahead(mmu.memory, mmu.root, v, 0)
      ensures a == v + 4096 * k && FirstAt(mmu.memory, mmu.root, v, k) && Absent(mmu.memory, mmu.root, a, 0)
      ensures v % PAGE == 0 ==> a % PAGE == 0
    {
      ghost var n: nat :| Usable(v, n + 1) && Absent(mmu.memory, mmu.root, v, n);
      k := 0;
      a := v;
      while true
        invariant k <= n && a == v + 4096 * k
        invariant NoneBefore(mmu.memory, mmu.root, v, k)
        decreases n - k
      {
        var present := PgaIsPresent(a, v, k);
        if !present {
          AbsentFrom(mmu.memory, mmu.root, v, k);
          return;
        }
        if k < n {
          UsableShift(v, n + 1, k + 1);
        }
        a := a + 4096;
        k := k + 1;
      }
    }

    /** vpage_map: an absent page is mapped and the cursor moves to the next one that is absent. */
    method VpageMap(address: nat, flags: nat) returns (a: Word, done: nat)
      requires mmu.Valid() && mmu.Fed() && Usable(next, 1) && next % PAGE == 0
      requires Ahead(mmu.memory, mmu.root, next, 1)
      modifies this`next, mmu, mmu.chain
      ensures mmu.Valid() && mmu.Fed() && a == old(next) && Points()
      ensures FirstAbsent(mmu.memory, mmu.root, a, next)
      ensures Maps(old(mmu.memory), mmu.memory, mmu.root, a, address, flags, done)
      ensures Linked(old(mmu.memory), old(mmu.own), mmu.memory, mmu.own)
      ensures Drew(old(mmu.chain.regions), mmu.chain.regions, old(mmu.own), mmu.own)
      ensures done == 1 || (done == 0 && Chain.AllFull(mmu.chain.regions))
      ensures old(Points()) ==> Placed(old(mmu.memory), mmu.memory, mmu.root, a, address, flags, done)
    {
      ghost var before := mmu.memory;
      a := next;
      assert Pow2(0) == 1;
      done := mmu.PgaMap(a, address, 0, flags);
      AheadHere(before, mmu.memory, mmu.root, a, 1, done);
      ghost var k;
      next, k := FindFree(next);
    }

    /** vpages_map: the first run of absent pages from the cursor on is mapped. No page that was mapped changes,
        and the cursor still points at an absent page. */
    method VpagesMap(address: nat, order: nat, flags: nat) returns (a: Word, ghost k: nat, done: nat)
      requires mmu.Valid() && mmu.Fed() && Points()
      requires RunAhead(mmu.memory, mmu.root, next, Pow2(order))
      requires Ahead(mmu.memory, mmu.root, next, Pow2(order))
      modifies this`next, mmu, mmu.chain
      ensures mmu.Valid() && mmu.Fed() && Points() && a == old(next) + 4096 * k && Usable(a, Pow2(order))
      ensures AllAbsent(old(mmu.memory), mmu.root, old(next), k, Pow2(order))
      ensures forall j: nat :: j < k ==> !AllAbsent(old(mmu.memory), mmu.root, old(next), j, Pow2(order))
      ensures Moves(mmu.memory, mmu.root, old(next), a, Pow2(order), next)
      ensures Maps(old(mmu.memory), mmu.memory, mmu.root, a, address, flags, done)
      ensures Linked(old(mmu.memory), old(mmu.own), mmu.memory, mmu.own)
      ensures Drew(old(mmu.chain.regions), mmu.chain.regions, old(mmu.own), mmu.own)
      ensures done == Pow2(order) || (done < Pow2(order) && Chain.AllFull(mmu.chain.regions))
      ensures Placed(old(mmu.memory), mmu.memory, mmu.root, a, address, flags, done)
    {
      ghost var before := mmu.memory;
      a, k := FindRun(order);
      done := mmu.PgaMap(a, address, order, flags);
      IsPlaced(before, mmu.memory, mmu.root, a, address, flags, Pow2(order), done);
      MoveCursor(a, order, before, k, done);
    }

    /** What vpages_map does with the cursor once the run that starts at a is mapped. */
    method MoveCursor(a: Word, order: nat, ghost before: Memory, ghost k: nat, ghost done: nat)
      requires mmu.Valid() && a == next + 4096 * k && Usable(next, k + Pow2(order) + 1) && done <= Pow2(order)
      requires next % PAGE == 0 && Absent(before, mmu.root, next, 0) && Ahead(before, mmu.root, next, Pow2(order))
      requires OthersKept(before, mmu.memory, mmu.root, a, done)
      modifies this`next
      ensures Points() && Moves(mmu.memory, mmu.root, old(next), a, Pow2(order), next)
    {
      if a == next {
        MoveBehind(Pow2(order), before, done);
      } else {
        StartKept(before, mmu.memory, mmu.root, next, k, Pow2(order), done);
      }
    }

    /** The cursor goes to the first absent page behind the n pages from it on, of which some were mapped. */
    method MoveBehind(n: nat, ghost before: Memory, ghost done: nat)
      requires mmu.Valid() && next % PAGE == 0 && done <= n
      requires Ahead(before, mmu.root, next, n) && OthersKept(before, mmu.memory, mmu.root, next, done)
      modifies this`next
      ensures Points() && Moves(mmu.memory, mmu.root, old(next), old(next), n, next)
    {
      AheadKept(before, mmu.memory, mmu.root, next, n, done);
      StaysAligned(next, n);
      MoveTo(next + 4096 * n);
    }

    /** The cursor goes to the first absent page from an address on. */
    method MoveTo(v: Word)
      requires mmu.Valid() && v % PAGE == 0 && Ahead(mmu.memory, mmu.root, v, 0)
      modifies this`next
      ensures Points() && FirstAbsent(mmu.memory, mmu.root, v, next)
    {
      ghost var k;
      next, k := FindFree(v);
    }

    /** The two search loops of vpages_map. */
    method FindRun(order: nat) returns (a: Word, ghost k: nat)
      requires mmu.Valid() && RunAhead(mmu.memory, mmu.root, next, Pow2(order))
      ensures a == next + 4096 * k && Usable(a, Pow2(order))
      ensures RunAt(mmu.memory, mmu.root, next, k, Pow2(order)) && AllAbsent(mmu.memory, mmu.root, a, 0, Pow2(order))
      ensures next % PAGE == 0 ==> a % PAGE == 0
      ensures forall j: nat :: j < k ==> !AllAbsent(mmu.memory, mmu.root, next, j, Pow2(order))
    {
      ghost var limit: nat :| RunAt(mmu.memory, mmu.root, next, limit, Pow2(order));
      k := 0;
      a := next;
      while true
        invariant k <= limit && a == next + 4096 * k
        invariant forall j: nat :: j < k ==> !AllAbsent(mmu.memory, mmu.root, next, j, Pow2(order))
        decreases limit - k
      {
        var free := RunIsFree(a, k, limit, order);
        if free {
          UsableLess(next, limit + Pow2(order) + 1, k + Pow2(order) + 1);
          UsableShift(next, k + Pow2(order) + 1, k);
          UsableLess(a, Pow2(order) + 1, Pow2(order));
          RunFrom(mmu.memory, mmu.root, next, k, Pow2(order));
          StaysAligned(next, k);
          return;
        }
        UsableShift(next, limit + Pow2(order) + 1, k + 1);
        a := a + 4096;
        k := k + 1;
      }
    }

    method RunIsFree(a: Word, ghost k: nat, ghost limit: nat, order: nat) returns (free: bool)
      requires mmu.Valid() && a == next + 4096 * k && k <= limit && Usable(next, limit + Pow2(order) + 1)
      ensures free <==> AllAbsent(mmu.memory, mmu.root, next, k, Pow2(order))
    {
      var i := 0;
      while i < Pow2(order)
        invariant i <= Pow2(order) && AllAbsent(mmu.memory, mmu.root, next, k, i)
      {
        UsablePage(next, limit + Pow2(order) + 1, k + i);
        var present := PgaIsPresent(a + 4096 * i, next, k + i);
        if present {
          return false;
        }
        i := i + 1;
      }
      return true;
    }

    /** vpages_smap: maps where it is told and does not look at the cursor. If all pages were mapped as present, the
        cursor still points at an absent page if and only if its page is not one of them. */
    method VpagesSmap(address: nat, v: Word, order: nat, flags: nat) returns (ghost done: nat)
      requires mmu.Valid() && mmu.Fed() && Points() && Usable(v, Pow2(order)) && Usable(next, 1)
      modifies mmu, mmu.chain
      ensures mmu.Valid() && mmu.Fed() && Maps(old(mmu.memory), mmu.memory, mmu.root, v, address, flags, done)
      ensures Linked(old(mmu.memory), old(mmu.own), mmu.memory, mmu.own)
      ensures Drew(old(mmu.chain.regions), mmu.chain.regions, old(mmu.own), mmu.own)
      ensures done == Pow2(order) || (done < Pow2(order) && Chain.AllFull(mmu.chain.regions))
      ensures done == Pow2(order) && !Flag(flags, 1) ==> (Points() <==> !Within(PathAt(next, 0), v, Pow2(order)))
    {
      ghost var before := mmu.memory;
      done := mmu.PgaMap(v, address, order, flags);
      if !Flag(flags, 1) {
        CursorMapped(before, mmu.memory, mmu.root, v, address, flags, done, next);
      }
    }
  }

  lemma CursorMapped(m: Memory, n: Memory, root: nat, v: Word, address: nat, flags: nat, k: nat, next: Word)
    requires Maps(m, n, root, v, address, flags, k) && Absent(m, root, next, 0) && Usable(next, 1) && !Flag(flags, 1)
    ensures Absent(n, root, next, 0) <==> !Within(PathAt(next, 0), v, k)
  {
    AbsentEntry(m, root, next, 0);
    AbsentEntry(n, root, next, 0);
    UsablePage(next, 1, 0);
    if Within(PathAt(next, 0), v, k) {
      var i: nat :| i < k && PathAt(next, 0) == PathAt(v, i);
      assert EntryIs(n, root, v, i, address, flags);
      EntryMeans(address + 4096 * i, flags);
    }
  }
}
