/** The page tables reached through the root's own entry. No method touches a table except through a virtual
    address, and every such access is shown not to fault. */
module Paging {
  import opened Builds
  import opened Wrappers
  import opened Machine
  import opened Halving
  import opened PhysicalBlocks
  import opened PageBits
  import opened PageWalk
  import opened PageEntries
  import opened PageRights
  import Chain

  /** No page gained, lost or changed its entry. */
  ghost predicate SameEntries(m: Memory, n: Memory, root: nat)
  {
    forall p: seq<nat> :: |p| == 4 && p[0] != 511 ==> PageEntry(n, root, p) == PageEntry(m, root, p)
  }

  // ---------------------------------------------------------------- frames for tables

  /** No byte of a table is in a free page. */
  ghost predicate TablesOff(rs: seq<Chain.Entry>, own: map<nat, seq<nat>>)
  {
    forall t :: t in own ==> Off(rs, t * PAGE, PAGE)
  }

  /** More tables at the cost of free pages: every new one was a free page before. */
  ghost predicate Drew(rs: seq<Chain.Entry>, ss: seq<Chain.Entry>, own: map<nat, seq<nat>>, own': map<nat, seq<nat>>)
  {
    && Shrinks(rs, ss)
    && (forall t :: t in own ==> t in own')
    && forall t :: t in own' && t !in own ==> AllOn(rs, t * PAGE, PAGE)
  }

  lemma DrewTwice(rs: seq<Chain.Entry>, ss: seq<Chain.Entry>, ts: seq<Chain.Entry>,
                  own: map<nat, seq<nat>>, own': map<nat, seq<nat>>, own'': map<nat, seq<nat>>)
    requires Drew(rs, ss, own, own') && Drew(ss, ts, own', own'')
    ensures Drew(rs, ts, own, own'')
  {
    ShrinksTwice(rs, ss, ts);
    forall t | t in own'' && t !in own
      ensures AllOn(rs, t * PAGE, PAGE)
    {
      if t !in own' {
        OnBefore(rs, ss, t * PAGE, PAGE);
      }
    }
  }

  lemma TablesOffStay(rs: seq<Chain.Entry>, ss: seq<Chain.Entry>, own: map<nat, seq<nat>>)
    requires Shrinks(rs, ss) && TablesOff(rs, own)
    ensures TablesOff(ss, own)
  {
    forall t | t in own
      ensures Off(ss, t * PAGE, PAGE)
    {
      OffStays(rs, ss, t * PAGE, PAGE);
    }
  }

  /** A page that was free is no table. */
  lemma FrameIsNew(rs: seq<Chain.Entry>, own: map<nat, seq<nat>>, f: nat)
    requires TablesOff(rs, own) && AllOn(rs, f * PAGE, PAGE)
    ensures f !in own
  {
    if f in own {
      OnOffDisjoint(rs, f * PAGE, PAGE, f * PAGE, PAGE);
    }
  }

  /** What alloc_page gives: a frame of its own. */
  lemma PageServed(b: Build, c: Chain.State)
    requires Chain.ChainInv(b, c) && Aligned(c.regions) && Chain.PageFrom(b, c).1 > 0
    ensures var (d, a) := Chain.PageFrom(b, c);
      && Chain.ChainInv(b, d) && Shrinks(c.regions, d.regions) && Aligned(d.regions)
      && a % PAGE == 0 && a / PAGE < 0x100_0000_0000 && AllOn(c.regions, a, PAGE) && Off(d.regions, a, PAGE)
  {
    var (d, a) := Chain.PageFrom(b, c);
    Chain.PageFromKeeps(b, c);
    OrderOf(b, c);
    var i: nat, m: nat :| Chain.Served(c.regions, d.regions, i, 0, m, a);
    assert Pow2(0) == 1;
    ServedShrinks(c.regions, d.regions, i, 0, m, a);
    ServedWasOn(c.regions, d.regions, i, 0, m, a);
    ServedIsOff(c.regions, d.regions, i, 0, m, a);
    ServedAligned(c.regions, d.regions, i, 0, m, a);
    AlignedStays(c.regions, d.regions);
  }

  lemma DrewNothing(rs: seq<Chain.Entry>, own: map<nat, seq<nat>>)
    ensures Drew(rs, rs, own, own)
  {
  }

  lemma Unmoved(rs: seq<Chain.Entry>, ss: seq<Chain.Entry>)
    requires ss == rs
    ensures Shrinks(rs, ss)
  {
  }

  /** One table more, from a page that was free. */
  lemma TableAdded(rs: seq<Chain.Entry>, ss: seq<Chain.Entry>, own: map<nat, seq<nat>>, own': map<nat, seq<nat>>,
                   f: nat)
    requires Shrinks(rs, ss) && AllOn(rs, f * PAGE, PAGE) && Off(ss, f * PAGE, PAGE) && TablesOff(ss, own)
    requires f in own' && own'.Keys == own.Keys + {f}
    ensures Drew(rs, ss, own, own') && TablesOff(ss, own')
  {
  }

  /** The walk of a path ends in the same place. */
  ghost predicate SameWalk(m: Memory, n: Memory, root: nat, p: seq<nat>)
  {
    Descend(n, root, p) == Descend(m, root, p)
  }

  /** Clearing a frame that is no table moves nothing. */
  lemma ClearWalks(m: Memory, root: nat, own: map<nat, seq<nat>>, f: nat)
    requires Tree(m, root, own) && f !in own
    ensures var n := Cleared(m, f);
      && Tree(n, root, own) && Blank(n, f) && SameEntries(m, n, root)
      && forall p: seq<nat> :: |p| <= 4 && (p != [] ==> p[0] != 511) ==> SameWalk(m, n, root, p)
  {
    var n := Cleared(m, f);
    ClearedIsBlank(m, f);
    ClearKeeps(m, root, own, f);
    forall p: seq<nat> | |p| <= 4 && (p != [] ==> p[0] != 511)
      ensures SameWalk(m, n, root, p)
    {
      ClearElsewhere(m, root, own, f, p);
    }
    forall p: seq<nat> | |p| == 4 && p[0] != 511
      ensures PageEntry(n, root, p) == PageEntry(m, root, p)
    {
      ClearEntries(m, root, own, f, p);
    }
  }

  lemma ClearLinked(m: Memory, own: map<nat, seq<nat>>, f: nat)
    requires f !in own
    ensures Linked(m, own, Cleared(m, f), own)
  {
    LinkedNothing(m, Cleared(m, f), own);
  }

  /** What page_table_alloc does to memory at one level: the table is reached, its own entries are still absent,
      and no page changed. */
  lemma LinkTable(m: Memory, root: nat, own: map<nat, seq<nat>>, t: nat, f: nat, p: seq<nat>, k: nat)
    requires Tree(m, root, own) && t in own && |p| == 4 && p[0] != 511 && k < 3 && own[t] == p[..k]
    requires f < 0x100_0000_0000 && f !in own && Blank(m, f) && Descend(m, root, p[..k + 1]) == None
    ensures var n := m[Slot(t, p[k]) := LinkEntry(f)];
      && Tree(n, root, own[f := p[..k + 1]]) && SameEntries(m, n, root) && Linked(m, own, n, own[f := p[..k + 1]])
      && Descend(n, root, p[..k + 1]) == Some(f) && Descend(n, root, p[..k + 2]) == None
  {
    LinkBits(f);
    var e: Word := LinkEntry(f);
    var n := m[Slot(t, p[k]) := e];
    assert Hangs(m, root, own, t);
    LevelPresent(m, root, p, k);
    assert own[t] + [p[k]] == p[..k + 1];
    assert own[t] == [] ==> p[k] == p[0];
    LinkedOne(m, own, t, p[k], f, p[..k + 1]);
    LinkKeepsTree(m, root, own, t, p[k], e);
    forall q: seq<nat> | |q| == 4 && q[0] != 511
      ensures PageEntry(n, root, q) == PageEntry(m, root, q)
    {
      BlankLinkHides(m, root, own, t, p[k], e, q);
    }
    assert p[..k + 1] + [] == p[..k + 1];
    StoreThrough(m, root, own, t, p[k], e, []);
    LevelPresent(n, root, p, k + 1);
    assert !Present(Read(m, Slot(f, p[k + 1])));
  }

  // ---------------------------------------------------------------- the loops of pga_map and pga_unmap

  /** A store into the entry of page i keeps every page but that one. */
  lemma OthersNext(m: Memory, n: Memory, root: nat, own: map<nat, seq<nat>>, t: nat, x: nat, e: Word, v: Word,
                   k: nat, i: nat)
    requires OthersKept(m, n, root, v, i) && Tree(n, root, own) && t in own && |own[t]| == 3
    requires Usable(v, k) && i < k && own[t] + [x] == PathAt(v, i)
    ensures OthersKept(m, n[Slot(t, x) := e], root, v, i + 1)
    ensures var s := n[Slot(t, x) := e];
      forall j: nat :: j < i ==> PageEntry(s, root, PathAt(v, j)) == PageEntry(n, root, PathAt(v, j))
    ensures PageEntry(n[Slot(t, x) := e], root, PathAt(v, i)) == Shown(e)
  {
    var s := n[Slot(t, x) := e];
    forall path: seq<nat> | |path| == 4 && path[0] != 511 && !Within(path, v, i + 1)
      ensures PageEntry(s, root, path) == PageEntry(m, root, path)
    {
      NotWithin(path, v, i);
      LeafMaps(n, root, own, t, x, e, path);
    }
    forall j: nat | j < i
      ensures PageEntry(s, root, PathAt(v, j)) == PageEntry(n, root, PathAt(v, j))
    {
      DistinctPages(v, k, j, i);
      UsablePage(v, k, j);
      LeafMaps(n, root, own, t, x, e, PathAt(v, j));
    }
    UsablePage(v, k, i);
    LeafMaps(n, root, own, t, x, e, PathAt(v, i));
  }

  lemma NotWithin(path: seq<nat>, v: Word, i: nat)
    requires !Within(path, v, i + 1)
    ensures !Within(path, v, i) && path != PathAt(v, i)
  {
    Widens(path, v, i);
  }

  lemma Widens(path: seq<nat>, v: Word, i: nat)
    ensures Within(path, v, i) || path == PathAt(v, i) ==> Within(path, v, i + 1)
  {
    var next := i + 1;
    if Within(path, v, i) {
      var j: nat :| j < i && path == PathAt(v, j);
      assert j < next;
    } else if path == PathAt(v, i) {
      assert i < next;
    }
  }

  lemma MapsNext(m: Memory, n: Memory, root: nat, own: map<nat, seq<nat>>, t: nat, x: nat, e: Word, v: Word,
                 address: nat, flags: nat, k: nat, i: nat)
    requires Maps(m, n, root, v, address, flags, i) && Tree(n, root, own) && t in own && |own[t]| == 3
    requires Usable(v, k) && i < k && own[t] + [x] == PathAt(v, i)
    requires FlagBits(flags) / TOP * TOP + FlagBits(flags) % 4096 == FlagBits(flags)
    requires e == Entry(address + 4096 * i, FlagBits(flags))
    ensures Maps(m, n[Slot(t, x) := e], root, v, address, flags, i + 1)
  {
    OthersNext(m, n, root, own, t, x, e, v, k, i);
    var s, next := n[Slot(t, x) := e], i + 1;
    forall j: nat | j < next
      ensures EntryIs(s, root, v, j, address, flags)
    {
      assert j < i ==> EntryIs(n, root, v, j, address, flags);
    }
  }

  lemma MapsSame(m: Memory, n: Memory, s: Memory, root: nat, v: Word, address: nat, flags: nat, k: nat, i: nat)
    requires Maps(m, n, root, v, address, flags, i) && SameEntries(n, s, root) && Usable(v, k) && i <= k
    ensures Maps(m, s, root, v, address, flags, i)
  {
    forall j: nat | j < i
      ensures EntryIs(s, root, v, j, address, flags)
    {
      assert EntryIs(n, root, v, j, address, flags);
      UsablePage(v, k, j);
    }
  }

  /** The entry that maps a page to a physical address with the flags asked for. */
  ghost predicate IsEntry(e: Word, address: nat, flags: nat)
  {
    FlagBitsLow(flags);
    e == Entry(address, FlagBits(flags))
  }

  /** First the tables, then the entry. */
  lemma MapsOne(m: Memory, n: Memory, s: Memory, root: nat, own: map<nat, seq<nat>>, t: nat, e: Word, v: Word,
                address: nat, target: nat, flags: nat, k: nat, i: nat)
    requires Maps(m, n, root, v, address, flags, i) && SameEntries(n, s, root) && Tree(s, root, own)
    requires Usable(v, k) && i < k && t in own && |own[t]| == 3 && own[t] + [PathAt(v, i)[3]] == PathAt(v, i)
    requires target == address + 4096 * i && IsEntry(e, target, flags)
    ensures Maps(m, s[Slot(t, PathAt(v, i)[3]) := e], root, v, address, flags, i + 1)
  {
    FlagBitsLow(flags);
    MapsSame(m, n, s, root, v, address, flags, k, i);
    MapsNext(m, s, root, own, t, PathAt(v, i)[3], e, v, address, flags, k, i);
  }

  lemma UnmapsNext(m: Memory, n: Memory, root: nat, own: map<nat, seq<nat>>, t: nat, x: nat, v: Word, k: nat, i: nat)
    requires Unmaps(m, n, root, v, i) && Tree(n, root, own) && t in own && |own[t]| == 3
    requires Usable(v, k) && i < k && own[t] + [x] == PathAt(v, i)
    ensures Unmaps(m, n[Slot(t, x) := 0], root, v, i + 1)
  {
    OthersNext(m, n, root, own, t, x, 0, v, k, i);
  }

  /** A page that is absent needs no store. */
  lemma UnmapsAbsent(m: Memory, n: Memory, root: nat, v: Word, i: nat)
    requires Unmaps(m, n, root, v, i) && Descend(n, root, PathAt(v, i)) == None
    ensures Unmaps(m, n, root, v, i + 1)
  {
    var p := PathAt(v, i);
    assert p[..3 + 1] == p;
    LevelPresent(n, root, p, 3);
    forall path: seq<nat> | |path| == 4 && path[0] != 511 && !Within(path, v, i + 1)
      ensures PageEntry(n, root, path) == PageEntry(m, root, path)
    {
      NotWithin(path, v, i);
    }
  }

  // ---------------------------------------------------------------- the frame behind a page

  /** page_info's own arithmetic: v moved down nine bits with 511 put on top and no sign extension. */
  function InfoAddress(v: Word): (a: nat)
  {
    SetDigit(v / 512 / 4 * 4, Unit(0))
  }

  /** Bit 47 of it is one and the top bits are not: no processor accepts it. */
  lemma InfoAddressFaults(v: Word)
    ensures InfoAddress(v) < WORD && !Canonical(InfoAddress(v))
  {
    var x := v / 512 / 4 * 4;
    assert x < 0x80_0000_0000_0000;
    var q, r := x / 0x80_0000_0000, x % 0x80_0000_0000;
    var h, d := q / 512, q % 512;
    assert q < 0x1_0000;
    assert x == (h * 512 + d) * 0x80_0000_0000 + r;
    assert InfoAddress(v) == (h * 512 + 511) * 0x80_0000_0000 + r;
  }

  class Mmu {
    /** The frame of the root table. */
    const root: nat
    /** Where alloc_page finds frames for tables. */
    const chain: Chain.RegionChain
    var memory: Memory
    /** Where each table hangs. */
    ghost var own: map<nat, seq<nat>>

    ghost predicate Valid()
      reads this
    {
      root < 0x100_0000_0000 && Tree(memory, root, own)
    }

    /** The chain of regions is in order, and no table lies in a page it thinks free. */
    ghost predicate Fed()
      reads this, chain
    {
      Chain.ChainInv(chain.build, chain.View()) && Aligned(chain.regions) && TablesOff(chain.regions, own)
    }

    /** pga_init, on the tables the loader left. */
    constructor (root: nat, chain: Chain.RegionChain, memory: Memory, ghost own: map<nat, seq<nat>>)
      requires root < 0x100_0000_0000 && Hanging(memory, root, own)
      ensures Valid() && this.root == root && this.chain == chain && this.own == own
      ensures SameEntries(memory, this.memory, root)
      ensures this.memory == memory[Slot(root, 511) := LinkEntry(root)]
    {
      LinkBits(root);
      SelfMapKeeps(memory, root, own, LinkEntry(root));
      this.root, this.chain, this.own := root, chain, own;
      this.memory := memory[Slot(root, 511) := LinkEntry(root)];
    }

    method Load(a: Word) returns (e: Word)
      requires Resolve(memory, root, a) != None
      ensures e == Read(memory, Resolve(memory, root, a).value)
    {
      e := Read(memory, Resolve(memory, root, a).value);
    }

    /** A load that may fault. */
    method TryLoad(a: Word) returns (e: Option<Word>)
      ensures e == match Resolve(memory, root, a) { case None => None case Some(s) => Some(Read(memory, s)) }
    {
      match Resolve(memory, root, a)
      case None => return None;
      case Some(s) => return Some(Read(memory, s));
    }

    method Store(a: Word, e: Word)
      requires Resolve(memory, root, a) != None
      modifies this`memory
      ensures memory == old(memory)[old(Resolve(memory, root, a)).value := e]
    {
      memory := memory[Resolve(memory, root, a).value := e];
    }

    /** A frame from alloc_page, cleared, which the code does not do; 0 when there is none. */
    method AllocPage() returns (a: nat)
      requires Valid() && Fed()
      modifies this`memory, chain
      ensures Valid() && Fed() && Shrinks(old(chain.regions), chain.regions)
      ensures SameEntries(old(memory), memory, root) && Linked(old(memory), own, memory, own)
      ensures forall p: seq<nat> :: |p| <= 4 && (p != [] ==> p[0] != 511) ==> SameWalk(old(memory), memory, root, p)
      ensures a == 0 ==> Chain.AllFull(chain.regions)
      ensures a > 0 ==> a % PAGE == 0 && a / PAGE < 0x100_0000_0000 && a / PAGE !in own && Blank(memory, a / PAGE)
      ensures a > 0 ==> AllOn(old(chain.regions), a, PAGE) && Off(chain.regions, a, PAGE)
    {
      ghost var c := chain.View();
      Chain.PageFromKeeps(chain.build, c);
      a := chain.AllocPage();
      if a > 0 {
        PageServed(chain.build, c);
        TablesOffStay(c.regions, chain.regions, own);
        FrameIsNew(c.regions, own, a / PAGE);
        ClearWalks(memory, root, own, a / PAGE);
        ClearLinked(memory, own, a / PAGE);
        memory := Cleared(memory, a / PAGE);
      } else {
        Unmoved(c.regions, chain.regions);
      }
    }

    /** Whether the walk of v gets past the entry of a level. */
    method PageIsPresent(v: Word, level: int) returns (r: bool)
      requires Valid()
      ensures r <==> 1 <= level <= 4 && Descend(memory, root, PathOf(v)[..5 - level]) != None
      decreases 5 - level
    {
      if level <= 0 || level > 4 {
        return false;
      }
      LevelPresent(memory, root, PathOf(v), 4 - level);
      if level < 4 {
        var above := PageIsPresent(v, level + 1);
        if !above {
          return false;
        }
      }
      var a := GetTableAddress(v, level);
      RecursiveMapping(memory, root, v, level, a);
      var e := Load(a);
      return e % 2 == 1;
    }

    /** Gives v a table below the entry of a level, and first the tables above it. Both failure checks are
        repairs: the code goes on and links frame 0. */
    method PageTableAlloc(level: int, v: Word) returns (ok: bool)
      requires Valid() && Fed() && level != 1 && PathOf(v)[0] != 511
      requires 1 <= level <= 4 ==> Descend(memory, root, PathOf(v)[..5 - level]) == None
      modifies this, chain
      ensures Valid() && Fed() && SameEntries(old(memory), memory, root)
      ensures Linked(old(memory), old(own), memory, own)
      ensures Drew(old(chain.regions), chain.regions, old(own), own)
      ensures ok ==> 2 <= level <= 4
      ensures ok ==> Descend(memory, root, PathOf(v)[..5 - level]) != None
      ensures ok ==> Descend(memory, root, PathOf(v)[..6 - level]) == None
      ensures !ok && 1 <= level <= 4 ==> Chain.AllFull(chain.regions)
      decreases 5 - level
    {
      DrewNothing(chain.regions, own);
      LinkedNothing(memory, memory, own);
      if level <= 0 || level > 4 {
        return false;
      }
      if level < 4 {
        var above := PageIsPresent(v, level + 1);
        if !above {
          var linked := PageTableAlloc(level + 1, v);
          if !linked {
            return false;
          }
        }
      }
      ghost var rs, m, own' := chain.regions, memory, own;
      ok := AddTable(level, v);
      LinkedTwice(old(memory), old(own), m, own', memory, own);
      DrewTwice(old(chain.regions), rs, chain.regions, old(own), own', own);
    }

    /** What is needed of that here: a frame, and two walks that stay. */
    method FrameFor(ghost q: seq<nat>, ghost r: seq<nat>) returns (a: nat)
      requires Valid() && Fed()
      requires |q| <= 4 && |r| <= 4 && (q != [] ==> q[0] != 511) && (r != [] ==> r[0] != 511)
      modifies this`memory, chain
      ensures Valid() && Fed() && Shrinks(old(chain.regions), chain.regions)
      ensures SameEntries(old(memory), memory, root) && Linked(old(memory), own, memory, own)
      ensures SameWalk(old(memory), memory, root, q) && SameWalk(old(memory), memory, root, r)
      ensures a == 0 ==> Chain.AllFull(chain.regions)
      ensures a > 0 ==> a % PAGE == 0 && a / PAGE < 0x100_0000_0000 && a / PAGE !in own && Blank(memory, a / PAGE)
      ensures a > 0 ==> AllOn(old(chain.regions), a, PAGE) && Off(chain.regions, a, PAGE)
    {
      a := AllocPage();
    }

    /** The end of page_table_alloc: a frame, and the store that links it. */
    method AddTable(level: int, v: Word) returns (ok: bool)
      requires Valid() && Fed() && 2 <= level <= 4 && PathOf(v)[0] != 511
      requires Descend(memory, root, PathOf(v)[..4 - level]) != None
      requires Descend(memory, root, PathOf(v)[..5 - level]) == None
      modifies this, chain
      ensures Valid() && Fed() && SameEntries(old(memory), memory, root)
      ensures Linked(old(memory), old(own), memory, own)
      ensures Drew(old(chain.regions), chain.regions, old(own), own)
      ensures ok ==> Descend(memory, root, PathOf(v)[..5 - level]) != None
      ensures ok ==> Descend(memory, root, PathOf(v)[..6 - level]) == None
      ensures !ok ==> Chain.AllFull(chain.regions)
    {
      ghost var before, own' := memory, own;
      var entry := FrameFor(PathOf(v)[..4 - level], PathOf(v)[..5 - level]);
      if entry == 0 {
        return false;
      }
      var f := entry / PAGE;
      assert entry == f * PAGE;
      ghost var m := memory;
      LinkFrame(level, v, f);
      LinkedTwice(before, own', m, own', memory, own);
      TableAdded(old(chain.regions), chain.regions, own', own, f);
      return true;
    }

    /** The store itself. */
    method LinkFrame(level: int, v: Word, f: nat)
      requires Valid() && 2 <= level <= 4 && PathOf(v)[0] != 511
      requires f < 0x100_0000_0000 && f !in own && Blank(memory, f)
      requires Descend(memory, root, PathOf(v)[..4 - level]) != None
      requires Descend(memory, root, PathOf(v)[..5 - level]) == None
      modifies this`memory, this`own
      ensures Valid() && SameEntries(old(memory), memory, root)
      ensures Linked(old(memory), old(own), memory, own)
      ensures own == old(own)[f := PathOf(v)[..5 - level]]
      ensures Descend(memory, root, PathOf(v)[..5 - level]) != None
      ensures Descend(memory, root, PathOf(v)[..6 - level]) == None
    {
      ghost var p := PathOf(v);
      var entry: Word := LinkEntry(f);
      var a := GetTableAddress(v, level);
      RecursiveMapping(memory, root, v, level, a);
      WalkOwned(memory, root, own, p[..4 - level]);
      ghost var t := Resolve(memory, root, a).value.frame;
      LinkTable(memory, root, own, t, f, p, 4 - level);
      Store(a, entry);
      own := own[f := p[..5 - level]];
    }

    /** Stores the entry of one page that has a table. */
    method SetEntry(v: Word, e: Word) returns (ghost t: nat)
      requires Valid() && PathOf(v)[0] != 511 && Descend(memory, root, PathOf(v)[..3]) != None
      modifies this`memory
      ensures Valid() && t in own && |own[t]| == 3 && own[t] + [PathOf(v)[3]] == PathOf(v)
      ensures Linked(old(memory), own, memory, own)
      ensures memory == old(memory)[Slot(t, PathOf(v)[3]) := e]
    {
      ghost var p := PathOf(v);
      var a := GetTableAddress(v, 1);
      RecursiveMapping(memory, root, v, 1, a);
      WalkOwned(memory, root, own, p[..3]);
      t := Resolve(memory, root, a).value.frame;
      assert own[t] + [p[3]] == p;
      LeafKeepsTree(memory, root, own, t, p[3], e);
      LinkedNothing(memory, memory[Slot(t, p[3]) := e], own);
      Store(a, e);
    }

    /** Makes sure there is a last-level table for v. */
    method HasTable(v: Word) returns (ok: bool)
      requires Valid() && Fed() && PathOf(v)[0] != 511
      modifies this, chain
      ensures Valid() && Fed() && SameEntries(old(memory), memory, root)
      ensures Linked(old(memory), old(own), memory, own)
      ensures Drew(old(chain.regions), chain.regions, old(own), own)
      ensures ok ==> Descend(memory, root, PathOf(v)[..3]) != None
      ensures !ok ==> Chain.AllFull(chain.regions)
    {
      DrewNothing(chain.regions, own);
      LinkedNothing(memory, memory, own);
      ok := PageIsPresent(v, 2);
      if !ok {
        ok := PageTableAlloc(2, v);
      }
    }

    /** One page of pga_map. */
    method MapPage(v: Word, e: Word) returns (ok: bool, ghost m: Memory, ghost t: nat)
      requires Valid() && Fed() && PathOf(v)[0] != 511
      modifies this, chain
      ensures Valid() && Fed() && Drew(old(chain.regions), chain.regions, old(own), own)
      ensures Linked(old(memory), old(own), memory, own)
      ensures SameEntries(old(memory), m, root) && Tree(m, root, own)
      ensures ok ==> t in own && |own[t]| == 3 && own[t] + [PathOf(v)[3]] == PathOf(v)
      ensures ok ==> memory == m[Slot(t, PathOf(v)[3]) := e]
      ensures !ok ==> memory == m && Chain.AllFull(chain.regions)
    {
      ok := HasTable(v);
      m, t := memory, 0;
      if ok {
        t := SetEntry(v, e);
        LinkedTwice(old(memory), old(own), m, own, memory, own);
      }
    }

    /** The entry of the next page keeps the flag bits of the last one. */
    method NextEntry(entry: Word, address: nat, ghost flags: nat) returns (e: Word)
      requires Low(entry) == FlagBits(flags)
      ensures IsEntry(e, address, flags) && Low(e) == FlagBits(flags)
    {
      EntryParts(address, flags);
      e := Entry(address, Low(entry));
    }

    /** One page of a range, by its number. */
    method MapAt(v: Word, pages: nat, i: nat, e: Word) returns (ok: bool, ghost m: Memory, ghost t: nat)
      requires Valid() && Fed() && Usable(v, pages) && i < pages
      modifies this, chain
      ensures Valid() && Fed() && Drew(old(chain.regions), chain.regions, old(own), own)
      ensures Linked(old(memory), old(own), memory, own)
      ensures SameEntries(old(memory), m, root) && Tree(m, root, own)
      ensures ok ==> t in own && |own[t]| == 3 && own[t] + [PathAt(v, i)[3]] == PathAt(v, i)
      ensures ok ==> memory == m[Slot(t, PathAt(v, i)[3]) := e]
      ensures !ok ==> memory == m && Chain.AllFull(chain.regions)
    {
      UsablePage(v, pages, i);
      ok, m, t := MapPage(v + 4096 * i, e);
    }

    /** Page i of a range; m is memory before the first. */
    method MapNext(v: Word, address: nat, ghost flags: nat, pages: nat, i: nat, entry: Word, ghost m: Memory)
        returns (ok: bool, next: Word)
      requires Valid() && Fed() && Usable(v, pages) && i < pages && Low(entry) == FlagBits(flags)
      requires Maps(m, memory, root, v, address, flags, i)
      modifies this, chain
      ensures Valid() && Fed() && Low(next) == FlagBits(flags)
      ensures ok ==> Maps(m, memory, root, v, address, flags, i + 1)
      ensures !ok ==> Maps(m, memory, root, v, address, flags, i)
      ensures Linked(old(memory), old(own), memory, own)
      ensures Drew(old(chain.regions), chain.regions, old(own), own)
      ensures !ok ==> Chain.AllFull(chain.regions)
    {
      var target := address + 4096 * i;
      next := NextEntry(entry, target, flags);
      ghost var before := memory;
      ghost var n, t;
      ok, n, t := MapAt(v, pages, i, next);
      if ok {
        MapsOne(m, before, n, root, own, t, next, v, address, target, flags, pages, i);
      } else {
        MapsSame(m, before, n, root, v, address, flags, pages, i);
      }
    }

    /** The first done pages are mapped, all of them unless memory runs out; every other page keeps its mapping.
        Stopping when no table can be had is a repair. */
    method PgaMap(v: Word, address: nat, order: nat, flags: nat) returns (done: nat)
      requires Valid() && Fed() && Usable(v, Pow2(order))
      modifies this, chain
      ensures Valid() && Fed() && done <= Pow2(order)
      ensures Maps(old(memory), memory, root, v, address, flags, done)
      ensures Linked(old(memory), old(own), memory, own)
      ensures Drew(old(chain.regions), chain.regions, old(own), own)
      ensures done < Pow2(order) ==> Chain.AllFull(chain.regions)
    {
      FlagBitsLow(flags);
      DrewNothing(chain.regions, own);
      LinkedNothing(memory, memory, own);
      var entry: Word := FlagBits(flags);
      var i := 0;
      while i < Pow2(order)
        invariant Valid() && Fed() && i <= Pow2(order)
        invariant Low(entry) == FlagBits(flags)
        invariant Maps(old(memory), memory, root, v, address, flags, i)
        invariant Linked(old(memory), old(own), memory, own)
        invariant Drew(old(chain.regions), chain.regions, old(own), own)
      {
        ghost var rs, own', before := chain.regions, own, memory;
        var ok;
        ok, entry := MapNext(v, address, flags, Pow2(order), i, entry, old(memory));
        DrewTwice(old(chain.regions), rs, chain.regions, old(own), own', own);
        LinkedTwice(old(memory), old(own), before, own', memory, own);
        if !ok {
          return i;
        }
        i := i + 1;
      }
      return i;
    }

    /** Exactly the pages of the range become absent; tables are not given back. */
    method PgaUnmap(v: Word, order: nat)
      requires Valid() && Usable(v, Pow2(order))
      modifies this`memory
      ensures Valid() && Linked(old(memory), own, memory, own)
      ensures Unmaps(old(memory), memory, root, v, Pow2(order))
    {
      LinkedNothing(memory, memory, own);
      var i := 0;
      while i < Pow2(order)
        invariant Valid() && i <= Pow2(order) && Linked(old(memory), own, memory, own)
        invariant Unmaps(old(memory), memory, root, v, i)
      {
        UsablePage(v, Pow2(order), i);
        var w: Word := v + 4096 * i;
        ghost var p := PathOf(w);
        assert p[..4] == p;
        var present := PageIsPresent(w, 1);
        if !present {
          UnmapsAbsent(old(memory), memory, root, v, i);
          i := i + 1;
          continue;
        }
        LevelPresent(memory, root, p, 3);
        ghost var before := memory;
        ghost var t := SetEntry(w, 0);
        LinkedTwice(old(memory), own, before, own, memory, own);
        UnmapsNext(old(memory), before, root, own, t, p[3], v, Pow2(order), i);
        i := i + 1;
      }
    }

    /** page_info for a page that is present loads from an address no processor accepts; None is that fault.
        Repaired: it goes through the table address like every other access. */
    method PageInfo(build: Build, v: Word) returns (info: Option<Word>)
      requires Valid()
      ensures var page := PageEntry(memory, root, PathOf(v));
        info == if page == None then Some(0) else if build == Source then None else page
    {
      ghost var p := PathOf(v);
      assert p[..4] == p;
      LevelPresent(memory, root, p, 3);
      var present := PageIsPresent(v, 1);
      if !present {
        return Some(0);
      }
      if build == Source {
        InfoAddressFaults(v);
        var a: Word := InfoAddress(v);
        info := TryLoad(a);
        return;
      }
      var a := GetTableAddress(v, 1);
      RecursiveMapping(memory, root, v, 1, a);
      var e := Load(a);
      return Some(e);
    }

    /** The address of the frame behind v, 0 if there is none; None is a fault. */
    method PgaGetPhysAddr(build: Build, v: Word) returns (a: Option<nat>)
      requires Valid() && Canonical(v)
      ensures build == Repaired
          ==> a == Some(match Translate(memory, root, v) { case None => 0 case Some(b) => b - v % 4096 })
      ensures build == Source
          ==> a == if Translate(memory, root, v) == None then Some(0) else None
    {
      EntryTranslates(memory, root, v);
      var info := PageInfo(build, v);
      match info
      case None => return None;
      case Some(e) => return Some(FrameOf(e) * 4096);
    }
  }
}
