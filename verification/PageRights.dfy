/** What a page may be used for. The processor allows a write, an access by user code or the fetch of an instruction
    only if the entry of every level does, so it matters which flags the entries of the tables above a page have. */
module PageRights {
  import opened Wrappers
  import opened Machine
  import opened PageBits
  import opened PageWalk
  import opened PageEntries

  const WRITE: nat := 2
  const USER: nat := 4

  function Bit(e: Word, unit: nat): nat
    requires unit > 0
  {
    e / unit % 2
  }

  /** The walk of a path arrives, and every entry it reads has that bit. */
  predicate Allows(m: Memory, t: nat, path: seq<nat>, unit: nat, bit: nat)
    requires unit > 0
    decreases path
  {
    path == [] ||
    var e := Read(m, Slot(t, path[0]));
    Present(e) && Bit(e, unit) == bit && Allows(m, FrameOf(e), path[1..], unit, bit)
  }

  /** As far as the walk of a path comes, every entry it reads has that bit. */
  predicate Open(m: Memory, t: nat, path: seq<nat>, unit: nat, bit: nat)
    requires unit > 0
    decreases path
  {
    path == [] ||
    var e := Read(m, Slot(t, path[0]));
    Present(e) ==> Bit(e, unit) == bit && Open(m, FrameOf(e), path[1..], unit, bit)
  }

  lemma {:induction false} AllowsIsOpen(m: Memory, t: nat, path: seq<nat>, unit: nat, bit: nat)
    requires unit > 0
    ensures Allows(m, t, path, unit, bit) <==> Descend(m, t, path) != None && Open(m, t, path, unit, bit)
    decreases path
  {
    if path == [] {
    } else {
      var e := Read(m, Slot(t, path[0]));
      if Present(e) {
        AllowsIsOpen(m, FrameOf(e), path[1..], unit, bit);
      }
    }
  }

  /** One more step. */
  lemma {:induction false} OpenStep(m: Memory, t: nat, q: seq<nat>, x: nat, unit: nat, bit: nat)
    requires unit > 0
    ensures Open(m, t, q + [x], unit, bit)
      <==> Open(m, t, q, unit, bit)
           && match Descend(m, t, q)
              case None => true
              case Some(u) => var e := Read(m, Slot(u, x)); Present(e) ==> Bit(e, unit) == bit
    decreases q
  {
    var p := q + [x];
    if q == [] {
      assert p[0] == x && p[1..] == [];
    } else {
      assert p[0] == q[0] && p[1..] == q[1..] + [x];
      var e := Read(m, Slot(t, q[0]));
      if Present(e) {
        OpenStep(m, FrameOf(e), q[1..], x, unit, bit);
      }
    }
  }

  // ---------------------------------------------------------------- the entries that link tables

  /** The frame with the two flag bits: present and writable, for the kernel alone, instructions may be fetched. */
  function LinkEntry(f: nat): (e: nat)
    ensures f < 0x100_0000_0000 ==> e < WORD
  {
    f * 4096 + 3
  }

  /** An entry of a table above the last level: as it was if it was present, and otherwise absent, or one that links a
      new table. */
  ghost predicate LinkedAt(m: Memory, own: map<nat, seq<nat>>, n: Memory, t: nat, x: nat)
  {
    var d, e := Read(m, Slot(t, x)), Read(n, Slot(t, x));
    if t in own && Present(d) then e == d else Present(e) ==> e == LinkEntry(FrameOf(e)) && FrameOf(e) !in own
  }

  /** No table went or moved, and that holds of every entry of one above the last level. */
  ghost predicate Linked(m: Memory, own: map<nat, seq<nat>>, n: Memory, own': map<nat, seq<nat>>)
  {
    && (forall t :: t in own ==> t in own' && own'[t] == own[t])
    && forall t, x: nat :: t in own' && |own'[t]| < 3 ==> LinkedAt(m, own, n, t, x)
  }

  lemma LinkedNothing(m: Memory, n: Memory, own: map<nat, seq<nat>>)
    requires forall t, x: nat :: t in own && |own[t]| < 3 ==> Read(n, Slot(t, x)) == Read(m, Slot(t, x))
    ensures Linked(m, own, n, own)
  {
  }

  lemma LinkedTwice(m: Memory, own: map<nat, seq<nat>>, n: Memory, own': map<nat, seq<nat>>, s: Memory,
                    own'': map<nat, seq<nat>>)
    requires Linked(m, own, n, own') && Linked(n, own', s, own'')
    ensures Linked(m, own, s, own'')
  {
    forall t, x: nat | t in own'' && |own''[t]| < 3
      ensures LinkedAt(m, own, s, t, x)
    {
      assert LinkedAt(n, own', s, t, x);
      if t in own' {
        assert LinkedAt(m, own, n, t, x);
      }
    }
  }

  /** One entry of one table becomes a link to a blank frame. */
  lemma LinkedOne(m: Memory, own: map<nat, seq<nat>>, t: nat, x: nat, f: nat, path: seq<nat>)
    requires f < 0x100_0000_0000 && f !in own && Blank(m, f) && !Present(Read(m, Slot(t, x))) && t in own
    ensures Linked(m, own, m[Slot(t, x) := LinkEntry(f)], own[f := path])
  {
    LinkBits(f);
    var n, own' := m[Slot(t, x) := LinkEntry(f)], own[f := path];
    forall u, y: nat | u in own' && |own'[u]| < 3
      ensures LinkedAt(m, own, n, u, y)
    {
      assert u == f ==> !Present(Read(m, Slot(u, y)));
    }
  }

  /** What kind of access the entry of a new table allows: writing, nothing for user code, fetching instructions. */
  function LinkBit(unit: nat): nat
  {
    if unit == WRITE then 1 else 0
  }

  lemma LinkBits(f: nat)
    requires f < 0x100_0000_0000
    ensures var e := LinkEntry(f);
      && Present(e) && FrameOf(e) == f
      && Bit(e, WRITE) == LinkBit(WRITE) && Bit(e, USER) == LinkBit(USER) && Bit(e, NX) == LinkBit(NX)
  {
    Parts(f, 0, 3);
    BottomBit(LinkEntry(f), 1, f, 3);
    BottomBit(LinkEntry(f), 2, f, 3);
    BottomBit(LinkEntry(f), 4, f, 3);
  }

  // ---------------------------------------------------------------- walks before and after

  /** What one more step may read: the same present entry, or after it a link to a new table at most. */
  lemma StepLinked(m: Memory, own: map<nat, seq<nat>>, n: Memory, u: nat, x: nat, unit: nat)
    requires LinkedAt(m, own, n, u, x) && unit in {WRITE, USER, NX}
    ensures var d, e := Read(m, Slot(u, x)), Read(n, Slot(u, x));
      if u in own && Present(d) then e == d else Present(e) ==> Bit(e, unit) == LinkBit(unit)
  {
    var e := Read(n, Slot(u, x));
    LinkBits(FrameOf(e));
  }

  /** Tables are reached as before. */
  lemma {:induction false} WalkStays(m: Memory, own: map<nat, seq<nat>>, n: Memory, own': map<nat, seq<nat>>,
                                     root: nat, p: seq<nat>)
    requires Hanging(m, root, own) && Hanging(n, root, own') && Linked(m, own, n, own')
    requires |p| <= 3 && (p != [] ==> p[0] != 511)
    ensures Descend(m, root, p) != None ==> Descend(n, root, p) == Descend(m, root, p)
    decreases |p|
  {
    if p == [] {
    } else {
      var q, x := p[..|p| - 1], p[|p| - 1];
      assert p == q + [x];
      assert q != [] ==> q[0] == p[0];
      WalkStays(m, own, n, own', root, q);
      WalkOwned(m, root, own, q);
      DescendStep(m, root, q, x);
      DescendStep(n, root, q, x);
      match Descend(m, root, q)
      case None =>
      case Some(u) => assert LinkedAt(m, own, n, u, x);
    }
  }

  /** The table that a walk ends in afterwards is new exactly when the walk did not get there before. */
  lemma EndsNew(m: Memory, own: map<nat, seq<nat>>, n: Memory, own': map<nat, seq<nat>>, root: nat, q: seq<nat>)
    requires Hanging(m, root, own) && Hanging(n, root, own') && Linked(m, own, n, own')
    requires |q| <= 3 && (q != [] ==> q[0] != 511)
    ensures match Descend(n, root, q)
            case None => Descend(m, root, q) == None
            case Some(u) => u in own' && own'[u] == q && Descend(m, root, q) == if u in own then Some(u) else None
  {
    WalkStays(m, own, n, own', root, q);
    WalkOwned(n, root, own', q);
    WalkOwned(m, root, own, q);
    match Descend(n, root, q)
    case None =>
    case Some(u) =>
      if u in own {
        assert Hangs(m, root, own, u);
      }
  }

  /** What new tables allow, a walk to a last-level table allows as far as it did before. */
  lemma {:induction false} OpenStays(m: Memory, own: map<nat, seq<nat>>, n: Memory, own': map<nat, seq<nat>>,
                                     root: nat, p: seq<nat>, unit: nat)
    requires Hanging(m, root, own) && Hanging(n, root, own') && Linked(m, own, n, own') && unit in {WRITE, USER, NX}
    requires |p| <= 3 && (p != [] ==> p[0] != 511)
    ensures Open(n, root, p, unit, LinkBit(unit)) <==> Open(m, root, p, unit, LinkBit(unit))
    decreases |p|
  {
    if p == [] {
    } else {
      var q, x := p[..|p| - 1], p[|p| - 1];
      assert p == q + [x];
      assert q != [] ==> q[0] == p[0];
      OpenStays(m, own, n, own', root, q, unit);
      OpenNext(m, own, n, own', root, q, x, unit);
    }
  }

  lemma OpenNext(m: Memory, own: map<nat, seq<nat>>, n: Memory, own': map<nat, seq<nat>>, root: nat, q: seq<nat>,
                 x: nat, unit: nat)
    requires Hanging(m, root, own) && Hanging(n, root, own') && Linked(m, own, n, own') && unit in {WRITE, USER, NX}
    requires |q| < 3 && (q + [x])[0] != 511
    requires Open(n, root, q, unit, LinkBit(unit)) <==> Open(m, root, q, unit, LinkBit(unit))
    ensures Open(n, root, q + [x], unit, LinkBit(unit)) <==> Open(m, root, q + [x], unit, LinkBit(unit))
  {
    assert q != [] ==> q[0] == (q + [x])[0];
    EndsNew(m, own, n, own', root, q);
    OpenStep(m, root, q, x, unit, LinkBit(unit));
    OpenStep(n, root, q, x, unit, LinkBit(unit));
    match Descend(n, root, q)
    case None =>
    case Some(u) => StepLinked(m, own, n, u, x, unit);
  }

  /** One more step. */
  lemma AllowsStep(m: Memory, t: nat, q: seq<nat>, x: nat, unit: nat, bit: nat)
    requires unit > 0
    ensures Allows(m, t, q + [x], unit, bit)
      <==> Allows(m, t, q, unit, bit)
           && match Descend(m, t, q)
              case None => false
              case Some(u) => var e := Read(m, Slot(u, x)); Present(e) && Bit(e, unit) == bit
  {
    AllowsIsOpen(m, t, q + [x], unit, bit);
    AllowsIsOpen(m, t, q, unit, bit);
    OpenStep(m, t, q, x, unit, bit);
    DescendStep(m, t, q, x);
  }

  /** What they do not allow, a walk to a last-level table allows exactly if it did before. */
  lemma {:induction false} AllowsStays(m: Memory, own: map<nat, seq<nat>>, n: Memory, own': map<nat, seq<nat>>,
                                       root: nat, p: seq<nat>, unit: nat, bit: nat)
    requires Hanging(m, root, own) && Hanging(n, root, own') && Linked(m, own, n, own') && unit in {WRITE, USER, NX}
    requires |p| <= 3 && (p != [] ==> p[0] != 511) && bit != LinkBit(unit)
    ensures Allows(n, root, p, unit, bit) <==> Allows(m, root, p, unit, bit)
    decreases |p|
  {
    if p == [] {
    } else {
      var q, x := p[..|p| - 1], p[|p| - 1];
      assert p == q + [x];
      assert q != [] ==> q[0] == p[0];
      AllowsStays(m, own, n, own', root, q, unit, bit);
      AllowsNext(m, own, n, own', root, q, x, unit, bit);
    }
  }

  lemma AllowsNext(m: Memory, own: map<nat, seq<nat>>, n: Memory, own': map<nat, seq<nat>>, root: nat, q: seq<nat>,
                   x: nat, unit: nat, bit: nat)
    requires Hanging(m, root, own) && Hanging(n, root, own') && Linked(m, own, n, own') && unit in {WRITE, USER, NX}
    requires |q| < 3 && (q + [x])[0] != 511 && bit != LinkBit(unit)
    requires Allows(n, root, q, unit, bit) <==> Allows(m, root, q, unit, bit)
    ensures Allows(n, root, q + [x], unit, bit) <==> Allows(m, root, q + [x], unit, bit)
  {
    assert q != [] ==> q[0] == (q + [x])[0];
    EndsNew(m, own, n, own', root, q);
    AllowsStep(m, root, q, x, unit, bit);
    AllowsStep(n, root, q, x, unit, bit);
    match Descend(n, root, q)
    case None =>
    case Some(u) => StepLinked(m, own, n, u, x, unit);
  }

  // ---------------------------------------------------------------- pages

  /** A page allows what its own entry and the tables above it allow. */
  lemma PageAllows(m: Memory, root: nat, p: seq<nat>, e: Word, unit: nat, bit: nat)
    requires |p| == 4 && PageEntry(m, root, p) == Some(e) && unit > 0
    ensures Allows(m, root, p, unit, bit) <==> Bit(e, unit) == bit && Allows(m, root, p[..3], unit, bit)
    ensures Allows(m, root, p, unit, bit) <==> Bit(e, unit) == bit && Open(m, root, p[..3], unit, bit)
  {
    assert p == p[..3] + [p[3]];
    AllowsStep(m, root, p[..3], p[3], unit, bit);
    AllowsIsOpen(m, root, p[..3], unit, bit);
  }

  /** Exactly what pga_map gives a present page: it can be written if that was asked for and no table that was there
      before forbids it; instructions can be fetched likewise. User code gets at it only if no table had to be added,
      because page_table_alloc does not set that bit in the entries it links. */
  lemma MappedRights(m: Memory, own: map<nat, seq<nat>>, n: Memory, own': map<nat, seq<nat>>, root: nat, v: Word,
                     address: nat, flags: nat, k: nat, i: nat)
    requires Hanging(m, root, own) && Hanging(n, root, own') && Linked(m, own, n, own')
    requires Maps(m, n, root, v, address, flags, k) && Usable(v, k) && i < k && !Flag(flags, 1)
    ensures var p := PathAt(v, i);
      && (Allows(n, root, p, WRITE, 1) <==> !Flag(flags, 2) && Open(m, root, p[..3], WRITE, 1))
      && (Allows(n, root, p, NX, 0) <==> !Flag(flags, 16) && Open(m, root, p[..3], NX, 0))
      && (Allows(n, root, p, USER, 1) <==> Flag(flags, 4) && Allows(m, root, p[..3], USER, 1))
  {
    var p, a := PathAt(v, i), address + 4096 * i;
    UsablePage(v, k, i);
    assert EntryIs(n, root, v, i, address, flags);
    EntryMeans(a, flags);
    var e := Entry(a, FlagBits(flags));
    PageAllows(n, root, p, e, WRITE, 1);
    PageAllows(n, root, p, e, NX, 0);
    PageAllows(n, root, p, e, USER, 1);
    OpenStays(m, own, n, own', root, p[..3], WRITE);
    OpenStays(m, own, n, own', root, p[..3], NX);
    AllowsStays(m, own, n, own', root, p[..3], USER, 1);
  }

  /** It happens: the first page that pga_map maps under a root with no other table, with user access asked for and
      the bit in its entry, cannot be reached by user code. */
  lemma FirstPageDenied(m: Memory, n: Memory, own': map<nat, seq<nat>>, root: nat, v: Word, address: nat)
    requires root < 0x100_0000_0000 && m == map[Slot(root, 511) := LinkEntry(root)] && Usable(v, 1)
    requires Hanging(n, root, own') && Linked(m, map[root := []], n, own') && Maps(m, n, root, v, address, 4, 1)
    ensures var p := PathAt(v, 0);
      && PageEntry(n, root, p).Some? && Bit(PageEntry(n, root, p).value, USER) == 1
      && !Allows(n, root, p, USER, 1)
  {
    RootAlone(m, root, PathAt(v, 0)[..3]);
    MappedRights(m, map[root := []], n, own', root, v, address, 4, 1, 0);
    UsablePage(v, 1, 0);
    UserEntry(n, root, v, address);
  }

  lemma RootAlone(m: Memory, root: nat, p: seq<nat>)
    requires root < 0x100_0000_0000 && m == map[Slot(root, 511) := LinkEntry(root)]
    ensures Hanging(m, root, map[root := []])
    ensures p != [] && p[0] != 511 ==> !Allows(m, root, p, USER, 1)
  {
    assert forall x: nat :: x != 511 ==> !Present(Read(m, Slot(root, x)));
  }

  lemma UserEntry(n: Memory, root: nat, v: Word, address: nat)
    requires EntryIs(n, root, v, 0, address, 4)
    ensures var e := PageEntry(n, root, PathAt(v, 0)); e.Some? && Bit(e.value, USER) == 1
  {
    EntryMeans(address + 4096 * 0, 4);
    assert !Flag(4, 1) && Flag(4, 4);
  }

  /** Every other page that was mapped allows what it allowed. */
  lemma OthersRights(m: Memory, own: map<nat, seq<nat>>, n: Memory, own': map<nat, seq<nat>>, root: nat, p: seq<nat>,
                     unit: nat, bit: nat)
    requires Hanging(m, root, own) && Hanging(n, root, own') && Linked(m, own, n, own') && unit in {WRITE, USER, NX}
    requires |p| == 4 && p[0] != 511 && PageEntry(n, root, p) == PageEntry(m, root, p) != None
    ensures Allows(n, root, p, unit, bit) <==> Allows(m, root, p, unit, bit)
  {
    var e := PageEntry(m, root, p).value;
    PageAllows(m, root, p, e, unit, bit);
    PageAllows(n, root, p, e, unit, bit);
    if bit == LinkBit(unit) {
      OpenStays(m, own, n, own', root, p[..3], unit);
    } else {
      AllowsStays(m, own, n, own', root, p[..3], unit, bit);
    }
  }

  // ---------------------------------------------------------------- all tables

  /** Every entry of every table above the last level, the root's own included, has that bit if it is present. */
  ghost predicate TablesAllow(m: Memory, own: map<nat, seq<nat>>, unit: nat, bit: nat)
    requires unit > 0
  {
    forall t, x: nat :: t in own && |own[t]| < 3 ==> EntryAllows(m, t, x, unit, bit)
  }

  predicate EntryAllows(m: Memory, t: nat, x: nat, unit: nat, bit: nat)
    requires unit > 0
  {
    var e := Read(m, Slot(t, x));
    Present(e) ==> Bit(e, unit) == bit
  }

  /** pga_init's entry does not forbid what the loader's tables allow. */
  lemma InitAllows(m: Memory, own: map<nat, seq<nat>>, root: nat, unit: nat)
    requires root < 0x100_0000_0000 && unit in {WRITE, USER, NX} && TablesAllow(m, own, unit, LinkBit(unit))
    ensures TablesAllow(m[Slot(root, 511) := LinkEntry(root)], own, unit, LinkBit(unit))
  {
    LinkBits(root);
    var n := m[Slot(root, 511) := LinkEntry(root)];
    forall t, x: nat | t in own && |own[t]| < 3
      ensures EntryAllows(n, t, x, unit, LinkBit(unit))
    {
      assert EntryAllows(m, t, x, unit, LinkBit(unit));
    }
  }

  /** Writable tables stay so, and so do tables that instructions may be fetched through. */
  lemma TablesStay(m: Memory, own: map<nat, seq<nat>>, n: Memory, own': map<nat, seq<nat>>, unit: nat)
    requires Linked(m, own, n, own') && unit in {WRITE, USER, NX} && TablesAllow(m, own, unit, LinkBit(unit))
    ensures TablesAllow(n, own', unit, LinkBit(unit))
  {
    forall t, x: nat | t in own' && |own'[t]| < 3
      ensures EntryAllows(n, t, x, unit, LinkBit(unit))
    {
      assert LinkedAt(m, own, n, t, x);
      StepLinked(m, own, n, t, x, unit);
      if t in own {
        assert EntryAllows(m, t, x, unit, LinkBit(unit));
      }
    }
  }

  /** Under tables that all allow it every walk to a last-level table does. */
  lemma {:induction false} TablesOpen(m: Memory, root: nat, own: map<nat, seq<nat>>, p: seq<nat>, unit: nat, bit: nat)
    requires Hanging(m, root, own) && unit > 0 && TablesAllow(m, own, unit, bit)
    requires |p| <= 3 && (p != [] ==> p[0] != 511)
    ensures Open(m, root, p, unit, bit)
    decreases |p|
  {
    if p == [] {
    } else {
      var q, x := p[..|p| - 1], p[|p| - 1];
      assert p == q + [x];
      assert q != [] ==> q[0] == p[0];
      TablesOpen(m, root, own, q, unit, bit);
      OpenStep(m, root, q, x, unit, bit);
      WalkOwned(m, root, own, q);
      match Descend(m, root, q)
      case None =>
      case Some(u) => assert EntryAllows(m, u, x, unit, bit);
    }
  }

  lemma {:induction false} SelfAllows(m: Memory, root: nat, k: nat, p: seq<nat>, unit: nat, bit: nat)
    requires SelfMapped(m, root) && unit > 0 && Bit(Read(m, Slot(root, 511)), unit) == bit
    ensures Allows(m, root, seq(k, i => 511) + p, unit, bit) <==> Allows(m, root, p, unit, bit)
    decreases k
  {
    var q := seq(k, i => 511) + p;
    if k == 0 {
      assert q == p;
    } else {
      assert q[1..] == seq(k - 1, i => 511) + p;
      SelfAllows(m, root, k - 1, p, unit, bit);
    }
  }

  /** Under writable tables an entry that can be loaded through its table address can be stored to. */
  lemma EntryWritable(m: Memory, root: nat, own: map<nat, seq<nat>>, v: Word, level: nat, a: Word)
    requires Tree(m, root, own) && TablesAllow(m, own, WRITE, 1) && PathOf(v)[0] != 511
    requires 1 <= level <= 4 && Reaches(a, v, level) && Resolve(m, root, a) != None
    ensures Allows(m, root, PathOf(a), WRITE, 1)
  {
    var p := PathOf(v)[..4 - level];
    assert Hangs(m, root, own, root) && EntryAllows(m, root, 511, WRITE, 1);
    RecursiveMapping(m, root, v, level, a);
    TablesOpen(m, root, own, p, WRITE, 1);
    AllowsIsOpen(m, root, p, WRITE, 1);
    SelfAllows(m, root, level, p, WRITE, 1);
  }
}
