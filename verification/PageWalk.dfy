/** Four-level translation over physical memory, as the processor does it. Memory is a map from the words of
    its frames; a word never written reads 0. */
module PageWalk {
  import opened Wrappers
  import opened PageBits

  datatype Slot = Slot(frame: nat, index: nat)

  type Memory = map<Slot, Word>

  function Read(m: Memory, s: Slot): Word
  {
    if s in m then m[s] else 0
  }

  predicate Present(e: Word)
  {
    e % 2 == 1
  }

  /** Bits 12 to 51: the frame an entry names. */
  function FrameOf(e: Word): nat
  {
    e / 4096 % 0x100_0000_0000
  }

  /** The frame reached from frame t by following the entries of a path. */
  function Descend(m: Memory, t: nat, path: seq<nat>): (r: Option<nat>)
    decreases path
  {
    if path == [] then Some(t)
    else
      var e := Read(m, Slot(t, path[0]));
      if Present(e) then Descend(m, FrameOf(e), path[1..]) else None
  }

  /** The word of memory that a load or store of an address touches; None is a fault. */
  function Resolve(m: Memory, root: nat, a: Word): Option<Slot>
  {
    if !Canonical(a) || !WordAligned(a) then None
    else
      match Descend(m, root, PathOf(a))
      case None => None
      case Some(t) => Some(Slot(t, IndexIn(a)))
  }

  /** The physical address behind a virtual one. */
  function Translate(m: Memory, root: nat, v: Word): Option<nat>
  {
    if !Canonical(v) then None
    else
      match Descend(m, root, PathOf(v))
      case None => None
      case Some(t) => Some(t * 4096 + v % 4096)
  }

  /** The entry that maps a page, if there is one. */
  function PageEntry(m: Memory, root: nat, path: seq<nat>): Option<Word>
    requires |path| == 4
  {
    match Descend(m, root, path[..3])
    case None => None
    case Some(t) =>
      var e := Read(m, Slot(t, path[3]));
      if Present(e) then Some(e) else None
  }

  lemma {:induction false} DescendAppend(m: Memory, t: nat, p: seq<nat>, q: seq<nat>)
    ensures Descend(m, t, p + q)
         == match Descend(m, t, p) { case None => None case Some(u) => Descend(m, u, q) }
    decreases p
  {
    if p == [] {
      assert p + q == q;
    } else {
      assert (p + q)[0] == p[0] && (p + q)[1..] == p[1..] + q;
      var e := Read(m, Slot(t, p[0]));
      if Present(e) {
        DescendAppend(m, FrameOf(e), p[1..], q);
      }
    }
  }

  /** One more step. */
  lemma DescendStep(m: Memory, t: nat, p: seq<nat>, x: nat)
    ensures Descend(m, t, p + [x])
         == match Descend(m, t, p)
            { case None => None
              case Some(u) => if Present(Read(m, Slot(u, x))) then Some(FrameOf(Read(m, Slot(u, x)))) else None }
  {
    DescendAppend(m, t, p, [x]);
    match Descend(m, t, p)
    case None =>
    case Some(u) =>
      var e := Read(m, Slot(u, x));
      assert [x][1..] == [];
      if Present(e) {
        assert Descend(m, u, [x]) == Descend(m, FrameOf(e), []);
      }
  }

  /** A page's mapping and its entry say the same. */
  lemma EntryTranslates(m: Memory, root: nat, v: Word)
    requires Canonical(v)
    ensures Translate(m, root, v)
         == match PageEntry(m, root, PathOf(v))
            { case None => None case Some(e) => Some(FrameOf(e) * 4096 + v % 4096) }
  {
    var p := PathOf(v);
    assert p == p[..3] + [p[3]];
    DescendStep(m, root, p[..3], p[3]);
  }

  // ---------------------------------------------------------------- the root names itself

  predicate SelfMapped(m: Memory, root: nat)
  {
    var e := Read(m, Slot(root, 511));
    Present(e) && FrameOf(e) == root
  }

  /** Leading entries of 511 stay at the root. */
  lemma {:induction false} SelfSteps(m: Memory, root: nat, k: nat, p: seq<nat>)
    requires SelfMapped(m, root)
    ensures Descend(m, root, seq(k, i => 511) + p) == Descend(m, root, p)
    decreases k
  {
    var q := seq(k, i => 511) + p;
    if k == 0 {
      assert q == p;
    } else {
      assert q[1..] == seq(k - 1, i => 511) + p;
      SelfSteps(m, root, k - 1, p);
    }
  }

  /** The recursive mapping is right: a table address leads to the entry that the walk of v itself uses at that
      level, and faults exactly when that walk ends before. */
  lemma RecursiveMapping(m: Memory, root: nat, v: Word, level: nat, a: Word)
    requires SelfMapped(m, root) && 1 <= level <= 4 && Reaches(a, v, level)
    ensures Resolve(m, root, a)
         == match Descend(m, root, PathOf(v)[..4 - level])
            { case None => None case Some(t) => Some(Slot(t, PathOf(v)[4 - level])) }
  {
    SelfSteps(m, root, level, PathOf(v)[..4 - level]);
  }

  /** v reaches one level further down exactly when its entry there is present. */
  lemma LevelPresent(m: Memory, root: nat, p: seq<nat>, n: nat)
    requires n < |p|
    ensures Descend(m, root, p[..n + 1])
         == match Descend(m, root, p[..n])
            { case None => None
              case Some(t) => if Present(Read(m, Slot(t, p[n]))) then Some(FrameOf(Read(m, Slot(t, p[n])))) else None }
  {
    assert p[..n + 1] == p[..n] + [p[n]];
    DescendStep(m, root, p[..n], p[n]);
  }

  // ---------------------------------------------------------------- the tree of tables

  /** Where each table hangs: the path that leads to it. Every table is reached by its path; every present entry
      of a table above the last level, save the root's own, leads to a table one step further. */
  ghost predicate Hanging(m: Memory, root: nat, own: map<nat, seq<nat>>)
  {
    && root in own && own[root] == []
    && (forall t :: t in own ==> Hangs(m, root, own, t))
    && (forall t, x: nat :: t in own && |own[t]| < 3 && (t != root || x != 511) ==> Leads(m, own, t, x))
  }

  ghost predicate Tree(m: Memory, root: nat, own: map<nat, seq<nat>>)
  {
    SelfMapped(m, root) && Hanging(m, root, own)
  }

  ghost predicate Hangs(m: Memory, root: nat, own: map<nat, seq<nat>>, t: nat)
    requires t in own
  {
    && |own[t]| <= 3
    && (own[t] != [] ==> own[t][0] != 511)
    && Descend(m, root, own[t]) == Some(t)
  }

  ghost predicate Leads(m: Memory, own: map<nat, seq<nat>>, t: nat, x: nat)
    requires t in own
  {
    var e := Read(m, Slot(t, x));
    Present(e) ==> FrameOf(e) in own && own[FrameOf(e)] == own[t] + [x]
  }

  /** A walk over at most three entries, the first of which is not 511, ends in the table that hangs there. */
  lemma {:induction false} WalkOwned(m: Memory, root: nat, own: map<nat, seq<nat>>, p: seq<nat>)
    requires Hanging(m, root, own) && |p| <= 3 && (p != [] ==> p[0] != 511)
    ensures match Descend(m, root, p)
            case None => true
            case Some(t) => t in own && own[t] == p
    decreases |p|
  {
    if p == [] {
    } else {
      var q, x := p[..|p| - 1], p[|p| - 1];
      assert p == q + [x];
      assert q != [] ==> q[0] == p[0];
      WalkOwned(m, root, own, q);
      DescendStep(m, root, q, x);
      match Descend(m, root, q)
      case None =>
      case Some(u) =>
        assert u == root ==> x == p[0];
        assert Leads(m, own, u, x);
    }
  }

  // ---------------------------------------------------------------- one store

  lemma Shorter(s: seq<nat>, q: seq<nat>, p: seq<nat>)
    requires q <= p && !(s <= p)
    ensures !(s <= q)
  {
  }

  /** Two memories agree on every table entry but one. */
  ghost predicate AgreeBut(m: Memory, n: Memory, own: map<nat, seq<nat>>, t: nat, x: nat)
  {
    forall u, y: nat :: u in own && !(u == t && y == x) ==> Read(n, Slot(u, y)) == Read(m, Slot(u, y))
  }

  /** A walk that does not go through the entry they differ in is the same in both. */
  lemma {:induction false} AgreeElsewhere(m: Memory, n: Memory, root: nat, own: map<nat, seq<nat>>, t: nat, x: nat,
                                          p: seq<nat>)
    requires Hanging(m, root, own) && t in own && AgreeBut(m, n, own, t, x)
    requires |p| <= 4 && (p != [] ==> p[0] != 511) && !(own[t] + [x] <= p)
    ensures Descend(n, root, p) == Descend(m, root, p)
    decreases |p|
  {
    if p == [] {
    } else {
      var q, y := p[..|p| - 1], p[|p| - 1];
      assert p == q + [y];
      assert q != [] ==> q[0] == p[0];
      Shorter(own[t] + [x], q, p);
      AgreeElsewhere(m, n, root, own, t, x, q);
      WalkOwned(m, root, own, q);
      StepAgrees(m, n, root, q, y);
    }
  }

  /** If a walk is the same in both and the entry it reads next is, so is the walk with that step. */
  lemma StepAgrees(m: Memory, n: Memory, root: nat, q: seq<nat>, y: nat)
    requires Descend(n, root, q) == Descend(m, root, q)
    requires match Descend(m, root, q)
             case None => true
             case Some(u) => Read(n, Slot(u, y)) == Read(m, Slot(u, y))
    ensures Descend(n, root, q + [y]) == Descend(m, root, q + [y])
  {
    DescendStep(m, root, q, y);
    DescendStep(n, root, q, y);
  }

  /** A store into an entry of a table leaves alone every walk that does not go through that entry. */
  lemma StoreElsewhere(m: Memory, root: nat, own: map<nat, seq<nat>>, t: nat, x: nat, e: Word, p: seq<nat>)
    requires Hanging(m, root, own) && t in own
    requires |p| <= 4 && (p != [] ==> p[0] != 511) && !(own[t] + [x] <= p)
    ensures Descend(m[Slot(t, x) := e], root, p) == Descend(m, root, p)
  {
    AgreeElsewhere(m, m[Slot(t, x) := e], root, own, t, x, p);
  }

  /** A walk that does go through it continues from the frame stored there. */
  lemma StoreThrough(m: Memory, root: nat, own: map<nat, seq<nat>>, t: nat, x: nat, e: Word, rest: seq<nat>)
    requires Tree(m, root, own) && t in own && (t != root || x != 511)
    ensures Descend(m[Slot(t, x) := e], root, own[t] + [x] + rest)
         == if Present(e) then Descend(m[Slot(t, x) := e], FrameOf(e), rest) else None
  {
    var n := m[Slot(t, x) := e];
    var p := own[t] + [x];
    assert Hangs(m, root, own, t);
    StoreElsewhere(m, root, own, t, x, e, own[t]);
    DescendStep(n, root, own[t], x);
    DescendAppend(n, root, p, rest);
  }

  // ---------------------------------------------------------------- mapping one page

  /** Storing into a last-level table keeps the tree. */
  lemma LeafKeepsTree(m: Memory, root: nat, own: map<nat, seq<nat>>, t: nat, x: nat, e: Word)
    requires Tree(m, root, own) && t in own && |own[t]| == 3
    ensures Tree(m[Slot(t, x) := e], root, own)
  {
    var n := m[Slot(t, x) := e];
    forall u | u in own
      ensures Hangs(n, root, own, u)
    {
      assert Hangs(m, root, own, u);
      StoreElsewhere(m, root, own, t, x, e, own[u]);
    }
    forall u, y: nat | u in own && |own[u]| < 3 && (u != root || y != 511)
      ensures Leads(n, own, u, y)
    {
      assert Leads(m, own, u, y);
    }
  }

  /** It gives one page its entry and leaves every other page as it was. */
  lemma LeafMaps(m: Memory, root: nat, own: map<nat, seq<nat>>, t: nat, x: nat, e: Word, p: seq<nat>)
    requires Tree(m, root, own) && t in own && |own[t]| == 3
    requires |p| == 4 && p[0] != 511
    ensures PageEntry(m[Slot(t, x) := e], root, p)
         == if p == own[t] + [x] then (if Present(e) then Some(e) else None) else PageEntry(m, root, p)
  {
    var n := m[Slot(t, x) := e];
    assert Hangs(m, root, own, t);
    assert p == p[..3] + [p[3]];
    StoreElsewhere(m, root, own, t, x, e, p[..3]);
    WalkOwned(m, root, own, p[..3]);
    if p == own[t] + [x] {
      assert p[..3] == own[t] && p[3] == x;
    }
  }

  // ---------------------------------------------------------------- linking a table

  /** No entry of the frame is present. */
  ghost predicate Blank(m: Memory, f: nat)
  {
    forall x: nat :: !Present(Read(m, Slot(f, x)))
  }

  lemma LinkKeepsTree(m: Memory, root: nat, own: map<nat, seq<nat>>, t: nat, x: nat, e: Word)
    requires Tree(m, root, own) && t in own && |own[t]| < 3 && (own[t] == [] ==> x != 511)
    requires Present(e) && FrameOf(e) !in own && Blank(m, FrameOf(e)) && !Present(Read(m, Slot(t, x)))
    ensures Tree(m[Slot(t, x) := e], root, own[FrameOf(e) := own[t] + [x]])
  {
    var f, n := FrameOf(e), m[Slot(t, x) := e];
    var own' := own[f := own[t] + [x]];
    assert Hangs(m, root, own, t) && Hangs(m, root, own, root);
    forall u | u in own'
      ensures Hangs(n, root, own', u)
    {
      if u == f {
        StoreThrough(m, root, own, t, x, e, []);
        assert own[t] + [x] + [] == own[t] + [x];
      } else {
        assert Hangs(m, root, own, u);
        NotThere(m, root, own, t, x, u);
        StoreElsewhere(m, root, own, t, x, e, own[u]);
      }
    }
    forall u, y: nat | u in own' && |own'[u]| < 3 && (u != root || y != 511)
      ensures Leads(n, own', u, y)
    {
      if u == f {
        assert !Present(Read(m, Slot(f, y)));
      } else {
        assert Leads(m, own, u, y);
      }
    }
  }

  /** No table hangs below an absent entry. */
  lemma NotThere(m: Memory, root: nat, own: map<nat, seq<nat>>, t: nat, x: nat, u: nat)
    requires Tree(m, root, own) && t in own && u in own && !Present(Read(m, Slot(t, x)))
    ensures !(own[t] + [x] <= own[u])
  {
    assert Hangs(m, root, own, t) && Hangs(m, root, own, u);
    if own[t] + [x] <= own[u] {
      var rest := own[u][|own[t]| + 1..];
      assert own[u] == own[t] + [x] + rest;
      DescendStep(m, root, own[t], x);
      DescendAppend(m, root, own[t] + [x], rest);
    }
  }

  /** Exactly what linking a frame as a table does to every page: a page below the new entry gets whatever the
      frame's own words say, every other page keeps its walk. */
  lemma LinkShows(m: Memory, root: nat, own: map<nat, seq<nat>>, t: nat, x: nat, e: Word, p: seq<nat>)
    requires Tree(m, root, own) && t in own && (t != root || x != 511) && Present(e)
    requires |p| <= 4 && (p != [] ==> p[0] != 511)
    ensures var n := m[Slot(t, x) := e];
      Descend(n, root, p)
      == if own[t] + [x] <= p then Descend(n, FrameOf(e), p[|own[t]| + 1..]) else Descend(m, root, p)
  {
    if own[t] + [x] <= p {
      assert p == own[t] + [x] + p[|own[t]| + 1..];
      StoreThrough(m, root, own, t, x, e, p[|own[t]| + 1..]);
    } else {
      StoreElsewhere(m, root, own, t, x, e, p);
    }
  }

  /** A page has an entry exactly when the walk of its whole path arrives. */
  lemma EntryArrives(m: Memory, root: nat, p: seq<nat>)
    requires |p| == 4
    ensures PageEntry(m, root, p) == None <==> Descend(m, root, p) == None
  {
    assert p == p[..3] + [p[3]];
    DescendStep(m, root, p[..3], p[3]);
  }

  /** No walk of that many steps from frame f arrives. */
  ghost predicate ShowsNothing(m: Memory, f: nat, steps: nat)
  {
    forall rest: seq<nat> :: |rest| == steps ==> Descend(m, f, rest) == None
  }

  /** No page whose path starts like that changes its entry. */
  ghost predicate NonePastChange(m: Memory, n: Memory, root: nat, p: seq<nat>)
  {
    forall rest: seq<nat> :: |p + rest| == 4 ==> PageEntry(n, root, p + rest) == PageEntry(m, root, p + rest)
  }

  /** Linking a frame as a table of any level with the words it happens to hold: no page changes if and only if
      no walk over those words, the new entry among them, arrives anywhere. */
  lemma StaleTable(m: Memory, root: nat, own: map<nat, seq<nat>>, t: nat, x: nat, e: Word)
    requires Tree(m, root, own) && t in own && |own[t]| <= 2 && (own[t] == [] ==> x != 511)
    requires Present(e) && !Present(Read(m, Slot(t, x)))
    ensures NonePastChange(m, m[Slot(t, x) := e], root, own[t] + [x])
       <==> ShowsNothing(m[Slot(t, x) := e], FrameOf(e), 3 - |own[t]|)
  {
    var n, p, f := m[Slot(t, x) := e], own[t] + [x], FrameOf(e);
    assert Hangs(m, root, own, t) && Hangs(m, root, own, root);
    forall rest: seq<nat> | |rest| == 3 - |own[t]|
      ensures PageEntry(m, root, p + rest) == None
      ensures PageEntry(n, root, p + rest) == None <==> Descend(n, f, rest) == None
    {
      BelowAbsent(m, root, own, t, x, p + rest);
      EntryArrives(m, root, p + rest);
      EntryArrives(n, root, p + rest);
      StoreThrough(m, root, own, t, x, e, rest);
    }
    if NonePastChange(m, n, root, p) {
      forall rest: seq<nat> | |rest| == 3 - |own[t]|
        ensures Descend(n, f, rest) == None
      {
        assert |p + rest| == 4;
      }
    }
  }

  /** For a last-level table that means that none of its words is present. */
  lemma StaleLastTable(m: Memory, root: nat, own: map<nat, seq<nat>>, t: nat, x: nat, e: Word)
    requires Tree(m, root, own) && t in own && |own[t]| == 2
    requires Present(e) && FrameOf(e) !in own && !Present(Read(m, Slot(t, x)))
    ensures NonePastChange(m, m[Slot(t, x) := e], root, own[t] + [x]) <==> Blank(m, FrameOf(e))
  {
    var n, f := m[Slot(t, x) := e], FrameOf(e);
    StaleTable(m, root, own, t, x, e);
    forall y: nat
      ensures Descend(n, f, [y]) == None <==> !Present(Read(m, Slot(f, y)))
    {
      DescendStep(n, f, [], y);
      assert [] + [y] == [y];
    }
    if ShowsNothing(n, f, 1) {
      forall y: nat
        ensures !Present(Read(m, Slot(f, y)))
      {
        assert |[y]| == 1;
      }
    } else {
      var rest: seq<nat> :| |rest| == 1 && Descend(n, f, rest) != None;
      assert rest == [rest[0]];
    }
  }

  /** When alloc_page fails, the code stores 0 with the two flag bits: frame 0 becomes the table, and no page
      changes if and only if no walk over the words of frame 0 arrives anywhere. */
  lemma NullTable(m: Memory, root: nat, own: map<nat, seq<nat>>, t: nat, x: nat)
    requires Tree(m, root, own) && t in own && |own[t]| <= 2 && (own[t] == [] ==> x != 511)
    requires !Present(Read(m, Slot(t, x)))
    ensures Descend(m[Slot(t, x) := 3], root, own[t] + [x]) == Some(0)
    ensures NonePastChange(m, m[Slot(t, x) := 3], root, own[t] + [x])
       <==> ShowsNothing(m[Slot(t, x) := 3], 0, 3 - |own[t]|)
  {
    assert Hangs(m, root, own, t) && Hangs(m, root, own, root);
    StaleTable(m, root, own, t, x, 3);
    StoreThrough(m, root, own, t, x, 3, []);
    assert own[t] + [x] + [] == own[t] + [x];
  }

  /** A blank frame linked under an absent entry changes the mapping of no page. */
  lemma BlankLinkHides(m: Memory, root: nat, own: map<nat, seq<nat>>, t: nat, x: nat, e: Word, p: seq<nat>)
    requires Tree(m, root, own) && t in own && |own[t]| < 3 && (own[t] == [] ==> x != 511)
    requires Present(e) && FrameOf(e) !in own && Blank(m, FrameOf(e)) && !Present(Read(m, Slot(t, x)))
    requires |p| == 4 && p[0] != 511
    ensures PageEntry(m[Slot(t, x) := e], root, p) == PageEntry(m, root, p)
  {
    var n, k := m[Slot(t, x) := e], |own[t]| + 1;
    LinkShows(m, root, own, t, x, e, p[..3]);
    WalkOwned(m, root, own, p[..3]);
    if own[t] + [x] <= p[..3] {
      BelowAbsent(m, root, own, t, x, p[..3]);
      BlankBelow(m, n, FrameOf(e), Slot(t, x), p[k..]);
      assert p[..3][k..] == p[k..3];
    }
  }

  lemma BelowAbsent(m: Memory, root: nat, own: map<nat, seq<nat>>, t: nat, x: nat, p: seq<nat>)
    requires Tree(m, root, own) && t in own && !Present(Read(m, Slot(t, x))) && own[t] + [x] <= p
    ensures Descend(m, root, p) == None
  {
    assert Hangs(m, root, own, t);
    var rest := p[|own[t]| + 1..];
    assert p == own[t] + [x] + rest;
    DescendStep(m, root, own[t], x);
    DescendAppend(m, root, own[t] + [x], rest);
  }

  lemma BlankBelow(m: Memory, n: Memory, f: nat, s: Slot, rest: seq<nat>)
    requires Blank(m, f) && s.frame != f && n == m[s := Read(n, s)] && rest != []
    ensures Descend(n, f, rest[..|rest| - 1]) == (if |rest| == 1 then Some(f) else None)
    ensures !Present(Read(n, Slot(f, rest[0])))
  {
    assert !Present(Read(m, Slot(f, rest[0])));
  }

  // ---------------------------------------------------------------- clearing a frame

  /** Memory with every word of a frame 0. */
  function Cleared(m: Memory, f: nat): Memory
  {
    map s | s in m && s.frame != f :: m[s]
  }

  lemma ClearedIsBlank(m: Memory, f: nat)
    ensures Blank(Cleared(m, f), f)
  {
    assert !Present(0);
  }

  /** Clearing a frame that is no table leaves every walk alone. */
  lemma ClearElsewhere(m: Memory, root: nat, own: map<nat, seq<nat>>, f: nat, p: seq<nat>)
    requires Hanging(m, root, own) && f !in own && |p| <= 4 && (p != [] ==> p[0] != 511)
    ensures Descend(Cleared(m, f), root, p) == Descend(m, root, p)
  {
    AgreeElsewhere(m, Cleared(m, f), root, own, root, 511, p);
  }

  /** So the tree stays and no page changes. */
  lemma ClearKeeps(m: Memory, root: nat, own: map<nat, seq<nat>>, f: nat)
    requires Tree(m, root, own) && f !in own
    ensures Tree(Cleared(m, f), root, own)
  {
    var n := Cleared(m, f);
    forall u | u in own
      ensures Hangs(n, root, own, u)
    {
      assert Hangs(m, root, own, u);
      ClearElsewhere(m, root, own, f, own[u]);
    }
    forall u, y: nat | u in own && |own[u]| < 3 && (u != root || y != 511)
      ensures Leads(n, own, u, y)
    {
      assert Leads(m, own, u, y);
    }
  }

  lemma ClearEntries(m: Memory, root: nat, own: map<nat, seq<nat>>, f: nat, p: seq<nat>)
    requires Tree(m, root, own) && f !in own && |p| == 4 && p[0] != 511
    ensures PageEntry(Cleared(m, f), root, p) == PageEntry(m, root, p)
  {
    ClearElsewhere(m, root, own, f, p[..3]);
    WalkOwned(m, root, own, p[..3]);
  }

  // ---------------------------------------------------------------- pga_init

  /** Pointing entry 511 of the root at the root makes the tree one that names itself and moves no page. */
  lemma SelfMapKeeps(m: Memory, root: nat, own: map<nat, seq<nat>>, e: Word)
    requires Hanging(m, root, own) && Present(e) && FrameOf(e) == root
    ensures Tree(m[Slot(root, 511) := e], root, own)
    ensures var n := m[Slot(root, 511) := e];
      forall p: seq<nat> :: |p| == 4 && p[0] != 511 ==> PageEntry(n, root, p) == PageEntry(m, root, p)
  {
    var n := m[Slot(root, 511) := e];
    forall u | u in own
      ensures Hangs(n, root, own, u)
    {
      assert Hangs(m, root, own, u);
      StoreElsewhere(m, root, own, root, 511, e, own[u]);
    }
    forall u, y: nat | u in own && |own[u]| < 3 && (u != root || y != 511)
      ensures Leads(n, own, u, y)
    {
      assert Leads(m, own, u, y);
    }
    forall p: seq<nat> | |p| == 4 && p[0] != 511
      ensures PageEntry(n, root, p) == PageEntry(m, root, p)
    {
      StoreElsewhere(m, root, own, root, 511, e, p[..3]);
      WalkOwned(m, root, own, p[..3]);
    }
  }
}
