/** page_table_alloc and pga_map as written: the frames linked are neither checked nor cleared. Exactly when no page
    changes but the one that is mapped. */
module TablesSource {
  import opened Wrappers
  import opened PageBits
  import opened PageWalk
  import opened PageRights

  type Frame = f: nat | f < 0x100_0000_0000

  /** The stores of page_table_alloc, from the top down: table t is where the walk of p stands after k entries, and
      frames are what alloc_page returned for the levels below, 0 where it failed. */
  function LinkAll(m: Memory, t: nat, p: seq<nat>, k: nat, frames: seq<Frame>): Memory
    requires |p| == 4 && k + |frames| <= 3
    decreases |frames|
  {
    if frames == [] then m
    else LinkAll(m[Slot(t, p[k]) := LinkEntry(frames[0])], frames[0], p, k + 1, frames[1..])
  }

  /** Each of those stores goes where the code's table address leads at that moment, and the walk then continues in
      the frame just linked. */
  lemma LinkResolves(m: Memory, root: nat, v: Word, k: nat, t: nat, f: Frame, a: Word)
    requires SelfMapped(m, root) && k < 3 && Reaches(a, v, 4 - k)
    requires Descend(m, root, PathOf(v)[..k]) == Some(t) && (t == root ==> PathOf(v)[k] != 511)
    ensures Resolve(m, root, a) == Some(Slot(t, PathOf(v)[k]))
    ensures SelfMapped(m[Slot(t, PathOf(v)[k]) := LinkEntry(f)], root)
  {
    RecursiveMapping(m, root, v, 4 - k, a);
  }

  /** Stores into frames that are no tables are out of sight. */
  lemma {:induction false} LinkAllAgrees(m: Memory, own: map<nat, seq<nat>>, t: nat, p: seq<nat>, k: nat,
                                         frames: seq<Frame>)
    requires |p| == 4 && k + |frames| <= 3 && frames != []
    requires forall i :: 0 <= i < |frames| ==> frames[i] !in own
    ensures var n := LinkAll(m, t, p, k, frames);
      AgreeBut(m, n, own, t, p[k]) && (t in own ==> Read(n, Slot(t, p[k])) == LinkEntry(frames[0]))
    decreases |frames|
  {
    var n := m[Slot(t, p[k]) := LinkEntry(frames[0])];
    if |frames| == 1 {
      assert LinkAll(n, frames[0], p, k + 1, []) == n;
    } else {
      LinkAllAgrees(n, own, frames[0], p, k + 1, frames[1..]);
    }
  }

  /** What a page's entry becomes: as before, or, below the entry they differ in, what the frame linked there shows. */
  lemma LinkedEntry(m: Memory, n: Memory, root: nat, own: map<nat, seq<nat>>, t: nat, x: nat, f: Frame, q: seq<nat>)
    requires Tree(m, root, own) && t in own && |own[t]| <= 2 && (own[t] == [] ==> x != 511)
    requires !Present(Read(m, Slot(t, x))) && AgreeBut(m, n, own, t, x)
    requires Read(n, Slot(t, x)) == LinkEntry(f)
    requires |q| == 4 && q[0] != 511
    ensures !(own[t] + [x] <= q) ==> PageEntry(n, root, q) == PageEntry(m, root, q)
    ensures own[t] + [x] <= q ==> PageEntry(m, root, q) == None
    ensures own[t] + [x] <= q ==> (PageEntry(n, root, q) == None <==> Descend(n, f, q[|own[t]| + 1..]) == None)
  {
    var s := own[t] + [x];
    if s <= q {
      BelowAbsent(m, root, own, t, x, q);
      EntryArrives(m, root, q);
      EntryArrives(n, root, q);
      WalkThrough(m, n, root, own, t, x, f, q);
    } else {
      Shorter(s, q[..3], q);
      AgreeElsewhere(m, n, root, own, t, x, q[..3]);
      WalkOwned(m, root, own, q[..3]);
      NotThatEntry(own, t, x, q);
    }
  }

  lemma NotThatEntry(own: map<nat, seq<nat>>, t: nat, x: nat, q: seq<nat>)
    requires t in own && |q| == 4 && !(own[t] + [x] <= q)
    ensures own[t] == q[..3] ==> q[3] != x
  {
    assert q == q[..3] + [q[3]];
  }

  lemma WalkThrough(m: Memory, n: Memory, root: nat, own: map<nat, seq<nat>>, t: nat, x: nat, f: Frame, q: seq<nat>)
    requires Hanging(m, root, own) && t in own && AgreeBut(m, n, own, t, x) && own[t] + [x] <= q && |q| == 4
    requires Read(n, Slot(t, x)) == LinkEntry(f)
    ensures Descend(n, root, q) == Descend(n, f, q[|own[t]| + 1..])
  {
    var s, rest := own[t] + [x], q[|own[t]| + 1..];
    assert Hangs(m, root, own, t);
    assert q == s + rest;
    AgreeElsewhere(m, n, root, own, t, x, own[t]);
    LinkBits(f);
    DescendStep(n, root, own[t], x);
    DescendAppend(n, root, s, rest);
  }

  /** page_table_alloc as written, whole: no page changes if and only if no walk from the first frame linked arrives
      anywhere, over the words that all those frames happen to hold and the links just stored. */
  lemma SourceTablesIff(m: Memory, root: nat, own: map<nat, seq<nat>>, t: nat, p: seq<nat>, k: nat, frames: seq<Frame>)
    requires Tree(m, root, own) && |p| == 4 && p[0] != 511 && k < 3 && |frames| == 3 - k
    requires t in own && own[t] == p[..k] && Descend(m, root, p[..k + 1]) == None
    requires forall i :: 0 <= i < |frames| ==> frames[i] !in own
    ensures var n := LinkAll(m, t, p, k, frames);
      OnlyChanges(m, n, root, None) <==> ShowsNothing(n, frames[0], 3 - k)
  {
    var n, x := LinkAll(m, t, p, k, frames), p[k];
    LinkAllAgrees(m, own, t, p, k, frames);
    FirstAbsent(m, root, own, t, p, k);
    BelowIff(m, n, root, own, t, x, frames[0], None);
    NothingIsNone(n, p[..k + 1], frames[0], 3 - k);
  }

  lemma NothingIsNone(n: Memory, s: seq<nat>, f: Frame, steps: nat)
    requires |s| + steps == 4
    ensures NothingBelow(n, s, f, None) <==> ShowsNothing(n, f, steps)
  {
    if NothingBelow(n, s, f, None) {
      forall rest: seq<nat> | |rest| == steps
        ensures Descend(n, f, rest) == None
      {
        assert BelowAt(n, s, f, None, rest);
      }
    }
  }

  lemma FirstAbsent(m: Memory, root: nat, own: map<nat, seq<nat>>, t: nat, p: seq<nat>, k: nat)
    requires Hanging(m, root, own) && |p| == 4 && p[0] != 511 && k < 3
    requires t in own && own[t] == p[..k] && Descend(m, root, p[..k + 1]) == None
    ensures !Present(Read(m, Slot(t, p[k]))) && own[t] + [p[k]] == p[..k + 1] && (own[t] == [] ==> p[k] != 511)
  {
    assert Hangs(m, root, own, t);
    LevelPresent(m, root, p, k);
  }

  /** A walk from the frame does not arrive, unless it is that of the page excepted. */
  ghost predicate BelowAt(n: Memory, s: seq<nat>, f: Frame, but: Option<seq<nat>>, rest: seq<nat>)
  {
    |s + rest| == 4 && but != Some(s + rest) ==> Descend(n, f, rest) == None
  }

  ghost predicate NothingBelow(n: Memory, s: seq<nat>, f: Frame, but: Option<seq<nat>>)
  {
    forall rest: seq<nat> :: BelowAt(n, s, f, but, rest)
  }

  ghost predicate OnlyChanges(m: Memory, n: Memory, root: nat, but: Option<seq<nat>>)
  {
    forall q: seq<nat> :: |q| == 4 && q[0] != 511 && but != Some(q) ==> PageEntry(n, root, q) == PageEntry(m, root, q)
  }

  /** No page but one changes exactly when no walk from the frame linked arrives but that page's. */
  lemma BelowIff(m: Memory, n: Memory, root: nat, own: map<nat, seq<nat>>, t: nat, x: nat, f: Frame,
                 but: Option<seq<nat>>)
    requires Tree(m, root, own) && t in own && |own[t]| <= 2 && (own[t] == [] ==> x != 511)
    requires !Present(Read(m, Slot(t, x))) && AgreeBut(m, n, own, t, x)
    requires Read(n, Slot(t, x)) == LinkEntry(f)
    ensures OnlyChanges(m, n, root, but) <==> NothingBelow(n, own[t] + [x], f, but)
  {
    var s := own[t] + [x];
    assert Hangs(m, root, own, t);
    if NothingBelow(n, s, f, but) {
      forall q: seq<nat> | |q| == 4 && q[0] != 511 && but != Some(q)
        ensures PageEntry(n, root, q) == PageEntry(m, root, q)
      {
        LinkedEntry(m, n, root, own, t, x, f, q);
        if s <= q {
          var rest := q[|s|..];
          assert q == s + rest;
          assert BelowAt(n, s, f, but, rest);
        }
      }
    }
    if OnlyChanges(m, n, root, but) {
      forall rest: seq<nat>
        ensures BelowAt(n, s, f, but, rest)
      {
        if |s + rest| == 4 && but != Some(s + rest) {
          LinkedEntry(m, n, root, own, t, x, f, s + rest);
          assert (s + rest)[|s|..] == rest;
        }
      }
    }
  }

  /** pga_map as written, for one page whose tables are missing: no other page changes if and only if no walk from the
      first frame linked arrives anywhere but at that page. */
  lemma SourceMapIff(m: Memory, root: nat, own: map<nat, seq<nat>>, t: nat, p: seq<nat>, k: nat, frames: seq<Frame>,
                     e: Word)
    requires Tree(m, root, own) && |p| == 4 && p[0] != 511 && k < 3 && |frames| == 3 - k
    requires t in own && own[t] == p[..k] && Descend(m, root, p[..k + 1]) == None
    requires forall i :: 0 <= i < |frames| ==> frames[i] !in own
    ensures var o := LinkAll(m, t, p, k, frames)[Slot(frames[2 - k], p[3]) := e];
      OnlyChanges(m, o, root, Some(p)) <==> NothingBelow(o, p[..k + 1], frames[0], Some(p))
  {
    var n := LinkAll(m, t, p, k, frames);
    LinkAllAgrees(m, own, t, p, k, frames);
    FirstAbsent(m, root, own, t, p, k);
    BelowIff(m, n[Slot(frames[2 - k], p[3]) := e], root, own, t, p[k], frames[0], Some(p));
  }

  /** Frames that differ from each other and from a table. */
  predicate Distinct(t: nat, frames: seq<Frame>)
  {
    t !in frames && forall i, j :: 0 <= i < j < |frames| ==> frames[i] != frames[j]
  }

  /** Blank frames show nothing but the links to one another. */
  lemma {:induction false} BlankShowsNothing(m: Memory, t: nat, p: seq<nat>, k: nat, frames: seq<Frame>)
    requires |p| == 4 && frames != [] && k + |frames| == 3 && Distinct(t, frames)
    requires forall i :: 0 <= i < |frames| ==> Blank(m, frames[i])
    ensures ShowsNothing(LinkAll(m, t, p, k, frames), frames[0], |frames|)
    decreases |frames|
  {
    var n1, n, f := m[Slot(t, p[k]) := LinkEntry(frames[0])], LinkAll(m, t, p, k, frames), frames[0];
    BlankStays(m, n1, frames);
    if |frames| == 1 {
      assert frames[1..] == [] && n == LinkAll(n1, f, p, k + 1, []);
      forall rest: seq<nat> | |rest| == 1
        ensures Descend(n, f, rest) == None
      {
        assert !Present(Read(n, Slot(f, rest[0])));
      }
    } else {
      var others := frames[1..];
      assert Distinct(f, others);
      BlankShowsNothing(n1, f, p, k + 1, others);
      LinkAllAgrees(n1, map[f := []], f, p, k + 1, others);
      LinkBits(others[0]);
      forall rest: seq<nat> | |rest| == |frames|
        ensures Descend(n, f, rest) == None
      {
        assert !Present(Read(n1, Slot(f, rest[0])));
        assert |rest[1..]| == |others|;
      }
    }
  }

  lemma BlankStays(m: Memory, n: Memory, frames: seq<Frame>)
    requires forall i :: 0 <= i < |frames| ==> Blank(m, frames[i])
    requires forall i, y: nat :: 0 <= i < |frames| ==> Read(n, Slot(frames[i], y)) == Read(m, Slot(frames[i], y))
    ensures forall i :: 0 <= i < |frames| ==> Blank(n, frames[i])
  {
    forall i | 0 <= i < |frames|
      ensures Blank(n, frames[i])
    {
      forall y: nat
        ensures !Present(Read(n, Slot(frames[i], y)))
      {
        assert !Present(Read(m, Slot(frames[i], y)));
      }
    }
  }

  /** So page_table_alloc as written changes no page when no alloc_page fails and the frames happen to be blank. */
  lemma SourceTablesBlank(m: Memory, root: nat, own: map<nat, seq<nat>>, t: nat, p: seq<nat>, k: nat,
                          frames: seq<Frame>)
    requires Tree(m, root, own) && |p| == 4 && p[0] != 511 && k < 3 && |frames| == 3 - k
    requires t in own && own[t] == p[..k] && Descend(m, root, p[..k + 1]) == None
    requires forall i :: 0 <= i < |frames| ==> frames[i] !in own && Blank(m, frames[i])
    requires Distinct(t, frames)
    ensures OnlyChanges(m, LinkAll(m, t, p, k, frames), root, None)
  {
    BlankShowsNothing(m, t, p, k, frames);
    SourceTablesIff(m, root, own, t, p, k, frames);
  }
}
