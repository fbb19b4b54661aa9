/** The kernel heap: a chain of headers, each owning a stretch of pages that its segments tile. */
module Heap {
  import opened Machine
  import opened Builds
  import opened Wrappers
  import opened Halving
  import opened Segments
  import LogOrder
  import Buddy

  /** sizeof(mheader_t). */
  const HEADER: nat := 24

  /** The most bytes that 512 pages, the largest block alloc_pages can serve, have room for. */
  const LIMIT: nat := 512 * PAGE - HEADER - LINK

  datatype Header = Header(at: nat, size: nat, max: nat, segs: seq<Seg>)

  function End(h: Header): nat
  {
    h.at + h.size
  }

  ghost predicate HeaderInv(h: Header)
  {
    && End(h) < WORD && h.segs != []
    && Tiles(h.segs, h.at + HEADER, End(h)) && Coalesced(h.segs)
    && h.max == MaxSize(h.segs)
  }

  ghost predicate Apart(h: Header, g: Header)
  {
    Disjoint(h.at, h.size, g.at, g.size)
  }

  ghost predicate HeapInv(hs: seq<Header>)
  {
    && (forall i :: 0 <= i < |hs| ==> HeaderInv(hs[i]))
    && (forall i, j :: 0 <= i < j < |hs| ==> Apart(hs[i], hs[j]))
  }

  ghost function HeaderLive(h: Header): map<nat, nat>
    requires HeaderInv(h)
  {
    Live(h.segs, h.at + HEADER, End(h))
  }

  /** The blocks handed out by all headers: address and extent. */
  ghost function HeapLive(hs: seq<Header>): map<nat, nat>
    requires forall i :: 0 <= i < |hs| ==> HeaderInv(hs[i])
    decreases |hs|
  {
    if hs == [] then map[]
    else HeapLive(hs[..|hs| - 1]) + HeaderLive(hs[|hs| - 1])
  }

  // ---------------------------------------------------------------- kmalloc

  /** The pages kmalloc asks for; the sum wraps. */
  function NewPages(bytes: nat): nat
  {
    (bytes + HEADER + LINK + (PAGE - 1)) % WORD / PAGE
  }

  /** The order of a new header, if alloc_pages can serve it. Repaired: more than 512 pages are refused, where the
      code asks for as many as log_order of a wrapped sum says. */
  function GrowOrder(build: Build, bytes: nat): Option<nat>
  {
    var order := LogOrder.Log(NewPages(bytes));
    if order >= Buddy.MAX_ORDER || (build == Repaired && bytes > LIMIT) then None else Some(order)
  }

  /** A new header. The code gives its one segment the size of the whole header. */
  function Grown(build: Build, at: nat, order: nat): Header
  {
    var size := Pow2(order) * PAGE;
    Header(at, size, Minus(size, HEADER + LINK),
           [Seg(at + HEADER, if build == Source then size else Minus(size, HEADER + LINK))])
  }

  /** The first header whose cached maximum suffices; the length of the chain if none does. */
  function FirstHeader(hs: seq<Header>, bytes: nat, i: nat): (r: nat)
    requires i <= |hs|
    ensures i <= r <= |hs| && (r < |hs| ==> hs[r].max >= bytes)
    ensures forall j :: i <= j < r ==> hs[j].max < bytes
    decreases |hs| - i
  {
    if i == |hs| || hs[i].max >= bytes then i else FirstHeader(hs, bytes, i + 1)
  }

  /** What kmalloc returns; Fault if its second search runs off the list. */
  datatype Answer = Null | Block(address: nat) | Fault

  datatype Outcome = Outcome(hs: seq<Header>, answer: Answer)

  function Renewed(h: Header, segs: seq<Seg>): Header
  {
    h.(segs := segs, max := MaxSize(segs))
  }

  /** Takes bytes from the first segment of header i that has room. */
  function Take(hs: seq<Header>, i: nat, bytes: nat): Outcome
    requires i < |hs|
  {
    var segs := hs[i].segs;
    var p := FirstFit(segs, bytes, 0);
    if p == |segs| then Outcome(hs, Fault) else Taken(hs, i, p, bytes)
  }

  function Taken(hs: seq<Header>, i: nat, p: nat, bytes: nat): Outcome
    requires i < |hs| && p < |hs[i].segs|
  {
    Outcome(hs[i := Renewed(hs[i], Carve(hs[i].segs, p, bytes))], Block(hs[i].segs[p].at + LINK))
  }

  /** granted is what __get_free_pages answers when it is asked. */
  function Kmalloc(build: Build, hs: seq<Header>, bytes: nat, granted: Option<nat>): Outcome
  {
    if bytes == 0 then Outcome(hs, Null)
    else
      var i := FirstHeader(hs, bytes, 0);
      if i < |hs| then Take(hs, i, bytes)
      else if GrowOrder(build, bytes) == None || granted == None then Outcome(hs, Null)
      else Take(hs + [Grown(build, granted.value, GrowOrder(build, bytes).value)], i, bytes)
  }

  /** Granted pages belong to no header yet. */
  ghost predicate Grants(hs: seq<Header>, bytes: nat, granted: Option<nat>)
  {
    granted != None && GrowOrder(Repaired, bytes) != None ==>
      var g := Grown(Repaired, granted.value, GrowOrder(Repaired, bytes).value);
      End(g) < WORD && forall i :: 0 <= i < |hs| ==> Apart(hs[i], g)
  }

  // ---------------------------------------------------------------- kfree

  function FindHeader(hs: seq<Header>, address: nat, i: nat): (r: nat)
    requires i <= |hs|
    ensures i <= r <= |hs| && (r < |hs| ==> hs[r].at < address < End(hs[r]))
    ensures forall j :: i <= j < r ==> !(hs[j].at < address < End(hs[j]))
    decreases |hs| - i
  {
    if i == |hs| || hs[i].at < address < End(hs[i]) then i else FindHeader(hs, address, i + 1)
  }

  /** How far past its pointer kfree looks for a payload: the code adds sixteen pointers, not one. */
  function PayloadOffset(build: Build): nat
  {
    if build == Source then LINK * LINK else LINK
  }

  /** The segment of header h that kfree settles on. */
  function Target(build: Build, h: Header, address: nat): (p: nat)
    ensures p <= |h.segs|
  {
    FindPayload(h.segs, address, PayloadOffset(build), 0)
  }

  function Release(build: Build, h: Header, p: nat, address: nat): Header
    requires p < |h.segs|
  {
    Renewed(h, Merged(build, Freed(h.segs, p, FreedSize(build, h.segs, p, address, End(h)))))
  }

  function Kfree(build: Build, hs: seq<Header>, address: nat): seq<Header>
  {
    var i := FindHeader(hs, address, 0);
    if i == |hs| then hs
    else
      var p := Target(build, hs[i], address);
      if p == |hs[i].segs| then hs else hs[i := Release(build, hs[i], p, address)]
  }

  /** How many bytes from address on kfree sets to 0. */
  function Wiped(build: Build, hs: seq<Header>, address: nat): nat
  {
    var i := FindHeader(hs, address, 0);
    if i == |hs| then 0
    else
      var p := Target(build, hs[i], address);
      if p == |hs[i].segs| then 0 else FreedSize(build, hs[i].segs, p, address, End(hs[i]))
  }

  // ---------------------------------------------------------------- one header among the others

  lemma HeaderLiveInside(h: Header, a: nat)
    requires HeaderInv(h) && a in HeaderLive(h)
    ensures h.at + HEADER + LINK <= a && HeaderLive(h)[a] > 0 && a + HeaderLive(h)[a] <= End(h)
  {
    LiveInside(h.segs, h.at + HEADER, End(h), a);
  }

  lemma PointersInside(h: Header, k: nat)
    requires HeaderInv(h) && k < |h.segs|
    ensures h.at + HEADER <= h.segs[k].at && h.segs[k].at + LINK < End(h)
  {
    TilesSplit(h.segs, k, h.at + HEADER, End(h));
    TilesForward(h.segs[..k], h.at + HEADER, h.segs[k].at);
    TilesForward(h.segs[k..][1..], NextAt(h.segs[k..], End(h)), End(h));
  }

  /** An address that some header has handed out, and only that header. */
  lemma {:induction false} LiveSomewhere(hs: seq<Header>, a: nat) returns (i: nat)
    requires (forall i :: 0 <= i < |hs| ==> HeaderInv(hs[i])) && a in HeapLive(hs)
    ensures i < |hs| && a in HeaderLive(hs[i]) && hs[i].at < a < End(hs[i])
    decreases |hs|
  {
    i := |hs| - 1;
    if a in HeaderLive(hs[i]) {
      HeaderLiveInside(hs[i], a);
    } else {
      var rest := hs[..i];
      i := LiveSomewhere(rest, a);
    }
  }

  /** Two maps say the same of a key. */
  ghost predicate AgreeAt(l: map<nat, nat>, m: map<nat, nat>, b: nat)
  {
    (b in l <==> b in m) && (b in l ==> l[b] == m[b])
  }

  lemma {:induction false} LiveAt(hs: seq<Header>, i: nat, b: nat)
    requires HeapInv(hs) && i < |hs| && hs[i].at < b < End(hs[i])
    ensures AgreeAt(HeapLive(hs), HeaderLive(hs[i]), b)
    decreases |hs|
  {
    var n := |hs| - 1;
    var rest := hs[..n];
    if i < n {
      LiveAt(rest, i, b);
      assert Apart(hs[i], hs[n]);
      if b in HeaderLive(hs[n]) {
        HeaderLiveInside(hs[n], b);
      }
    } else if b in HeapLive(rest) {
      var j := LiveSomewhere(rest, b);
    }
  }

  /** The same place with other segments. */
  ghost predicate Reshapes(hs: seq<Header>, i: nat, h: Header)
  {
    HeapInv(hs) && i < |hs| && HeaderInv(h) && h.at == hs[i].at && h.size == hs[i].size
  }

  lemma ReshapeInv(hs: seq<Header>, i: nat, h: Header)
    requires Reshapes(hs, i, h)
    ensures HeapInv(hs[i := h])
  {
    var gs := hs[i := h];
    forall j, k | 0 <= j < k < |gs|
      ensures Apart(gs[j], gs[k])
    {
      assert Apart(hs[j], hs[k]);
    }
  }

  lemma LiveElsewhere(hs: seq<Header>, gs: seq<Header>, i: nat, b: nat)
    requires HeapInv(hs) && HeapInv(gs) && |gs| == |hs| && i < |hs| && gs == hs[i := gs[i]]
    requires !(hs[i].at < b < End(hs[i])) && b in HeapLive(hs)
    ensures b in HeapLive(gs) && HeapLive(gs)[b] == HeapLive(hs)[b]
  {
    var j := LiveSomewhere(hs, b);
    LiveAt(hs, j, b);
    LiveAt(gs, j, b);
  }

  /** What a header and its replacement agree on, the heaps agree on. */
  lemma KeyKept(hs: seq<Header>, i: nat, h: Header, b: nat)
    requires Reshapes(hs, i, h) && HeapInv(hs[i := h]) && AgreeAt(HeaderLive(h), HeaderLive(hs[i]), b)
    ensures AgreeAt(HeapLive(hs[i := h]), HeapLive(hs), b)
  {
    var gs := hs[i := h];
    if h.at < b < End(h) {
      LiveAt(hs, i, b);
      LiveAt(gs, i, b);
    } else {
      if b in HeapLive(hs) {
        LiveElsewhere(hs, gs, i, b);
      }
      if b in HeapLive(gs) {
        LiveElsewhere(gs, hs, i, b);
      }
    }
  }

  ghost predicate AgreeBut(l: map<nat, nat>, m: map<nat, nat>, a: nat)
  {
    forall b: nat :: b != a ==> AgreeAt(l, m, b)
  }

  lemma KeysKept(hs: seq<Header>, i: nat, h: Header, a: nat)
    requires Reshapes(hs, i, h) && HeapInv(hs[i := h]) && AgreeBut(HeaderLive(h), HeaderLive(hs[i]), a)
    ensures AgreeBut(HeapLive(hs[i := h]), HeapLive(hs), a)
  {
    var l, m := HeapLive(hs[i := h]), HeapLive(hs);
    forall b: nat | b != a
      ensures AgreeAt(l, m, b)
    {
      assert AgreeAt(HeaderLive(h), HeaderLive(hs[i]), b);
      KeyKept(hs, i, h, b);
    }
  }

  lemma MapAdd(l: map<nat, nat>, m: map<nat, nat>, a: nat)
    requires a in m && AgreeBut(m, l, a)
    ensures m == l[a := m[a]]
  {
    var r := l[a := m[a]];
    forall b: nat
      ensures b in m <==> b in r
      ensures b in m ==> m[b] == r[b]
    {
      assert b != a ==> AgreeAt(m, l, b);
    }
  }

  lemma MapDrop(l: map<nat, nat>, m: map<nat, nat>, a: nat)
    requires a !in m && AgreeBut(m, l, a)
    ensures m == l - {a}
  {
    var r := l - {a};
    forall b: nat
      ensures b in m <==> b in r
      ensures b in m ==> m[b] == r[b]
    {
      assert b != a ==> AgreeAt(m, l, b);
    }
  }

  /** A block that was not handed out before, with room for bytes and less than a pointer and a byte more, and
      nothing else. */
  ghost predicate Adds(hs: seq<Header>, gs: seq<Header>, a: nat, bytes: nat)
    requires HeapInv(hs) && HeapInv(gs)
  {
    var l, m := HeapLive(hs), HeapLive(gs);
    a !in l && a in m && bytes <= m[a] <= bytes + LINK && m == l[a := m[a]]
  }

  /** One block fewer. */
  ghost predicate Drops(hs: seq<Header>, gs: seq<Header>, a: nat)
    requires HeapInv(hs) && HeapInv(gs)
  {
    HeapLive(gs) == HeapLive(hs) - {a}
  }

  lemma AddedLive(hs: seq<Header>, i: nat, h: Header, a: nat, bytes: nat)
    requires Reshapes(hs, i, h) && HeapInv(hs[i := h])
    requires h.at < a < End(h) && a !in HeaderLive(hs[i]) && a in HeaderLive(h)
    requires bytes <= HeaderLive(h)[a] <= bytes + LINK
    requires HeaderLive(h) == HeaderLive(hs[i])[a := HeaderLive(h)[a]]
    ensures Adds(hs, hs[i := h], a, bytes)
  {
    LiveAt(hs, i, a);
    LiveAt(hs[i := h], i, a);
    KeysKept(hs, i, h, a);
    MapAdd(HeapLive(hs), HeapLive(hs[i := h]), a);
  }

  lemma RemovedLive(hs: seq<Header>, i: nat, h: Header, a: nat)
    requires Reshapes(hs, i, h) && HeapInv(hs[i := h])
    requires h.at < a < End(h) && HeaderLive(h) == HeaderLive(hs[i]) - {a}
    ensures Drops(hs, hs[i := h], a)
  {
    LiveAt(hs[i := h], i, a);
    KeysKept(hs, i, h, a);
    MapDrop(HeapLive(hs), HeapLive(hs[i := h]), a);
  }

  lemma DropsNothing(hs: seq<Header>, a: nat)
    requires HeapInv(hs) && a !in HeapLive(hs)
    ensures Drops(hs, hs, a)
  {
    var l := HeapLive(hs);
    assert l - {a} == l;
  }

  // ---------------------------------------------------------------- growing

  /** A new header is as the heap wants its headers exactly when its segment is given the room that is there. */
  lemma GrownInv(build: Build, at: nat, order: nat)
    requires at + Pow2(order) * PAGE < WORD
    ensures HeaderInv(Grown(build, at, order)) <==> build == Repaired
    ensures build == Repaired ==> HeaderLive(Grown(build, at, order)) == map[]
  {
    var g := Grown(build, at, order);
    OneSegment(g.segs[0].size, g.at + HEADER, End(g));
    assert g.segs == [Seg(g.at + HEADER, g.segs[0].size)];
  }

  /** The header that the code grows for a request has room for it if and only if 512 pages suffice, and then half of
      it would not do. */
  lemma GrowthSuffices(bytes: nat)
    requires 0 < bytes < WORD
    ensures GrowOrder(Source, bytes) != None
        ==> (Pow2(GrowOrder(Source, bytes).value) * PAGE >= bytes + HEADER + LINK <==> bytes <= LIMIT)
    ensures bytes <= LIMIT ==> GrowOrder(Repaired, bytes) == GrowOrder(Source, bytes) != None
    ensures bytes <= LIMIT && GrowOrder(Source, bytes).value > 0
        ==> Pow2(GrowOrder(Source, bytes).value - 1) * PAGE < bytes + HEADER + LINK
  {
    var pages := NewPages(bytes);
    var order := LogOrder.Log(pages);
    LogOrder.Powers();
    assert Pow2(10) == 2 * Pow2(9);
    if bytes <= LIMIT {
      PagesSmall(bytes);
      LogOrder.LogIsLeastOrder(pages);
      if order >= 10 {
        Pow2Monotone(9, order - 1);
      }
    } else if order < 10 {
      Pow2Monotone(order, 9);
    }
  }

  lemma PagesSmall(bytes: nat)
    requires 0 < bytes <= LIMIT
    ensures 1 <= NewPages(bytes) <= 512
    ensures (NewPages(bytes) - 1) * PAGE < bytes + HEADER + LINK <= NewPages(bytes) * PAGE
  {
    assert (bytes + HEADER + LINK + (PAGE - 1)) % WORD == bytes + HEADER + LINK + (PAGE - 1);
  }

  /** 2049 pages are taken for one. */
  lemma SourceGrowsTooLittle()
    ensures GrowOrder(Source, 2049 * PAGE - HEADER - LINK) == Some(0)
  {
    LogOrder.LogOf2049();
  }

  // ---------------------------------------------------------------- kmalloc

  /** Taking from a header that has room hands out one block. */
  lemma TakeKeeps(hs: seq<Header>, i: nat, bytes: nat)
    requires HeapInv(hs) && i < |hs| && 0 < bytes <= hs[i].max
    ensures var r := Take(hs, i, bytes);
      r.answer.Block? && HeapInv(r.hs) && Adds(hs, r.hs, r.answer.address, bytes)
  {
    FitExists(hs[i].segs, bytes);
    TakenKeeps(hs, i, FirstFit(hs[i].segs, bytes, 0), bytes);
  }

  lemma TakenKeeps(hs: seq<Header>, i: nat, p: nat, bytes: nat)
    requires HeapInv(hs) && i < |hs| && p < |hs[i].segs| && 0 < bytes <= hs[i].segs[p].size
    ensures var r := Taken(hs, i, p, bytes);
      r.answer.Block? && HeapInv(r.hs) && Adds(hs, r.hs, r.answer.address, bytes)
  {
    var g, a := Renewed(hs[i], Carve(hs[i].segs, p, bytes)), hs[i].segs[p].at + LINK;
    TakenHeap(hs, i, p, bytes, g, a);
  }

  lemma TakenHeap(hs: seq<Header>, i: nat, p: nat, bytes: nat, g: Header, a: nat)
    requires HeapInv(hs) && i < |hs| && p < |hs[i].segs| && 0 < bytes <= hs[i].segs[p].size
    requires g == Renewed(hs[i], Carve(hs[i].segs, p, bytes)) && a == hs[i].segs[p].at + LINK
    ensures HeapInv(hs[i := g]) && Adds(hs, hs[i := g], a, bytes)
  {
    CarvedHeader(hs[i], p, bytes);
    ReshapeInv(hs, i, g);
    AddedLive(hs, i, g, a, bytes);
  }

  lemma CarvedHeader(h: Header, p: nat, bytes: nat)
    requires HeaderInv(h) && p < |h.segs| && 0 < bytes <= h.segs[p].size
    ensures var g, a := Renewed(h, Carve(h.segs, p, bytes)), h.segs[p].at + LINK;
      && HeaderInv(g) && h.at < a < End(h)
      && a !in HeaderLive(h) && a in HeaderLive(g) && Cut(h.segs[p].size, bytes, HeaderLive(g)[a])
      && HeaderLive(g) == HeaderLive(h)[a := HeaderLive(g)[a]]
  {
    CarveLive(h.segs, p, bytes, h.at + HEADER, End(h));
    CarveCoalesced(h.segs, p, bytes);
    HeaderLiveInside(Renewed(h, Carve(h.segs, p, bytes)), h.segs[p].at + LINK);
  }

  lemma GrowKeeps(hs: seq<Header>, bytes: nat, granted: Option<nat>)
    requires HeapInv(hs) && 0 < bytes < WORD && Grants(hs, bytes, granted)
    requires granted != None && GrowOrder(Repaired, bytes) != None
    ensures var g := Grown(Repaired, granted.value, GrowOrder(Repaired, bytes).value);
      HeapInv(hs + [g]) && HeapLive(hs + [g]) == HeapLive(hs) && g.max >= bytes
  {
    var order := GrowOrder(Repaired, bytes).value;
    var g := Grown(Repaired, granted.value, order);
    GrownInv(Repaired, granted.value, order);
    GrowthSuffices(bytes);
    var gs := hs + [g];
    assert gs[..|gs| - 1] == hs;
  }

  /** Some header has a free segment with room. */
  ghost predicate HasRoom(hs: seq<Header>, bytes: nat)
  {
    exists i, j :: 0 <= i < |hs| && 0 <= j < |hs[i].segs| && hs[i].segs[j].size >= bytes
  }

  /** A header chosen by its cached maximum has room, and if there is room a header is chosen. */
  lemma CachedMaximum(hs: seq<Header>, bytes: nat)
    requires HeapInv(hs) && bytes > 0
    ensures FirstHeader(hs, bytes, 0) < |hs| <==> HasRoom(hs, bytes)
  {
    var i := FirstHeader(hs, bytes, 0);
    if i < |hs| {
      var j :| 0 <= j < |hs[i].segs| && hs[i].segs[j].size == hs[i].max;
      assert hs[i].segs[j].size >= bytes;
    }
  }

  /** kmalloc answers NULL only when it must; otherwise it hands out one block more that has the room asked for,
      and every other block keeps its place and extent. */
  lemma MallocKeeps(hs: seq<Header>, bytes: nat, granted: Option<nat>)
    requires HeapInv(hs) && bytes < WORD && Grants(hs, bytes, granted)
    ensures var r := Kmalloc(Repaired, hs, bytes, granted);
      && HeapInv(r.hs) && r.answer != Fault
      && (r.answer == Null <==> bytes == 0 || (!HasRoom(hs, bytes) && (bytes > LIMIT || granted == None)))
      && (r.answer == Null ==> r.hs == hs)
      && (r.answer.Block? ==> Adds(hs, r.hs, r.answer.address, bytes))
  {
    if bytes > 0 {
      CachedMaximum(hs, bytes);
      GrowthSuffices(bytes);
      var i := FirstHeader(hs, bytes, 0);
      if i < |hs| {
        TakeKeeps(hs, i, bytes);
      } else if GrowOrder(Repaired, bytes) != None && granted != None {
        GrowKeeps(hs, bytes, granted);
        TakeKeeps(hs + [Grown(Repaired, granted.value, GrowOrder(Repaired, bytes).value)], i, bytes);
      }
    }
  }

  // ---------------------------------------------------------------- kfree

  /** kfree takes exactly the block at its argument off those handed out; for any other argument nothing changes. */
  lemma FreeKeeps(hs: seq<Header>, address: nat)
    requires HeapInv(hs)
    ensures var gs := Kfree(Repaired, hs, address);
      HeapInv(gs) && Drops(hs, gs, address) && (address !in HeapLive(hs) ==> gs == hs)
  {
    var i := FindHeader(hs, address, 0);
    if i == |hs| {
      NotLive(hs, address);
      DropsNothing(hs, address);
    } else {
      var p := Target(Repaired, hs[i], address);
      LiveAt(hs, i, address);
      if p == |hs[i].segs| {
        NotTarget(hs[i], address);
        DropsNothing(hs, address);
      } else {
        ReleasedKeeps(hs, i, p, address);
      }
    }
  }

  lemma ReleasedKeeps(hs: seq<Header>, i: nat, p: nat, a: nat)
    requires HeapInv(hs) && i < |hs| && p < |hs[i].segs| && a == hs[i].segs[p].at + LINK && hs[i].at < a < End(hs[i])
    ensures var gs := hs[i := Release(Repaired, hs[i], p, a)];
      HeapInv(gs) && Drops(hs, gs, a) && (a !in HeaderLive(hs[i]) ==> gs == hs)
  {
    ReleaseKeeps(hs[i], p);
    if a !in HeaderLive(hs[i]) {
      ReleaseTwice(hs[i], p);
    }
    ReshapeInv(hs, i, Release(Repaired, hs[i], p, a));
    RemovedLive(hs, i, Release(Repaired, hs[i], p, a), a);
  }

  lemma NotLive(hs: seq<Header>, a: nat)
    requires HeapInv(hs) && FindHeader(hs, a, 0) == |hs|
    ensures a !in HeapLive(hs)
  {
    if a in HeapLive(hs) {
      var i := LiveSomewhere(hs, a);
    }
  }

  lemma NotTarget(h: Header, a: nat)
    requires HeaderInv(h) && Target(Repaired, h, a) == |h.segs|
    ensures a !in HeaderLive(h)
  {
    if a in HeaderLive(h) {
      var i := LiveHasSegment(h.segs, h.at + HEADER, End(h), a);
    }
  }

  lemma ReleaseKeeps(h: Header, p: nat)
    requires HeaderInv(h) && p < |h.segs|
    ensures var a := h.segs[p].at + LINK; var g := Release(Repaired, h, p, a);
      HeaderInv(g) && HeaderLive(g) == HeaderLive(h) - {a}
  {
    ReleasedLive(h.segs, p, h.at + HEADER, End(h));
  }

  lemma ReleaseTwice(h: Header, p: nat)
    requires HeaderInv(h) && p < |h.segs| && h.segs[p].at + LINK !in HeaderLive(h)
    ensures Release(Repaired, h, p, h.segs[p].at + LINK) == h
  {
    ReleasedTwice(h.segs, p, h.at + HEADER, End(h));
  }

  /** kfree clears the block it is given and nothing else. */
  lemma FreeWipesBlock(hs: seq<Header>, a: nat)
    requires HeapInv(hs) && a in HeapLive(hs)
    ensures Wiped(Repaired, hs, a) == HeapLive(hs)[a]
  {
    var i := FindHeader(hs, a, 0);
    if i == |hs| {
      NotLive(hs, a);
    } else {
      LiveAt(hs, i, a);
      HeaderWipes(hs[i], a);
    }
  }

  lemma HeaderWipes(h: Header, a: nat)
    requires HeaderInv(h) && a in HeaderLive(h)
    ensures var p := Target(Repaired, h, a);
      p < |h.segs| && FreedSize(Repaired, h.segs, p, a, End(h)) == HeaderLive(h)[a]
  {
    var p := Target(Repaired, h, a);
    if p == |h.segs| {
      NotTarget(h, a);
    } else {
      FreedSizeExact(Repaired, h.segs, p, h.at + HEADER, End(h));
      ExtentOf(h.segs, p, h.at + HEADER, End(h));
    }
  }

  lemma {:induction false} ExtentOf(segs: seq<Seg>, p: nat, start: nat, end: nat)
    requires Tiles(segs, start, end) && p < |segs| && segs[p].at + LINK in Live(segs, start, end)
    ensures Live(segs, start, end)[segs[p].at + LINK] == NextAt(segs[p..], end) - segs[p].at - LINK
  {
    TilesSplit(segs, p, start, end);
    NotEarlier(segs[..p], start, segs[p].at);
    NotLater(segs[p..], segs[p].at, end);
  }
}
