/** Whole runs of the heap: any sequence of kmalloc and kfree, with any argument to either. */
module HeapRuns {
  import opened Machine
  import opened Builds
  import opened Wrappers
  import opened Halving
  import opened Segments
  import opened Heap
  import opened HeapSource

  datatype Op = Malloc(bytes: nat, granted: Option<nat>) | Free(address: nat)

  /** The heap, and what was asked for each block not yet given back. */
  datatype State = State(hs: seq<Header>, asked: map<nat, nat>)

  function Step(b: Build, s: State, op: Op): State
  {
    match op
    case Malloc(bytes, granted) =>
      var r := Kmalloc(b, s.hs, bytes, granted);
      State(r.hs, if r.answer.Block? then s.asked[r.answer.address := bytes] else s.asked)
    case Free(address) => State(Kfree(b, s.hs, address), s.asked - {address})
  }

  /** Pages granted belong to no header yet. The program as written asks more: kmalloc must not have to grow the
      heap, and kfree must have nothing to do, which the state before the call tells. */
  ghost predicate Allowed(b: Build, s: State, op: Op)
  {
    match op
    case Malloc(bytes, granted) =>
      bytes < WORD &&
      if b == Repaired then Grants(s.hs, bytes, granted)
      else bytes == 0 || HasRoom(s.hs, bytes) || GrowOrder(Source, bytes) == None || granted == None
    case Free(address) => b == Repaired || FreeIdle(s.hs, address)
  }

  function Run(b: Build, s: State, ops: seq<Op>): State
    decreases ops
  {
    if ops == [] then s else Run(b, Step(b, s, ops[0]), ops[1..])
  }

  ghost predicate AllowedRun(b: Build, s: State, ops: seq<Op>)
    decreases ops
  {
    ops != [] ==> Allowed(b, s, ops[0]) && AllowedRun(b, Step(b, s, ops[0]), ops[1..])
  }

  /** The blocks asked for are handed out with the room asked for, and at most a pointer's more. Mended, no others are;
      as written, blocks that were given back stay handed out. */
  ghost predicate Inv(b: Build, s: State)
  {
    && HeapInv(s.hs) && s.asked.Keys <= HeapLive(s.hs).Keys && (b == Repaired ==> HeapLive(s.hs).Keys <= s.asked.Keys)
    && forall a :: a in s.asked ==> 0 < s.asked[a] <= HeapLive(s.hs)[a] <= s.asked[a] + LINK
  }

  /** mm_init: one page, one header, one segment. */
  function Boot(at: nat): State
  {
    State([Grown(Repaired, at, 0)], map[])
  }

  lemma BootInv(b: Build, at: nat)
    requires at + PAGE < WORD
    ensures Inv(b, Boot(at))
    ensures Boot(at).hs == [Header(at, 4096, 4056, [Seg(at + 24, 4056)])]
  {
    assert Pow2(0) == 1;
    GrownInv(Repaired, at, 0);
    var hs := Boot(at).hs;
    assert hs[..0] == [];
  }

  lemma StepKeeps(b: Build, s: State, op: Op)
    requires Inv(b, s) && Allowed(b, s, op)
    ensures Inv(b, Step(b, s, op))
  {
    match op
    case Malloc(bytes, granted) =>
      if b == Repaired {
        MallocKeeps(s.hs, bytes, granted);
      } else {
        SourceMallocIff(s.hs, bytes, granted);
      }
    case Free(address) =>
      if b == Repaired {
        FreeKeeps(s.hs, address);
      } else {
        SourceFreeIdleIff(s.hs, address);
      }
  }

  /** In every reachable state the segments tile their headers, neighbours are merged, the cached maxima are true,
      and the blocks handed out are exactly those asked for and not given back, each with the room asked for. As
      written, with the calls that the conditions above admit, the same but that no block is ever given back. */
  lemma {:induction false} RunKeeps(b: Build, s: State, ops: seq<Op>)
    requires Inv(b, s) && AllowedRun(b, s, ops)
    ensures Inv(b, Run(b, s, ops))
    decreases ops
  {
    if ops == [] {
    } else {
      StepKeeps(b, s, ops[0]);
      RunKeeps(b, Step(b, s, ops[0]), ops[1..]);
    }
  }

  /** As written a block once handed out stays so through every such run. */
  lemma {:induction false} NothingComesBack(s: State, ops: seq<Op>, a: nat)
    requires Inv(Source, s) && AllowedRun(Source, s, ops) && a in HeapLive(s.hs)
    ensures Inv(Source, Run(Source, s, ops)) && a in HeapLive(Run(Source, s, ops).hs)
    decreases ops
  {
    if ops == [] {
    } else {
      StepKeeps(Source, s, ops[0]);
      match ops[0] {
        case Malloc(bytes, granted) => SourceMallocIff(s.hs, bytes, granted);
        case Free(address) => SourceFreeIdleIff(s.hs, address);
      }
      NothingComesBack(Step(Source, s, ops[0]), ops[1..], a);
    }
  }

  // ---------------------------------------------------------------- what a block may rely on

  /** The header that a block came from. */
  lemma BlockWhere(b: Build, s: State, a: nat) returns (i: nat)
    requires Inv(b, s) && a in s.asked
    ensures i < |s.hs| && a in HeaderLive(s.hs[i]) && s.asked[a] <= HeaderLive(s.hs[i])[a]
    ensures s.hs[i].at + HEADER + LINK <= a && a + HeaderLive(s.hs[i])[a] <= End(s.hs[i])
  {
    i := LiveSomewhere(s.hs, a);
    LiveAt(s.hs, i, a);
    HeaderLiveInside(s.hs[i], a);
  }

  lemma HeadersApart(hs: seq<Header>, i: nat, j: nat)
    requires HeapInv(hs) && i < |hs| && j < |hs| && i != j
    ensures Apart(hs[i], hs[j])
  {
    if i < j {
      assert Apart(hs[i], hs[j]);
    } else {
      assert Apart(hs[j], hs[i]);
    }
  }

  /** No two blocks overlap. */
  lemma BlocksApart(b: Build, s: State, x: nat, y: nat)
    requires Inv(b, s) && x in s.asked && y in s.asked && x != y
    ensures Disjoint(x, s.asked[x], y, s.asked[y])
  {
    var i := BlockWhere(b, s, x);
    var j := BlockWhere(b, s, y);
    var h := s.hs[i];
    if i != j {
      HeadersApart(s.hs, i, j);
    } else if x < y {
      LiveApart(h.segs, h.at + HEADER, End(h), x, y);
    } else {
      LiveApart(h.segs, h.at + HEADER, End(h), y, x);
    }
  }

  /** A block lies inside one header's pages and covers neither a header nor the pointer of a segment. */
  lemma BlockSafe(b: Build, s: State, a: nat) returns (i: nat)
    requires Inv(b, s) && a in s.asked
    ensures i < |s.hs| && s.hs[i].at + HEADER + LINK <= a && a + s.asked[a] <= End(s.hs[i])
    ensures forall j :: 0 <= j < |s.hs| ==> Disjoint(a, s.asked[a], s.hs[j].at, HEADER)
    ensures forall j, k ::
      0 <= j < |s.hs| && 0 <= k < |s.hs[j].segs| ==> Disjoint(a, s.asked[a], s.hs[j].segs[k].at, LINK)
  {
    i := BlockWhere(b, s, a);
    forall j | 0 <= j < |s.hs|
      ensures Disjoint(a, s.asked[a], s.hs[j].at, HEADER)
    {
      SparesHeader(b, s, i, j, a);
    }
    forall j, k | 0 <= j < |s.hs| && 0 <= k < |s.hs[j].segs|
      ensures Disjoint(a, s.asked[a], s.hs[j].segs[k].at, LINK)
    {
      SparesPointer(b, s, i, j, k, a);
    }
  }

  lemma SparesHeader(b: Build, s: State, i: nat, j: nat, a: nat)
    requires Inv(b, s) && a in s.asked && i < |s.hs| && j < |s.hs| && a in HeaderLive(s.hs[i])
    requires s.hs[i].at < a && a + s.asked[a] <= End(s.hs[i]) && s.hs[i].at + HEADER <= a
    ensures Disjoint(a, s.asked[a], s.hs[j].at, HEADER)
  {
    PointersInside(s.hs[j], 0);
    if i != j {
      HeadersApart(s.hs, i, j);
    }
  }

  lemma SparesPointer(b: Build, s: State, i: nat, j: nat, k: nat, a: nat)
    requires Inv(b, s) && a in s.asked && i < |s.hs| && j < |s.hs| && a in HeaderLive(s.hs[i]) && k < |s.hs[j].segs|
    requires s.hs[i].at <= a && s.asked[a] <= HeaderLive(s.hs[i])[a] && a + s.asked[a] <= End(s.hs[i])
    ensures Disjoint(a, s.asked[a], s.hs[j].segs[k].at, LINK)
  {
    var h := s.hs[j];
    if i == j {
      PointersSpared(h.segs, h.at + HEADER, End(h), a, k);
    } else {
      PointersInside(h, k);
      HeadersApart(s.hs, i, j);
    }
  }

  /** Once every block has been given back, in whatever order, each header is one free segment again. */
  lemma AllFreed(s: State, ops: seq<Op>, i: nat)
    requires Inv(Repaired, s) && AllowedRun(Repaired, s, ops)
    requires var t := Run(Repaired, s, ops); t.asked == map[] && i < |t.hs|
    ensures var h := Run(Repaired, s, ops).hs[i];
      h.size > HEADER + LINK && h.max == h.size - HEADER - LINK && h.segs == [Seg(h.at + HEADER, h.max)]
  {
    RunKeeps(Repaired, s, ops);
    var hs := Run(Repaired, s, ops).hs;
    NoneLive(hs, i);
    NothingLive(hs[i].segs, hs[i].at + HEADER, End(hs[i]));
    OneSegment(hs[i].segs[0].size, hs[i].at + HEADER, End(hs[i]));
    assert hs[i].segs == [Seg(hs[i].at + HEADER, hs[i].segs[0].size)];
  }

  lemma NoneLive(hs: seq<Header>, i: nat)
    requires HeapInv(hs) && i < |hs| && HeapLive(hs).Keys == {}
    ensures HeaderLive(hs[i]) == map[]
  {
    var l := HeaderLive(hs[i]);
    forall a | a in l
      ensures false
    {
      HeaderLiveInside(hs[i], a);
      LiveAt(hs, i, a);
    }
  }

  // ---------------------------------------------------------------- the lines as they stand

  /** What kfree as the code has it clears, whatever its argument: from there to the next segment, or to 0 if there is
      none, around the end of the address space if need be. */
  lemma SourceWipes(hs: seq<Header>, a: nat)
    requires HeapInv(hs) && FindHeader(hs, a, 0) < |hs|
    ensures var h := hs[FindHeader(hs, a, 0)]; var p := Target(Source, h, a);
      p < |h.segs| ==>
        && h.segs[p].at + 256 == a && Wiped(Source, hs, a) < WORD
        && (a + Wiped(Source, hs, a)) % WORD == if p + 1 < |h.segs| then h.segs[p + 1].at else 0
  {
    var h := hs[FindHeader(hs, a, 0)];
    var p := Target(Source, h, a);
    if p + 1 < |h.segs| {
      PointersInside(h, p + 1);
      RoundTo(h.segs[p + 1].at, a);
    } else if p < |h.segs| {
      RoundTo(0, a);
    }
  }

  lemma RoundTo(x: nat, a: nat)
    requires x < WORD && a < WORD
    ensures (a + (x - a) % WORD) % WORD == x
  {
    if x < a {
      WrapsAround(x, a);
    }
  }

  /** kfree as the code has it, for a block that is handed out. If no segment starts sixteen pointers, 256 bytes,
      before the block it does nothing, so the block is never given back. Otherwise it clears memory to the end of the
      address space, and on from 0 to the segment behind the one that it found. */
  lemma SourceFree(hs: seq<Header>, a: nat)
    requires HeapInv(hs) && a in HeapLive(hs)
    ensures var i := FindHeader(hs, a, 0);
      && i < |hs| && var segs, p := hs[i].segs, Target(Source, hs[i], a);
      && (p == |segs| <==> forall j :: 0 <= j < |segs| ==> segs[j].at + 256 != a)
      && (p == |segs| ==> Kfree(Source, hs, a) == hs && Wiped(Source, hs, a) == 0)
      && (p < |segs| ==> p + 1 < |segs| && a + Wiped(Source, hs, a) == WORD + segs[p + 1].at)
  {
    var i := FindHeader(hs, a, 0);
    if i == |hs| {
      NotLive(hs, a);
    } else {
      LiveAt(hs, i, a);
      if Target(Source, hs[i], a) < |hs[i].segs| {
        SourceSize(hs[i], a);
      }
    }
  }

  lemma SourceSize(h: Header, a: nat)
    requires HeaderInv(h) && a in HeaderLive(h) && Target(Source, h, a) < |h.segs|
    ensures var p := Target(Source, h, a);
      p + 1 < |h.segs| && a + FreedSize(Source, h.segs, p, a, End(h)) == WORD + h.segs[p + 1].at
  {
    var p := Target(Source, h, a);
    var q := LiveHasSegment(h.segs, h.at + HEADER, End(h), a);
    HeaderLiveInside(h, a);
    if q < p {
      PointersDiffer(h.segs, h.at + HEADER, End(h), q, p);
    } else if p < q {
      if p + 1 < q {
        PointersDiffer(h.segs, h.at + HEADER, End(h), p + 1, q);
      }
      WrapsAround(h.segs[p + 1].at, a);
    }
  }

  lemma WrapsAround(x: nat, a: nat)
    requires x < a < WORD
    ensures a + (x - a) % WORD == WORD + x
  {
    assert (x - a) % WORD == x - a + WORD;
  }

  /** The first block taken from a header that the code grew leaves a segment that claims 40 bytes past its end. */
  lemma SourceOverruns(at: nat, order: nat, bytes: nat)
    requires 0 < bytes <= Grown(Source, at, order).max
    ensures var h := Grown(Source, at, order); var r := Take([h], 0, bytes).hs[0];
      |r.segs| == 2 && IsFree(r.segs[1]) && r.segs[1].at + LINK + r.segs[1].size == End(h) + 40
  {
    var h := Grown(Source, at, order);
    assert FirstFit(h.segs, bytes, 0) == 0;
    assert Carve(h.segs, 0, bytes) == Pieces(h.segs[0], bytes);
  }
}
