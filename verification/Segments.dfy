/** The segments of one heap header: a list of pointers in address order, each followed by its payload.
    A segment that is handed out has size 0; a free one records the size of its payload. */
module Segments {
  import opened Machine
  import opened Builds

  /** sizeof(mpointer_t). */
  const LINK: nat := 16

  datatype Seg = Seg(at: nat, size: nat)

  predicate IsFree(s: Seg)
  {
    s.size > 0
  }

  /** Where the segment at the head of a list ends. */
  function NextAt(segs: seq<Seg>, end: nat): nat
  {
    if |segs| > 1 then segs[1].at else end
  }

  /** The segments lie end to end from start to end, each with room for at least one byte, and each free one
      records its exact extent. */
  ghost predicate Tiles(segs: seq<Seg>, start: nat, end: nat)
    decreases |segs|
  {
    if segs == [] then start == end
    else
      && segs[0].at == start && start + LINK < NextAt(segs, end)
      && (IsFree(segs[0]) ==> segs[0].size == NextAt(segs, end) - start - LINK)
      && Tiles(segs[1..], NextAt(segs, end), end)
  }

  /** No two neighbours are both free. */
  ghost predicate Coalesced(segs: seq<Seg>)
  {
    forall i :: 0 < i < |segs| ==> !(IsFree(segs[i - 1]) && IsFree(segs[i]))
  }

  /** The blocks handed out: the address of each payload, and its extent. */
  ghost function Live(segs: seq<Seg>, start: nat, end: nat): map<nat, nat>
    requires Tiles(segs, start, end)
    decreases |segs|
  {
    if segs == [] then map[]
    else
      var next := NextAt(segs, end);
      var rest := Live(segs[1..], next, end);
      if IsFree(segs[0]) then rest else rest[start + LINK := next - start - LINK]
  }

  // ---------------------------------------------------------------- lists put together

  lemma {:induction false} TilesJoin(a: seq<Seg>, b: seq<Seg>, start: nat, mid: nat, end: nat)
    requires Tiles(a, start, mid) && Tiles(b, mid, end) && (b == [] ==> a == [])
    ensures Tiles(a + b, start, end)
    ensures Live(a + b, start, end) == Live(b, mid, end) + Live(a, start, mid)
    decreases |a|
  {
    if a == [] {
      assert a + b == b;
    } else {
      assert (a + b)[1..] == a[1..] + b;
      assert NextAt(a + b, end) == NextAt(a, mid);
      TilesJoin(a[1..], b, NextAt(a, mid), mid, end);
    }
  }

  lemma {:induction false} TilesCut(segs: seq<Seg>, i: nat, start: nat, end: nat)
    requires Tiles(segs, start, end) && i < |segs|
    ensures Tiles(segs[..i], start, segs[i].at) && Tiles(segs[i..], segs[i].at, end)
    decreases i
  {
    if i == 0 {
      assert segs[0..] == segs && segs[..0] == [];
    } else {
      TilesCut(segs[1..], i - 1, NextAt(segs, end), end);
      CutTail(segs, i, end);
    }
  }

  lemma CutTail(segs: seq<Seg>, i: nat, end: nat)
    requires 0 < i < |segs|
    ensures segs[1..][..i - 1] == segs[..i][1..] && segs[1..][i - 1..] == segs[i..]
    ensures NextAt(segs[..i], segs[i].at) == NextAt(segs, end)
  {
  }

  lemma {:induction false} TilesSplit(segs: seq<Seg>, i: nat, start: nat, end: nat)
    requires Tiles(segs, start, end) && i < |segs|
    ensures Tiles(segs[..i], start, segs[i].at) && Tiles(segs[i..], segs[i].at, end)
    ensures Live(segs, start, end) == Live(segs[i..], segs[i].at, end) + Live(segs[..i], start, segs[i].at)
    decreases i
  {
    TilesCut(segs, i, start, end);
    if i == 0 {
      assert segs[0..] == segs && segs[..0] == [];
    } else {
      TilesSplit(segs[1..], i - 1, NextAt(segs, end), end);
      CutTail(segs, i, end);
    }
  }

  /** Every payload lies inside the stretch that its list tiles, behind a pointer of its own. */
  lemma {:induction false} LiveInside(segs: seq<Seg>, start: nat, end: nat, a: nat)
    requires Tiles(segs, start, end) && a in Live(segs, start, end)
    ensures start + LINK <= a && Live(segs, start, end)[a] > 0 && a + Live(segs, start, end)[a] <= end
    decreases |segs|
  {
    var next := NextAt(segs, end);
    TilesForward(segs[1..], next, end);
    if IsFree(segs[0]) || a != start + LINK {
      LiveInside(segs[1..], next, end, a);
    }
  }

  lemma {:induction false} TilesForward(segs: seq<Seg>, start: nat, end: nat)
    requires Tiles(segs, start, end)
    ensures start <= end
    decreases |segs|
  {
    if segs == [] {
    } else {
      TilesForward(segs[1..], NextAt(segs, end), end);
    }
  }

  /** Two payloads are disjoint, with a pointer between them. */
  lemma {:induction false} LiveApart(segs: seq<Seg>, start: nat, end: nat, a: nat, b: nat)
    requires Tiles(segs, start, end) && a in Live(segs, start, end) && b in Live(segs, start, end) && a < b
    ensures a + Live(segs, start, end)[a] + LINK <= b
    decreases |segs|
  {
    var next := NextAt(segs, end);
    if a == start + LINK && !IsFree(segs[0]) {
      LiveInside(segs[1..], next, end, b);
    } else {
      LiveInside(segs[1..], next, end, a);
      assert b in Live(segs[1..], next, end);
      LiveApart(segs[1..], next, end, a, b);
      assert Live(segs, start, end)[a] == Live(segs[1..], next, end)[a];
    }
  }

  /** No payload covers a segment's pointer. */
  lemma {:induction false} PointersSpared(segs: seq<Seg>, start: nat, end: nat, a: nat, i: nat)
    requires Tiles(segs, start, end) && a in Live(segs, start, end) && i < |segs|
    ensures segs[i].at + LINK <= a || a + Live(segs, start, end)[a] <= segs[i].at
    decreases |segs|
  {
    var next := NextAt(segs, end);
    if i == 0 {
      LiveInside(segs, start, end, a);
    } else if a == start + LINK && !IsFree(segs[0]) {
      TilesSplit(segs[1..], i - 1, next, end);
      TilesForward(segs[1..][..i - 1], next, segs[i].at);
    } else {
      PointersSpared(segs[1..], next, end, a, i - 1);
      assert Live(segs, start, end)[a] == Live(segs[1..], next, end)[a];
    }
  }

  /** Two segments of a list that tiles start at different addresses. */
  lemma PointersDiffer(segs: seq<Seg>, start: nat, end: nat, i: nat, j: nat)
    requires Tiles(segs, start, end) && i < j < |segs|
    ensures segs[i].at < segs[j].at
  {
    TilesSplit(segs, i, start, end);
    TilesSplit(segs[i..], j - i, segs[i].at, end);
    assert segs[i..][..j - i] == segs[i..j];
    TilesForward(segs[i..j][1..], NextAt(segs[i..j], segs[j].at), segs[j].at);
  }

  // ---------------------------------------------------------------- findSize_max, first fit

  function MaxSize(segs: seq<Seg>): (m: nat)
    ensures forall i :: 0 <= i < |segs| ==> segs[i].size <= m
    ensures m > 0 ==> exists i :: 0 <= i < |segs| && segs[i].size == m
    decreases |segs|
  {
    if segs == [] then 0
    else
      var last := |segs| - 1;
      assert segs[last].size == segs[last].size;
      var m := MaxSize(segs[..last]);
      assert m > 0 ==> exists i :: 0 <= i < last && segs[..last][i].size == m && segs[i].size == m;
      if segs[last].size > m then segs[last].size else m
  }

  /** The first segment with room for bytes; the length of the list if none has. */
  function FirstFit(segs: seq<Seg>, bytes: nat, i: nat): (p: nat)
    requires i <= |segs|
    ensures i <= p <= |segs| && (p < |segs| ==> segs[p].size >= bytes)
    ensures forall j :: i <= j < p ==> segs[j].size < bytes
    decreases |segs| - i
  {
    if i == |segs| || segs[i].size >= bytes then i else FirstFit(segs, bytes, i + 1)
  }

  lemma FitExists(segs: seq<Seg>, bytes: nat)
    requires 0 < bytes <= MaxSize(segs)
    ensures FirstFit(segs, bytes, 0) < |segs|
  {
    var j :| 0 <= j < |segs| && segs[j].size == MaxSize(segs);
  }

  // ---------------------------------------------------------------- carving a block

  /** The segments that replace a free one when bytes are taken from it. */
  function Pieces(s: Seg, bytes: nat): seq<Seg>
  {
    if s.size - bytes > LINK
    then [Seg(s.at, 0), Seg(s.at + LINK + bytes, s.size - bytes - LINK)]
    else [Seg(s.at, 0)]
  }

  function Carve(segs: seq<Seg>, i: nat, bytes: nat): seq<Seg>
    requires i < |segs|
  {
    segs[..i] + Pieces(segs[i], bytes) + segs[i + 1..]
  }

  /** Of a segment of some size n bytes are handed out: those asked for if what is left has room for a pointer and
      a byte more, and otherwise all. */
  predicate Cut(size: nat, bytes: nat, n: nat)
  {
    if size > bytes + LINK then n == bytes else n == size
  }

  /** One block more is handed out, just as large as it must be, and every other block keeps its place and extent. */
  lemma CarveLive(segs: seq<Seg>, i: nat, bytes: nat, start: nat, end: nat)
    requires Tiles(segs, start, end) && i < |segs| && 0 < bytes <= segs[i].size
    ensures Tiles(Carve(segs, i, bytes), start, end)
    ensures var a := segs[i].at + LINK; var l, m := Live(segs, start, end), Live(Carve(segs, i, bytes), start, end);
      a !in l && a in m && Cut(segs[i].size, bytes, m[a]) && m == l[a := m[a]]
  {
    var s, next := segs[i], NextAt(segs[i..], end);
    var x, y := segs[..i], segs[i + 1..];
    TilesSplit(segs, i, start, end);
    assert segs[i..][1..] == y;
    PiecesLive(segs[i..], bytes, s.at, end);
    TilesJoin(x, Pieces(s, bytes) + y, start, s.at, end);
    assert x + (Pieces(s, bytes) + y) == Carve(segs, i, bytes);
    AddressNew(segs, i, start, end);
  }

  lemma PiecesLive(segs: seq<Seg>, bytes: nat, start: nat, end: nat)
    requires Tiles(segs, start, end) && segs != [] && 0 < bytes <= segs[0].size
    ensures Tiles(Pieces(segs[0], bytes) + segs[1..], start, end)
    ensures var a, r := start + LINK, Pieces(segs[0], bytes) + segs[1..];
      var l, m := Live(segs, start, end), Live(r, start, end);
      a in m && Cut(segs[0].size, bytes, m[a]) && m == l[a := m[a]]
  {
    var s, y := segs[0], segs[1..];
    var r := Pieces(s, bytes) + y;
    if s.size - bytes > LINK {
      var b := r[1];
      assert r[1..] == [b] + y && ([b] + y)[1..] == y;
      assert NextAt([b] + y, end) == NextAt(segs, end);
      assert Tiles([b] + y, b.at, end);
      assert NextAt(r, end) == b.at;
    } else {
      assert r[1..] == y && NextAt(r, end) == NextAt(segs, end);
    }
  }

  lemma {:induction false} AddressNew(segs: seq<Seg>, i: nat, start: nat, end: nat)
    requires Tiles(segs, start, end) && i < |segs| && IsFree(segs[i])
    ensures segs[i].at + LINK !in Live(segs, start, end)
    decreases i
  {
    var a, next := segs[i].at + LINK, NextAt(segs, end);
    if i == 0 {
      if a in Live(segs[1..], next, end) {
        LiveInside(segs[1..], next, end, a);
      }
    } else {
      AddressNew(segs[1..], i - 1, next, end);
      TilesSplit(segs[1..], i - 1, next, end);
      TilesForward(segs[1..][..i - 1], next, segs[i].at);
    }
  }

  lemma CarveCoalesced(segs: seq<Seg>, i: nat, bytes: nat)
    requires Coalesced(segs) && i < |segs| && 0 < bytes <= segs[i].size
    ensures Coalesced(Carve(segs, i, bytes))
  {
    var r := Carve(segs, i, bytes);
    var d := |r| - |segs|;
    forall j | 0 < j < |r|
      ensures !(IsFree(r[j - 1]) && IsFree(r[j]))
    {
      if j < i {
        assert r[j - 1] == segs[j - 1] && r[j] == segs[j];
      } else if j > i + 1 + d {
        assert r[j - 1] == segs[j - 1 - d] && r[j] == segs[j - d];
      } else if j == i + 1 + d && d == 1 {
        assert r[j] == segs[i + 1];
        assert !(IsFree(segs[i]) && IsFree(segs[i + 1]));
      } else {
        assert r[i] == Seg(segs[i].at, 0);
      }
    }
  }

  // ---------------------------------------------------------------- pointers_merge

  /** Two neighbours that are free become one. The code forgets the room of the pointer between them. */
  function Joined(build: Build, s: Seg, t: Seg): Seg
  {
    Seg(s.at, s.size + t.size + if build == Source then 0 else LINK)
  }

  function Merged(build: Build, segs: seq<Seg>): (r: seq<Seg>)
    decreases |segs|
  {
    if |segs| < 2 then segs
    else if IsFree(segs[0]) && IsFree(segs[1]) then Merged(build, [Joined(build, segs[0], segs[1])] + segs[2..])
    else [segs[0]] + Merged(build, segs[1..])
  }

  lemma {:induction false} MergedHead(build: Build, segs: seq<Seg>)
    requires segs != []
    ensures Merged(build, segs) != [] && Merged(build, segs)[0].at == segs[0].at
    ensures IsFree(Merged(build, segs)[0]) <==> IsFree(segs[0])
    decreases |segs|
  {
    if |segs| < 2 || !IsFree(segs[0]) || !IsFree(segs[1]) {
    } else {
      MergedHead(build, [Joined(build, segs[0], segs[1])] + segs[2..]);
    }
  }

  lemma {:induction false} MergedCoalesced(build: Build, segs: seq<Seg>)
    ensures Coalesced(Merged(build, segs))
    decreases |segs|
  {
    if |segs| < 2 {
    } else {
      if IsFree(segs[0]) && IsFree(segs[1]) {
        MergedCoalesced(build, [Joined(build, segs[0], segs[1])] + segs[2..]);
      } else {
        MergedCoalesced(build, segs[1..]);
        MergedHead(build, segs[1..]);
        var m := Merged(build, segs[1..]);
        var r := [segs[0]] + m;
        forall i | 0 < i < |r|
          ensures !(IsFree(r[i - 1]) && IsFree(r[i]))
        {
          if i > 1 {
            assert r[i - 1] == m[i - 2] && r[i] == m[i - 1];
          }
        }
      }
    }
  }

  /** What the free segments record, all in all. */
  function Recorded(segs: seq<Seg>): nat
  {
    if segs == [] then 0 else segs[0].size + Recorded(segs[1..])
  }

  /** Each pointer that merging does away with becomes room; as written, none of them does. */
  lemma {:induction false} MergedRoom(build: Build, segs: seq<Seg>)
    ensures var r := Merged(build, segs);
      |r| <= |segs| && Recorded(r) == Recorded(segs) + if build == Source then 0 else 16 * (|segs| - |r|)
    decreases |segs|
  {
    if |segs| < 2 {
    } else if IsFree(segs[0]) && IsFree(segs[1]) {
      var r := [Joined(build, segs[0], segs[1])] + segs[2..];
      MergedRoom(build, r);
      assert segs[1..][1..] == segs[2..] && r[1..] == segs[2..];
    } else {
      MergedRoom(build, segs[1..]);
      var m := Merged(build, segs[1..]);
      assert ([segs[0]] + m)[1..] == m;
    }
  }

  /** Joining the first two of a list that tiles. */
  lemma JoinedTiles(segs: seq<Seg>, start: nat, end: nat)
    requires Tiles(segs, start, end) && |segs| >= 2 && IsFree(segs[0]) && IsFree(segs[1])
    ensures var r := [Joined(Repaired, segs[0], segs[1])] + segs[2..];
      Tiles(r, start, end) && Live(r, start, end) == Live(segs, start, end)
  {
    var r := [Joined(Repaired, segs[0], segs[1])] + segs[2..];
    assert segs[1..][1..] == segs[2..] == r[1..];
    assert NextAt(segs[1..], end) == NextAt(r, end);
  }

  /** Merging moves no block that is handed out, and what it leaves tiles the same stretch. */
  lemma {:induction false} MergedLive(segs: seq<Seg>, start: nat, end: nat)
    requires Tiles(segs, start, end)
    ensures Tiles(Merged(Repaired, segs), start, end)
    ensures Live(Merged(Repaired, segs), start, end) == Live(segs, start, end)
    decreases |segs|
  {
    if |segs| < 2 {
    } else {
      if IsFree(segs[0]) && IsFree(segs[1]) {
        JoinedTiles(segs, start, end);
        MergedLive([Joined(Repaired, segs[0], segs[1])] + segs[2..], start, end);
      } else {
        var next, m := NextAt(segs, end), Merged(Repaired, segs[1..]);
        MergedLive(segs[1..], next, end);
        MergedHead(Repaired, segs[1..]);
        assert ([segs[0]] + m)[1..] == m;
        assert NextAt([segs[0]] + m, end) == next;
      }
    }
  }

  /** As the code merges, the sizes stay exact if and only if there is nothing to merge. */
  lemma {:induction false} SourceMergeExact(segs: seq<Seg>, start: nat, end: nat)
    requires Tiles(segs, start, end)
    ensures Tiles(Merged(Source, segs), start, end) <==> Coalesced(segs)
    decreases |segs|
  {
    if |segs| < 2 {
    } else {
      if IsFree(segs[0]) && IsFree(segs[1]) {
        assert !Coalesced(segs) by { assert !(0 < 1 < |segs| ==> !(IsFree(segs[1 - 1]) && IsFree(segs[1]))); }
        var r := [Joined(Source, segs[0], segs[1])] + segs[2..];
        JoinedTiles(segs, start, end);
        ShortHead(r, start, end, segs[0].size + segs[1].size + LINK);
      } else {
        var next, m := NextAt(segs, end), Merged(Source, segs[1..]);
        SourceMergeExact(segs[1..], next, end);
        MergedHead(Source, segs[1..]);
        assert ([segs[0]] + m)[1..] == m;
        assert NextAt([segs[0]] + m, end) == next;
        CoalescedTail(segs);
      }
    }
  }

  lemma CoalescedTail(segs: seq<Seg>)
    requires |segs| >= 2 && !(IsFree(segs[0]) && IsFree(segs[1]))
    ensures Coalesced(segs) <==> Coalesced(segs[1..])
  {
    var t := segs[1..];
    if Coalesced(t) {
      forall i | 0 < i < |segs|
        ensures !(IsFree(segs[i - 1]) && IsFree(segs[i]))
      {
        if i > 1 {
          assert !(IsFree(t[i - 2]) && IsFree(t[i - 1]));
        }
      }
    }
    if Coalesced(segs) {
      forall i | 0 < i < |t|
        ensures !(IsFree(t[i - 1]) && IsFree(t[i]))
      {
        assert !(IsFree(segs[i]) && IsFree(segs[i + 1]));
      }
    }
  }

  /** A free head that records less than its extent never records it again, however much is merged into it. */
  lemma {:induction false} ShortHead(segs: seq<Seg>, start: nat, end: nat, right: nat)
    requires segs != [] && 0 < segs[0].size < right && Tiles(segs[0 := Seg(segs[0].at, right)], start, end)
    ensures !Tiles(Merged(Source, segs), start, end)
    decreases |segs|
  {
    var full := segs[0 := Seg(segs[0].at, right)];
    assert full[1..] == segs[1..];
    assert NextAt(full, end) == NextAt(segs, end);
    if |segs| >= 2 && IsFree(segs[1]) {
      JoinedTiles(full, start, end);
      var r := [Joined(Source, segs[0], segs[1])] + segs[2..];
      assert full[2..] == segs[2..];
      assert r[0 := Seg(r[0].at, right + segs[1].size + LINK)] == [Joined(Repaired, full[0], full[1])] + full[2..];
      ShortHead(r, start, end, right + segs[1].size + LINK);
    } else if |segs| >= 2 {
      var m := Merged(Source, segs[1..]);
      MergedHead(Source, segs[1..]);
      assert NextAt([segs[0]] + m, end) == NextAt(segs, end);
    }
  }

  // ---------------------------------------------------------------- giving a block back

  /** The size kfree computes for segment i. The code subtracts from a next pointer that is NULL at the end of the
      list; mended, it takes the end of the header. */
  function FreedSize(build: Build, segs: seq<Seg>, i: nat, address: nat, end: nat): nat
    requires i < |segs|
  {
    var next := if i + 1 < |segs| then segs[i + 1].at else if build == Source then 0 else end;
    (next - address) % WORD
  }

  /** For a segment's own address it is the extent of the segment, in the code exactly when it is not the last. */
  lemma FreedSizeExact(build: Build, segs: seq<Seg>, i: nat, start: nat, end: nat)
    requires Tiles(segs, start, end) && i < |segs| && end < WORD
    ensures FreedSize(build, segs, i, segs[i].at + LINK, end) == NextAt(segs[i..], end) - segs[i].at - LINK
       <==> build == Repaired || i + 1 < |segs|
  {
    TilesSplit(segs, i, start, end);
    TilesForward(segs[i..][1..], NextAt(segs[i..], end), end);
  }

  function Freed(segs: seq<Seg>, i: nat, size: nat): seq<Seg>
    requires i < |segs|
  {
    segs[i := Seg(segs[i].at, size)]
  }

  /** Giving segment i its extent as size takes its block, and no other, off those handed out. */
  lemma FreedLive(segs: seq<Seg>, i: nat, start: nat, end: nat, size: nat)
    requires Tiles(segs, start, end) && i < |segs| && size == NextAt(segs[i..], end) - segs[i].at - LINK
    ensures Tiles(Freed(segs, i, size), start, end)
    ensures Live(Freed(segs, i, size), start, end) == Live(segs, start, end) - {segs[i].at + LINK}
  {
    var a, x, y := segs[i].at + LINK, segs[..i], segs[i..];
    TilesSplit(segs, i, start, end);
    var z := [Seg(segs[i].at, size)] + y[1..];
    assert z[1..] == y[1..] && NextAt(z, end) == NextAt(y, end);
    assert Tiles(z, segs[i].at, end);
    NotLater(y, segs[i].at, end);
    NotEarlier(x, start, segs[i].at);
    TilesJoin(x, z, start, segs[i].at, end);
    assert x + z == Freed(segs, i, size);
  }

  lemma NotLater(segs: seq<Seg>, start: nat, end: nat)
    requires Tiles(segs, start, end) && segs != []
    ensures start + LINK !in Live(segs[1..], NextAt(segs, end), end)
  {
    if start + LINK in Live(segs[1..], NextAt(segs, end), end) {
      LiveInside(segs[1..], NextAt(segs, end), end, start + LINK);
    }
  }

  lemma NotEarlier(segs: seq<Seg>, start: nat, end: nat)
    requires Tiles(segs, start, end)
    ensures end + LINK !in Live(segs, start, end)
  {
    if end + LINK in Live(segs, start, end) {
      LiveInside(segs, start, end, end + LINK);
    }
  }

  /** What kfree leaves of a list when segment p is given back. */
  lemma ReleasedLive(segs: seq<Seg>, p: nat, start: nat, end: nat)
    requires Tiles(segs, start, end) && p < |segs| && end < WORD
    ensures var a := segs[p].at + LINK; var r := Merged(Repaired, Freed(segs, p, FreedSize(Repaired, segs, p, a, end)));
      && r != [] && Tiles(r, start, end) && Coalesced(r)
      && Live(r, start, end) == Live(segs, start, end) - {a}
  {
    var a := segs[p].at + LINK;
    FreedSizeExact(Repaired, segs, p, start, end);
    var size := FreedSize(Repaired, segs, p, a, end);
    FreedLive(segs, p, start, end, size);
    MergedLive(Freed(segs, p, size), start, end);
    MergedCoalesced(Repaired, Freed(segs, p, size));
    MergedHead(Repaired, Freed(segs, p, size));
  }

  lemma {:induction false} MergedSame(b: Build, segs: seq<Seg>)
    requires Coalesced(segs)
    ensures Merged(b, segs) == segs
    decreases |segs|
  {
    if |segs| < 2 {
    } else {
      Neighbours(segs);
      CoalescedTail(segs);
      MergedSame(b, segs[1..]);
    }
  }

  /** A segment that is not handed out already records its extent. */
  lemma FreeRecords(segs: seq<Seg>, p: nat, start: nat, end: nat)
    requires Tiles(segs, start, end) && p < |segs| && segs[p].at + LINK !in Live(segs, start, end)
    ensures segs[p].size == NextAt(segs[p..], end) - segs[p].at - LINK
  {
    TilesSplit(segs, p, start, end);
    HeadLive(segs[p..], segs[p].at, end);
  }

  /** Giving back a segment that is not handed out changes nothing. */
  lemma ReleasedTwice(segs: seq<Seg>, p: nat, start: nat, end: nat)
    requires Tiles(segs, start, end) && p < |segs| && end < WORD && Coalesced(segs)
    requires segs[p].at + LINK !in Live(segs, start, end)
    ensures Merged(Repaired, Freed(segs, p, FreedSize(Repaired, segs, p, segs[p].at + LINK, end))) == segs
  {
    FreedSizeExact(Repaired, segs, p, start, end);
    FreeRecords(segs, p, start, end);
    assert Freed(segs, p, segs[p].size) == segs;
    MergedSame(Repaired, segs);
  }

  /** The first segment whose payload, as kfree reckons it, starts at an address. */
  function FindPayload(segs: seq<Seg>, address: nat, offset: nat, i: nat): (p: nat)
    requires i <= |segs|
    ensures i <= p <= |segs| && (p < |segs| ==> segs[p].at + offset == address)
    ensures forall j :: i <= j < p ==> segs[j].at + offset != address
    decreases |segs| - i
  {
    if i == |segs| || segs[i].at + offset == address then i else FindPayload(segs, address, offset, i + 1)
  }

  /** A block that is handed out has a segment. */
  lemma {:induction false} LiveHasSegment(segs: seq<Seg>, start: nat, end: nat, a: nat) returns (i: nat)
    requires Tiles(segs, start, end) && a in Live(segs, start, end)
    ensures i < |segs| && segs[i].at + LINK == a && !IsFree(segs[i])
    decreases |segs|
  {
    if a == start + LINK && !IsFree(segs[0]) {
      i := 0;
    } else {
      i := LiveHasSegment(segs[1..], NextAt(segs, end), end, a);
      i := i + 1;
    }
  }

  /** A stretch with nothing handed out and nothing left to merge is one free segment. */
  lemma NothingLive(segs: seq<Seg>, start: nat, end: nat)
    requires Tiles(segs, start, end) && segs != [] && Coalesced(segs) && Live(segs, start, end) == map[]
    ensures |segs| == 1 && segs[0].at == start && segs[0].size + LINK == end - start
  {
    HeadLive(segs, start, end);
    if |segs| > 1 {
      Neighbours(segs);
      HeadLive(segs[1..], NextAt(segs, end), end);
    }
  }

  lemma HeadLive(segs: seq<Seg>, start: nat, end: nat)
    requires Tiles(segs, start, end) && segs != []
    ensures IsFree(segs[0]) || start + LINK in Live(segs, start, end)
    ensures IsFree(segs[0]) ==> Live(segs, start, end) == Live(segs[1..], NextAt(segs, end), end)
  {
  }

  lemma Neighbours(segs: seq<Seg>)
    requires Coalesced(segs) && |segs| > 1
    ensures !IsFree(segs[0]) || !IsFree(segs[1])
  {
    assert !(IsFree(segs[1 - 1]) && IsFree(segs[1]));
  }

  lemma OneSegment(size: nat, start: nat, end: nat)
    requires start + LINK < end
    ensures var segs := [Seg(start, size)];
      && MaxSize(segs) == size && Coalesced(segs)
      && (Tiles(segs, start, end) <==> size == 0 || size == end - start - LINK)
      && (Tiles(segs, start, end) && size > 0 ==> Live(segs, start, end) == map[])
  {
    var segs := [Seg(start, size)];
    assert segs[1..] == [] && segs[..0] == [];
    assert NextAt(segs, end) == end;
    if Tiles(segs, start, end) {
      HeadLive(segs, start, end);
    }
  }
}
