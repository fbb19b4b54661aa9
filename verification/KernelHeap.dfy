/** kmalloc and kfree on the chain of headers, updated in place. */
module KernelHeap {
  import opened Machine
  import opened Builds
  import opened Wrappers
  import opened Halving
  import opened Segments
  import opened Heap
  import LogOrder
  import Buddy

  class KernelHeap {
    const build: Build
    /** The headers from header_start on, in chain order; each with its segments in list order. */
    var headers: seq<Header>

    /** mm_init, on the page it was given. */
    constructor (build: Build, at: nat)
      ensures this.build == build && headers == [Grown(Repaired, at, 0)]
    {
      assert Pow2(0) == 1;
      this.build := build;
      headers := [Header(at, PAGE, PAGE - HEADER - LINK, [Seg(at + HEADER, PAGE - HEADER - LINK)])];
    }

    /** findSize_max. */
    method FindSizeMax(segs: seq<Seg>) returns (max: nat)
      ensures max == MaxSize(segs)
    {
      max := 0;
      assert segs[..0] == [];
      for p := 0 to |segs|
        invariant max == MaxSize(segs[..p])
      {
        assert segs[..p + 1][..p] == segs[..p];
        if segs[p].size > max {
          max := segs[p].size;
        }
      }
      assert segs[..|segs|] == segs;
    }

    /** pointers_merge. */
    method PointersMerge(segs: seq<Seg>) returns (r: seq<Seg>)
      ensures r == Merged(build, segs)
    {
      r := segs;
      var p := 0;
      while p + 1 < |r|
        invariant r == [] ==> segs == []
        invariant p <= |r| && (r != [] ==> p < |r|)
        invariant r[..p] + Merged(build, r[p..]) == Merged(build, segs)
        decreases |r| - p
      {
        if r[p].size > 0 && r[p + 1].size > 0 {
          MergeHere(build, r, p);
          r := r[..p] + [Joined(build, r[p], r[p + 1])] + r[p + 2..];
        } else {
          MergePast(build, r, p);
          p := p + 1;
        }
      }
      assert r[..p] + r[p..] == r;
    }

    /** kmalloc once the memory manager is up; granted is what __get_free_pages answers if it is asked. */
    method Kmalloc(bytes: nat, granted: Option<nat>) returns (a: Answer)
      modifies this
      ensures Outcome(headers, a) == Heap.Kmalloc(build, old(headers), bytes, granted)
    {
      if bytes == 0 {
        return Null;
      }
      var h := 0;
      while h < |headers| && headers[h].max < bytes
        invariant h <= |headers| && FirstHeader(headers, bytes, 0) == FirstHeader(headers, bytes, h)
      {
        h := h + 1;
      }
      if h == |headers| {
        var pages := (bytes + HEADER + LINK + (PAGE - 1)) % WORD / PAGE;
        var order := LogOrder.LogOrder(pages);
        if order >= Buddy.MAX_ORDER || (build == Repaired && bytes > LIMIT) || granted == None {
          return Null;
        }
        headers := headers + [Grown(build, granted.value, order)];
      }
      a := TakeFrom(h, bytes);
    }

    /** The second half of kmalloc: a segment of the chosen header. */
    method TakeFrom(h: nat, bytes: nat) returns (a: Answer)
      requires h < |headers|
      modifies this
      ensures Outcome(headers, a) == Take(old(headers), h, bytes)
    {
      var segs := headers[h].segs;
      var p := 0;
      while p < |segs| && segs[p].size < bytes
        invariant p <= |segs| && FirstFit(segs, bytes, 0) == FirstFit(segs, bytes, p)
      {
        p := p + 1;
      }
      if p == |segs| {
        return Fault;
      }
      var address := segs[p].at + LINK;
      segs := CarveAt(segs, p, bytes);
      var max := FindSizeMax(segs);
      headers := headers[h := headers[h].(segs := segs, max := max)];
      return Block(address);
    }

    /** Lines 117 to 124: what is left of the segment, if it is large enough, becomes a segment of its own. */
    method CarveAt(segs: seq<Seg>, p: nat, bytes: nat) returns (r: seq<Seg>)
      requires p < |segs| && bytes <= segs[p].size
      ensures r == Carve(segs, p, bytes)
    {
      var rest := segs[p + 1..];
      if segs[p].size - bytes > LINK {
        rest := [Seg(segs[p].at + LINK + bytes, segs[p].size - bytes - LINK)] + rest;
      }
      r := segs[..p] + [Seg(segs[p].at, 0)] + rest;
    }

    method Kfree(address: nat)
      modifies this
      ensures headers == Heap.Kfree(build, old(headers), address)
    {
      var h := 0;
      while h < |headers| && !(headers[h].at < address < headers[h].at + headers[h].size)
        invariant h <= |headers| && FindHeader(headers, address, 0) == FindHeader(headers, address, h)
      {
        h := h + 1;
      }
      if h == |headers| {
        return;
      }
      var offset := if build == Source then LINK * LINK else LINK;
      var p := 0;
      while p < |headers[h].segs| && headers[h].segs[p].at + offset != address
        invariant p <= |headers[h].segs|
        invariant Target(build, headers[h], address) == FindPayload(headers[h].segs, address, offset, p)
      {
        p := p + 1;
      }
      if p < |headers[h].segs| {
        Give(h, p, address);
      }
    }

    /** The second half of kfree: the segment found is free again. */
    method Give(h: nat, p: nat, address: nat)
      requires h < |headers| && p < |headers[h].segs|
      modifies this
      ensures headers == old(headers)[h := Release(build, old(headers)[h], p, address)]
    {
      var segs := headers[h].segs;
      var end := if build == Source then 0 else headers[h].at + headers[h].size;
      var next := if p + 1 < |segs| then segs[p + 1].at else end;
      segs := segs[p := Seg(segs[p].at, (next - address) % WORD)];
      assert segs == Freed(headers[h].segs, p, FreedSize(build, headers[h].segs, p, address, End(headers[h])));
      segs := PointersMerge(segs);
      var max := FindSizeMax(segs);
      headers := headers[h := headers[h].(segs := segs, max := max)];
    }
  }

  lemma MergeHere(build: Build, r: seq<Seg>, p: nat)
    requires p + 1 < |r| && IsFree(r[p]) && IsFree(r[p + 1])
    ensures var q := r[..p] + [Joined(build, r[p], r[p + 1])] + r[p + 2..];
      q[..p] == r[..p] && Merged(build, q[p..]) == Merged(build, r[p..])
  {
    var q := r[..p] + [Joined(build, r[p], r[p + 1])] + r[p + 2..];
    assert q[p..] == [Joined(build, r[p], r[p + 1])] + r[p..][2..];
  }

  lemma MergePast(build: Build, r: seq<Seg>, p: nat)
    requires p + 1 < |r| && !(IsFree(r[p]) && IsFree(r[p + 1]))
    ensures r[..p + 1] + Merged(build, r[p + 1..]) == r[..p] + Merged(build, r[p..])
  {
    assert r[p..][1..] == r[p + 1..];
    assert r[..p + 1] == r[..p] + [r[p]];
  }
}
