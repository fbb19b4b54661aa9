/** The entries that pga_map writes, and ranges of virtual pages. */
module PageEntries {
  import opened Wrappers
  import opened Machine
  import opened PageBits
  import opened PageWalk

  const NX: nat := 0x8000_0000_0000_0000       // 2^63

  /** The flag argument of pga_map, bit by bit. */
  function Flag(flags: nat, unit: nat): bool
    requires unit > 0
  {
    flags / unit % 2 == 1
  }

  /** The bits of an entry that do not name a frame. */
  function Low(e: Word): (r: Word)
  {
    e / TOP * TOP + e % 4096
  }

  function SmallBits(flags: nat): (r: nat)
    ensures r < 16
  {
    (if Flag(flags, 1) then 0 else 1) + (if Flag(flags, 2) then 0 else 2) + (if Flag(flags, 4) then 4 else 0)
    + (if Flag(flags, 8) then 8 else 0)
  }

  function FlagBits(flags: nat): (r: Word)
  {
    SmallBits(flags) + (if Flag(flags, 16) then NX else 0)
  }

  /** The entry for a physical address: the sum wraps at 64 bits and is cut to bits 12 to 51. */
  function Entry(address: nat, low: Word): (r: Word)
    requires low / TOP * TOP + low % 4096 == low
  {
    address / 4096 % 0x100_0000_0000 * 4096 + low
  }

  lemma FlagBitsLow(flags: nat)
    ensures FlagBits(flags) / TOP * TOP + FlagBits(flags) % 4096 == FlagBits(flags)
  {
    Parts(0, if Flag(flags, 16) then 1 else 0, SmallBits(flags));
  }

  /** A word put together from a frame, the top bit and the bottom four. */
  lemma Parts(f: nat, top: nat, small: nat)
    requires f < 0x100_0000_0000 && top < 2 && small < 16
    ensures var e := f * 4096 + small + top * NX;
      && e % 4096 == small && e / 4096 == top * 2048 * 0x100_0000_0000 + f && e / 4096 % 0x100_0000_0000 == f
      && e / TOP == top * 2048 && e / NX == top
  {
    var e := f * 4096 + small + top * NX;
    assert e == (top * 2048 * 0x100_0000_0000 + f) * 4096 + small;
  }

  /** The bottom bits of a word are those of its remainder. */
  lemma BottomBit(e: nat, unit: nat, q: nat, s: nat)
    requires unit in {1, 2, 4, 8} && e == q * 4096 + s && s < 16
    ensures e / unit % 2 == s / unit % 2
  {
    if unit == 1 {
      Half(e, q * 2048, s);
    } else if unit == 2 {
      assert e / 2 == q * 2048 + s / 2;
      Half(e / 2, q * 1024, s / 2);
    } else if unit == 4 {
      assert e / 4 == q * 1024 + s / 4;
      Half(e / 4, q * 512, s / 4);
    } else {
      assert e / 8 == q * 512 + s / 8;
      Half(e / 8, q * 256, s / 8);
    }
  }

  lemma Half(x: nat, h: nat, y: nat)
    requires x == 2 * h + y
    ensures x % 2 == y % 2
  {
  }

  lemma SmallMeans(flags: nat)
    ensures var s := SmallBits(flags);
      && (s % 2 == 1 <==> !Flag(flags, 1)) && (s / 2 % 2 == 1 <==> !Flag(flags, 2))
      && (s / 4 % 2 == 1 <==> Flag(flags, 4)) && (s / 8 % 2 == 1 <==> Flag(flags, 8))
  {
  }

  lemma EntryParts(address: nat, flags: nat)
    ensures FlagBits(flags) / TOP * TOP + FlagBits(flags) % 4096 == FlagBits(flags)
    ensures var e := Entry(address, FlagBits(flags));
      && e % 4096 == SmallBits(flags) && FrameOf(e) == address / 4096 % 0x100_0000_0000 && Low(e) == FlagBits(flags)
      && (e / NX % 2 == 1 <==> Flag(flags, 16))
  {
    FlagBitsLow(flags);
    var top := if Flag(flags, 16) then 1 else 0;
    Parts(address / 4096 % 0x100_0000_0000, top, SmallBits(flags));
  }

  lemma EntryBit(address: nat, flags: nat, unit: nat)
    requires unit in {1, 2, 4, 8}
    ensures FlagBits(flags) / TOP * TOP + FlagBits(flags) % 4096 == FlagBits(flags)
    ensures Entry(address, FlagBits(flags)) / unit % 2 == SmallBits(flags) / unit % 2
  {
    EntryParts(address, flags);
    var e := Entry(address, FlagBits(flags));
    BottomBit(e, unit, e / 4096, SmallBits(flags));
  }

  /** Every requested flag is in the entry, and the frame is that of the address. */
  lemma EntryMeans(address: nat, flags: nat)
    ensures FlagBits(flags) / TOP * TOP + FlagBits(flags) % 4096 == FlagBits(flags)
    ensures var e := Entry(address, FlagBits(flags));
      && FrameOf(e) == address / 4096 % 0x100_0000_0000 && Low(e) == FlagBits(flags)
      && (Present(e) <==> !Flag(flags, 1))
      && (e / 2 % 2 == 1 <==> !Flag(flags, 2))
      && (e / 4 % 2 == 1 <==> Flag(flags, 4))
      && (e / 8 % 2 == 1 <==> Flag(flags, 8))
      && (e / NX % 2 == 1 <==> Flag(flags, 16))
  {
    SmallMeans(flags);
    EntryParts(address, flags);
    EntryBit(address, flags, 1);
    EntryBit(address, flags, 2);
    EntryBit(address, flags, 4);
    EntryBit(address, flags, 8);
  }

  // ---------------------------------------------------------------- ranges of pages

  /** The path of the i-th page from an address on. */
  function PathAt(v: Word, i: nat): (p: seq<nat>)
    ensures |p| == 4
  {
    Digits(v / 4096 + i)
  }

  /** The i-th page's address is on that path. */
  lemma PathAtAddress(v: Word, i: nat)
    requires v + 4096 * i < WORD
    ensures PathOf(v + 4096 * i) == PathAt(v, i)
  {
    assert (v + 4096 * i) / 4096 == v / 4096 + i;
  }

  /** n pages from v on that do not wrap, are all canonical and stay clear of root entry 511. */
  predicate Usable(v: Word, n: nat)
  {
    || v / 4096 + n <= HALF / 4096
    || (v >= WORD - HALF && v / 4096 + n <= (WORD - 0x80_0000_0000) / 4096)
  }

  lemma UsablePage(v: Word, n: nat, i: nat)
    requires Usable(v, n) && i < n
    ensures v + 4096 * i < WORD && Canonical(v + 4096 * i)
    ensures PathOf(v + 4096 * i) == PathAt(v, i) && PathAt(v, i)[0] != 511
  {
    PathAtAddress(v, i);
    RootIndex(v / 4096 + i);
    RootFree(v / 4096 + i);
  }

  /** Pages of the lower half, and of the upper half below the last root entry, are not under entry 511. */
  lemma RootFree(page: nat)
    requires page < HALF / 4096 || (WORD - HALF) / 4096 <= page < (WORD - 0x80_0000_0000) / 4096
    ensures page / 0x800_0000 % 512 != 511
  {
    var r := page / 0x800_0000;
    assert r < 256 || 0x200_0000 - 256 <= r < 0x200_0000 - 1;
  }

  /** The root entry of a page number. */
  lemma RootIndex(page: nat)
    ensures Digits(page)[0] == page / 0x800_0000 % 512
  {
    assert page / 512 / 512 / 512 == page / 0x800_0000;
  }

  /** Page numbers less than 2^36 apart have different paths. */
  lemma DistinctPaths(a: nat, b: nat)
    requires a < b < a + 0x10_0000_0000
    ensures Digits(a) != Digits(b)
  {
    if Digits(a) == Digits(b) {
      Recompose(a);
      Recompose(b);
      Congruent(a, b);
    }
  }

  lemma Congruent(a: nat, b: nat)
    requires a < b < a + 0x10_0000_0000
    ensures a % 0x10_0000_0000 != b % 0x10_0000_0000
  {
  }

  lemma Recompose(a: nat)
    ensures var p := Digits(a);
      a % 0x10_0000_0000 == ((p[0] * 512 + p[1]) * 512 + p[2]) * 512 + p[3]
  {
    var b := a / 512;
    var c := b / 512;
    var d := c / 512;
    var high := d / 512;
    assert a == b * 512 + a % 512;
    assert b == c * 512 + b % 512;
    assert c == d * 512 + c % 512;
    assert d == high * 512 + d % 512;
  }

  lemma DistinctPages(v: Word, n: nat, i: nat, j: nat)
    requires Usable(v, n) && i < j < n
    ensures PathAt(v, i) != PathAt(v, j)
  {
    DistinctPaths(v / 4096 + i, v / 4096 + j);
  }

  ghost predicate Within(path: seq<nat>, v: Word, n: nat)
  {
    exists i: nat :: i < n && path == PathAt(v, i)
  }

  // ---------------------------------------------------------------- what mapping and unmapping mean

  function Shown(e: Word): Option<Word>
  {
    if Present(e) then Some(e) else None
  }

  /** Every page outside the range has the same entry in both memories. */
  ghost predicate OthersKept(m: Memory, n: Memory, root: nat, v: Word, k: nat)
  {
    forall path: seq<nat> :: |path| == 4 && path[0] != 511 && !Within(path, v, k)
      ==> PageEntry(n, root, path) == PageEntry(m, root, path)
  }

  /** The k pages from v on are mapped to the frames from an address on, with the flags asked for. */
  ghost predicate Maps(m: Memory, n: Memory, root: nat, v: Word, address: nat, flags: nat, k: nat)
  {
    && OthersKept(m, n, root, v, k)
    && forall i: nat :: i < k ==> EntryIs(n, root, v, i, address, flags)
  }

  ghost predicate EntryIs(n: Memory, root: nat, v: Word, i: nat, address: nat, flags: nat)
  {
    FlagBitsLow(flags);
    PageEntry(n, root, PathAt(v, i)) == Shown(Entry(address + 4096 * i, FlagBits(flags)))
  }

  ghost predicate Unmaps(m: Memory, n: Memory, root: nat, v: Word, k: nat)
  {
    && OthersKept(m, n, root, v, k)
    && forall i: nat :: i < k ==> PageEntry(n, root, PathAt(v, i)) == None
  }

  /** After a mapping each byte of page i of the range is the byte at the same offset of frame i. */
  lemma MapTranslates(m: Memory, n: Memory, root: nat, v: Word, address: nat, flags: nat, k: nat, i: nat, w: Word)
    requires Maps(m, n, root, v, address, flags, k) && Usable(v, k) && i < k
    requires w / 4096 == v / 4096 + i && address % 4096 == 0 && address + 4096 * k <= TOP
    ensures Translate(n, root, w) == if Flag(flags, 1) then None else Some(address + 4096 * i + w % 4096)
  {
    UsableWord(v, k, i, w);
    assert EntryIs(n, root, v, i, address, flags);
    EntryMeans(address + 4096 * i, flags);
    EntryTranslates(n, root, w);
    FrameAddress(address + 4096 * i);
  }

  lemma FrameAddress(a: nat)
    requires a % 4096 == 0 && a < TOP
    ensures a / 4096 % 0x100_0000_0000 * 4096 == a
  {
  }

  lemma UsableWord(v: Word, n: nat, i: nat, w: Word)
    requires Usable(v, n) && i < n && w / 4096 == v / 4096 + i
    ensures Canonical(w) && PathOf(w) == PathAt(v, i)
  {
  }

  /** Every other page translates as before. */
  lemma OthersTranslate(m: Memory, n: Memory, root: nat, v: Word, k: nat, w: Word)
    requires OthersKept(m, n, root, v, k) && !Within(PathOf(w), v, k) && PathOf(w)[0] != 511
    ensures Translate(n, root, w) == Translate(m, root, w)
  {
    if Canonical(w) {
      EntryTranslates(m, root, w);
      EntryTranslates(n, root, w);
    }
  }

  /** Unmapping a range that was absent before it was mapped puts every mapping back. */
  lemma UnmapUndoesMap(a: Memory, b: Memory, c: Memory, root: nat, v: Word, address: nat, flags: nat, k: nat,
                       path: seq<nat>)
    requires Maps(a, b, root, v, address, flags, k) && Unmaps(b, c, root, v, k)
    requires forall i: nat :: i < k ==> PageEntry(a, root, PathAt(v, i)) == None
    requires |path| == 4 && path[0] != 511
    ensures PageEntry(c, root, path) == PageEntry(a, root, path)
  {
    if Within(path, v, k) {
      var i: nat :| i < k && path == PathAt(v, i);
    }
  }
}
