/** The ten bitmaps of a region, packed one after the other into one byte buffer. */
module Bitmaps {
  import opened Halving
  import opened Buddy

  // ---------------------------------------------------------------- one byte

  predicate ByteBit(x: bv8, j: nat)
    requires j < 8
  {
    SmallIndex(j);
    BitOn(x, j as bv8)
  }

  function ByteSet(x: bv8, j: nat): bv8
    requires j < 8
  {
    x | (1 << (j as bv8))
  }

  function ByteClear(x: bv8, j: nat): bv8
    requires j < 8
  {
    x & !(1 << (j as bv8))
  }

  predicate BitOn(x: bv8, a: bv8)
    requires a < 8
  {
    (x >> a) & 1 == 1
  }

  lemma ShiftSet(x: bv8, a: bv8, b: bv8)
    requires a < 8 && b < 8
    ensures BitOn(x | (1 << a), b) == (a == b || BitOn(x, b))
  {
  }

  lemma ShiftClear(x: bv8, a: bv8, b: bv8)
    requires a < 8 && b < 8
    ensures BitOn(x & !(1 << a), b) == (a != b && BitOn(x, b))
  {
  }

  /** Setting bit j of a byte changes bit j alone. */
  lemma ByteSetAt(x: bv8, j: nat, h: nat)
    requires j < 8 && h < 8
    ensures ByteBit(ByteSet(x, j), h) == (h == j || ByteBit(x, h))
  {
    SmallIndex(j);
    SmallIndex(h);
    ShiftSet(x, j as bv8, h as bv8);
  }

  /** Clearing bit j of a byte changes bit j alone. */
  lemma ByteClearAt(x: bv8, j: nat, h: nat)
    requires j < 8 && h < 8
    ensures ByteBit(ByteClear(x, j), h) == (h != j && ByteBit(x, h))
  {
    SmallIndex(j);
    SmallIndex(h);
    ShiftClear(x, j as bv8, h as bv8);
  }

  lemma SmallIndex(j: nat)
    requires j < 8
    ensures (j as bv8) as nat == j && (j as bv8) < 8
  {
  }

  // ---------------------------------------------------------------- the layout

  /** Bytes of the bitmap of order k, as region_map advances. */
  function MapSize(n: nat, k: nat): nat
  {
    if k == 0 then (n + 7) / 8 else (MapSize(n, k - 1) + 1) / 2
  }

  /** Where the bitmap of order k starts. */
  function MapStart(n: nat, k: nat): nat
  {
    if k == 0 then 0 else MapStart(n, k - 1) + MapSize(n, k - 1)
  }

  /** free_area_size: two bits a page. */
  function BufferSize(n: nat): nat
  {
    (n * 2 + 7) / 8
  }

  /** The ten bitmaps lie inside the buffer region_map fills. */
  predicate LayoutFits(n: nat)
  {
    MapStart(n, MAX_ORDER) <= BufferSize(n)
  }

  /** How many of the lowest k bits of q are one. */
  function OneBits(q: nat, k: nat): nat
  {
    if k == 0 then 0 else OneBits(q, k - 1) + Up(q, k - 1) % 2
  }

  /** The bitmap of order k has one byte more than the shifted number of the last byte of the first. */
  lemma {:induction false} MapSizeIs(n: nat, k: nat)
    requires n > 0
    ensures MapSize(n, k) == Up((n - 1) / 8, k) + 1
  {
    if k == 0 {
      assert Up((n - 1) / 8, 0) == (n - 1) / 8;
    } else {
      MapSizeIs(n, k - 1);
      UpStep((n - 1) / 8, k - 1);
    }
  }

  /** Where the bitmap of order k starts: each bitmap halves what is left, and every one bit saves a byte. */
  lemma {:induction false} MapStartIs(n: nat, k: nat)
    requires n > 0
    ensures var q := (n - 1) / 8; MapStart(n, k) + 2 * Up(q, k) + OneBits(q, k) == k + 2 * q
  {
    var q := (n - 1) / 8;
    if k == 0 {
      assert Up(q, 0) == q;
    } else {
      MapStartIs(n, k - 1);
      MapSizeIs(n, k - 1);
      UpStep(q, k - 1);
    }
  }

  /** Whether ten bitmaps fit, told from the page count; q is the number of the last byte of the first one. */
  predicate RoomForAll(n: nat)
  {
    n == 0 ||
    var q := (n - 1) / 8;
    MAX_ORDER <= 2 * Up(q, MAX_ORDER) + OneBits(q, MAX_ORDER) + (n - 8 * q + 3) / 4
  }

  /** Exactly which regions get a buffer that is large enough. */
  lemma FitsIff(n: nat)
    ensures LayoutFits(n) <==> RoomForAll(n)
  {
    if n == 0 {
      NoMaps(MAX_ORDER);
    } else {
      MapStartIs(n, MAX_ORDER);
      BufferSizeIs(n);
    }
  }

  lemma BufferSizeIs(n: nat)
    requires n > 0
    ensures var q := (n - 1) / 8; BufferSize(n) == 2 * q + (n - 8 * q + 3) / 4
  {
  }

  lemma {:induction false} NoMaps(k: nat)
    ensures MapSize(0, k) == 0 && MapStart(0, k) == 0
  {
    if k == 0 {
      assert MapSize(0, 0) == 0;
    } else {
      NoMaps(k - 1);
    }
  }

  /** A number none of whose lowest k bits is one. */
  lemma {:induction false} OnesZero(q: nat, k: nat)
    ensures OneBits(q, k) == 0 ==> q == First(Up(q, k), k)
  {
    if k == 0 {
      assert Up(q, 0) == q;
    } else {
      OnesZero(q, k - 1);
      UpStep(q, k - 1);
    }
  }

  lemma {:induction false} OnesOfMultiple(i: nat, k: nat)
    ensures OneBits(First(i, k), k) == 0
    decreases k
  {
    if k == 0 {
    } else {
      UpFirst(2 * i, k - 1);
      OnesOfMultiple(2 * i, k - 1);
    }
  }

  lemma Thousands(i: nat)
    ensures First(i, MAX_ORDER) == 1024 * i
  {
    assert Pow2(5) == 32;
    FirstIsProduct(i, MAX_ORDER);
  }

  /** Every region from 32773 pages on fits. */
  lemma LargeRegionsFit(n: nat)
    requires n > 32772
    ensures LayoutFits(n)
  {
    var q := (n - 1) / 8;
    var u := Up(q, MAX_ORDER);
    FitsIff(n);
    OnesZero(q, MAX_ORDER);
    UpIsRange(q, MAX_ORDER, u);
    Thousands(u);
    Thousands(u + 1);
  }

  /** The layout of a region whose first bitmap ends with byte 1024 i. */
  lemma FitsAtMultiple(n: nat, i: nat)
    requires n > 0 && (n - 1) / 8 == 1024 * i
    ensures MapStart(n, MAX_ORDER) == MAX_ORDER + 2046 * i
    ensures LayoutFits(n) <==> MAX_ORDER <= 2 * i + (n - 8192 * i + 3) / 4
  {
    FitsIff(n);
    Thousands(i);
    UpFirst(i, MAX_ORDER);
    OnesOfMultiple(i, MAX_ORDER);
    MapStartIs(n, MAX_ORDER);
  }

  /** That bound is the least: 32772 pages do not fit. Nor do up to eight, whose ten bitmaps of one byte each get
      one or two bytes. */
  lemma SmallRegionsOverrun(n: nat)
    ensures n == 32772 ==> !LayoutFits(n)
    ensures 0 < n <= 8 ==> !LayoutFits(n) && MapStart(n, MAX_ORDER) == 10 && BufferSize(n) <= 2
  {
    if n == 32772 {
      FitsAtMultiple(n, 4);
    } else if 0 < n <= 8 {
      FitsAtMultiple(n, 0);
    }
  }

  function Bits(n: nat, k: nat): nat
  {
    8 * MapSize(n, k)
  }

  lemma {:induction false} BitsEnough(n: nat, k: nat)
    ensures Up(n, k) <= Bits(n, k)
  {
    if k == 0 {
    } else {
      BitsEnough(n, k - 1);
      UpStep(n, k - 1);
    }
  }

  /** Every block has a bit, and so does the buddy of every block, if only a padding bit. */
  lemma BitsCover(n: nat, k: nat, i: nat)
    ensures i < Up(n, k) ==> i < Bits(n, k)
    ensures i < Bits(n, k) ==> BuddyOf(i) < Bits(n, k) && i / 2 < Bits(n, k + 1)
    ensures i < Up(n, k + 1) ==> 2 * i + 1 < Bits(n, k)
  {
    BitsEnough(n, k);
    UpStep(n, k);
    BuddyBelow(i, 4 * MapSize(n, k));
    assert MapSize(n, k) <= 2 * MapSize(n, k + 1);
  }

  lemma BuddyBelow(i: nat, half: nat)
    ensures i < 2 * half ==> BuddyOf(i) < 2 * half
  {
  }

  lemma {:induction false} MapsDisjoint(n: nat, j: nat, k: nat)
    requires j < k
    ensures MapStart(n, j) + MapSize(n, j) <= MapStart(n, k)
    decreases k
  {
    if j == k - 1 {
    } else {
      MapsDisjoint(n, j, k - 1);
    }
  }

  // ---------------------------------------------------------------- the buffer

  type Buffer = seq<bv8>

  ghost predicate Holds(b: Buffer, n: nat)
  {
    LayoutFits(n) && |b| == BufferSize(n)
  }

  lemma InBuffer(b: Buffer, n: nat, k: Order, i: nat)
    requires Holds(b, n) && i < Bits(n, k)
    ensures MapStart(n, k) + i / 8 < |b|
  {
    if k < MAX_ORDER - 1 {
      MapsDisjoint(n, k, MAX_ORDER);
    }
  }

  ghost predicate BitAt(b: Buffer, n: nat, k: Order, i: nat)
    requires Holds(b, n) && i < Bits(n, k)
  {
    InBuffer(b, n, k, i);
    ByteBit(b[MapStart(n, k) + i / 8], i % 8)
  }

  /** Bit i of order k is clear exactly when c says that the block is free. */
  ghost predicate Agrees(b: Buffer, n: nat, c: Blocks, k: Order, i: nat)
    requires Holds(b, n)
  {
    i in c[k] <==> i < Bits(n, k) && !BitAt(b, n, k, i)
  }

  /** The buffer holds the bitmaps c. */
  ghost predicate Matches(b: Buffer, n: nat, c: Blocks)
    requires Holds(b, n)
  {
    forall k: Order, i: nat {:trigger Agrees(b, n, c, k, i)} :: Agrees(b, n, c, k, i)
  }

  /** The buddy of the last block of an odd count is no block; its bit lies in the same bitmap and is one. */
  lemma PaddingReadsOne(b: Buffer, n: nat, c: Blocks, k: Order, i: nat)
    requires Holds(b, n) && Matches(b, n, c) && Bounded(c, n) && i < Up(n, k)
    ensures BuddyOf(i) < Bits(n, k)
    ensures BuddyOf(i) >= Up(n, k) ==> BitAt(b, n, k, BuddyOf(i))
  {
    BitsCover(n, k, i);
    assert Agrees(b, n, c, k, BuddyOf(i));
  }

  lemma ByteApart(n: nat, k: Order, i: nat, j: Order, h: nat)
    requires i < Bits(n, k) && h < Bits(n, j) && j != k
    ensures MapStart(n, k) + i / 8 != MapStart(n, j) + h / 8
  {
    assert i / 8 < MapSize(n, k) && h / 8 < MapSize(n, j);
    if j < k {
      MapsDisjoint(n, j, k);
    } else {
      MapsDisjoint(n, k, j);
    }
  }

  /** Writing one byte touches the bits of that byte alone. */
  lemma ByteWrite(b: Buffer, n: nat, k: Order, i: nat, x: bv8, j: Order, h: nat)
    requires Holds(b, n) && i < Bits(n, k) && h < Bits(n, j)
    ensures MapStart(n, k) + i / 8 < |b|
    ensures var c := b[MapStart(n, k) + i / 8 := x];
      BitAt(c, n, j, h) == if j == k && h / 8 == i / 8 then ByteBit(x, h % 8) else BitAt(b, n, j, h)
  {
    InBuffer(b, n, k, i);
    InBuffer(b, n, j, h);
    if j != k {
      ByteApart(n, k, i, j, h);
    }
  }

  /** Setting a bit in the buffer takes one block out of the bitmaps. */
  lemma SetWrite(b: Buffer, n: nat, c: Blocks, k: Order, i: nat)
    requires Holds(b, n) && Matches(b, n, c) && i < Bits(n, k)
    ensures MapStart(n, k) + i / 8 < |b|
    ensures var at := MapStart(n, k) + i / 8;
      Matches(b[at := ByteSet(b[at], i % 8)], n, c[k := c[k] - {i}])
  {
    InBuffer(b, n, k, i);
    var at := MapStart(n, k) + i / 8;
    var x, d := ByteSet(b[at], i % 8), c[k := c[k] - {i}];
    var e := b[at := x];
    forall j: Order, h: nat ensures Agrees(e, n, d, j, h) {
      assert Agrees(b, n, c, j, h);
      if h < Bits(n, j) {
        ByteWrite(b, n, k, i, x, j, h);
        if j == k && h / 8 == i / 8 {
          ByteSetAt(b[at], i % 8, h % 8);
        }
      }
    }
  }

  /** Clearing a bit in the buffer puts one block into the bitmaps. */
  lemma ClearWrite(b: Buffer, n: nat, c: Blocks, k: Order, i: nat)
    requires Holds(b, n) && Matches(b, n, c) && i < Bits(n, k)
    ensures MapStart(n, k) + i / 8 < |b|
    ensures var at := MapStart(n, k) + i / 8;
      Matches(b[at := ByteClear(b[at], i % 8)], n, c[k := c[k] + {i}])
  {
    InBuffer(b, n, k, i);
    var at := MapStart(n, k) + i / 8;
    var x, d := ByteClear(b[at], i % 8), c[k := c[k] + {i}];
    var e := b[at := x];
    forall j: Order, h: nat ensures Agrees(e, n, d, j, h) {
      assert Agrees(b, n, c, j, h);
      if h < Bits(n, j) {
        ByteWrite(b, n, k, i, x, j, h);
        if j == k && h / 8 == i / 8 {
          ByteClearAt(b[at], i % 8, h % 8);
        }
      }
    }
  }

  /** A buffer of 0xFF bytes has no free block. */
  lemma AllSet(b: Buffer, n: nat, c: Blocks)
    requires Holds(b, n) && (forall x :: x in b ==> x == 0xFF) && forall k: Order :: c[k] == {}
    ensures Matches(b, n, c)
  {
    forall k: Order, i: nat ensures Agrees(b, n, c, k, i) {
      if i < Bits(n, k) {
        InBuffer(b, n, k, i);
        assert b[MapStart(n, k) + i / 8] in b;
        AllOnes(i % 8);
      }
    }
  }

  lemma AllOnes(j: nat)
    requires j < 8
    ensures ByteBit(0xFF, j)
  {
    SmallIndex(j);
    AllOnesBits(j as bv8);
  }

  lemma AllOnesBits(a: bv8)
    requires a < 8
    ensures BitOn(0xFF, a)
  {
  }
}
