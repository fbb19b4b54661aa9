/** Virtual addresses as 64-bit words, read as numbers: shifts are divisions, and or-ing nine one bits
    into a word sets one base-512 digit to 511. */
module PageBits {
  import opened Machine

  const HALF: nat := 0x8000_0000_0000          // 2^47
  const SPACE: nat := 0x1_0000_0000_0000       // 2^48

  type Word = x: nat | x < WORD

  /** The digits of a page number, from the root table down. */
  function Digits(page: nat): (p: seq<nat>)
    ensures |p| == 4
  {
    var a := page / 512;
    var b := a / 512;
    var c := b / 512;
    [c % 512, b % 512, a % 512, page % 512]
  }

  /** The four table indices of an address, from the root table down. */
  function PathOf(v: Word): (p: seq<nat>)
    ensures |p| == 4
  {
    Digits(v / 4096)
  }

  /** Bits 47 to 63 are all alike. */
  predicate Canonical(v: Word)
  {
    v < HALF || v >= WORD - HALF
  }

  /** The entry of a table that an address picks. */
  function IndexIn(a: Word): nat
  {
    a % 4096 / 8
  }

  predicate WordAligned(a: Word)
  {
    a % 8 == 0
  }

  // ---------------------------------------------------------------- get_table_address

  /** v shifted right by 9 bits a level. */
  function Shifted(v: nat, level: nat): nat
    decreases level, v
  {
    if level == 0 then v else Shifted(v, level - 1) / 512
  }

  /** 2^(39 - 9 i). */
  function Unit(i: nat): nat
    requires i < 4
  {
    if i == 0 then 0x80_0000_0000 else if i == 1 then 0x4000_0000 else if i == 2 then 0x20_0000 else 0x1000
  }

  /** x with the digit at a unit or-ed with 511. */
  function SetDigit(x: nat, unit: nat): nat
    requires unit > 0
  {
    x + (511 - x / unit % 512) * unit
  }

  /** What the loop makes of x: 511 in its topmost i digits. */
  function Filled(x: nat, i: nat): nat
    requires i <= 4
    decreases i, x
  {
    if i == 0 then x else SetDigit(Filled(x, i - 1), Unit(i - 1))
  }

  /** Bit 47 copied into the bits above. */
  function SignExtended(a: nat): (r: Word)
  {
    if a / HALF % 2 == 1 then a % SPACE + 0xFFFF * SPACE else a % SPACE
  }

  /** The path of the table address of a level: one entry of 511 for each level, then the path of v. */
  function TablePath(p: seq<nat>, level: nat): (q: seq<nat>)
    requires |p| == 4 && level <= 4
    ensures |q| == 4
  {
    seq(level, i => 511) + p[..4 - level]
  }

  ghost predicate Reaches(a: Word, v: Word, level: nat)
    requires 1 <= level <= 4
  {
    Canonical(a) && WordAligned(a) && PathOf(a) == TablePath(PathOf(v), level) && IndexIn(a) == PathOf(v)[4 - level]
  }

  /** A word with its digits spelled out. */
  function Compose(high: nat, d: nat, c: nat, b: nat, a: nat, offset: nat): nat
  {
    ((((high * 512 + d) * 512 + c) * 512 + b) * 512 + a) * 4096 + offset
  }

  lemma ComposeDigits(high: nat, d: nat, c: nat, b: nat, a: nat, offset: nat)
    requires d < 512 && c < 512 && b < 512 && a < 512 && offset < 4096
    ensures var x := Compose(high, d, c, b, a, offset);
      && x / 4096 == (((high * 512 + d) * 512 + c) * 512 + b) * 512 + a && x % 4096 == offset
      && Digits(x / 4096) == [d, c, b, a]
  {
    var x := Compose(high, d, c, b, a, offset);
    var p := (((high * 512 + d) * 512 + c) * 512 + b) * 512 + a;
    assert x / 4096 == p && x % 4096 == offset;
    var q := ((high * 512 + d) * 512 + c) * 512 + b;
    assert p / 512 == q && p % 512 == a;
    var r := (high * 512 + d) * 512 + c;
    assert q / 512 == r && q % 512 == b;
    var s := high * 512 + d;
    assert r / 512 == s && r % 512 == c;
    assert s % 512 == d;
  }

  /** What is left of a word above each unit. */
  lemma Above(high: nat, d: nat, c: nat, b: nat, a: nat, offset: nat)
    requires d < 512 && c < 512 && b < 512 && a < 512 && offset < 4096
    ensures var x := Compose(high, d, c, b, a, offset);
      && x / Unit(3) % 512 == a && x / Unit(2) % 512 == b && x / Unit(1) % 512 == c && x / Unit(0) % 512 == d
  {
    var x := Compose(high, d, c, b, a, offset);
    assert x / Unit(2) == ((high * 512 + d) * 512 + c) * 512 + b;
    assert x / Unit(1) == (high * 512 + d) * 512 + c;
    assert x / Unit(0) == high * 512 + d;
  }

  lemma SetTop(high: nat, d: nat, c: nat, b: nat, a: nat, offset: nat)
    requires d < 512 && c < 512 && b < 512 && a < 512 && offset < 4096
    ensures SetDigit(Compose(high, d, c, b, a, offset), Unit(0)) == Compose(high, 511, c, b, a, offset)
    ensures SetDigit(Compose(high, d, c, b, a, offset), Unit(1)) == Compose(high, d, 511, b, a, offset)
    ensures SetDigit(Compose(high, d, c, b, a, offset), Unit(2)) == Compose(high, d, c, 511, a, offset)
    ensures SetDigit(Compose(high, d, c, b, a, offset), Unit(3)) == Compose(high, d, c, b, 511, offset)
  {
    Above(high, d, c, b, a, offset);
  }

  lemma Decompose(x: nat) returns (high: nat)
    ensures var p := Digits(x / 4096);
      p[0] < 512 && p[1] < 512 && p[2] < 512 && p[3] < 512 && x == Compose(high, p[0], p[1], p[2], p[3], x % 4096)
  {
    var a := x / 4096;
    var b := a / 512;
    var c := b / 512;
    var d := c / 512;
    high := d / 512;
    assert x == a * 4096 + x % 4096;
    assert a == b * 512 + a % 512;
    assert b == c * 512 + b % 512;
    assert c == d * 512 + c % 512;
    assert d == high * 512 + d % 512;
  }

  /** A page number shifted down by whole digits. */
  function Down(page: nat, n: nat): nat
    decreases n, page
  {
    if n == 0 then page else Down(page, n - 1) / 512
  }

  lemma DigitOf(page: nat, n: nat)
    requires n < 4
    ensures Digits(page)[3 - n] == Down(page, n) % 512
  {
    assert Down(page, 0) == page;
    assert Down(page, 1) == page / 512;
    assert Down(page, 2) == page / 512 / 512;
    assert Down(page, 3) == page / 512 / 512 / 512;
  }

  /** Shifting a page number down by n digits moves its path down by n. */
  lemma {:induction false} DigitsDown(page: nat, n: nat)
    requires n <= 4
    ensures Digits(Down(page, n))[n..] == Digits(page)[..4 - n]
  {
    if n == 0 {
    } else {
      DigitsDown(page, n - 1);
      var q := Down(page, n - 1);
      assert Digits(q / 512)[1..] == Digits(q)[..3];
      assert Digits(q / 512)[n..] == Digits(q / 512)[1..][n - 1..];
      assert Digits(q)[..3][n - 1..] == Digits(q)[n - 1..][..4 - n];
    }
  }

  lemma {:induction false} ShiftedDown(v: nat, level: nat)
    requires level > 0
    ensures Shifted(v, level) / 8 == Down(v / 4096, level - 1)
  {
    if level == 1 {
      assert Shifted(v, 0) == v && Down(v / 4096, 0) == v / 4096;
    } else {
      ShiftedDown(v, level - 1);
      assert Shifted(v, level - 1) / 512 / 8 == Shifted(v, level - 1) / 8 / 512;
    }
  }

  /** The shifted and masked address: its page is that of v shifted down, its offset picks the entry. */
  lemma ShiftedSplit(v: Word, level: nat)
    requires 1 <= level <= 4
    ensures var t := Shifted(v, level) / 8 * 8;
      t / 4096 == Down(v / 4096, level) && t % 4096 == PathOf(v)[4 - level] * 8
  {
    ShiftedDown(v, level);
    DigitOf(v / 4096, level - 1);
    var n := Down(v / 4096, level - 1);
    assert n * 8 == n / 512 * 4096 + n % 512 * 8;
  }

  function Ones(d: nat, i: nat, level: nat): nat
  {
    if i < level then 511 else d
  }

  lemma {:induction false} FilledDigits(x: nat, level: nat) returns (high: nat)
    requires 1 <= level <= 4
    ensures var p := Digits(x / 4096);
      Filled(x, level) == Compose(high, 511, Ones(p[1], 1, level), Ones(p[2], 2, level), Ones(p[3], 3, level), x % 4096)
  {
    var p := Digits(x / 4096);
    if level == 1 {
      high := Decompose(x);
      SetTop(high, p[0], p[1], p[2], p[3], x % 4096);
      assert Filled(x, 0) == x;
    } else {
      high := FilledDigits(x, level - 1);
      SetTop(high, 511, Ones(p[1], 1, level - 1), Ones(p[2], 2, level - 1), Ones(p[3], 3, level - 1), x % 4096);
    }
  }

  /** The last 48 bits of a word with 511 on top. */
  function UpperHalf(rest: nat): nat
  {
    511 * 0x80_0000_0000 + rest
  }

  lemma SignValue(high: nat, rest: nat)
    requires rest < 0x80_0000_0000
    ensures SignExtended(high * SPACE + UpperHalf(rest)) == 0xFFFF * SPACE + UpperHalf(rest)
  {
    var a := high * SPACE + UpperHalf(rest);
    var low := UpperHalf(rest) - HALF;
    assert 0 <= low < HALF;
    assert a == (2 * high + 1) * HALF + low;
    OverHalf(a, 2 * high + 1, low);
    OverSpace(a, high, UpperHalf(rest));
  }

  lemma OverHalf(a: nat, q: nat, r: nat)
    requires r < HALF && a == q * HALF + r
    ensures a / HALF == q
  {
  }

  lemma OverSpace(a: nat, q: nat, r: nat)
    requires r < SPACE && a == q * SPACE + r
    ensures a % SPACE == r
  {
  }

  lemma SignTop(high: nat, c: nat, b: nat, a: nat, offset: nat) returns (rest: nat)
    requires c < 512 && b < 512 && a < 512 && offset < 4096
    ensures rest < 0x80_0000_0000
    ensures Compose(high, 511, c, b, a, offset) == high * SPACE + UpperHalf(rest)
    ensures Compose(0xFFFF, 511, c, b, a, offset) == 0xFFFF * SPACE + UpperHalf(rest)
  {
    rest := ((c * 512 + b) * 512 + a) * 4096 + offset;
  }

  lemma SignDigits(high: nat, c: nat, b: nat, a: nat, offset: nat)
    requires c < 512 && b < 512 && a < 512 && offset < 4096
    ensures var r := SignExtended(Compose(high, 511, c, b, a, offset));
      Canonical(r) && PathOf(r) == [511, c, b, a] && r % 4096 == offset
  {
    var rest := SignTop(high, c, b, a, offset);
    SignValue(high, rest);
    ComposeDigits(0xFFFF, 511, c, b, a, offset);
  }

  lemma AddressDigits(t: nat, level: nat)
    requires 1 <= level <= 4
    ensures var p, r := Digits(t / 4096), SignExtended(Filled(t, level));
      && Canonical(r) && r % 4096 == t % 4096
      && PathOf(r) == [511, Ones(p[1], 1, level), Ones(p[2], 2, level), Ones(p[3], 3, level)]
  {
    var high := FilledDigits(t, level);
    var p := Digits(t / 4096);
    SignDigits(high, Ones(p[1], 1, level), Ones(p[2], 2, level), Ones(p[3], 3, level), t % 4096);
  }

  lemma Offsets(a: Word, k: nat)
    requires a % 4096 == k * 8
    ensures WordAligned(a) && IndexIn(a) == k
  {
    assert a == a / 4096 * 4096 + k * 8;
  }

  lemma AddressReaches(v: Word, level: nat)
    requires 1 <= level <= 4
    ensures Reaches(SignExtended(Filled(Shifted(v, level) / 8 * 8, level)), v, level)
  {
    var t := Shifted(v, level) / 8 * 8;
    ShiftedSplit(v, level);
    AddressDigits(t, level);
    DigitsDown(v / 4096, level);
    PathsAgree(Digits(t / 4096), PathOf(v), level);
    Offsets(SignExtended(Filled(t, level)), PathOf(v)[4 - level]);
  }

  lemma PathsAgree(p: seq<nat>, q: seq<nat>, level: nat)
    requires |p| == |q| == 4 && 1 <= level <= 4 && p[level..] == q[..4 - level]
    ensures [511, Ones(p[1], 1, level), Ones(p[2], 2, level), Ones(p[3], 3, level)] == TablePath(q, level)
  {
    var t := TablePath(q, level);
    assert forall i :: 0 <= i < level ==> t[i] == 511;
    assert forall i :: level <= i < 4 ==> t[i] == q[i - level] == p[level..][i - level] == p[i];
  }

  /** A table address is canonical and aligned, its path is that of v moved down by as many entries of 511,
      and it picks the entry the walk of v uses at that level. */
  method GetTableAddress(v: Word, level: nat) returns (a: Word)
    requires 1 <= level <= 4
    ensures Reaches(a, v, level)
  {
    ghost var t := Shifted(v, level) / 8 * 8;
    var x := Shifted(v, level) / 8 * 8;
    for i := 0 to level
      invariant x == Filled(t, i)
    {
      x := SetDigit(x, Unit(i));
    }
    AddressReaches(v, level);
    if x / HALF % 2 == 1 {
      a := x % SPACE + 0xFFFF * SPACE;
    } else {
      a := x % SPACE;
    }
  }
}
