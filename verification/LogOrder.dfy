/** log_order: the order of the smallest block that holds a number of pages. */
module LogOrder {
  import opened Halving
  import opened Machine

  /** MAX_ORDER + 1, which the program uses to mean that no bit was seen yet. */
  const NONE: nat := 11

  predicate Bit(x: nat, i: nat)
  {
    Up(x, i) % 2 == 1
  }

  /** The loop from bit i down. */
  function Scan(pages: nat, i: nat, order: nat): nat
  {
    if Bit(pages, i) && order != NONE then order + 1
    else
      var o := if Bit(pages, i) then i else order;
      if i == 0 then o else Scan(pages, i - 1, o)
  }

  function Log(pages: nat): nat
  {
    var o := Scan(pages, 63, NONE);
    if o == NONE then 0 else o
  }

  method LogOrder(pages: nat) returns (r: nat)
    requires pages < WORD
    ensures r == Log(pages)
  {
    var order := NONE;
    var i := 63;
    while true
      invariant 0 <= i <= 63 && Scan(pages, i, order) == Scan(pages, 63, NONE)
      decreases i
    {
      var bit := Up(pages, i) % 2;
      if bit == 1 && order != NONE {
        order := order + 1;
        break;
      }
      if bit == 1 {
        order := i;
      }
      if i == 0 {
        break;
      }
      i := i - 1;
    }
    r := if order == NONE then 0 else order;
  }

  /** The least order whose blocks hold the pages. */
  predicate IsLeastOrder(pages: nat, k: nat)
  {
    pages <= Pow2(k) && (k > 0 ==> Pow2(k - 1) < pages)
  }

  // ---------------------------------------------------------------- bits

  /** Some bit from i down is set. */
  predicate AnyBit(x: nat, i: nat)
  {
    Bit(x, i) || (i > 0 && AnyBit(x, i - 1))
  }

  /** No bit from i down is set exactly when the number is a multiple of 2^(i + 1). */
  lemma {:induction false} NoLowBits(x: nat, i: nat)
    ensures !AnyBit(x, i) <==> x == First(Up(x, i + 1), i + 1)
  {
    UpStep(x, i);
    FirstDouble(Up(x, i + 1), i);
    UpFirst(Up(x, i + 1), i + 1);
    if i == 0 {
      assert Up(x, 0) == x && Up(x, 1) == x / 2;
      assert First(x / 2, 1) == 2 * (x / 2);
    } else {
      NoLowBits(x, i - 1);
      MultipleHalves(x, i);
    }
  }

  lemma MultipleHalves(x: nat, i: nat)
    ensures x == First(Up(x, i + 1), i + 1) <==> x == First(Up(x, i), i) && Up(x, i) % 2 == 0
  {
    UpStep(x, i);
    var y := Up(x, i + 1);
    assert First(y, i + 1) == First(2 * y, i);
    UpFirst(2 * y, i);
  }

  /** Once a bit has been seen, one more set bit means rounding up. */
  lemma {:induction false} ScanRest(x: nat, i: nat, o: nat)
    requires o != NONE
    ensures Scan(x, i, o) == if AnyBit(x, i) then o + 1 else o
  {
    if i == 0 || Bit(x, i) {
    } else {
      ScanRest(x, i - 1, o);
    }
  }

  /** Above its highest bit a number has none. */
  lemma {:induction false} ScanDown(x: nat, i: nat, t: nat)
    requires t <= i && Up(x, t + 1) == 0
    ensures Scan(x, i, NONE) == Scan(x, t, NONE)
    decreases i
  {
    if t == i {
    } else {
      UpUp(x, t + 1, i - t - 1);
      UpZero(i - t - 1);
      ScanDown(x, i - 1, t);
    }
  }

  lemma {:induction false} UpZero(k: nat)
    ensures Up(0, k) == 0
  {
    if k == 0 {
    } else {
      UpZero(k - 1);
    }
  }

  /** Every number from 1 up lies between two powers of two. */
  lemma {:induction false} TopBit(x: nat, bound: nat) returns (t: nat)
    requires 0 < x < Pow2(bound)
    ensures t < bound && Pow2(t) <= x < Pow2(t + 1) && Up(x, t) == 1
  {
    if x == 1 {
      t := 0;
    } else {
      t := TopBit(x / 2, bound - 1);
      t := t + 1;
    }
  }

  /** What the program returns for a number whose highest bit is t. */
  lemma LogFromTop(x: nat, t: nat)
    requires t < 64 && Up(x, t) == 1
    ensures var o := if x == Pow2(t) then t else t + 1;
      if t == NONE then Log(x) < NONE else Log(x) == if o == NONE then 0 else o
  {
    UpStep(x, t);
    ScanDown(x, 63, t);
    assert Bit(x, t);
    if t != NONE {
      if t == 0 {
        assert x == 1;
      } else {
        ScanRest(x, t - 1, t);
        NoLowBits(x, t - 1);
        FirstIsProduct(1, t);
      }
    } else {
      ScanLow(x, t - 1);
    }
  }

  /** From bit 10 down the scan never gets past 11. */
  lemma {:induction false} ScanLow(x: nat, i: nat)
    requires i < NONE
    ensures Scan(x, i, NONE) <= NONE
  {
    if Bit(x, i) {
      if i > 0 {
        ScanRest(x, i - 1, i);
      }
    } else if i > 0 {
      ScanLow(x, i - 1);
    }
  }

  lemma {:induction false} PowGrows(j: nat, k: nat)
    requires j < k
    ensures 2 * Pow2(j) <= Pow2(k)
  {
    if j == k - 1 {
    } else {
      PowGrows(j, k - 1);
    }
  }

  lemma LeastOrderUnique(x: nat, j: nat, k: nat)
    requires IsLeastOrder(x, j) && IsLeastOrder(x, k)
    ensures j == k
  {
    if j < k - 1 {
      PowGrows(j, k - 1);
    } else if k < j - 1 {
      PowGrows(k, j - 1);
    }
  }

  lemma Powers()
    ensures Pow2(10) == 1024 && Pow2(11) == 2048 && Pow2(12) == 4096 && Pow2(64) == WORD
  {
    assert Pow2(5) == 32;
    assert Pow2(10) == 1024;
    assert Pow2(15) == 32768;
    PowAdd(32, 32);
    PowAdd(16, 16);
    PowAdd(8, 8);
    assert Pow2(8) == 256;
  }

  lemma {:induction false} PowAdd(a: nat, b: nat)
    ensures Pow2(a + b) == Pow2(a) * Pow2(b)
  {
    if a == 0 {
    } else {
      PowAdd(a - 1, b);
    }
  }

  /** log_order returns the least order that fits exactly for arguments up to 1024 and from 4096 up: an
      order of 11 is taken for the mark that says no bit was seen. */
  lemma LogIsLeastOrder(pages: nat)
    requires pages < WORD
    ensures IsLeastOrder(pages, Log(pages)) <==> pages <= 1024 || pages >= 4096
  {
    Powers();
    if pages == 0 {
      assert Up(0, 0) == 0;
      UpZero(1);
      ScanDown(0, 63, 0);
      assert Pow2(0) == 1;
    } else {
      var t := TopBit(pages, 64);
      LogFromTop(pages, t);
      var right := if pages == Pow2(t) then t else t + 1;
      assert IsLeastOrder(pages, right) by {
        if pages == Pow2(t) && t > 0 {
          assert Pow2(t) == 2 * Pow2(t - 1);
        }
      }
      if t < 10 { PowGrows(t, 11); Pow2Monotone(t + 1, 10); }
      if t > 11 { Pow2Monotone(12, t); }
      if IsLeastOrder(pages, Log(pages)) {
        LeastOrderUnique(pages, right, Log(pages));
      }
    }
  }

  // ---------------------------------------------------------------- between 2048 and 4095

  lemma {:induction false} UpBelow(x: nat, k: nat)
    requires x < Pow2(k)
    ensures Up(x, k) == 0
  {
    if k == 0 {
    } else {
      UpBelow(x / 2, k - 1);
    }
  }

  lemma {:induction false} UpShift(y: nat, k: nat, i: nat)
    requires i <= k
    ensures Up(y + Pow2(k), i) == Up(y, i) + Pow2(k - i)
    decreases i
  {
    if i == 0 {
    } else {
      assert Pow2(k) == 2 * Pow2(k - 1);
      UpShift(y / 2, k - 1, i - 1);
    }
  }

  lemma {:induction false} ScanShift(y: nat, k: nat, i: nat, order: nat)
    requires i < k
    ensures Scan(y + Pow2(k), i, order) == Scan(y, i, order)
    decreases i
  {
    UpShift(y, k, i);
    assert Pow2(k - i) == 2 * Pow2(k - i - 1);
    if i == 0 {
    } else {
      ScanShift(y, k, i - 1, order);
      ScanShift(y, k, i - 1, i);
    }
  }

  /** Bit 11 is forgotten as soon as it is seen. */
  lemma LogForgets(y: nat)
    requires y < 2048
    ensures Log(y + 2048) == Log(y)
  {
    Powers();
    UpBelow(y, 11);
    UpBelow(y + 2048, 12);
    ScanDown(y + 2048, 63, 11);
    ScanDown(y, 63, 10);
    UpShift(y, 11, 11);
    ScanShift(y, 11, 10, NONE);
    ScanDown(y, 11, 10);
  }

  lemma LogOf2049()
    ensures Log(2049) == 0
  {
    LogForgets(1);
    LogFromTop(1, 0);
  }
}
