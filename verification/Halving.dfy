/** Shifting and doubling of block numbers, kept linear: a block of order k is one step
    (a halving or a doubling) away from its neighbours of order k - 1 and k + 1. */
module Halving {

  /** x shifted right k places, one halving at a time (the loop of free_area_length). */
  function Up(x: nat, k: nat): nat
  {
    if k == 0 then x else Up(x / 2, k - 1)
  }

  function Pow2(k: nat): (p: nat)
    ensures p > 0
  {
    if k == 0 then 1 else 2 * Pow2(k - 1)
  }

  lemma {:induction false} Pow2Monotone(j: nat, k: nat)
    requires j <= k
    ensures Pow2(j) <= Pow2(k)
  {
    if j == k {
    } else {
      Pow2Monotone(j, k - 1);
    }
  }

  /** The first page of block i of order k. */
  function First(i: nat, k: nat): nat
    decreases k
  {
    if k == 0 then i else First(2 * i, k - 1)
  }

  lemma {:induction false} UpStep(x: nat, k: nat)
    ensures Up(x, k + 1) == Up(x, k) / 2
  {
    if k == 0 {
    } else {
      UpStep(x / 2, k - 1);
    }
  }

  lemma {:induction false} UpUp(x: nat, a: nat, b: nat)
    ensures Up(x, a + b) == Up(Up(x, a), b)
  {
    if a == 0 {
    } else {
      UpUp(x / 2, a - 1, b);
    }
  }

  lemma {:induction false} UpMonotone(x: nat, y: nat, k: nat)
    requires x <= y
    ensures Up(x, k) <= Up(y, k)
  {
    if k == 0 {
    } else {
      UpMonotone(x / 2, y / 2, k - 1);
    }
  }

  /** Block i of order k holds exactly the pages i * 2^k up to (i + 1) * 2^k. */
  lemma {:induction false} UpIsRange(p: nat, k: nat, i: nat)
    ensures Up(p, k) == i <==> First(i, k) <= p < First(i + 1, k)
  {
    if k == 0 {
    } else {
      UpIsRange(p / 2, k - 1, i);
      FirstDouble(i, k - 1);
      FirstDouble(i + 1, k - 1);
    }
  }

  lemma {:induction false} FirstDouble(i: nat, k: nat)
    ensures First(2 * i, k) == 2 * First(i, k)
    decreases k
  {
    if k == 0 {
    } else {
      FirstDouble(2 * i, k - 1);
    }
  }

  /** A block of order k is 2^k pages long. */
  lemma {:induction false} FirstNext(i: nat, k: nat)
    ensures First(i + 1, k) == First(i, k) + Pow2(k)
    decreases k
  {
    if k == 0 {
    } else {
      FirstNext(2 * i, k - 1);
      FirstNext(2 * i + 1, k - 1);
    }
  }

  lemma {:induction false} FirstIsProduct(i: nat, k: nat)
    ensures First(i, k) == Pow2(k) * i
    decreases k
  {
    if k == 0 {
    } else {
      FirstIsProduct(2 * i, k - 1);
      assert Pow2(k) * i == Pow2(k - 1) * (2 * i);
    }
  }

  lemma {:induction false} FirstFirst(i: nat, j: nat, k: nat)
    ensures First(First(i, j), k) == First(i, j + k)
    decreases j
  {
    if j == 0 {
    } else {
      FirstFirst(2 * i, j - 1, k);
    }
  }

  /** Every block has a first page, and it lies in the block. */
  lemma UpFirst(i: nat, k: nat)
    ensures Up(First(i, k), k) == i
  {
    FirstNext(i, k);
    UpIsRange(First(i, k), k, i);
  }

  /** A block whose number is below the number of whole blocks lies inside the region. */
  lemma {:induction false} InsideBlock(p: nat, n: nat, k: nat)
    ensures Up(p, k) < Up(n, k) ==> p < n
  {
    if p >= n {
      UpMonotone(n, p, k);
    }
  }
}
