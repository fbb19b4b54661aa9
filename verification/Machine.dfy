/** Arithmetic of the machine words the program uses. */
module Machine {
  const WORD: nat := 0x1_0000_0000_0000_0000

  /** Physical addresses have 52 bits. */
  const TOP: nat := 0x10_0000_0000_0000

  /** Bytes of a page. */
  const PAGE: nat := 4096

  /** Two stretches of memory, each an address and a length, have no byte in common. */
  predicate Disjoint(a: nat, n: nat, b: nat, m: nat)
  {
    a + n <= b || b + m <= a
  }

  /** Subtraction of 64-bit unsigned words wraps. */
  function Minus(x: nat, y: nat): (r: nat)
    ensures x >= y ==> r == x - y
    ensures y < WORD && x < y ==> r == x + WORD - y
  {
    if x >= y then x - y else (x - y) % WORD
  }
}
