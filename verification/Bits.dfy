/** Bits::Log2FloorNonZero64, which both the varint sizes and the arena's free lists rest on. */
module Bits {

  function Pow2(k: nat): (r: nat)
    ensures r >= 1
  {
    if k == 0 then 1 else 2 * Pow2(k - 1)
  }

  /** The position of the highest set bit. */
  function Log2Floor(n: nat): nat
    requires n >= 1
  {
    if n == 1 then 0 else 1 + Log2Floor(n / 2)
  }

  lemma {:induction false} Log2FloorBounds(n: nat)
    requires n >= 1
    ensures Pow2(Log2Floor(n)) <= n < Pow2(Log2Floor(n) + 1)
  {
    if n > 1 {
      Log2FloorBounds(n / 2);
    }
  }

  lemma {:induction false} Pow2Monotone(a: nat, b: nat)
    requires a <= b
    ensures Pow2(a) <= Pow2(b)
    decreases b
  {
    if a < b {
      Pow2Monotone(a, b - 1);
    }
  }

  lemma {:induction false} Pow2Exceeds(k: nat)
    ensures Pow2(k) > k
  {
    if k > 0 {
      Pow2Exceeds(k - 1);
    }
  }

  lemma Log2FloorBelow(n: nat, k: nat)
    requires 1 <= n < Pow2(k)
    ensures Log2Floor(n) < k
  {
    Log2FloorBounds(n);
    if k <= Log2Floor(n) {
      Pow2Monotone(k, Log2Floor(n));
    }
  }

  lemma Pow2At()
    ensures Pow2(32) == 0x1_0000_0000 && Pow2(64) == 0x1_0000_0000_0000_0000
  {
    assert Pow2(8) == 256;
    assert Pow2(16) == 0x1_0000;
    assert Pow2(24) == 0x100_0000;
    assert Pow2(32) == 0x1_0000_0000;
    assert Pow2(40) == 0x100_0000_0000;
    assert Pow2(48) == 0x1_0000_0000_0000;
    assert Pow2(56) == 0x100_0000_0000_0000;
  }
}
