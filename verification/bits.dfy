/** Powers of two and the bitwise operators on natural numbers, written bit by bit. */
module Bits {
  const TwoTo32: int := 0x1_0000_0000

  /** `2^k` */
  function Pow2(k: nat): (p: nat)
    ensures p >= 1
  {
    if k == 0 then 1 else 2 * Pow2(k - 1)
  }

  /** The powers of two of the byte and word widths. */
  lemma Pow2Bytes()
    ensures Pow2(2) == 4
    ensures Pow2(8) == 0x100 && Pow2(16) == 0x1_0000 && Pow2(24) == 0x100_0000
    ensures Pow2(32) == TwoTo32
  {
    assert Pow2(8) == 0x100;
    assert Pow2(16) == 0x100 * Pow2(8) by { Pow2Add(8, 8); }
    assert Pow2(24) == 0x100 * Pow2(16) by { Pow2Add(16, 8); }
    assert Pow2(32) == 0x100 * Pow2(24) by { Pow2Add(24, 8); }
  }

  /** Exponents add when powers of two multiply. */
  lemma {:induction false} Pow2Add(a: nat, b: nat)
    ensures Pow2(a + b) == Pow2(a) * Pow2(b)
  {
    if b > 0 {
      Pow2Add(a, b - 1);
      assert Pow2(a + b) == 2 * Pow2(a + b - 1);
    }
  }

  /** Bitwise exclusive or. */
  function Xor(a: nat, b: nat): nat
    decreases a + b
  {
    if a == 0 then b
    else if b == 0 then a
    else (if a % 2 != b % 2 then 1 else 0) + 2 * Xor(a / 2, b / 2)
  }

  /** Bitwise or. */
  function Or(a: nat, b: nat): nat
    decreases a + b
  {
    if a == 0 then b
    else if b == 0 then a
    else (if a % 2 == 1 || b % 2 == 1 then 1 else 0) + 2 * Or(a / 2, b / 2)
  }

  /** Exclusive or of two `k`-bit numbers has `k` bits. */
  lemma {:induction false} XorBelow(a: nat, b: nat, k: nat)
    requires a < Pow2(k) && b < Pow2(k)
    ensures Xor(a, b) < Pow2(k)
    decreases a + b
  {
    if a != 0 && b != 0 {
      assert k != 0;
      XorBelow(a / 2, b / 2, k - 1);
    }
  }

  /** Or-ing a number into the bits above a `k`-bit number adds it. */
  lemma {:induction false} OrAbove(a: nat, b: nat, k: nat)
    requires a < Pow2(k)
    ensures Or(a, b * Pow2(k)) == a + b * Pow2(k)
  {
    if a != 0 && b != 0 {
      assert k != 0;
      var h := Pow2(k - 1);
      var bh := Product(b, h);
      assert b * Pow2(k) == 2 * bh;
      OrAbove(a / 2, b, k - 1);
      assert Or(a, b * Pow2(k)) == a % 2 + 2 * Or(a / 2, bh);
    }
  }

  lemma Product(x: nat, y: nat) returns (z: nat)
    ensures z == x * y
  {
    z := x * y;
  }

  /** Exclusive or with `k` one bits complements a `k`-bit number. */
  lemma {:induction false} XorOnes(a: nat, k: nat)
    requires a < Pow2(k)
    ensures Xor(a, Pow2(k) - 1) == Pow2(k) - 1 - a
  {
    if k > 0 && a != 0 {
      XorOnes(a / 2, k - 1);
      assert (Pow2(k) - 1) / 2 == Pow2(k - 1) - 1;
    }
  }
}
