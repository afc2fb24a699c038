// The unsigned 32-bit operators of the C++ code on natural numbers, and the two facts that
// turn masks and disjoint unions of bits into remainders and sums.
module Bits {

  const TWO_TO_THE_32: nat := 0x1_0000_0000

  function Pow2(k: nat): (p: nat)
    ensures p > 0
  {
    if k == 0 then 1 else 2 * Pow2(k - 1)
  }

  // `x << k` on std::uint32_t: bits moved past position 31 are lost.
  function Shl(x: nat, k: nat): nat {
    x * Pow2(k) % TWO_TO_THE_32
  }

  // `x >> k`
  function Shr(x: nat, k: nat): nat {
    QuotientIsNat(x, Pow2(k));
    x / Pow2(k)
  }

  lemma QuotientIsNat(x: nat, d: nat)
    requires d > 0
    ensures x / d >= 0
  {
    var q := x / d;
    assert x == d * q + x % d;
    if q < 0 {
      ProductGap(d, -q, 0);
    }
  }

  // `x | y`
  function Or(x: nat, y: nat): nat
    decreases x + y
  {
    if x == 0 && y == 0 then 0
    else 2 * Or(x / 2, y / 2) + if x % 2 == 1 || y % 2 == 1 then 1 else 0
  }

  // `x & y`
  function And(x: nat, y: nat): nat
    decreases x
  {
    if x == 0 || y == 0 then 0
    else 2 * And(x / 2, y / 2) + if x % 2 == 1 && y % 2 == 1 then 1 else 0
  }

  lemma ProductGap(d: int, a: int, b: int)
    requires d > 0 && a > b >= 0
    ensures d * a >= d * b + d
    decreases a
  {
    assert d * a == d * (a - 1) + d;
    if a - 1 > b {
      ProductGap(d, a - 1, b);
    }
  }

  lemma {:induction false} DivModUnique(x: nat, d: nat, q: nat, r: nat)
    requires 0 <= r < d && x == q * d + r
    ensures x / d == q && x % d == r
  {
    var q', r' := x / d, x % d;
    assert x == d * q' + r';
    if q > q' {
      ProductGap(d, q, q');
    } else if q < q' {
      ProductGap(d, q', q);
    }
  }

  lemma {:induction false} HalfMod(x: nat, m: nat)
    requires m > 0
    ensures x % (2 * m) == 2 * ((x / 2) % m) + x % 2
  {
    var h := x / 2;
    var q, r := h / m, h % m;
    assert x == 2 * (q * m + r) + x % 2;
    assert q * (2 * m) == 2 * (q * m);
    DivModUnique(x, 2 * m, q, 2 * r + x % 2);
  }

  // Masking with k one-bits takes the remainder modulo 2^k.
  lemma {:induction false} AndMask(x: nat, k: nat)
    ensures And(x, Pow2(k) - 1) == x % Pow2(k)
  {
    if k == 0 {
      assert x % 1 == 0;
    } else {
      var m := Pow2(k - 1);
      HalfMod(x, m);
      AndMask(x / 2, k - 1);
      assert (2 * m - 1) / 2 == m - 1 && (2 * m - 1) % 2 == 1;
      if x == 0 {
        assert 0 % m == 0;
      }
    }
  }

  lemma {:induction false} OrZero(x: nat)
    ensures Or(x, 0) == x
  {
    if x != 0 {
      OrZero(x / 2);
    }
  }

  // An or of numbers that share no bit position is their sum.
  lemma {:induction false} OrIsSum(x: nat, y: nat, k: nat)
    requires x % Pow2(k) == 0 && y < Pow2(k)
    ensures Or(x, y) == x + y
  {
    if k == 0 {
      OrZero(x);
    } else {
      HalfMod(x, Pow2(k - 1));
      OrIsSum(x / 2, y / 2, k - 1);
    }
  }

  // The shifts and masks that occur in the codecs.
  lemma SextetMask(x: nat)
    ensures And(x, 0x3F) == x % 64
  {
    AndMask(x, 6);
    assert Pow2(6) == 64;
  }

  lemma Masks(x: nat)
    ensures And(x, 0x0F) == x % 16 && And(x, 0x3F) == x % 64 && And(x, 0xFF) == x % 256
  {
    AndMask(x, 4);
    AndMask(x, 6);
    AndMask(x, 8);
    assert Pow2(4) == 16 && Pow2(6) == 64 && Pow2(8) == 256;
  }

  lemma Shifts(x: nat)
    ensures Shr(x, 0) == x && Shr(x, 2) == x / 4 && Shr(x, 4) == x / 16 && Shr(x, 6) == x / 64
    ensures Shr(x, 12) == x / 4096 && Shr(x, 18) == x / 262144
  {
    assert Pow2(0) == 1 && Pow2(2) == 4 && Pow2(4) == 16 && Pow2(6) == 64;
    assert Pow2(12) == 4096 && Pow2(18) == 262144;
  }

  lemma LeftShifts(x: nat)
    ensures Shl(x, 0) == x % TWO_TO_THE_32 && Shl(x, 2) == 4 * x % TWO_TO_THE_32
    ensures Shl(x, 4) == 16 * x % TWO_TO_THE_32 && Shl(x, 6) == 64 * x % TWO_TO_THE_32
    ensures Shl(x, 8) == 256 * x % TWO_TO_THE_32 && Shl(x, 16) == 65536 * x % TWO_TO_THE_32
  {
    assert Pow2(0) == 1 && Pow2(2) == 4 && Pow2(4) == 16 && Pow2(6) == 64;
    assert Pow2(8) == 256 && Pow2(16) == 65536;
  }
}
