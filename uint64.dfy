/**
 * Unsigned 64-bit words and the bit operations the region mapper applies
 * to them.  A word is an integer in [0, 2^64); `<<` drops the bits shifted
 * past bit 63, `>>` is a logical shift, and `&` and `|` work bit by bit
 * from the least significant bit up.
 */
module Uint64 {

  const WORD: nat := 0x1_0000_0000_0000_0000

  /** The values of `uint64_t`. */
  type u64 = x: int | 0 <= x < 0x1_0000_0000_0000_0000

  function Pow2(k: nat): (p: nat)
    ensures p >= 1
  {
    if k == 0 then 1 else 2 * Pow2(k - 1)
  }

  lemma {:induction false} Pow2Add(a: nat, b: nat)
    ensures Pow2(a + b) == Pow2(a) * Pow2(b)
  {
    if a > 0 {
      Pow2Add(a - 1, b);
    }
  }

  /** A word has 64 bits. */
  lemma Pow2Word()
    ensures Pow2(64) == WORD
  {
    Pow2Of32();
    Pow2Add(32, 32);
  }

  lemma Pow2Of32()
    ensures Pow2(32) == 0x1_0000_0000
  {
    Pow2Of16();
    Pow2Add(16, 16);
  }

  lemma Pow2Of16()
    ensures Pow2(16) == 0x1_0000
  {
    assert Pow2(8) == 0x100;
    Pow2Add(8, 8);
  }

  /** `x << k` on a 64-bit word: bits shifted past bit 63 are lost. */
  function ShiftLeft(x: u64, k: nat): u64
  {
    (x * Pow2(k)) % WORD
  }

  /** `x >> k` on an unsigned word. */
  function ShiftRight(x: u64, k: nat): u64
  {
    var p := Pow2(k);
    DivAtMost(x, p);
    x / p
  }

  /** `x | y`, bit by bit. */
  function BitOr(x: nat, y: nat): nat
    decreases x + y
  {
    if x == 0 then y
    else if y == 0 then x
    else 2 * BitOr(x / 2, y / 2) + (if x % 2 == 1 || y % 2 == 1 then 1 else 0)
  }

  /** `x & y`, bit by bit. */
  function BitAnd(x: nat, y: nat): nat
    decreases x + y
  {
    if x == 0 || y == 0 then 0
    else 2 * BitAnd(x / 2, y / 2) + (if x % 2 == 1 && y % 2 == 1 then 1 else 0)
  }

  /** Or-ing two k-bit values gives a k-bit value, so `|` of two words is a word. */
  lemma {:induction false} OrBound(x: nat, y: nat, k: nat)
    requires x < Pow2(k) && y < Pow2(k)
    ensures BitOr(x, y) < Pow2(k)
  {
    if x != 0 && y != 0 {
      assert k > 0;
      OrBound(x / 2, y / 2, k - 1);
    }
  }

  /** Or-ing a value shifted up by k bits with a value below 2^k sets
      disjoint bits, so `|` adds them. */
  lemma {:induction false} OrDisjoint(a: nat, b: nat, k: nat)
    requires b < Pow2(k)
    ensures BitOr(a * Pow2(k), b) == a * Pow2(k) + b
  {
    if k == 0 {
      assert b == 0;
    } else if a != 0 && b != 0 {
      var high := a * Pow2(k);
      assert high == 2 * (a * Pow2(k - 1));
      assert high / 2 == a * Pow2(k - 1) && high % 2 == 0;
      OrDisjoint(a, b / 2, k - 1);
    }
  }

  /** Masking with k one-bits keeps the k low bits: `x & (2^k - 1) == x mod 2^k`. */
  lemma {:induction false} AndLowMask(x: nat, k: nat)
    ensures BitAnd(x, Pow2(k) - 1) == x % Pow2(k)
  {
    if k == 0 {
      assert Pow2(k) - 1 == 0;
    } else if x != 0 {
      var p := Pow2(k - 1);
      OddMaskHalves(p);
      AndLowMask(x / 2, k - 1);
      var low := BitAnd(x / 2, p - 1);
      assert BitAnd(x, 2 * p - 1) == 2 * low + x % 2;
      ModTwice(x, p);
    }
  }

  /** The mask 2p - 1 is the mask p - 1 shifted up by one with a one-bit below. */
  lemma OddMaskHalves(p: nat)
    requires p >= 1
    ensures (2 * p - 1) / 2 == p - 1 && (2 * p - 1) % 2 == 1 && 2 * p - 1 != 0
  {
  }

  /** x mod 2p is twice (x div 2) mod p plus the low bit of x. */
  lemma ModTwice(x: nat, p: nat)
    requires p > 0
    ensures x % (2 * p) == 2 * ((x / 2) % p) + x % 2
  {
    var q := (x / 2) / p;
    var r := (x / 2) % p;
    assert x / 2 == q * p + r;
    assert x == (2 * p) * q + (2 * r + x % 2);
    assert 0 <= 2 * r + x % 2 < 2 * p;
    DivModUnique(x, 2 * p, q, 2 * r + x % 2);
  }

  /** The quotient and remainder of a division are unique. */
  lemma DivModUnique(x: nat, d: nat, q: nat, r: nat)
    requires d > 0 && x == d * q + r && r < d
    ensures x % d == r && x / d == q
  {
    var q', r' := x / d, x % d;
    assert d * q + r == d * q' + r';
    if q > q' {
      MulAtLeast(d, q - q');
      assert false;
    } else if q < q' {
      MulAtLeast(d, q' - q);
      assert false;
    }
  }

  lemma DivAtMost(x: nat, p: nat)
    requires p >= 1
    ensures 0 <= x / p <= x
  {
    var q := x / p;
    if q > 0 {
      MulAtLeast(q, p);
      assert x == p * q + x % p;
    }
  }

  lemma MulAtLeast(d: nat, n: nat)
    requires n >= 1
    ensures d * n >= d
  {
  }
}
