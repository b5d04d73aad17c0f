/**
 * Python's `&` and `>>` on non-negative integers, written out bit by bit,
 * and the facts needed to read a masked-and-shifted value arithmetically.
 */
module Bits {

  function Pow2(k: nat): (p: nat)
    ensures p >= 1
  {
    if k == 0 then 1 else 2 * Pow2(k - 1)
  }

  /** `a & b`: bit i of the result is set exactly when bit i is set in both. */
  function BitAnd(a: nat, b: nat): nat {
    if a == 0 || b == 0 then 0
    else 2 * BitAnd(a / 2, b / 2) + (if a % 2 == 1 && b % 2 == 1 then 1 else 0)
  }

  /** `a >> k`: k halvings, each dropping the low bit. */
  function ShiftRight(a: nat, k: nat): nat {
    if k == 0 then a else ShiftRight(a / 2, k - 1)
  }

  /** Shifting right by k is floor division by 2^k. */
  lemma {:induction false} ShiftRightIsDiv(a: nat, k: nat)
    ensures ShiftRight(a, k) == a / Pow2(k)
  {
    if k > 0 {
      ShiftRightIsDiv(a / 2, k - 1);
      DivDiv(a, 2, Pow2(k - 1));
    }
  }

  /** The k low bits of w, read as a number. */
  function LowBits(w: nat, k: nat): nat {
    if k == 0 then 0 else 2 * LowBits(w / 2, k - 1) + w % 2
  }

  /** Masking with k low one-bits keeps the k low bits. */
  lemma {:induction false} AndLowOnes(k: nat, w: nat)
    ensures BitAnd(Pow2(k) - 1, w) == LowBits(w, k)
  {
    if k > 0 && w == 0 {
      LowBitsOfZero(k);
    } else if k > 0 {
      LowOnesHalved(k);
      AndLowOnes(k - 1, w / 2);
    }
  }

  lemma {:induction false} LowBitsOfZero(k: nat)
    ensures LowBits(0, k) == 0
  {
    if k > 0 {
      LowBitsOfZero(k - 1);
    }
  }

  /** The k low bits are the remainder modulo 2^k. */
  lemma {:induction false} LowBitsIsMod(w: nat, k: nat)
    ensures LowBits(w, k) == w % Pow2(k)
  {
    if k == 0 {
      DivModUnique(w, 1, w, 0);
    } else {
      LowBitsIsMod(w / 2, k - 1);
      ModDouble(w, Pow2(k - 1));
    }
  }

  lemma LowOnesHalved(k: nat)
    requires k > 0
    ensures Pow2(k) - 1 > 0
    ensures (Pow2(k) - 1) / 2 == Pow2(k - 1) - 1 && (Pow2(k) - 1) % 2 == 1
  {
    var p := Pow2(k - 1);
    DivModUnique(Pow2(k) - 1, 2, p - 1, 1);
  }

  /** w mod 2p, read from w/2 mod p and the low bit of w. */
  lemma ModDouble(w: nat, p: nat)
    requires p >= 1
    ensures w % (2 * p) == 2 * ((w / 2) % p) + w % 2
  {
    var q := (w / 2) / p;
    var r := (w / 2) % p;
    assert w / 2 == q * p + r;
    assert w == 2 * (w / 2) + w % 2;
    assert w == q * (2 * p) + (2 * r + w % 2);
    assert 0 <= 2 * r + w % 2 < 2 * p;
    DivModUnique(w, 2 * p, q, 2 * r + w % 2);
  }

  /** Euclidean division has one quotient and one remainder. */
  lemma DivModUnique(w: int, d: int, q: int, r: int)
    requires d > 0 && 0 <= r < d && w == q * d + r
    ensures w % d == r && w / d == q
  {
    var q0, r0 := w / d, w % d;
    assert w == q0 * d + r0;
    assert (q - q0) * d == r0 - r by {
      assert q * d - q0 * d == (q - q0) * d;
    }
    if q - q0 >= 1 {
      MulAtLeast(q - q0, d);
    } else if q0 - q >= 1 {
      MulAtLeast(q0 - q, d);
    }
  }

  lemma MulAtLeast(x: int, d: int)
    requires x >= 1 && d > 0
    ensures x * d >= d
  {
    assert x * d == (x - 1) * d + d;
    assert (x - 1) * d >= 0;
  }

  /** A mask shifted left by k acts on the value shifted right by k, then shifts back. */
  lemma {:induction false} AndShiftedMask(k: nat, m: nat, w: nat)
    ensures BitAnd(Pow2(k) * m, w) == Pow2(k) * BitAnd(m, ShiftRight(w, k))
  {
    if k == 0 {
      assert Pow2(k) == 1;
    } else if m == 0 {
      assert Pow2(k) * m == 0 && BitAnd(m, ShiftRight(w, k)) == 0;
    } else if w == 0 {
      ShiftRightIsDiv(w, k);
      assert BitAnd(m, ShiftRight(w, k)) == 0;
    } else {
      var p := Pow2(k - 1);
      var x := BitAnd(m, ShiftRight(w, k));
      Pow2Step(k, m);
      AndEvenMask(p * m, w);
      assert BitAnd(Pow2(k) * m, w) == 2 * BitAnd(p * m, w / 2);
      AndShiftedMask(k - 1, m, w / 2);
      assert ShiftRight(w, k) == ShiftRight(w / 2, k - 1);
      assert BitAnd(p * m, w / 2) == p * x;
      Pow2Step(k, x);
    }
  }

  lemma Pow2Step(k: nat, m: nat)
    requires k >= 1
    ensures Pow2(k) * m == 2 * (Pow2(k - 1) * m)
    ensures m >= 1 ==> Pow2(k - 1) * m >= 1
  {
    if m >= 1 {
      MulAtLeast(m, Pow2(k - 1));
    }
  }

  /** An even mask drops the low bit: `(2x) & w == 2 * (x & (w >> 1))`. */
  lemma AndEvenMask(x: nat, w: nat)
    requires x >= 1 && w >= 1
    ensures BitAnd(2 * x, w) == 2 * BitAnd(x, w / 2)
  {
    assert (2 * x) / 2 == x && (2 * x) % 2 == 0;
  }

  lemma DivDiv(w: nat, a: nat, b: nat)
    requires a >= 1 && b >= 1
    ensures w / a / b == w / (a * b)
  {
    var q := w / a / b;
    var r := (w / a) % b;
    var s := w % a;
    assert w == a * (w / a) + s;
    assert w / a == q * b + r;
    Regroup(a, q, b, r);
    assert w == q * (a * b) + (a * r + s);
    BelowProduct(a, r, b);
    DivModUnique(w, a * b, q, a * r + s);
  }

  lemma Regroup(a: int, q: int, b: int, r: int)
    ensures a * (q * b + r) == q * (a * b) + a * r
  {
  }

  lemma BelowProduct(a: nat, r: nat, b: nat)
    requires r < b
    ensures a * r + a <= a * b
  {
    assert a * b == a * r + a * (b - r);
    if a > 0 {
      MulAtLeast(b - r, a);
    }
  }

  /** `(0xFF0000 & w) >> 16` is bits 16 to 23 of w, read as a number. */
  lemma ThirdByte(w: nat)
    ensures ShiftRight(BitAnd(0xFF0000, w), 16) == (w / 0x10000) % 0x100
  {
    assert Pow2(8) == 0x100 && Pow2(16) == 0x10000;
    assert 0xFF0000 == Pow2(16) * (Pow2(8) - 1);
    AndShiftedMask(16, Pow2(8) - 1, w);
    ShiftRightIsDiv(w, 16);
    AndLowOnes(8, ShiftRight(w, 16));
    LowBitsIsMod(ShiftRight(w, 16), 8);
    ShiftRightIsDiv(BitAnd(0xFF0000, w), 16);
    var y := (w / 0x10000) % 0x100;
    DivModUnique(0x10000 * y, 0x10000, y, 0);
  }
}
