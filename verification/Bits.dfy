/** The C operators `&` and `|` on unsigned values, bit by bit.
  * The shifts need no model: C defines them as multiplication and division by a power of two. */
module Bits {
  import opened Arithmetic

  function And(x: nat, y: nat): nat {
    if x == 0 || y == 0 then 0 else (if x % 2 + y % 2 == 2 then 1 else 0) + 2 * And(x / 2, y / 2)
  }

  function Or(x: nat, y: nat): nat {
    if x == 0 then y else if y == 0 then x
    else (if x % 2 + y % 2 > 0 then 1 else 0) + 2 * Or(x / 2, y / 2)
  }

  function Pow2(k: nat): (p: nat)
    ensures p > 0
  {
    if k == 0 then 1 else 2 * Pow2(k - 1)
  }

  lemma HalfModulus(x: nat, p: nat)
    requires p > 0
    ensures x % (2 * p) == x % 2 + 2 * ((x / 2) % p)
  {
    var q, r := (x / 2) / p, (x / 2) % p;
    assert x / 2 == p * q + r;
    RemainderIs(x, 2 * p, q, x % 2 + 2 * r);
  }

  lemma RemainderIs(x: nat, m: nat, q: nat, r: nat)
    requires m > 0 && x == m * q + r && r < m
    ensures x % m == r
  {
    var d := x / m - q;
    assert m * d == r - x % m by {
      assert m * d == m * (x / m) - m * q;
    }
    assert d == 0;
  }

  lemma AndZero(x: nat)
    ensures And(x, 0) == 0
  {
  }

  /** Masking with k one bits is the remainder modulo 2^k. */
  lemma {:induction false} AndLowMask(x: nat, k: nat)
    ensures And(x, Pow2(k) - 1) == x % Pow2(k)
  {
    hide And;
    if k == 0 {
      AndZero(x);
    } else {
      HalfModulus(x, Pow2(k - 1));
      AndLowMask(x / 2, k - 1);
      AndStep(x, Pow2(k) - 1);
      assert (Pow2(k) - 1) / 2 == Pow2(k - 1) - 1 && (Pow2(k) - 1) % 2 == 1;
    }
  }

  /** Setting bits that are clear is addition. */
  lemma {:induction false} OrDisjoint(hi: nat, lo: nat, k: nat)
    requires lo < Pow2(k)
    ensures Or(hi * Pow2(k), lo) == hi * Pow2(k) + lo
  {
    if k > 0 {
      var p := Pow2(k - 1);
      DoubleProduct(hi, p);
      OrDisjoint(hi, lo / 2, k - 1);
    }
  }

  lemma {:induction false} OrCommutes(x: nat, y: nat)
    ensures Or(x, y) == Or(y, x)
  {
    if x != 0 && y != 0 {
      OrCommutes(x / 2, y / 2);
    }
  }

  lemma Powers()
    ensures Pow2(6) == 64 && Pow2(7) == 128 && Pow2(8) == 256 && Pow2(10) == 1024
    ensures Pow2(3) == 8 && Pow2(4) == 16 && Pow2(5) == 32
  {
    assert Pow2(3) == 8;
    assert Pow2(6) == 64;
    assert Pow2(9) == 512;
  }

  lemma Mask7(x: nat) ensures And(x, 0x7F) == x % 128 { Powers(); AndLowMask(x, 7); }

  lemma Mask8(x: nat) ensures And(x, 0xFF) == x % 256 { Powers(); AndLowMask(x, 8); }

  lemma Mask10(x: nat) ensures And(x, 0x3FF) == x % 1024 { Powers(); AndLowMask(x, 10); }

  lemma Join10(hi: nat, lo: nat)
    requires lo < 1024
    ensures Or(hi * 1024, lo) == hi * 1024 + lo
  {
    Powers();
    OrDisjoint(hi, lo, 10);
  }

  /** Merging the mark of a first byte, whose low bits are clear. */
  lemma MergeMark(x: nat, hi: nat, k: nat)
    requires x < Pow2(k)
    ensures Or(x, hi * Pow2(k)) == hi * Pow2(k) + x
  {
    OrCommutes(x, hi * Pow2(k));
    OrDisjoint(hi, x, k);
  }

  lemma Lead2(x: nat)
    requires x < 32
    ensures And(Or(x, 0xC0), 0xFF) == 0xC0 + x
  {
    hide And, Or, Pow2;
    Powers();
    MergeMark(x, 6, 5);
    Mask8(0xC0 + x);
  }

  lemma Lead3(x: nat)
    requires x < 16
    ensures And(Or(x, 0xE0), 0xFF) == 0xE0 + x
  {
    hide And, Or, Pow2;
    Powers();
    MergeMark(x, 14, 4);
    Mask8(0xE0 + x);
  }

  lemma Lead4(x: nat)
    requires x < 8
    ensures And(Or(x, 0xF0), 0xFF) == 0xF0 + x
  {
    hide And, Or, Pow2;
    Powers();
    MergeMark(x, 30, 3);
    Mask8(0xF0 + x);
  }

  lemma ContinuationBits(x: nat)
    ensures And(Or(x, 0x80), 0xBF) == 0x80 + x % 64
  {
    Powers();
    MarkAndMask(x, 6);
  }

  lemma AndStep(x: nat, y: nat)
    ensures And(x, y) == (if x % 2 + y % 2 == 2 then 1 else 0) + 2 * And(x / 2, y / 2)
  {
  }

  lemma OrStep(x: nat, y: nat)
    ensures Or(x, y) == (if x % 2 + y % 2 > 0 then 1 else 0) + 2 * Or(x / 2, y / 2)
  {
  }

  lemma MarkSecondBit(x: nat)
    ensures And(Or(x, 2), 2) == 2
  {
    var b := Or(x / 2, 1);
    OrStep(x / 2, 1);
    assert b == 1 + 2 * Or(x / 2 / 2, 0);
    assert b % 2 == 1;
    OrStep(x, 2);
    assert Or(x, 2) / 2 == b;
    AndStep(b, 1);
    assert And(b / 2, 0) == 0;
    AndStep(Or(x, 2), 2);
  }

  /** With bit k + 1 set and bit k cleared, only the k low bits of `x` are left to see. */
  lemma {:induction false} MarkAndMask(x: nat, k: nat)
    ensures And(Or(x, 2 * Pow2(k)), 3 * Pow2(k) - 1) == 2 * Pow2(k) + x % Pow2(k)
  {
    hide And, Or;
    if k == 0 {
      MarkSecondBit(x);
    } else {
      var p := Pow2(k - 1);
      MarkAndMask(x / 2, k - 1);
      HalfModulus(x, p);
      MarkAndMaskStep(x, p);
    }
  }

  lemma MarkAndMaskStep(x: nat, p: nat)
    requires p > 0
    ensures And(Or(x, 4 * p), 6 * p - 1) == x % 2 + 2 * And(Or(x / 2, 2 * p), 3 * p - 1)
  {
    hide And, Or;
    var half := Or(x / 2, 2 * p);
    OrStep(x, 4 * p);
    assert 4 * p / 2 == 2 * p;
    assert Or(x, 4 * p) == x % 2 + 2 * half;
    AndStep(x % 2 + 2 * half, 6 * p - 1);
    assert (6 * p - 1) % 2 == 1 && (6 * p - 1) / 2 == 3 * p - 1;
  }
}
