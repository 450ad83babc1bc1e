/** Bitwise operations on natural numbers, by their binary digits. */
module Bits {

  function Pow2(k: nat): (p: nat)
    ensures p > 0
  {
    if k == 0 then 1 else 2 * Pow2(k - 1)
  }

  /** `a & b`. */
  function And(a: nat, b: nat): (r: nat)
    ensures r <= a && r <= b
  {
    if a == 0 || b == 0 then 0
    else (if a % 2 == 1 && b % 2 == 1 then 1 else 0) + 2 * And(a / 2, b / 2)
  }

  /** `a | b`. */
  function Or(a: nat, b: nat): (r: nat)
    ensures r >= a && r >= b
  {
    if a == 0 then b else if b == 0 then a
    else (if a % 2 == 1 || b % 2 == 1 then 1 else 0) + 2 * Or(a / 2, b / 2)
  }

  /** `a ^ b`. */
  function Xor(a: nat, b: nat): (r: nat) {
    if a == 0 then b else if b == 0 then a
    else (if a % 2 != b % 2 then 1 else 0) + 2 * Xor(a / 2, b / 2)
  }

  /** `a & ~m` for an `a` that fits the word. */
  function AndNot(a: nat, m: nat): (r: nat) {
    a - And(a, m)
  }

  /** The macro `is_power_of_2`. */
  predicate IsPowerOf2(x: nat) {
    x != 0 && And(x, x - 1) == 0
  }

  // ---- Digits ---------------------------------------------------------------

  lemma {:induction false} AndDigits(a: nat, b: nat)
    ensures And(a, b) == (if a % 2 == 1 && b % 2 == 1 then 1 else 0) + 2 * And(a / 2, b / 2)
  {
  }

  lemma {:induction false} OrDigits(a: nat, b: nat)
    ensures Or(a, b) == (if a % 2 == 1 || b % 2 == 1 then 1 else 0) + 2 * Or(a / 2, b / 2)
  {
  }

  lemma {:induction false} XorDigits(a: nat, b: nat)
    ensures Xor(a, b) == (if a % 2 != b % 2 then 1 else 0) + 2 * Xor(a / 2, b / 2)
  {
  }

  lemma {:induction false} XorHalves(a: nat, b: nat)
    ensures Xor(a, b) / 2 == Xor(a / 2, b / 2)
    ensures Xor(a, b) % 2 == if a % 2 != b % 2 then 1 else 0
  {
    XorDigits(a, b);
  }

  lemma {:induction false} AndSelf(x: nat)
    ensures And(x, x) == x
  {
    if x > 0 { AndSelf(x / 2); }
  }

  // ---- Exclusive or -----------------------------------------------------------

  lemma {:induction false} XorComm(a: nat, b: nat)
    ensures Xor(a, b) == Xor(b, a)
  {
    if a != 0 && b != 0 { XorComm(a / 2, b / 2); }
  }

  lemma {:induction false} XorAssoc(a: nat, b: nat, c: nat)
    ensures Xor(Xor(a, b), c) == Xor(a, Xor(b, c))
  {
    if a != 0 && b != 0 && c != 0 {
      var ab, bc := Xor(a, b), Xor(b, c);
      XorHalves(a, b);
      XorHalves(b, c);
      XorHalves(ab, c);
      XorHalves(a, bc);
      XorAssoc(a / 2, b / 2, c / 2);
      assert Xor(ab, c) / 2 == Xor(a, bc) / 2 && Xor(ab, c) % 2 == Xor(a, bc) % 2;
    }
  }

  lemma {:induction false} XorSelf(a: nat)
    ensures Xor(a, a) == 0
  {
    if a != 0 { XorSelf(a / 2); }
  }

  lemma {:induction false} XorCancel(a: nat, b: nat, c: nat)
    requires Xor(c, a) == Xor(c, b)
    ensures a == b
  {
    XorSelf(c);
    XorAssoc(c, c, a);
    XorAssoc(c, c, b);
  }

  /** The exclusive or of two words is a word, and has its top bit when one of them does. */
  lemma {:induction false} XorBound(a: nat, b: nat, k: nat)
    requires a < Pow2(k) && b < Pow2(k)
    ensures Xor(a, b) < Pow2(k)
    ensures k > 0 && (a < Pow2(k - 1)) != (b < Pow2(k - 1)) ==> Xor(a, b) >= Pow2(k - 1)
  {
    if a != 0 && b != 0 {
      XorDigits(a, b);
      assert Pow2(k) == 2 * Pow2(k - 1);
      if k > 1 { assert Pow2(k - 1) == 2 * Pow2(k - 2); }
      XorBound(a / 2, b / 2, k - 1);
    }
  }

  /** Masking the top bit tells whether it is set. */
  lemma {:induction false} AndTopBit(x: nat, k: nat)
    requires x < 2 * Pow2(k)
    ensures And(x, Pow2(k)) == 0 <==> x < Pow2(k)
    decreases k
  {
    AndDigits(x, Pow2(k));
    if k > 0 {
      assert Pow2(k) == 2 * Pow2(k - 1);
      AndTopBit(x / 2, k - 1);
    } else {
      assert Pow2(0) == 1 && And(0, 0) == 0;
    }
  }

  /** Two top bits cancel. */
  lemma {:induction false} XorTopCancels(a: nat, b: nat, k: nat)
    requires k > 0 && Pow2(k - 1) <= a < Pow2(k) && Pow2(k - 1) <= b < Pow2(k)
    ensures Xor(a, b) < Pow2(k - 1)
    decreases k
  {
    XorDigits(a, b);
    assert Pow2(k) == 2 * Pow2(k - 1);
    if k > 1 {
      assert Pow2(k - 1) == 2 * Pow2(k - 2);
      XorTopCancels(a / 2, b / 2, k - 1);
    } else {
      assert Pow2(0) == 1 && a == 1 && b == 1;
      assert Xor(0, 0) == 0;
    }
  }

  // ---- Numbers without common bits add up ---------------------------------------

  /** `y << k`. */
  function Shl(y: nat, k: nat): nat
    decreases k
  {
    if k == 0 then y else 2 * Shl(y, k - 1)
  }

  lemma {:induction false} XorHigh(low: nat, high: nat, k: nat)
    requires low < Pow2(k)
    ensures Xor(low, Shl(high, k)) == low + Shl(high, k)
  {
    if k > 0 {
      XorHigh(low / 2, high, k - 1);
      EvenHalf(Shl(high, k - 1));
      XorDigits(low, Shl(high, k));
    }
  }

  lemma {:induction false} OrHigh(low: nat, high: nat, k: nat)
    requires low < Pow2(k)
    ensures Or(Shl(high, k), low) == Shl(high, k) + low
  {
    if k > 0 {
      OrHigh(low / 2, high, k - 1);
      EvenHalf(Shl(high, k - 1));
      OrDigits(Shl(high, k), low);
    }
  }

  lemma EvenHalf(z: nat)
    ensures 2 * z % 2 == 0 && 2 * z / 2 == z
  {
  }

  // ---- Masks ------------------------------------------------------------------

  /** The test by clearing the lowest bit recognises the powers of two. */
  lemma {:induction false} PowerOf2Iff(x: nat)
    ensures IsPowerOf2(x) <==> exists k: nat :: x == Pow2(k)
  {
    if x == 1 {
      assert x == Pow2(0);
      assert And(1, 0) == 0;
    } else if x > 1 {
      AndDigits(x, x - 1);
      if x % 2 == 1 {
        assert (x - 1) / 2 == x / 2;
        AndSelf(x / 2);
        forall k: nat ensures x != Pow2(k) {
          assert k > 0 ==> Pow2(k) == 2 * Pow2(k - 1);
        }
      } else {
        assert (x - 1) / 2 == x / 2 - 1;
        PowerOf2Iff(x / 2);
        DoublePower(x / 2);
      }
    }
  }

  lemma {:induction false} DoublePower(y: nat)
    requires y > 0
    ensures (exists k: nat :: y == Pow2(k)) <==> (exists k: nat :: 2 * y == Pow2(k))
  {
    if k: nat :| y == Pow2(k) { assert 2 * y == Pow2(k + 1); }
    if k: nat :| 2 * y == Pow2(k) {
      assert k > 0;
      assert y == Pow2(k - 1);
    }
  }

  /** Masking with a power of two less one takes the remainder. */
  lemma {:induction false} AndMask(x: nat, k: nat)
    ensures And(x, Pow2(k) - 1) == x % Pow2(k)
  {
    if k == 0 {
      assert x % 1 == 0;
    } else {
      AndMask(x / 2, k - 1);
      MaskStep(x, Pow2(k - 1));
    }
  }

  lemma {:induction false} MaskStep(x: nat, m: nat)
    requires m > 0 && And(x / 2, m - 1) == x / 2 % m
    ensures And(x, 2 * m - 1) == x % (2 * m)
  {
    var low, high := x % 2, x / 2 % m;
    assert x % (2 * m) == low + 2 * high by { HalfMod(x, m); }
    assert And(x, 2 * m - 1) == low + 2 * high by {
      AndDigits(x, 2 * m - 1);
      assert (2 * m - 1) / 2 == m - 1 && (2 * m - 1) % 2 == 1;
    }
  }

  lemma HalfMod(x: nat, m: nat)
    requires m > 0
    ensures x % (2 * m) == x % 2 + 2 * (x / 2 % m)
  {
    var q, r := x / 2 / m, x / 2 % m;
    assert x / 2 == m * q + r;
    var low := x % 2 + 2 * r;
    assert x == 2 * m * q + low;
    ModUnique(x, 2 * m, q, low);
  }

  /** Quotient and remainder are determined by their defining equation. */
  lemma ModUnique(x: nat, m: nat, q: nat, r: nat)
    requires m > 0 && x == m * q + r && r < m
    ensures x % m == r && x / m == q
  {
    var q', r' := x / m, x % m;
    assert x == m * q' + r';
    if q' > q {
      MulGrows(m, q + 1, q');
      assert false;
    } else if q > q' {
      MulGrows(m, q' + 1, q);
      assert false;
    }
  }

  lemma MulGrows(m: nat, a: nat, b: nat)
    requires a <= b
    ensures m * a <= m * b
  {
  }
}
