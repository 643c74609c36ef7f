/** The bit operators on unsigned numbers, defined bit by bit, and what they are in arithmetic. */
module Bitwise {
  import opened Arithmetic
  import opened Common

  function Lowest(b: nat): bit {
    b % 2
  }

  function Rest(b: nat): nat {
    b / 2
  }

  /** Bit `j` of a value. */
  function BitOf(b: nat, j: nat): bit {
    if j == 0 then Lowest(b) else BitOf(Rest(b), j - 1)
  }

  function And(a: nat, b: nat): nat {
    if a == 0 then 0 else Lowest(a) * Lowest(b) + 2 * And(Rest(a), Rest(b))
  }

  function Or(a: nat, b: nat): nat
    decreases a + b
  {
    if a == 0 && b == 0 then 0 else (if Lowest(a) == Lowest(b) == 0 then 0 else 1) + 2 * Or(Rest(a), Rest(b))
  }

  function Xor(a: nat, b: nat): nat
    decreases a + b
  {
    if a == 0 && b == 0 then 0 else (if Lowest(a) == Lowest(b) then 0 else 1) + 2 * Xor(Rest(a), Rest(b))
  }

  /** The complement of a value of the given width. */
  function Not(a: nat, width: nat): nat
    requires a < Pow2(width)
  {
    Pow2(width) - 1 - a
  }

  // ---------------------------------------------------------------- bits of results

  lemma {:induction false} ZeroBits(i: nat)
    ensures BitOf(0, i) == 0
  {
    if i > 0 {
      ZeroBits(i - 1);
    }
  }

  lemma {:induction false} AndBits(a: nat, b: nat, i: nat)
    ensures BitOf(And(a, b), i) == BitOf(a, i) * BitOf(b, i)
    decreases i
  {
    if a == 0 {
      ZeroBits(i);
    } else {
      Halves(Lowest(a) * Lowest(b), And(Rest(a), Rest(b)));
      if i > 0 {
        AndBits(Rest(a), Rest(b), i - 1);
      }
    }
  }

  lemma {:induction false} XorBits(a: nat, b: nat, i: nat)
    ensures BitOf(Xor(a, b), i) == if BitOf(a, i) == BitOf(b, i) then 0 else 1
    decreases i
  {
    if a == 0 && b == 0 {
      ZeroBits(i);
    } else {
      Halves(if Lowest(a) == Lowest(b) then 0 else 1, Xor(Rest(a), Rest(b)));
      if i > 0 {
        XorBits(Rest(a), Rest(b), i - 1);
      }
    }
  }

  lemma Halves(b: bit, rest: nat)
    ensures Lowest(b + 2 * rest) == b && Rest(b + 2 * rest) == rest
  {
  }

  lemma {:induction false} NotBits(a: nat, width: nat, i: nat)
    requires a < Pow2(width) && i < width
    ensures BitOf(Not(a, width), i) == 1 - BitOf(a, i)
    decreases i
  {
    assert Rest(a) < Pow2(width - 1);
    Halves(1 - Lowest(a), Not(Rest(a), width - 1));
    if i > 0 {
      NotBits(Rest(a), width - 1, i - 1);
    }
  }

  /** A bit in terms of remainders. */
  lemma {:induction false} BitIsRemainder(a: nat, k: nat)
    ensures BitOf(a, k) == 1 <==> a % Pow2(k + 1) >= Pow2(k)
    decreases k
  {
    if k > 0 {
      BitIsRemainder(Rest(a), k - 1);
      RemainderSplit(a, k);
    } else {
      assert Pow2(1) == 2;
    }
  }

  lemma RemainderSplit(a: nat, k: nat)
    ensures a % Pow2(k + 1) == Lowest(a) + 2 * (Rest(a) % Pow2(k))
  {
    var p, h := Pow2(k), Rest(a);
    var q, r := h / p, h % p;
    assert q * (2 * p) == 2 * (q * p);
    assert a == q * (2 * p) + (Lowest(a) + 2 * r);
    DivModUnique(q, Lowest(a) + 2 * r, 2 * p);
  }

  lemma TopBitIsHalf(a: nat, k: nat)
    requires a < Pow2(k + 1)
    ensures BitOf(a, k) == 1 <==> a >= Pow2(k)
  {
    BitIsRemainder(a, k);
    DivModUnique(0, a, Pow2(k + 1));
  }

  // ---------------------------------------------------------------- masks

  /** Masking with ones below a power of two is the remainder. */
  lemma {:induction false} AndMask(a: nat, k: nat)
    ensures And(a, Pow2(k) - 1) == a % Pow2(k)
    decreases k
  {
    hide Lowest, Rest;
    if k == 0 {
      AndZero(a);
    } else if a == 0 {
      DivModUnique(0, 0, Pow2(k));
    } else {
      var ones := Pow2(k - 1) - 1;
      Halves(1, ones);
      assert Pow2(k) - 1 == 1 + 2 * ones;
      AndMask(Rest(a), k - 1);
      RemainderSplit(a, k - 1);
    }
  }

  lemma {:induction false} AndZero(a: nat)
    ensures And(a, 0) == 0
  {
    if a > 0 {
      AndZero(Rest(a));
    }
  }

  lemma Scaled(x: bit, p: nat)
    ensures 2 * (x * p) == x * (2 * p)
  {
  }

  /** Masking with one bit leaves that bit in its place. */
  lemma {:induction false} AndOneBit(a: nat, k: nat)
    ensures And(a, Pow2(k)) == BitOf(a, k) * Pow2(k)
    decreases k
  {
    hide Lowest, Rest;
    if a == 0 {
      ZeroBits(k);
    } else if k == 0 {
      Halves(1, 0);
      AndZero(Rest(a));
    } else {
      Halves(0, Pow2(k - 1));
      AndOneBit(Rest(a), k - 1);
      Scaled(BitOf(a, k), Pow2(k - 1));
    }
  }

  /** A value shifted to the right. */
  function Shifted(a: nat, k: nat): nat {
    if k == 0 then a else Shifted(Rest(a), k - 1)
  }

  /** Masking with bits that all lie above the lowest `k`. */
  lemma {:induction false} AndAbove(a: nat, x: nat, k: nat)
    ensures And(a, x * Pow2(k)) == And(Shifted(a, k), x) * Pow2(k)
    decreases k
  {
    hide And;
    if k > 0 {
      var y, p := x * Pow2(k - 1), Pow2(k - 1);
      DoubleProduct(x, p);
      AndEven(a, y);
      AndAbove(Rest(a), x, k - 1);
      DoubleProduct(And(Shifted(a, k), x), p);
    }
  }

  lemma AndEven(a: nat, y: nat)
    ensures And(a, 2 * y) == 2 * And(Rest(a), y)
  {
    Halves(0, y);
    assert Rest(0) == 0 && Lowest(2 * y) == 0 && Rest(2 * y) == y;
    hide Lowest, Rest;
    assert And(0, y) == 0;
    NoBit(Lowest(a));
  }

  lemma NoBit(b: bit)
    ensures b * 0 == 0
  {
  }

  lemma DoubleProduct(x: nat, p: nat)
    ensures 2 * (x * p) == x * (2 * p)
  {
  }

  // ---------------------------------------------------------------- joining

  lemma {:induction false} OrZero(a: nat)
    ensures Or(a, 0) == a && Or(0, a) == a
  {
    if a > 0 {
      OrZero(Rest(a));
    }
  }

  /** Joining a value with one whose bits all lie above it is adding. */
  lemma {:induction false} OrAbove(a: nat, x: nat, k: nat)
    requires a < Pow2(k)
    ensures Or(a, x * Pow2(k)) == Or(x * Pow2(k), a) == a + x * Pow2(k)
    decreases k
  {
    if k == 0 {
      OrZero(x);
    } else {
      var y := x * Pow2(k - 1);
      assert x * Pow2(k) == 2 * y;
      Halves(0, y);
      OrAbove(Rest(a), x, k - 1);
    }
  }

  lemma JoinLowest(half: nat, b: bit)
    ensures Or(2 * half, b) == 2 * half + b
  {
    hide Or;
    assert Pow2(1) == 2;
    OrAbove(b, half, 1);
  }

  /** Flipping a set bit subtracts it. */
  lemma {:induction false} XorSetBit(a: nat, k: nat)
    requires BitOf(a, k) == 1
    ensures a >= Pow2(k) && Xor(a, Pow2(k)) == a - Pow2(k)
    decreases k
  {
    if k == 0 {
      XorZero(Rest(a));
    } else {
      Halves(0, Pow2(k - 1));
      XorSetBit(Rest(a), k - 1);
    }
  }

  lemma {:induction false} XorZero(a: nat)
    ensures Xor(a, 0) == a
  {
    if a > 0 {
      XorZero(Rest(a));
    }
  }

  // ---------------------------------------------------------------- the lowest bit

  lemma {:induction false} AndNot(a: nat, width: nat)
    requires a < Pow2(width)
    ensures And(a, Not(a, width)) == 0
    decreases width
  {
    if a > 0 {
      Halves(1 - Lowest(a), Not(Rest(a), width - 1));
      AndNot(Rest(a), width - 1);
    }
  }

  /** The two's complement of a value: minus the value, in unsigned arithmetic of that width. */
  function Minus(a: nat, width: nat): nat
    requires 0 < a < Pow2(width)
  {
    Pow2(width) - a
  }
}
