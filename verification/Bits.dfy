// Bitwise operations of the C++ unsigned types, on natural numbers, with the
// two bit tricks the arena relies on.
module Bits {
  function Pow2(n: nat): (p: nat)
    ensures p >= 1
  {
    if n == 0 then 1 else 2 * Pow2(n - 1)
  }

  function And(a: nat, b: nat): (r: nat)
    ensures r <= a && r <= b
  {
    if a == 0 then 0 else (if a % 2 == 1 && b % 2 == 1 then 1 else 0) + 2 * And(a / 2, b / 2)
  }

  function Or(a: nat, b: nat): nat
    decreases a + b
  {
    if a + b == 0 then 0 else (if a % 2 == 1 || b % 2 == 1 then 1 else 0) + 2 * Or(a / 2, b / 2)
  }

  function Xor(a: nat, b: nat): nat
    decreases a + b
  {
    if a + b == 0 then 0 else (if a % 2 != b % 2 then 1 else 0) + 2 * Xor(a / 2, b / 2)
  }

  /** Complement in a word of the given width. */
  function Not(a: nat, width: nat): nat
    requires a < Pow2(width)
  {
    Pow2(width) - 1 - a
  }

  /** Bit i of x. */
  predicate Bit(x: nat, i: nat)
  {
    if i == 0 then x % 2 == 1 else Bit(x / 2, i - 1)
  }

  ghost predicate IsPow2(x: nat)
  {
    exists k: nat :: x == Pow2(k)
  }

  /** The lowest bit of the result, and the rest. */
  lemma AndStep(a: nat, b: nat)
    ensures And(a, b) / 2 == And(a / 2, b / 2)
    ensures And(a, b) % 2 == if a % 2 == 1 && b % 2 == 1 then 1 else 0
  {
    var low := if a % 2 == 1 && b % 2 == 1 then 1 else 0;
    assert And(a, b) == low + 2 * And(a / 2, b / 2);
  }

  /** The lowest bit of the result, and the rest. */
  lemma OrStep(a: nat, b: nat)
    ensures Or(a, b) / 2 == Or(a / 2, b / 2)
    ensures Or(a, b) % 2 == if a % 2 == 1 || b % 2 == 1 then 1 else 0
  {
    var low := if a % 2 == 1 || b % 2 == 1 then 1 else 0;
    assert Or(a, b) == low + 2 * Or(a / 2, b / 2);
  }

  /** The lowest bit of the result, and the rest. */
  lemma XorStep(a: nat, b: nat)
    ensures Xor(a, b) / 2 == Xor(a / 2, b / 2)
    ensures Xor(a, b) % 2 == if a % 2 != b % 2 then 1 else 0
  {
    var low := if a % 2 != b % 2 then 1 else 0;
    assert Xor(a, b) == low + 2 * Xor(a / 2, b / 2);
  }

  lemma {:induction false} AndBits(a: nat, b: nat, i: nat)
    ensures Bit(And(a, b), i) == (Bit(a, i) && Bit(b, i))
    decreases i
  {
    AndStep(a, b);
    if i > 0 {
      AndBits(a / 2, b / 2, i - 1);
    }
  }

  lemma {:induction false} OrBits(a: nat, b: nat, i: nat)
    ensures Bit(Or(a, b), i) == (Bit(a, i) || Bit(b, i))
    decreases i
  {
    OrStep(a, b);
    if i > 0 {
      OrBits(a / 2, b / 2, i - 1);
    }
  }

  lemma {:induction false} XorBits(a: nat, b: nat, i: nat)
    ensures Bit(Xor(a, b), i) == (Bit(a, i) != Bit(b, i))
    decreases i
  {
    XorStep(a, b);
    if i > 0 {
      XorBits(a / 2, b / 2, i - 1);
    }
  }

  lemma HalfComplement(p: nat, a: nat)
    requires a < 2 * p
    ensures (2 * p - 1 - a) / 2 == p - 1 - a / 2
    ensures (2 * p - 1 - a) % 2 == 1 - a % 2
  {}

  lemma {:induction false} ComplementBits(a: nat, width: nat, i: nat)
    requires a < Pow2(width) && i < width
    ensures Bit(Not(a, width), i) == !Bit(a, i)
  {
    HalfComplement(Pow2(width - 1), a);
    if i > 0 { ComplementBits(a / 2, width - 1, i - 1); }
  }

  lemma {:induction false} AndSelf(a: nat)
    ensures And(a, a) == a
  {
    if a > 0 { AndSelf(a / 2); }
  }

  /** x & (x - 1) == 0 accepts exactly the powers of two. */
  lemma {:induction false} PowerOfTwoTest(x: nat)
    requires x > 0
    ensures And(x, x - 1) == 0 <==> IsPow2(x)
  {
    if x == 1 {
      assert x == Pow2(0);
    } else if x % 2 == 1 {
      AndSelf(x / 2);
      assert (x - 1) / 2 == x / 2;
      forall k: nat ensures x != Pow2(k) {}
    } else {
      PowerOfTwoTest(x / 2);
      assert (x - 1) / 2 == x / 2 - 1;
      if IsPow2(x / 2) {
        var k: nat :| x / 2 == Pow2(k);
        assert x == Pow2(k + 1);
      }
      if IsPow2(x) {
        var k: nat :| x == Pow2(k);
        assert k > 0 && x / 2 == Pow2(k - 1);
      }
    }
  }

  lemma AtLeastFactor(n: int, d: nat)
    requires n >= 1
    ensures n * d >= d
  {
    assert n * d == d + (n - 1) * d;
  }

  /** Quotient and remainder are determined by the division equation. */
  lemma DivModUnique(x: nat, d: nat, q: nat, r: nat)
    requires d > 0 && r < d && x == q * d + r
    ensures x / d == q && x % d == r
  {
    var q', r' := x / d, x % d;
    Division(x, d);
    var n := q' - q;
    assert n * d == r - r' && -n * d == r' - r;
    if n >= 1 {
      AtLeastFactor(n, d);
      assert false;
    } else if n <= -1 {
      AtLeastFactor(-n, d);
      assert false;
    }
  }

  lemma Division(x: nat, d: nat)
    requires d > 0
    ensures x == (x / d) * d + x % d
  {}

  lemma HalfMod(x: nat, p: nat)
    requires p > 0
    ensures x % (2 * p) == 2 * ((x / 2) % p) + x % 2
  {
    var q, r := (x / 2) / p, (x / 2) % p;
    assert x / 2 == q * p + r;
    assert x == q * (2 * p) + (2 * r + x % 2);
    DivModUnique(x, 2 * p, q, 2 * r + x % 2);
  }

  lemma {:induction false} Pow2Monotone(k: nat, n: nat)
    requires k <= n
    ensures Pow2(k) <= Pow2(n)
  {
    if k < n { Pow2Monotone(k, n - 1); }
  }

  lemma HalfOfDouble(m: nat)
    ensures 2 * m / 2 == m && 2 * m % 2 == 0
    ensures (2 * m + 1) / 2 == m && (2 * m + 1) % 2 == 1
  {}

  lemma HalveAnd(x: nat, m: nat)
    ensures And(x, 2 * m) == 2 * And(x / 2, m)
    ensures And(x, 2 * m + 1) == x % 2 + 2 * And(x / 2, m)
  {
    hide And;
    HalfOfDouble(m);
    AndStep(x, 2 * m);
    AndStep(x, 2 * m + 1);
  }

  lemma {:induction false} AndAllOnes(x: nat, width: nat)
    requires x < Pow2(width)
    ensures And(x, Pow2(width) - 1) == x
  {
    if width > 0 {
      AndAllOnes(x / 2, width - 1);
      HalveAnd(x, Pow2(width - 1) - 1);
    }
  }

  lemma MaskStep(x: nat, p: nat, m: nat)
    requires p > 0 && And(x / 2, m) == x / 2 - (x / 2) % p
    ensures And(x, 2 * m) == x - x % (2 * p)
  {
    hide And;
    HalfMod(x, p);
    HalveAnd(x, m);
  }

  /** x & ~(2^k - 1) clears the low k bits: it rounds x down to a multiple of 2^k. */
  lemma {:induction false} MaskRoundsDown(x: nat, k: nat, width: nat)
    requires k <= width && x < Pow2(width) && Pow2(k) <= Pow2(width)
    ensures And(x, Not(Pow2(k) - 1, width)) == x - x % Pow2(k)
    decreases width
  {
    hide And;
    if k == 0 {
      AndAllOnes(x, width);
      assert x % 1 == 0;
    } else {
      Pow2Monotone(k - 1, width - 1);
      MaskRoundsDown(x / 2, k - 1, width - 1);
      MaskStep(x, Pow2(k - 1), Not(Pow2(k - 1) - 1, width - 1));
    }
  }
}
