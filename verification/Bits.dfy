/** Bitwise operators on natural numbers, as the kernel uses them on its 64-bit words.

    `And`, `Or` and `Shr` are defined bit by bit.  The one law everything else needs is
    `AndMask`: masking with a contiguous run of ones is a remainder followed by a
    rounding down.  Every mask of the kernel (entry flags, the address field of a page
    table entry, page offsets, alignment masks) is such a run. */
module Bits {

  const WORD: nat := 0x1_0000_0000_0000_0000

  function Pow2(n: nat): (p: nat)
    ensures p > 0
  {
    if n == 0 then 1 else 2 * Pow2(n - 1)
  }

  function And(a: nat, b: nat): nat
  {
    if a == 0 || b == 0 then 0
    else 2 * And(a / 2, b / 2) + (if a % 2 == 1 && b % 2 == 1 then 1 else 0)
  }

  function Or(a: nat, b: nat): nat
    decreases a + b
  {
    if a == 0 then b
    else if b == 0 then a
    else 2 * Or(a / 2, b / 2) + (if a % 2 == 1 || b % 2 == 1 then 1 else 0)
  }

  function Shr(a: nat, n: nat): nat
    decreases n
  {
    if n == 0 then a else Shr(a / 2, n - 1)
  }

  lemma {:induction false} ShrDivides(a: nat, n: nat)
    ensures Shr(a, n) == a / Pow2(n)
    decreases n
  {
    if n > 0 {
      ShrDivides(a / 2, n - 1);
      DivTwice(a, Pow2(n - 1));
    }
  }

  lemma DivTwice(x: nat, q: nat)
    requires q > 0
    ensures x / (2 * q) == x / 2 / q
  {
    var d := x / (2 * q);
    var r := x % (2 * q);
    assert x == 2 * (q * d) + r;
    assert x / 2 == q * d + r / 2;
    assert r / 2 < q;
    DivUnique(x / 2, q, d, r / 2);
  }

  lemma ModTwice(x: nat, q: nat)
    requires q > 0
    ensures x % (2 * q) == 2 * (x / 2 % q) + x % 2
  {
    DivTwice(x, q);
    var d := x / 2 / q;
    assert x / 2 == q * d + x / 2 % q;
    assert x == 2 * (q * d) + x % (2 * q) by {
      assert x == (2 * q) * d + x % (2 * q);
      assert (2 * q) * d == 2 * (q * d);
    }
  }

  lemma DivUnique(x: nat, q: nat, d: nat, r: nat)
    requires q > 0 && r < q && x == q * d + r
    ensures x / q == d && x % q == r
  {
    var e := x / q;
    assert x == q * e + x % q;
    if e < d {
      MulLe(q, e + 1, d);
    } else if e > d {
      MulLe(q, d + 1, e);
    }
  }

  /** Dividing by a product, and the digits of a number in a mixed radix. */
  lemma DivMod(x: nat, p: nat, q: nat)
    requires p > 0 && q > 0
    ensures p * q > 0
    ensures x / (p * q) == x / p / q
    ensures x % (p * q) / p == x / p % q
    ensures x % (p * q) % p == x % p
  {
    var d := x / p;
    DivModAt(x, p, q, d / q, d % q, x % p);
  }

  lemma DivModAt(x: nat, p: nat, q: nat, e: nat, s: nat, r: nat)
    requires s < q && r < p && x == p * (q * e + s) + r
    ensures p * q > 0
    ensures x / (p * q) == e
    ensures x % (p * q) / p == s
    ensures x % (p * q) % p == r
  {
    Digits(p, q, e, s, r);
    var m := p * q;
    DivUnique(x, m, e, p * s + r);
    DivUnique(p * s + r, p, s, r);
  }

  lemma Digits(p: nat, q: nat, e: nat, s: nat, r: nat)
    requires s < q && r < p
    ensures p * (q * e + s) + r == p * q * e + (p * s + r)
    ensures p * s + r < p * q
  {
    MulLe(p, s + 1, q);
    assert p * (s + 1) == p * s + p;
  }

  lemma MulLe(q: nat, a: nat, b: nat)
    requires a <= b
    ensures q * a <= q * b
  {
  }

  /** Masking with the run of ones that covers bits k to n-1. */
  lemma {:induction false} AndMask(x: nat, n: nat, k: nat)
    requires k <= n
    ensures Pow2(k) <= Pow2(n)
    ensures And(x, Pow2(n) - Pow2(k)) == x % Pow2(n) / Pow2(k) * Pow2(k)
  {
    if n > 0 {
      if k > 0 {
        AndMask(x / 2, n - 1, k - 1);
        AndMaskEven(x, Pow2(n - 1), Pow2(k - 1));
      } else {
        AndMask(x / 2, n - 1, 0);
        AndMaskOdd(x, Pow2(n - 1));
      }
    }
  }

  /** Masking with all the bits below `n` is the remainder. */
  lemma AndLow(x: nat, n: nat)
    ensures And(x, Pow2(n) - 1) == x % Pow2(n)
  {
    AndMask(x, n, 0);
    assert Pow2(0) == 1;
  }

  lemma {:induction false} AndHalves(x: nat, m: nat)
    ensures And(x, 2 * m) == 2 * And(x / 2, m)
    ensures And(x, 2 * m + 1) == 2 * And(x / 2, m) + x % 2
  {
    assert (2 * m) / 2 == m && (2 * m + 1) / 2 == m;
  }

  lemma {:induction false} AndMaskEven(x: nat, p: nat, q: nat)
    requires 0 < q <= p
    requires And(x / 2, p - q) == x / 2 % p / q * q
    ensures And(x, 2 * p - 2 * q) == x % (2 * p) / (2 * q) * (2 * q)
  {
    assert 2 * (p - q) == 2 * p - 2 * q;
    AndHalves(x, p - q);
    calc {
      x % (2 * p) / (2 * q) * (2 * q);
      { DivTwice(x % (2 * p), q); }
      x % (2 * p) / 2 / q * (2 * q);
      { ModTwice(x, p); }
      x / 2 % p / q * (2 * q);
      { Reassociate(x / 2 % p / q, q); }
      2 * (x / 2 % p / q * q);
    }
  }

  lemma Reassociate(a: nat, q: nat)
    ensures a * (2 * q) == 2 * (a * q) && (2 * q) * a == 2 * (q * a)
  {
  }

  lemma {:induction false} AndMaskOdd(x: nat, p: nat)
    requires 0 < p
    requires And(x / 2, p - 1) == x / 2 % p
    ensures And(x, 2 * p - 1) == x % (2 * p)
  {
    ModTwice(x, p);
    AndHalves(x, p - 1);
  }

  lemma {:induction false} AndOr(a: nat, b: nat, m: nat)
    ensures And(Or(a, b), m) == Or(And(a, m), And(b, m))
    decreases a + b
  {
    if a != 0 && b != 0 && m != 0 {
      AndOr(a / 2, b / 2, m / 2);
      var o := Or(a / 2, b / 2);
      var x, y := And(a / 2, m / 2), And(b / 2, m / 2);
      var i, j := if a % 2 == 1 && m % 2 == 1 then 1 else 0, if b % 2 == 1 && m % 2 == 1 then 1 else 0;
      assert And(a, m) == 2 * x + i && And(b, m) == 2 * y + j;
      OrHalves(x, y, i, j);
      OrZero(a, b);
      assert Or(a, b) / 2 == o;
      assert And(Or(a, b), m) == 2 * And(o, m / 2) + (if i == 1 || j == 1 then 1 else 0);
    }
  }

  /** Bit `n` of a number, by division alone. */
  predicate Bit(a: nat, n: nat)
  {
    a / Pow2(n) % 2 == 1
  }

  lemma BitHalf(a: nat, n: nat)
    requires n > 0
    ensures Bit(a, n) <==> Bit(a / 2, n - 1)
  {
    DivTwice(a, Pow2(n - 1));
  }

  lemma ZeroBit(n: nat)
    ensures !Bit(0, n)
  {
    DivUnique(0, Pow2(n), 0, 0);
  }

  /** `And` keeps exactly the bits both numbers have. */
  lemma {:induction false} AndBit(a: nat, b: nat, n: nat)
    ensures Bit(And(a, b), n) <==> Bit(a, n) && Bit(b, n)
    decreases n
  {
    ZeroBit(n);
    if a != 0 && b != 0 && n > 0 {
      AndBit(a / 2, b / 2, n - 1);
      BitHalf(a, n);
      BitHalf(b, n);
      assert And(a, b) / 2 == And(a / 2, b / 2);
      BitHalf(And(a, b), n);
    }
  }

  /** `Or` has exactly the bits either number has. */
  lemma {:induction false} OrBit(a: nat, b: nat, n: nat)
    ensures Bit(Or(a, b), n) <==> Bit(a, n) || Bit(b, n)
    decreases n
  {
    ZeroBit(n);
    if a != 0 && b != 0 && n > 0 {
      OrBit(a / 2, b / 2, n - 1);
      BitHalf(a, n);
      BitHalf(b, n);
      assert Or(a, b) / 2 == Or(a / 2, b / 2);
      BitHalf(Or(a, b), n);
    }
  }

  /** Numbers without a common bit are united by adding them. */
  lemma {:induction false} OrSum(a: nat, b: nat)
    requires And(a, b) == 0
    ensures Or(a, b) == a + b
    decreases a + b
  {
    if a != 0 && b != 0 {
      OrSum(a / 2, b / 2);
    }
  }

  /** What a mask keeps of one number meets nothing of a number it clears. */
  lemma {:induction false} MaskedApart(a: nat, b: nat, m: nat)
    requires And(a, m) == a && And(b, m) == 0
    ensures And(a, b) == 0
  {
    if a != 0 && b != 0 {
      MaskedApart(a / 2, b / 2, m / 2);
    }
  }

  lemma {:induction false} OrHalves(a: nat, b: nat, i: nat, j: nat)
    requires i < 2 && j < 2
    ensures Or(2 * a + i, 2 * b + j) == 2 * Or(a, b) + (if i == 1 || j == 1 then 1 else 0)
  {
    assert (2 * a + i) / 2 == a && (2 * b + j) / 2 == b;
  }

  lemma {:induction false} OrZero(a: nat, b: nat)
    ensures Or(a, b) == 0 <==> a == 0 && b == 0
    decreases a + b
  {
    if a != 0 && b != 0 {
      OrZero(a / 2, b / 2);
    }
  }

  lemma {:induction false} OrBound(a: nat, b: nat, n: nat)
    requires a < Pow2(n) && b < Pow2(n)
    ensures Or(a, b) < Pow2(n)
    decreases n
  {
    if a != 0 && b != 0 {
      OrBound(a / 2, b / 2, n - 1);
    }
  }

  lemma Pow2Square(n: nat, p: nat)
    requires Pow2(n) == p
    ensures Pow2(2 * n) == p * p
  {
    Pow2Add(n, n);
  }

  lemma Pow2Word()
    ensures Pow2(64) == WORD
  {
    assert Pow2(4) == 16;
    Pow2Square(4, 16);
    Pow2Square(8, 0x100);
    Pow2Square(16, 0x1_0000);
    Pow2Square(32, 0x1_0000_0000);
  }

  lemma {:induction false} Pow2Add(m: nat, n: nat)
    ensures Pow2(m + n) == Pow2(m) * Pow2(n)
  {
    if m > 0 {
      Pow2Add(m - 1, n);
      Reassociate(Pow2(n), Pow2(m - 1));
    }
  }
}
