// Unsigned machine arithmetic: powers of two, wrap-around, bitwise "and" and
// the masks the repository builds from powers of two.
module Bits {

  function Pow2(n: nat): (p: nat)
    ensures p >= 1
  {
    if n == 0 then 1 else 2 * Pow2(n - 1)
  }

  // Modulus of size_t and of addresses on an LP64 system.
  const WORD := 0x1_0000_0000_0000_0000

  // Bitwise "and", bit by bit from the least significant end.
  function And(x: nat, y: nat): nat
  {
    if x == 0 || y == 0 then 0
    else 2 * And(x / 2, y / 2) + (if x % 2 == 1 && y % 2 == 1 then 1 else 0)
  }

  ghost predicate IsPow2(n: nat)
  {
    exists k: nat :: n == Pow2(k)
  }

  // The value of "a - b" in an unsigned type with modulus m.
  function WrapSub(a: int, b: int, m: nat): (r: nat)
    requires m > 0
    ensures r < m
  {
    (a - b) % m
  }

  // ---------- Quotients and remainders ----------

  lemma MulGap(d: int, m: nat)
    ensures d >= 1 ==> d * m >= m
    ensures d <= 0 ==> d * m <= 0
    ensures d <= -1 ==> d * m + m <= 0
  {
    if d >= 1 {
      assert (d - 1) * m >= 0;
    } else if d <= -1 {
      assert (-1 - d) * m >= 0;
    }
  }

  lemma DivModUnique(x: int, q: int, r: int, m: nat)
    requires m > 0
    requires x == q * m + r
    requires 0 <= r < m
    ensures x / m == q && x % m == r
  {
    var d := q - x / m;
    assert d * m == q * m - (x / m) * m;
    MulGap(d, m);
  }

  lemma ModShift(x: int, k: int, m: nat)
    requires m > 0
    ensures (x + k * m) % m == x % m
  {
    var q := x / m;
    assert x + k * m == (q + k) * m + x % m;
    DivModUnique(x + k * m, q + k, x % m, m);
  }

  lemma ModMod(x: int, c: nat, s: nat)
    requires c > 0 && s > 0
    ensures c * s > 0
    ensures x % (c * s) % s == x % s
  {
    var m := c * s;
    var r := x % m;
    assert m > 0;
    var q := x / m;
    assert x == q * m + r;
    assert q * m == (q * c) * s;
    ModShift(r, q * c, s);
  }

  // Two counters less than m apart are distinguished by their residues.
  lemma ModApart(x: int, y: int, m: nat)
    requires m > 0
    requires x < y < x + m
    ensures x % m != y % m
  {
    var d := y / m - x / m;
    assert d * m == (y / m) * m - (x / m) * m;
    MulGap(d, m);
  }

  lemma WrapSubExact(x: int, y: int, m: nat)
    requires m > 0
    requires x <= y < x + m
    ensures WrapSub(y % m, x % m, m) == y - x
  {
    var a, b := y / m, x / m;
    var d := y % m - x % m;
    assert (a - b) * m == a * m - b * m;
    assert d == (b - a) * m + (y - x) by {
      assert (b - a) * m == b * m - a * m;
    }
    DivModUnique(d, b - a, y - x, m);
  }

  // Less than m apart, two counters are in the same lap or in adjacent ones.
  lemma ResidueGap(x: int, y: int, m: nat)
    requires m > 0
    requires x <= y < x + m
    ensures y % m - x % m == y - x - (if y / m == x / m then 0 else m)
  {
    var q, r := x / m, x % m + (y - x);
    if r < m {
      DivModUnique(y, q, r, m);
    } else {
      assert (q + 1) * m == q * m + m;
      DivModUnique(y, q + 1, r - m, m);
    }
  }

  lemma DifferenceOfSameResidue(x: int, y: int, m: nat)
    requires m > 0
    requires x % m == y % m
    ensures (y - x) % m == 0
  {
    var q := y / m - x / m;
    assert q * m == (y / m) * m - (x / m) * m;
    DivModUnique(y - x, q, 0, m);
  }

  lemma SameResidue(x: int, y: int, m: nat)
    requires m > 0
    ensures x % m == y % m <==> (y - x) % m == 0
  {
    if (y - x) % m == 0 {
      var k := (y - x) / m;
      assert y == x + k * m;
      ModShift(x, k, m);
    } else if x % m == y % m {
      DifferenceOfSameResidue(x, y, m);
    }
  }

  // No wrap-around below the modulus.
  lemma WrapSubSmall(a: nat, b: nat, m: nat)
    requires b <= a < m
    ensures WrapSub(a, b, m) == a - b
  {
    DivModUnique(a - b, 0, a - b, m);
  }

  lemma WrapOnce(x: nat, m: nat)
    requires m > 0 && x < 2 * m
    ensures x % m == if x < m then x else x - m
  {
    DivModUnique(x, if x < m then 0 else 1, if x < m then x else x - m, m);
  }

  lemma WrapAdd(x: int, k: int, m: nat)
    requires m > 0
    ensures (x % m + k) % m == (x + k) % m
  {
    assert x == (x / m) * m + x % m;
    ModShift(x % m + k, x / m, m);
  }

  // ---------- Powers of two and masks ----------

  lemma DoubleProduct(c: nat, p: nat)
    ensures c * (2 * p) == 2 * (c * p)
  {
  }

  lemma {:induction false} Pow2Split(a: nat, b: nat)
    requires a <= b
    ensures Pow2(b) == Pow2(b - a) * Pow2(a)
  {
    if a > 0 {
      Pow2Split(a - 1, b - 1);
      DoubleProduct(Pow2(b - a), Pow2(a - 1));
    }
  }

  lemma {:induction false} Pow2Monotone(a: nat, b: nat)
    requires a <= b
    ensures Pow2(a) <= Pow2(b)
  {
    if a > 0 {
      Pow2Monotone(a - 1, b - 1);
    }
  }

  lemma WordIsPow2()
    ensures Pow2(64) == WORD
  {
    assert Pow2(2) == 4;
    Pow2Split(2, 4);
    Pow2Split(4, 8);
    Pow2Split(8, 16);
    Pow2Split(16, 32);
    Pow2Split(32, 64);
  }

  // The remainder by 2p, one bit at a time.
  lemma HalveMod(x: nat, p: nat)
    requires p > 0
    ensures x % (2 * p) == 2 * (x / 2 % p) + x % 2
  {
    var h := x / 2;
    var q, r := h / p, h % p;
    assert h == q * p + r;
    assert q * (2 * p) == 2 * (q * p);
    DivModUnique(x, q, 2 * r + x % 2, 2 * p);
  }

  lemma AndStep(x: nat, y: nat)
    ensures And(x, y) == 2 * And(x / 2, y / 2) + (if x % 2 == 1 && y % 2 == 1 then 1 else 0)
  {
  }

  lemma AndEven(x: nat, y: nat)
    ensures And(x, 2 * y) == 2 * And(x / 2, y)
  {
    assert (2 * y) / 2 == y && (2 * y) % 2 == 0;
    AndStep(x, 2 * y);
  }

  lemma AndOdd(x: nat, y: nat)
    ensures And(x, 2 * y + 1) == 2 * And(x / 2, y) + x % 2
  {
    assert (2 * y + 1) / 2 == y && (2 * y + 1) % 2 == 1;
    AndStep(x, 2 * y + 1);
  }

  lemma LowMaskStep(x: nat, p: nat, m: nat)
    requires p > 0 && m == 2 * p && And(x / 2, p - 1) == x / 2 % p
    ensures And(x, m - 1) == x % m
  {
    calc {
      And(x, m - 1);
    ==  { AndOdd(x, p - 1); }
      2 * And(x / 2, p - 1) + x % 2;
    ==
      2 * (x / 2 % p) + x % 2;
    ==  { HalveMod(x, p); }
      x % m;
    }
  }

  // "x & (2^k - 1)" is the remainder of x by 2^k.
  lemma {:induction false} LowMask(x: nat, k: nat)
    ensures And(x, Pow2(k) - 1) == x % Pow2(k)
  {
    if k > 0 {
      LowMask(x / 2, k - 1);
      LowMaskStep(x, Pow2(k - 1), Pow2(k));
    }
  }

  lemma FullMask(x: nat, w: nat)
    requires x < Pow2(w)
    ensures And(x, Pow2(w) - 1) == x
  {
    LowMask(x, w);
    DivModUnique(x, 0, x, Pow2(w));
  }

  // "x & ~(2^k - 1)" in w bits rounds x down to a multiple of 2^k.
  lemma {:induction false} HighMask(x: nat, k: nat, w: nat)
    requires k <= w && x < Pow2(w)
    ensures Pow2(k) <= Pow2(w)
    ensures And(x, Pow2(w) - Pow2(k)) == x - x % Pow2(k)
  {
    if k == 0 {
      FullMask(x, w);
    } else {
      HighMask(x / 2, k - 1, w - 1);
      AndEven(x, Pow2(w - 1) - Pow2(k - 1));
      HalveMod(x, Pow2(k - 1));
    }
  }

  // The compile-time test "(n & (n - 1)) == 0" accepts exactly the powers of two.
  lemma {:induction false} PowerOfTwoTest(n: nat)
    requires n >= 1
    ensures And(n, n - 1) == 0 <==> IsPow2(n)
  {
    if n == 1 {
      assert n == Pow2(0);
    } else if n % 2 == 1 {
      assert (n - 1) / 2 == n / 2;
      AndSelf(n / 2);
      forall k: nat
        ensures n != Pow2(k)
      {
        if k > 0 {
          assert Pow2(k) % 2 == 0;
        }
      }
    } else {
      PowerOfTwoTest(n / 2);
      assert (n - 1) / 2 == n / 2 - 1;
      if IsPow2(n / 2) {
        var k: nat :| n / 2 == Pow2(k);
        assert n == Pow2(k + 1);
      }
      if IsPow2(n) {
        var k: nat :| n == Pow2(k);
        assert n / 2 == Pow2(k - 1);
      }
    }
  }

  // A mask that is not all ones has a clear bit below its highest one.
  lemma {:induction false} ClearBit(m: nat) returns (k: nat)
    requires m >= 1 && !IsPow2(m + 1)
    ensures Pow2(k) <= m && And(Pow2(k), m) == 0
  {
    if m % 2 == 0 {
      k := 0;
      assert And(1, m) == 2 * And(0, m / 2);
    } else {
      var h := m / 2;
      forall j: nat
        ensures h + 1 != Pow2(j)
      {
        assert Pow2(j + 1) == 2 * Pow2(j);
      }
      assert Pow2(0) == 1;
      k := ClearBit(h);
      AndOdd(2 * Pow2(k), h);
      k := k + 1;
    }
  }

  lemma {:induction false} AndSelf(x: nat)
    ensures And(x, x) == x
  {
    if x > 0 {
      AndSelf(x / 2);
    }
  }
}
