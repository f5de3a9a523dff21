/** Bitwise operators on natural numbers, defined bit by bit, and the laws that
    turn the masks, shifts and ORs of the C++ sources into arithmetic. */
module Bits {

  type Byte = b: int | 0 <= b < 0x100

  function Pow2(n: nat): (p: nat)
    ensures p >= 1
  {
    if n == 0 then 1 else 2 * Pow2(n - 1)
  }

  /** The values `n` bytes can take. */
  function Pow256(n: nat): (p: nat)
    ensures p >= 1
  {
    if n == 0 then 1 else 0x100 * Pow256(n - 1)
  }

  function And(a: nat, b: nat): (r: nat)
    ensures r <= a && r <= b
  {
    if a == 0 || b == 0 then 0
    else 2 * And(a / 2, b / 2) + (if a % 2 == 1 && b % 2 == 1 then 1 else 0)
  }

  function Or(a: nat, b: nat): (r: nat)
    ensures r >= a && r >= b && r <= a + b
  {
    if a == 0 then b
    else if b == 0 then a
    else 2 * Or(a / 2, b / 2) + (if a % 2 == 1 || b % 2 == 1 then 1 else 0)
  }

  /** `a << n`, before any truncation to a machine width. */
  function Shl(a: nat, n: nat): nat {
    if n == 0 then a else 2 * Shl(a, n - 1)
  }

  /** `a >> n` on an unsigned operand. */
  function Shr(a: nat, n: nat): (r: nat)
    ensures r <= a
  {
    if n == 0 then a else Shr(a / 2, n - 1)
  }

  lemma Pow2Step(n: nat)
    ensures Pow2(0) == 1 && Pow2(n + 1) == 2 * Pow2(n)
  {
  }

  lemma ProductOut(k: int, a: int, p: int)
    ensures a * (k * p) == k * (a * p)
  {
  }

  lemma {:induction false} Pow2Sum(m: nat, n: nat)
    ensures Pow2(m + n) == Pow2(m) * Pow2(n)
  {
    if m == 0 {
    } else {
      Pow2Sum(m - 1, n);
      calc {
        Pow2(m + n);
        2 * (Pow2(m - 1) * Pow2(n));
        (2 * Pow2(m - 1)) * Pow2(n);
      }
    }
  }

  /** The powers that bound the machine widths. */
  lemma WidthPowers()
    ensures Pow2(8) == 0x100 && Pow2(16) == 0x1_0000 && Pow2(32) == 0x1_0000_0000
    ensures Pow2(64) == 0x1_0000_0000_0000_0000
  {
    assert Pow2(4) == 0x10;
    hide Pow2;
    Pow2Sum(4, 4);
    Pow2Sum(8, 8);
    Pow2Sum(16, 16);
    Pow2Sum(32, 32);
  }

  lemma {:induction false} Pow2Monotone(m: nat, n: nat)
    requires m <= n
    ensures Pow2(m) <= Pow2(n)
  {
    if m < n { Pow2Monotone(m, n - 1); }
  }

  lemma ShlStep(a: nat, n: nat)
    ensures Shl(a, 0) == a && Shl(a, n + 1) == 2 * Shl(a, n)
  {
  }

  lemma {:induction false} ShlIsProduct(a: nat, n: nat)
    ensures Shl(a, n) == a * Pow2(n)
  {
    hide Shl, Pow2;
    if n == 0 {
      ShlStep(a, 0);
      Pow2Step(0);
    } else {
      ShlIsProduct(a, n - 1);
      ShlStep(a, n - 1);
      Pow2Step(n - 1);
      ProductOut(2, a, Pow2(n - 1));
    }
  }

  lemma {:induction false} ShrIsQuotient(a: nat, n: nat)
    ensures Shr(a, n) == a / Pow2(n)
  {
    if n > 0 {
      ShrIsQuotient(a / 2, n - 1);
      var p := Pow2(n - 1);
      DivModUnique(a, 2 * p, (a / 2) / p, 2 * ((a / 2) % p) + a % 2) by {
        HalvesQuotient(a, p);
      }
    }
  }

  lemma HalvesQuotient(a: nat, p: nat)
    requires p > 0
    ensures a == ((a / 2) / p) * (2 * p) + (2 * ((a / 2) % p) + a % 2)
    ensures 2 * ((a / 2) % p) + a % 2 < 2 * p
  {
    var q := (a / 2) / p;
    assert a / 2 == q * p + (a / 2) % p;
    assert q * (2 * p) == 2 * (q * p);
  }

  /** ORing in bits above position `n` adds them. */
  lemma {:induction false} OrShifted(low: nat, high: nat, n: nat)
    requires low < Pow2(n)
    ensures Or(low, Shl(high, n)) == low + Shl(high, n)
  {
    if n > 0 {
      if low != 0 && Shl(high, n) != 0 {
        OrShifted(low / 2, high, n - 1);
      }
    }
  }

  lemma {:induction false} OrCommutes(a: nat, b: nat)
    ensures Or(a, b) == Or(b, a)
  {
    if a != 0 && b != 0 { OrCommutes(a / 2, b / 2); }
  }

  lemma AndOdd(a: nat, m: nat)
    ensures And(a, 2 * m + 1) == 2 * And(a / 2, m) + a % 2 && And(a, 0) == 0
  {
    var mask := 2 * m + 1;
    assert mask / 2 == m && mask % 2 == 1;
  }

  /** A mask of `n` ones keeps the remainder modulo `2^n`. */
  lemma {:induction false} AndMask(a: nat, n: nat)
    ensures And(a, Pow2(n) - 1) == a % Pow2(n)
  {
    hide And, Pow2;
    Pow2Step(0);
    if n == 0 {
      AndOdd(a, 0);
    } else {
      AndMask(a / 2, n - 1);
      Pow2Step(n - 1);
      AndOdd(a, Pow2(n - 1) - 1);
      ModDouble(a, Pow2(n - 1));
    }
  }

  lemma ModDouble(a: nat, p: nat)
    requires p > 0
    ensures a % (2 * p) == 2 * ((a / 2) % p) + a % 2
  {
    HalvesQuotient(a, p);
    DivModUnique(a, 2 * p, (a / 2) / p, 2 * ((a / 2) % p) + a % 2);
  }

  lemma DivModUnique(a: int, d: int, q: int, r: int)
    requires d > 0 && 0 <= r < d && a == q * d + r
    ensures a / d == q && a % d == r
  {
    var q', r' := a / d, a % d;
    assert (q - q') * d == r' - r;
    if q > q' {
      MulGe(q - q', d);
    } else if q < q' {
      assert (q' - q) * d == -((q - q') * d);
      MulGe(q' - q, d);
    }
  }

  lemma MulGe(k: int, d: int)
    requires k >= 1 && d > 0
    ensures k * d >= d
  {
  }

  lemma AndEven(a: nat, m: nat)
    ensures And(a, 2 * m) == 2 * And(a / 2, m)
  {
    var mask := 2 * m;
    assert mask / 2 == m && mask % 2 == 0;
  }

  /** The remainder, kept from the solver's sight while masks are built up. */
  function Rem(a: nat, p: nat): (r: nat)
    requires p > 0
    ensures r <= a
  {
    a % p
  }

  /** One more bit of a mask of high ones. */
  lemma HighMaskStep(a: nat, p: nat, q: nat)
    requires 0 < p <= q && And(a / 2, q - p) == a / 2 - Rem(a / 2, p)
    ensures And(a, 2 * q - 2 * p) == a - Rem(a, 2 * p)
  {
    hide And;
    ModDouble(a, p);
    AndEven(a, q - p);
    assert 2 * (q - p) == 2 * q - 2 * p;
  }

  lemma HighMaskBase(a: nat, w: nat)
    requires a < Pow2(w)
    ensures Pow2(0) == 1 && And(a, Pow2(w) - Pow2(0)) == a - Rem(a, Pow2(0))
  {
    hide And;
    assert Pow2(0) == 1;
    hide Pow2;
    AndMask(a, w);
    DivModUnique(a, Pow2(w), 0, a);
  }

  lemma {:induction false} HighMask(a: nat, n: nat, w: nat)
    requires n <= w && a < Pow2(w)
    ensures Pow2(n) <= Pow2(w)
    ensures And(a, Pow2(w) - Pow2(n)) == a - Rem(a, Pow2(n))
  {
    hide *;
    Pow2Monotone(n, w);
    if n == 0 {
      HighMaskBase(a, w);
    } else {
      Pow2Step(n - 1);
      Pow2Step(w - 1);
      Pow2Monotone(n - 1, w - 1);
      assert a / 2 < Pow2(w - 1);
      HighMask(a / 2, n - 1, w - 1);
      HighMaskStep(a, Pow2(n - 1), Pow2(w - 1));
    }
  }

  /** A mask of ones above position `n`, within width `w`, clears the low `n` bits. */
  lemma AndHighMask(a: nat, n: nat, w: nat)
    requires n <= w && a < Pow2(w)
    ensures Pow2(n) <= Pow2(w)
    ensures And(a, Pow2(w) - Pow2(n)) == a - a % Pow2(n)
  {
    hide And, Pow2;
    HighMask(a, n, w);
  }

  /** Fields that do not overlap are joined by OR into their sum. */
  lemma JoinFields(high: nat, low: nat, n: nat)
    requires low < Pow2(n)
    ensures Or(Shl(high, n), low) == high * Pow2(n) + low
  {
    hide Pow2, Or, Shl;
    ShlIsProduct(high, n);
    OrShifted(low, high, n);
    OrCommutes(Shl(high, n), low);
  }
}
