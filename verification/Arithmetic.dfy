/**
 * Facts about products, quotients and powers of two. Products and quotients
 * have names here, so that longer proofs can hide what they are.
 */
module Arithmetic {

  function Mul(a: int, b: int): int {
    a * b
  }

  function Quo(a: int, m: int): int
    requires m > 0
  {
    a / m
  }

  function Rem(a: int, m: int): (r: int)
    requires m > 0
    ensures 0 <= r < m
  {
    a % m
  }

  lemma MulBasics(a: int, b: int)
    ensures Mul(a, b) == Mul(b, a) && Mul(0, a) == 0 && Mul(1, a) == a && Mul(2, a) == 2 * a
    ensures a >= 0 && b >= 0 ==> Mul(a, b) >= 0
  {
  }

  lemma MulAdd(a: int, b: int, m: int)
    ensures Mul(a + b, m) == Mul(a, m) + Mul(b, m)
    ensures Mul(a - b, m) == Mul(a, m) - Mul(b, m)
  {
  }

  lemma MulAssoc(a: int, b: int, c: int)
    ensures Mul(Mul(a, b), c) == Mul(a, Mul(b, c))
  {
  }

  lemma MulStep(a: int, b: int, m: int)
    requires m >= 0
    ensures a < b ==> Mul(a, m) + m <= Mul(b, m)
    ensures a <= b ==> Mul(a, m) <= Mul(b, m)
  {
    MulAdd(b, a, m);
    MulAdd(b - a, 1, m);
    if a < b {
      MulBasics(b - a - 1, m);
    } else if a == b {
    }
  }

  /** Division with remainder. */
  lemma DivMod(x: int, m: int)
    requires m > 0
    ensures x == Mul(Quo(x, m), m) + Rem(x, m)
  {
  }

  lemma DivModUnique(x: int, q: int, r: int, m: int)
    requires m > 0 && x == Mul(q, m) + r && 0 <= r < m
    ensures q == Quo(x, m) && r == Rem(x, m)
  {
    hide Mul, Quo, Rem;
    DivMod(x, m);
    MulStep(q, Quo(x, m), m);
    MulStep(Quo(x, m), q, m);
  }

  /** The remainder of a number that is already small. */
  lemma RemSmall(x: int, m: int)
    requires 0 <= x < m
    ensures Rem(x, m) == x && Quo(x, m) == 0
  {
    hide Quo, Rem;
    MulBasics(m, 0);
    DivModUnique(x, 0, x, m);
  }

  lemma QuoBounds(x: int, m: int)
    requires m > 0 && x >= 0
    ensures 0 <= Quo(x, m) <= x
  {
    hide Mul, Quo, Rem;
    DivMod(x, m);
    MulBasics(m, 0);
    MulStep(Quo(x, m), 0, m);
    MulBasics(Quo(x, m), m);
    MulStep(1, m, Quo(x, m));
  }

  /** Adding a multiple of the modulus does not change the remainder. */
  lemma ModAdd(x: int, k: int, m: int)
    requires m > 0
    ensures Rem(x + Mul(k, m), m) == Rem(x, m)
  {
    hide Mul, Quo, Rem;
    DivMod(x, m);
    MulAdd(Quo(x, m), k, m);
    DivModUnique(x + Mul(k, m), Quo(x, m) + k, Rem(x, m), m);
  }

  function Pow2(n: nat): (r: nat)
    ensures r > 0
  {
    if n == 0 then 1 else 2 * Pow2(n - 1)
  }

  lemma Pow2Zero()
    ensures Pow2(0) == 1
  {
  }

  lemma {:induction false} Pow2Add(m: nat, n: nat)
    ensures Pow2(m + n) == Mul(Pow2(m), Pow2(n))
  {
    if n == 0 {
      MulBasics(1, Pow2(m));
    } else {
      Pow2Add(m, n - 1);
      MulAdd(Pow2(n - 1), Pow2(n - 1), Pow2(m));
      MulBasics(Pow2(n - 1), Pow2(m));
      MulBasics(2 * Pow2(n - 1), Pow2(m));
    }
  }

  lemma {:induction false} Pow2Mono(m: nat, n: nat)
    requires m <= n
    ensures Pow2(m) <= Pow2(n)
    decreases n
  {
    if m < n {
      Pow2Mono(m, n - 1);
    }
  }

  lemma {:induction false} Pow2Seven(k: nat)
    ensures Pow2(k + 7) == 128 * Pow2(k)
  {
    assert Pow2(k + 7) == 2 * Pow2(k + 6);
    assert Pow2(k + 6) == 2 * Pow2(k + 5);
    assert Pow2(k + 5) == 2 * Pow2(k + 4);
    assert Pow2(k + 4) == 2 * Pow2(k + 3);
    assert Pow2(k + 3) == 2 * Pow2(k + 2);
    assert Pow2(k + 2) == 2 * Pow2(k + 1);
  }

  lemma Pow2Widths()
    ensures Pow2(64) == 0x1_0000_0000_0000_0000 && Pow2(32) == 0x1_0000_0000
  {
    assert Pow2(4) == 2 * Pow2(3) == 4 * Pow2(2) == 16;
    hide Pow2;
    Pow2Seven(4);
    Pow2Seven(11);
    Pow2Seven(18);
    Pow2Seven(25);
    Pow2Add(32, 32);
  }

  // ------------------------------------------------------------------- bits

  /** Bit p of x, counted from the least significant one. */
  predicate BitOf(x: nat, p: nat) {
    if p == 0 then x % 2 == 1 else BitOf(x / 2, p - 1)
  }

  lemma {:induction false} BitOfZero(p: nat)
    ensures !BitOf(0, p)
  {
    if p > 0 {
      BitOfZero(p - 1);
    }
  }

  /** Setting a clear bit leaves the others alone. */
  lemma {:induction false} AddBit(x: nat, i: nat, j: nat)
    requires !BitOf(x, i)
    ensures BitOf(x + Pow2(i), j) <==> i == j || BitOf(x, j)
  {
    if i > 0 {
      assert (x + Pow2(i)) / 2 == x / 2 + Pow2(i - 1);
      if j > 0 {
        AddBit(x / 2, i - 1, j - 1);
      }
    }
  }

  lemma {:induction false} AddBitBelow(x: nat, i: nat, n: nat)
    requires !BitOf(x, i) && i < n && x < Pow2(n)
    ensures x + Pow2(i) < Pow2(n)
  {
    assert Pow2(n) == 2 * Pow2(n - 1) && x == 2 * (x / 2) + x % 2;
    if i > 0 {
      assert Pow2(i) == 2 * Pow2(i - 1);
      AddBitBelow(x / 2, i - 1, n - 1);
    }
  }
}
