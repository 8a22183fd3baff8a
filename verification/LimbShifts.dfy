/**
 * Shifting, comparing and measuring limb sequences: what the loops of the
 * shift operators, CompareTo and bits in src/arith_uint256.cpp mean.
 */
module LimbShifts {
  import opened Arithmetic
  import opened Limbs

  lemma {:induction false} UpIsPow2(x: nat, n: nat)
    ensures Up(x, n) == Mul(x, Pow2(32 * n))
  {
    hide Mul, Pow2;
    Pow2Zero();
    MulBasics(x, 1);
    if n > 0 {
      UpIsPow2(x, n - 1);
      Pow2Add(32 * (n - 1), 32);
      Pow2Of32();
      MulBasics(Pow2(32 * (n - 1)), B);
      ScaleUp(1, Pow2(32 * (n - 1)));
      MulBasics(B, Pow2(32 * (n - 1)));
      MulConstB(Pow2(32 * (n - 1)));
      ScaleUp(x, Pow2(32 * (n - 1)));
    }
  }

  lemma {:induction false} MulConstB(u: int)
    ensures Mul(B, u) == B * u
  {
  }

  lemma {:induction false} ModulusIsPow2(n: nat)
    ensures Up(1, n) == Pow2(32 * n)
  {
    UpIsPow2(1, n);
    MulBasics(Pow2(32 * n), 1);
  }

  // -------------------------------------------------------------- shift left

  /** What the loop of operator<<= has put into limb m after i turns, for a shift by k limbs and s bits. */
  function ShlPart(a: seq<Limb>, k: nat, s: nat, m: nat, i: nat): nat
    requires m < |a| && s < 32
  {
    BitOr(if m >= k && m - k < i then Shl32(a[m - k], s) else 0,
          if m >= k + 1 && m - k - 1 < i && s != 0 then Shr32(a[m - k - 1], 32 - s) else 0)
  }

  function ShlAt(a: seq<Limb>, k: nat, s: nat, m: nat): nat
    requires m < |a| && s < 32
  {
    ShlPart(a, k, s, m, |a|)
  }

  /** One turn of the loop: what it writes, and that it stays within 32 bits. */
  lemma {:induction false} ShlTurn(a: seq<Limb>, k: nat, s: nat, m: nat, i: nat)
    requires m < |a| && s < 32 && i < |a|
    ensures m == i + k + 1 && s != 0 ==>
              BitOr(ShlPart(a, k, s, m, i), Shr32(a[i], 32 - s)) == ShlPart(a, k, s, m, i + 1) < B
    ensures m == i + k ==> BitOr(ShlPart(a, k, s, m, i), Shl32(a[i], s)) == ShlPart(a, k, s, m, i + 1) < B
    ensures m != i + k && !(m == i + k + 1 && s != 0) ==> ShlPart(a, k, s, m, i + 1) == ShlPart(a, k, s, m, i)
  {
    hide Mul, Quo, Pow2, Shl32, Shr32;
    OrIdentity(Shr32(a[i], 32 - s));
    if m == i + k {
      var c := if m >= k + 1 && s != 0 then Shr32(a[m - k - 1], 32 - s) else 0;
      if m >= k + 1 && s != 0 {
        ShlHalves(a[m - k - 1], s, 0);
      }
      ShlHalves(a[i], s, c);
      OrIdentity(c);
      OrCommutes(c, Shl32(a[i], s));
    }
  }

  lemma {:induction false} OrIdentity(x: nat)
    ensures BitOr(0, x) == x && BitOr(x, 0) == x
  {
  }

  /** A shift by less than a limb is a multiplication. */
  lemma {:induction false} MulSmallShl(x: seq<Limb>, s: nat, c: nat, m: nat)
    requires s < 32 && c < Pow2(s) && m < |x|
    ensures |MulSmall(x, Pow2(s), c)| == |x|
    ensures MulSmall(x, Pow2(s), c)[m] == BitOr(Shl32(x[m], s), if m == 0 then c else Shr32(x[m - 1], 32 - s))
    decreases m
  {
    var out := MulSmallValue(x, Pow2(s), c);
    hide Mul, Pow2, BitOr, Shl32, Shr32;
    ShlHalves(x[0], s, c);
    MulBasics(Pow2(s), x[0]);
    if m > 0 {
      MulSmallShl(x[1..], s, Shr32(x[0], 32 - s), m - 1);
    }
  }

  lemma {:induction false} ShrAll(x: Limb)
    ensures Shr32(x, 32) == 0
  {
    Pow2Of32();
    MulBasics(B, 0);
    DivModUnique(x, 0, x, B);
  }

  /** The shifted limbs: k zeros, then the product of what stays by a power of two. */
  lemma {:induction false} ShlParts(a: seq<Limb>, k: nat, s: nat, r: seq<Limb>)
    requires s < 32 && k <= |a| == |r| && forall m: nat | m < |a| :: r[m] == ShlAt(a, k, s, m)
    ensures r == seq(k, _ => 0) + MulSmall(a[..|a| - k], Pow2(s), 0)
  {
    var lo := a[..|a| - k];
    var out := MulSmallValue(lo, Pow2(s), 0);
    hide Mul, Pow2, BitOr, Shl32, Shr32;
    forall m: nat | m < |a| ensures r[m] == (seq(k, _ => 0) + MulSmall(lo, Pow2(s), 0))[m] {
      if m >= k {
        MulSmallShl(lo, s, 0, m - k);
        if s == 0 && m > k {
          ShrAll(a[m - k - 1]);
        }
      } else {
        OrZero();
      }
    }
  }

  lemma {:induction false} OrZero()
    ensures BitOr(0, 0) == 0
  {
  }

  lemma {:induction false} UpMul(x: nat, p: nat, n: nat)
    ensures Mul(x, p) >= 0 && Up(Mul(x, p), n) == Mul(Up(x, n), p)
  {
    hide Mul;
    MulBasics(x, p);
    if n > 0 {
      UpMul(x, p, n - 1);
      MulBasics(Up(x, n - 1), p);
      MulBasics(Up(x, n), p);
      ScaleUp(p, Up(x, n - 1));
    }
  }

  lemma {:induction false} Pow2Limbs(v: nat, k: nat, s: nat)
    ensures Mul(v, Pow2(s)) >= 0 && Mul(v, Pow2(32 * k + s)) == Up(Mul(v, Pow2(s)), k)
  {
    hide Mul, Pow2, Up;
    MulBasics(v, Pow2(s));
    UpIsPow2(Mul(v, Pow2(s)), k);
    Pow2Add(s, 32 * k);
    MulAssoc(v, Pow2(s), Pow2(32 * k));
  }

  /** operator<<= multiplies by a power of two, modulo B^n. */
  lemma {:induction false} ShlValue(a: seq<Limb>, k: nat, s: nat, r: seq<Limb>)
    requires s < 32 && |a| == |r| && forall m: nat | m < |a| :: r[m] == ShlAt(a, k, s, m)
    ensures Val(r) == Rem(Mul(Val(a), Pow2(32 * k + s)), Up(1, |a|))
  {
    var n := |a|;
    hide Mul, Pow2, Rem, Quo;
    Pow2Limbs(Val(a), k, s);
    ValBound(r);
    if k <= n {
      var lo, hi := a[..n - k], a[n - k..];
      assert a == lo + hi;
      ShlParts(a, k, s, r);
      hide ShlAt;
      var out := ShlCarry(lo, hi, k, s);
      CarryIsMod(Up(Mul(Val(a), Pow2(s)), k), Val(r), out, n);
    } else {
      assert forall m: nat | m < n :: r[m] == 0 by { OrZero(); }
      assert r == seq(n, _ => 0);
      ValZeros(n);
      UpPlus(Mul(Val(a), Pow2(s)), k - n, n);
      CarryIsMod(Up(Mul(Val(a), Pow2(s)), k), Val(r), Up(Mul(Val(a), Pow2(s)), k - n), n);
    }
  }

  lemma {:induction false} ShlCarry(lo: seq<Limb>, hi: seq<Limb>, k: nat, s: nat) returns (out: nat)
    requires |hi| == k
    ensures Mul(Val(lo + hi), Pow2(s)) >= 0
    ensures Up(Mul(Val(lo + hi), Pow2(s)), k) ==
            Val(seq(k, _ => 0) + MulSmall(lo, Pow2(s), 0)) + Up(out, |lo| + k)
  {
    hide Mul, Pow2, Up, Val, MulSmall;
    var p := Pow2(s);
    var c := MulSmallValue(lo, p, 0);
    var zeros: seq<Limb> := seq(k, _ => 0);
    ValConcat(lo, hi);
    ValConcat(zeros, MulSmall(lo, p, 0));
    ValZeros(k);
    UpMul(Val(hi), p, |lo|);
    MulAdd(Val(lo), Up(Val(hi), |lo|), p);
    MulBasics(Val(lo), p);
    MulBasics(Val(lo + hi), p);
    UpAdd(c, Mul(Val(hi), p), |lo|);
    out := c + Mul(Val(hi), p);
    UpAdd(Val(MulSmall(lo, p, 0)), Up(out, |lo|), k);
    UpPlus(out, |lo|, k);
  }

  // ------------------------------------------------------------- shift right

  /** What the loop of operator>>= has put into limb m after i turns. */
  function ShrPart(a: seq<Limb>, k: nat, s: nat, m: nat, i: nat): nat
    requires m < |a| && s < 32 && i <= |a|
  {
    BitOr(if m + k < i then Shr32(a[m + k], s) else 0,
          if m + k + 1 < i && s != 0 then Shl32(a[m + k + 1], 32 - s) else 0)
  }

  function ShrAt(a: seq<Limb>, k: nat, s: nat, m: nat): nat
    requires m < |a| && s < 32
  {
    ShrPart(a, k, s, m, |a|)
  }

  lemma {:induction false} ShrTurn(a: seq<Limb>, k: nat, s: nat, m: nat, i: nat)
    requires m < |a| && s < 32 && i < |a|
    ensures i == m + k + 1 && s != 0 ==>
              BitOr(ShrPart(a, k, s, m, i), Shl32(a[i], 32 - s)) == ShrPart(a, k, s, m, i + 1) < B
    ensures i == m + k ==> BitOr(ShrPart(a, k, s, m, i), Shr32(a[i], s)) == ShrPart(a, k, s, m, i + 1) < B
    ensures i != m + k && !(i == m + k + 1 && s != 0) ==> ShrPart(a, k, s, m, i + 1) == ShrPart(a, k, s, m, i)
  {
    hide Mul, Quo, Rem, Pow2, Shl32, Shr32;
    OrIdentity(Shr32(a[i], s));
    if i == m + k + 1 && s != 0 {
      OrIdentity(Shr32(a[m + k], s));
      ShrLimb(a[m + k..], s);
    }
  }

  lemma {:induction false} OrCommutes(x: nat, y: nat)
    ensures BitOr(x, y) == BitOr(y, x)
    decreases x + y
  {
    if x != 0 && y != 0 {
      OrCommutes(x / 2, y / 2);
    }
  }

  /** The low bits of the limb above, moved to the top of this one. */
  function FromAbove(x: seq<Limb>, s: nat): nat
    requires s <= 32
  {
    if |x| < 2 then 0
    else
      MulBasics(Rem(x[1], Pow2(s)), Pow2(32 - s));
      Mul(Rem(x[1], Pow2(s)), Pow2(32 - s))
  }

  /** A limb after a shift by s bits. */
  lemma {:induction false} ShrLimb(x: seq<Limb>, s: nat)
    requires s <= 32 && x != []
    ensures Shr32(x[0], s) + FromAbove(x, s) < B
    ensures |x| >= 2 ==> FromAbove(x, s) == Shl32(x[1], 32 - s)
    ensures BitOr(Shr32(x[0], s), FromAbove(x, s)) == Shr32(x[0], s) + FromAbove(x, s)
  {
    hide Mul, Quo, Rem, Pow2, BitOr;
    var p, q := Pow2(s), Pow2(32 - s);
    SplitB(s);
    MulBasics(p, q);
    Halves(x[0], q, p);
    if |x| >= 2 {
      Halves(x[1], q, p);
      OrIsAdd(FromAbove(x, s), Shr32(x[0], s), Rem(x[1], p), 32 - s);
      OrCommutes(FromAbove(x, s), Shr32(x[0], s));
    } else {
      OrIdentity(Shr32(x[0], s));
    }
  }

  /** The limbs of x shifted right by less than a limb. */
  function ShrBits(x: seq<Limb>, s: nat): seq<Limb>
    requires s < 32
  {
    if x == [] then []
    else
      ShrLimb(x, s);
      [Shr32(x[0], s) + FromAbove(x, s)] + ShrBits(x[1..], s)
  }

  /** Only the lowest limb counts for a remainder by a small power of two. */
  lemma {:induction false} LowBits(x: seq<Limb>, s: nat)
    requires s <= 32
    ensures Rem(Val(x), Pow2(s)) == if x == [] then 0 else Rem(x[0], Pow2(s))
  {
    hide Mul, Quo, Rem, Pow2;
    var p, q := Pow2(s), Pow2(32 - s);
    if x == [] {
      MulBasics(p, 0);
      DivModUnique(0, 0, 0, p);
    } else {
      SplitB(s);
      MulBasics(p, q);
      var v := Val(x[1..]);
      MulAssoc(v, q, p);
      MulBasics(v, B);
      MulConstB(v);
      ModAdd(x[0], Mul(v, q), p);
    }
  }

  /** One limb of the quotient by a power of two. */
  lemma {:induction false} ShrStep(x0: nat, v: nat, s: nat)
    requires s <= 32 && x0 < B
    ensures Quo(x0 + B * v, Pow2(s)) ==
            Quo(x0, Pow2(s)) + Mul(Rem(v, Pow2(s)), Pow2(32 - s)) + B * Quo(v, Pow2(s))
  {
    hide Mul, Quo, Rem, Pow2;
    var p, q := Pow2(s), Pow2(32 - s);
    SplitB(s);
    var h, l := Quo(x0, p), Rem(x0, p);
    var w, r := Quo(v, p), Rem(v, p);
    DivMod(x0, p);
    DivMod(v, p);
    MulAssoc(r, q, p);
    MulBasics(p, q);
    MulBasics(r, B);
    MulConstB(r);
    MulBasics(B * w, p);
    ScaleUp(p, w);
    MulBasics(p, w);
    MulAdd(h, Mul(r, q), p);
    MulAdd(h + Mul(r, q), B * w, p);
    DivModUnique(x0 + B * v, h + Mul(r, q) + B * w, l, p);
  }

  lemma {:induction false} ShrBitsValue(x: seq<Limb>, s: nat)
    requires s < 32
    ensures |ShrBits(x, s)| == |x| && Val(ShrBits(x, s)) == Quo(Val(x), Pow2(s))
  {
    hide Mul, Quo, Rem, Pow2;
    if x == [] {
      MulBasics(Pow2(s), 0);
      DivModUnique(0, 0, 0, Pow2(s));
    } else {
      ShrBitsValue(x[1..], s);
      ShrStep(x[0], Val(x[1..]), s);
      LowBits(x[1..], s);
      MulBasics(Pow2(32 - s), 0);
      assert |x| >= 2 ==> x[1..][0] == x[1];
    }
  }

  lemma {:induction false} ShrBitsAt(x: seq<Limb>, s: nat, m: nat)
    requires s < 32 && m < |x|
    ensures |ShrBits(x, s)| == |x|
    ensures ShrBits(x, s)[m] == BitOr(Shr32(x[m], s), if m + 1 < |x| then Shl32(x[m + 1], 32 - s) else 0)
    decreases m
  {
    ShrBitsValue(x, s);
    hide Mul, Quo, Rem, Pow2, BitOr;
    if m == 0 {
      ShrLimb(x, s);
    } else {
      ShrBitsAt(x[1..], s, m - 1);
    }
  }

  lemma {:induction false} ShlAll(x: Limb)
    ensures Shl32(x, 32) == 0
  {
    Pow2Of32();
    MulB(x);
  }

  lemma {:induction false} ShrParts(a: seq<Limb>, k: nat, s: nat, r: seq<Limb>)
    requires s < 32 && k <= |a| == |r| && forall m: nat | m < |a| :: r[m] == ShrAt(a, k, s, m)
    ensures r == ShrBits(a[k..], s) + seq(k, _ => 0)
  {
    var x := a[k..];
    ShrBitsValue(x, s);
    hide Mul, Quo, Rem, Pow2, BitOr, Shl32, Shr32;
    forall m: nat | m < |a| ensures r[m] == (ShrBits(x, s) + seq(k, _ => 0))[m] {
      if m < |x| {
        ShrBitsAt(x, s, m);
        if s == 0 && m + 1 < |x| {
          ShlAll(x[m + 1]);
        }
      } else {
        OrZero();
      }
    }
  }

  lemma {:induction false} QuoQuo(v: nat, m: nat, p: nat)
    requires m > 0 && p > 0
    ensures Mul(m, p) > 0 && Quo(Quo(v, m), p) == Quo(v, Mul(m, p))
  {
    hide Mul, Quo, Rem;
    var q, r := Quo(v, m), Rem(v, m);
    var t, u := Quo(q, p), Rem(q, p);
    DivMod(v, m);
    DivMod(q, p);
    MulStep(1, m, p);
    MulBasics(p, 1);
    MulBasics(m, p);
    MulAdd(Mul(t, p), u, m);
    MulAssoc(t, p, m);
    MulStep(u, p, m);
    MulBasics(u, m);
    DivModUnique(v, t, Mul(u, m) + r, Mul(m, p));
  }

  /** operator>>= divides by a power of two. */
  lemma {:induction false} ShrValue(a: seq<Limb>, k: nat, s: nat, r: seq<Limb>)
    requires s < 32 && |a| == |r| && forall m: nat | m < |a| :: r[m] == ShrAt(a, k, s, m)
    ensures Val(r) == Quo(Val(a), Pow2(32 * k + s))
  {
    var n := |a|;
    hide Mul, Quo, Rem, Pow2;
    if k <= n {
      ShrParts(a, k, s, r);
      hide ShrAt;
      assert a == a[..k] + a[k..];
      ValConcat(a[..k], a[k..]);
      ValBound(a[..k]);
      CarryIsMod(Val(a), Val(a[..k]), Val(a[k..]), k);
      ModulusIsPow2(k);
      QuoQuo(Val(a), Pow2(32 * k), Pow2(s));
      Pow2Add(32 * k, s);
      ShrBitsValue(a[k..], s);
      ValConcat(ShrBits(a[k..], s), seq(k, _ => 0));
      ValZeros(k);
      UpZero(n - k);
    } else {
      assert forall m: nat | m < n :: r[m] == 0 by { OrZero(); }
      assert r == seq(n, _ => 0);
      ValZeros(n);
      ValBound(a);
      ModulusIsPow2(n);
      Pow2Mono(32 * n, 32 * k + s);
      MulBasics(Pow2(32 * k + s), 0);
      DivModUnique(Val(a), 0, Val(a), Pow2(32 * k + s));
    }
  }

  lemma {:induction false} UpZero(n: nat)
    ensures Up(0, n) == 0
  {
    if n > 0 {
      UpZero(n - 1);
    }
  }

  // --------------------------------------------------- comparing and measuring

  /** The highest limb that differs decides. */
  lemma {:induction false} HighestDecides(a: seq<Limb>, b: seq<Limb>, i: nat)
    requires |a| == |b| && i < |a| && a[i + 1..] == b[i + 1..] && a[i] < b[i]
    ensures Val(a) < Val(b)
  {
    SplitAt(a, i);
    SplitAt(b, i);
    ValBound(a[..i]);
    hide Val, Up;
    var x, y: nat := a[i] + B * Val(a[i + 1..]), b[i] + B * Val(b[i + 1..]);
    UpAdd(x, 1, i);
    UpAdd(x + 1, y - x - 1, i);
  }

  /** A number as its lower limbs, one limb, and its upper limbs. */
  lemma {:induction false} SplitAt(a: seq<Limb>, i: nat)
    requires i < |a|
    ensures Val(a) == Val(a[..i]) + Up(a[i] + B * Val(a[i + 1..]), i)
  {
    assert a == a[..i] + a[i..];
    assert a[i..][1..] == a[i + 1..];
    ValConcat(a[..i], a[i..]);
  }

  /** The number of binary digits of v. */
  predicate HasBits(v: nat, n: nat) {
    v < Pow2(n) && (n > 0 ==> Pow2(n - 1) <= v)
  }

  /** The top bit of the top limb that is not zero is the top bit of the number. */
  lemma {:induction false} TopBit(a: seq<Limb>, pos: nat, bit: nat)
    requires pos < |a| && (forall i | pos < i < |a| :: a[i] == 0)
    requires Pow2(bit) <= a[pos] < Pow2(bit + 1)
    ensures HasBits(Val(a), 32 * pos + bit + 1)
  {
    hide Mul, Pow2;
    var lo, hi := a[..pos], a[pos + 1..];
    var x: int := a[pos];
    assert a == lo + ([a[pos]] + hi);
    assert hi == seq(|hi|, _ => 0);
    ValConcat(lo, [a[pos]] + hi);
    ValZeros(|hi|);
    assert ([a[pos]] + hi)[1..] == hi;
    ValBound(lo);
    UpAdd(x, 1, pos);
    UpIsPow2(x, pos);
    UpIsPow2(x + 1, pos);
    var m := Pow2(32 * pos);
    MulStep(Pow2(bit), x, m);
    MulStep(x + 1, Pow2(bit + 1), m);
    Pow2Add(bit, 32 * pos);
    Pow2Add(bit + 1, 32 * pos);
  }

  lemma {:induction false} ZeroBits(a: seq<Limb>)
    requires forall i | 0 <= i < |a| :: a[i] == 0
    ensures Val(a) == 0
  {
    assert a == seq(|a|, _ => 0);
    ValZeros(|a|);
  }

  // ----------------------------------------------------------- setting a bit

  /** Adding to one limb. */
  lemma {:induction false} ValUpdate(a: seq<Limb>, i: nat, d: nat)
    requires i < |a| && a[i] + d < B
    ensures Val(a[i := a[i] + d]) == Val(a) + Up(d, i)
  {
    var b := a[i := a[i] + d];
    assert b[..i] == a[..i] && b[i + 1..] == a[i + 1..];
    SplitAt(a, i);
    SplitAt(b, i);
    UpAdd(a[i] + B * Val(a[i + 1..]), d, i);
  }

  /** The lowest e bits of the limbs are zero; h is what the limb at the border is a multiple by. */
  ghost predicate LowZero(a: seq<Limb>, e: nat) {
    && (forall i | 0 <= i < |a| && i < e / 32 :: a[i] == 0)
    && (e / 32 < |a| ==> exists h: nat :: Multiple(a[e / 32], h, e % 32))
  }

  predicate Multiple(x: int, h: nat, k: nat) {
    x == Mul(h, Pow2(k))
  }

  lemma {:induction false} ZeroIsMultiple(k: nat)
    ensures Multiple(0, 0, k)
  {
    MulBasics(Pow2(k), 0);
  }

  /** What the border limb is like, and what it becomes when its highest zero bit is set. */
  lemma {:induction false} SetBorder(a: seq<Limb>, e: nat) returns (h: nat)
    requires LowZero(a, e + 1) && e / 32 < |a|
    ensures BitOr(a[e / 32], Pow2(e % 32)) == a[e / 32] + Pow2(e % 32) < B
    ensures Multiple(a[e / 32], 2 * h, e % 32) && Multiple(a[e / 32] + Pow2(e % 32), 2 * h + 1, e % 32)
    ensures forall i | 0 <= i < e / 32 :: a[i] == 0
  {
    h := BorderMultiple(a, e);
    hide Mul, Pow2, BitOr, LowZero;
    var x, k := a[e / 32], e % 32;
    Pow2Succ(k);
    OrIsAdd(x, Pow2(k), h, k + 1);
    DoubleMultiple(x, h, k);
    TopRoom(x, h, k);
  }

  /** Setting the highest of the zero bits adds its value. */
  lemma {:induction false} SetBit(a: seq<Limb>, e: nat)
    requires LowZero(a, e + 1) && e / 32 < |a|
    ensures BitOr(a[e / 32], Pow2(e % 32)) == a[e / 32] + Pow2(e % 32) < B
    ensures var b := a[e / 32 := a[e / 32] + Pow2(e % 32)];
      LowZero(b, e) && Val(b) == Val(a) + Pow2(e)
    ensures LowZero(a, e)
  {
    var h := SetBorder(a, e);
    hide Mul, Pow2, BitOr, Multiple, Val;
    var w, k := e / 32, e % 32;
    var b := a[w := a[w] + Pow2(k)];
    assert Multiple(b[w], 2 * h + 1, k);
    ValUpdate(a, w, Pow2(k));
    UpIsPow2(Pow2(k), w);
    Pow2Add(k, 32 * w);
    assert k + 32 * w == e;
  }

  lemma {:induction false} Pow2Succ(k: nat)
    ensures Pow2(k + 1) == 2 * Pow2(k)
  {
  }

  lemma {:induction false} DoubleMultiple(x: int, h: nat, k: nat)
    requires x == Mul(h, Pow2(k + 1))
    ensures x == Mul(2 * h, Pow2(k)) && x + Pow2(k) == Mul(2 * h + 1, Pow2(k))
  {
    hide Mul;
    MulBasics(h, Pow2(k + 1));
    MulAdd(Pow2(k), Pow2(k), h);
    MulBasics(h, Pow2(k));
    MulAdd(h, h, Pow2(k));
    MulAdd(2 * h, 1, Pow2(k));
    MulBasics(Pow2(k), 1);
  }

  /** A multiple of 2^(k+1) below B leaves room for 2^k. */
  lemma {:induction false} TopRoom(x: int, h: nat, k: nat)
    requires x == Mul(h, Pow2(k + 1)) && x < B && k < 32
    ensures x + Pow2(k) < B
  {
    hide Mul;
    Pow2Succ(k);
    var q := Pow2(31 - k);
    SplitB(k + 1);
    MulBasics(Pow2(k + 1), q);
    MulStep(q, h, Pow2(k + 1));
    MulStep(h, q, Pow2(k + 1));
  }

  lemma {:induction false} BorderMultiple(a: seq<Limb>, e: nat) returns (h: nat)
    requires LowZero(a, e + 1) && e / 32 < |a|
    ensures a[e / 32] == Mul(h, Pow2(e % 32 + 1))
    ensures forall i | 0 <= i < e / 32 :: a[i] == 0
  {
    hide Mul, Pow2;
    if e % 32 == 31 {
      ZeroIsMultiple(32);
      h := 0;
      assert e / 32 < (e + 1) / 32;
    } else {
      assert (e + 1) / 32 == e / 32 && (e + 1) % 32 == e % 32 + 1;
      h :| Multiple(a[(e + 1) / 32], h, (e + 1) % 32);
    }
  }
}
