/**
 * The class base_uint of src/arith_uint256.h and src/arith_uint256.cpp: loops
 * that update an array of 32-bit limbs in place. The width is any number of
 * limbs; arith_uint256 has eight.
 */
module ArithUint {
  import opened Arithmetic
  import opened Limbs
  import opened LimbShifts

  /** A 32-bit limb product with two carried limbs fits 64 bits. */
  lemma {:induction false} ProductFits(x: Limb, y: Limb)
    ensures 0 <= Mul(x, y) <= B * B - 2 * B + 1
  {
    hide Mul;
    MulBasics(x, y);
    MulStep(x, B - 1, y);
    MulBasics(y, B - 1);
    MulStep(y, B - 1, B - 1);
    assert Mul(B - 1, B - 1) == B * B - 2 * B + 1 by { SquareOfTop(); }
  }

  lemma SquareOfTop()
    ensures Mul(B - 1, B - 1) == B * B - 2 * B + 1
  {
  }

  class BaseUint {
    const pn: array<Limb>

    ghost function Limbs(): seq<Limb>
      reads pn
    {
      pn[..]
    }

    ghost function Value(): nat
      reads pn
    {
      Val(pn[..])
    }

    /** 2^(32 * width) */
    ghost function Modulus(): nat {
      Up(1, pn.Length)
    }

    constructor Zero(width: nat)
      ensures fresh(pn) && pn.Length == width && Value() == 0
    {
      pn := new Limb[width](_ => 0);
      new;
      assert pn[..] == seq(width, _ => 0);
      ValZeros(width);
    }

    constructor Copy(b: BaseUint)
      ensures fresh(pn) && pn[..] == b.pn[..]
    {
      pn := new Limb[b.pn.Length](i requires 0 <= i < b.pn.Length reads b.pn => b.pn[i]);
      new;
      assert pn[..] == b.pn[..];
    }

    /** Assignment from a uint64_t. */
    method SetSmall(b: nat)
      requires b < B * B && pn.Length >= 2
      modifies pn
      ensures Value() == b
    {
      pn[0] := b % B;
      pn[1] := b / B;
      for i := 2 to pn.Length
        invariant pn[0] == b % B && pn[1] == b / B
        invariant forall j | 2 <= j < i :: pn[j] == 0
      {
        pn[i] := 0;
      }
      assert pn[..] == [b % B, b / B] + seq(pn.Length - 2, _ => 0);
      ValZeros(pn.Length - 2);
      ValConcat([b % B, b / B], seq(pn.Length - 2, _ => 0));
      UpZero(2);
      assert Val([b / B]) == b / B;
      assert [b % B, b / B][1..] == [b / B];
    }

    method AddAssign(b: BaseUint)
      requires b.pn.Length == pn.Length
      modifies pn
      ensures Value() == Rem(old(Value()) + old(b.Value()), Modulus())
    {
      hide Rem, Mul, Pow2, AddC, Val;
      ghost var x, y := pn[..], b.pn[..];
      var carry := 0;
      assert x[0..] == x && y[0..] == y;
      for i := 0 to pn.Length
        invariant pn[i..] == x[i..] && b.pn[i..] == y[i..] && 0 <= carry <= 1
        invariant AddC(x, y, 0) == pn[..i] + AddC(x[i..], y[i..], carry)
      {
        assert pn[i] == x[i..][0] && b.pn[i] == y[i..][0];
        var n := carry + pn[i] + b.pn[i];
        AddTurn(x, y, i, carry, pn[..i]);
        pn[i] := n % B;
        carry := n / B;
        assert pn[..i + 1] == pn[..i] + [n % B];
      }
      AddEnd(x[pn.Length..], y[pn.Length..], carry);
      assert pn[..] == AddC(x, y, 0);
      AddIsMod(x, y);
    }

    /** operator~ into a new number */
    method Complemented() returns (r: BaseUint)
      ensures fresh(r) && fresh(r.pn) && r.pn.Length == pn.Length
      ensures r.Value() == Modulus() - 1 - Value()
    {
      r := new BaseUint.Zero(pn.Length);
      for i := 0 to pn.Length
        invariant pn[..] == old(pn[..])
        invariant Complement(pn[..]) == r.pn[..i] + Complement(pn[i..])
      {
        assert pn[i..][1..] == pn[i + 1..];
        r.pn[i] := B - 1 - pn[i];
        assert r.pn[..i + 1] == r.pn[..i] + [B - 1 - pn[i]];
      }
      assert r.pn[..] == Complement(pn[..]);
      ComplementValue(pn[..]);
    }

    method Increment()
      requires pn.Length > 0
      modifies pn
      ensures pn[..] == Inc(old(pn[..])) && Value() == Rem(old(Value()) + 1, Modulus())
    {
      hide Inc;
      ghost var x := pn[..];
      var i := 0;
      pn[0] := (pn[0] + 1) % B;
      while pn[i] == 0 && i < pn.Length - 1
        invariant i < pn.Length && pn[i] == (x[i] + 1) % B && pn[i + 1..] == x[i + 1..]
        invariant forall j | 0 <= j < i :: x[j] == B - 1 && pn[j] == 0
      {
        i := i + 1;
        assert pn[i] == x[i];
        pn[i] := (pn[i] + 1) % B;
      }
      IncIs(x, pn[..], i);
      IncIsMod(x);
    }

    method Negated() returns (r: BaseUint)
      requires pn.Length > 0
      ensures fresh(r) && fresh(r.pn) && r.pn[..] == Negate(pn[..])
    {
      r := Complemented();
      ComplementValue(pn[..]);
      ValInjective(r.pn[..], Complement(pn[..]));
      r.Increment();
    }

    method SubAssign(b: BaseUint)
      requires b.pn.Length == pn.Length > 0
      modifies pn
      ensures Value() == Rem(old(Value()) - old(b.Value()), Modulus())
      ensures old(b.Value()) <= old(Value()) ==> Value() == old(Value()) - old(b.Value())
    {
      SubIsMod(pn[..], b.pn[..]);
      var minus := b.Negated();
      ghost var x := pn[..];
      AddAssign(minus);
      AddIsMod(x, minus.pn[..]);
    }

    method MulSmallAssign(b32: Limb)
      modifies pn
      ensures Value() == Rem(Mul(b32, old(Value())), Modulus())
    {
      hide Mul;
      ghost var x := pn[..];
      var carry: Limb := 0;
      for i := 0 to pn.Length
        invariant pn[i..] == x[i..]
        invariant MulSmall(x, b32, 0) == pn[..i] + MulSmall(x[i..], b32, carry)
      {
        ProductFits(b32, pn[i]);
        var n := carry + Mul(b32, pn[i]);
        assert x[i..][0] == pn[i] && x[i..][1..] == x[i + 1..];
        pn[i] := n % B;
        carry := n / B;
        assert pn[..i + 1] == pn[..i] + [n % B];
      }
      assert pn[..] == MulSmall(x, b32, 0);
      MulSmallIsMod(x, b32);
    }

    /**
     * operator*=: the product modulo 2^(32 * width). The factor is read while
     * the product is written, so a number multiplied by itself in place
     * becomes zero.
     */
    method MulAssign(b: BaseUint)
      requires b.pn.Length == pn.Length
      modifies pn
      ensures b.pn != pn ==> Value() == Rem(Mul(old(Value()), old(b.Value())), Modulus())
      ensures b.pn == pn ==> Value() == 0
    {
      hide Mul, Rem, MulFrom, MulRow;
      var a := new BaseUint.Copy(this);
      ghost var x := pn[..];
      Clear();
      ghost var y := b.pn[..];
      assert b.pn != pn ==> y == old(b.pn[..]);
      assert pn[..0] == [] && pn[0..] == pn[..] && x[0..] == x;
      for j := 0 to pn.Length
        invariant b.pn[..] == y && a.pn[..] == x
        invariant MulFrom(seq(pn.Length, _ => 0), x, y) == pn[..j] + MulFrom(pn[j..], x[j..], y)
        invariant b.pn == pn ==> y == seq(pn.Length, _ => 0)
      {
        MulFromStep(pn[..], x, y, j);
        ghost var head := pn[..j];
        AddRow(j, a.pn[j], b);
        assert pn[..j + 1] == head + [pn[j]];
        assert pn[j..][1..] == pn[j + 1..];
      }
      assert MulFrom(pn[pn.Length..], x[pn.Length..], y) == [];
      assert pn[..pn.Length] == pn[..];
      assert pn[..] == MulFrom(seq(pn.Length, _ => 0), x, y);
      MulIsMod(x, y);
      if b.pn == pn {
        ValZeros(pn.Length);
      }
    }

    method Clear()
      modifies pn
      ensures pn[..] == seq(pn.Length, _ => 0)
    {
      for i := 0 to pn.Length
        invariant forall k | 0 <= k < i :: pn[k] == 0
      {
        pn[i] := 0;
      }
    }

    /** The inner loop of operator*=, for the row that starts at limb j. */
    method AddRow(j: nat, k: Limb, b: BaseUint)
      requires j < pn.Length == b.pn.Length
      requires b.pn == pn ==> forall i | 0 <= i < pn.Length :: pn[i] == 0
      modifies pn
      ensures pn[..j] == old(pn[..j])
      ensures pn[j..] == MulRow(old(pn[j..]), k, old(b.pn[..]), 0)
      ensures b.pn[..] == old(b.pn[..])
    {
      hide Mul, MulRow;
      ghost var p, y := pn[..], b.pn[..];
      assert pn[j..j] == [] && y[0..] == y;
      var carry: Limb := 0;
      MulZero(k);
      for i := 0 to pn.Length - j
        invariant pn[..j] == p[..j] && pn[j + i..] == p[j + i..] && b.pn[..] == y
        invariant b.pn == pn ==> carry == 0 && forall i | 0 <= i < pn.Length :: pn[i] == 0
        invariant MulRow(p[j..], k, y, 0) == pn[j..j + i] + MulRow(p[j + i..], k, y[i..], carry)
      {
        ProductFits(k, b.pn[i]);
        var n := carry + pn[i + j] + Mul(k, b.pn[i]);
        assert pn[i + j] == p[i + j] && b.pn[i] == y[i];
        MulRowStep(p, k, y, j, i, carry);
        ghost var head := pn[j..j + i];
        pn[i + j] := n % B;
        carry := n / B;
        assert pn[j..j + i] == head;
        assert pn[j..j + i + 1] == head + [n % B];
      }
      assert MulRow(p[pn.Length..], k, y[pn.Length - j..], carry) == [];
      assert pn[j..pn.Length] == pn[j..];
    }

    lemma MulZero(k: int)
      ensures Mul(k, 0) == 0
    {
    }

    method ShlAssign(shift: nat)
      modifies pn
      ensures Value() == Rem(Mul(old(Value()), Pow2(shift)), Modulus())
    {
      hide Mul, Rem, Pow2, ShlPart;
      var a := new BaseUint.Copy(this);
      ghost var x := pn[..];
      Clear();
      var k, s := shift / 32, shift % 32;
      ShlNone(x, k, s);
      for i := 0 to pn.Length
        invariant a.pn[..] == x
        invariant forall m: nat | m < pn.Length :: pn[m] == ShlPart(x, k, s, m, i)
      {
        if i + k + 1 < pn.Length && s != 0 {
          ShlTurn(x, k, s, i + k + 1, i);
          pn[i + k + 1] := BitOr(pn[i + k + 1], Shr32(a.pn[i], 32 - s));
        }
        if i + k < pn.Length {
          ShlTurn(x, k, s, i + k, i);
          pn[i + k] := BitOr(pn[i + k], Shl32(a.pn[i], s));
        }
        forall m: nat | m < pn.Length ensures pn[m] == ShlPart(x, k, s, m, i + 1) {
          ShlTurn(x, k, s, m, i);
        }
      }
      ShlDone(x, k, s, pn[..]);
      ShlValue(x, k, s, pn[..]);
    }

    method ShrAssign(shift: nat)
      modifies pn
      ensures Value() == Quo(old(Value()), Pow2(shift))
    {
      hide Mul, Quo, Rem, Pow2, ShrPart;
      var a := new BaseUint.Copy(this);
      ghost var x := pn[..];
      Clear();
      var k, s := shift / 32, shift % 32;
      ShrNone(x, k, s);
      for i := 0 to pn.Length
        invariant a.pn[..] == x
        invariant forall m: nat | m < pn.Length :: pn[m] == ShrPart(x, k, s, m, i)
      {
        if i >= k + 1 && s != 0 {
          ShrTurn(x, k, s, i - k - 1, i);
          pn[i - k - 1] := BitOr(pn[i - k - 1], Shl32(a.pn[i], 32 - s));
        }
        if i >= k {
          ShrTurn(x, k, s, i - k, i);
          pn[i - k] := BitOr(pn[i - k], Shr32(a.pn[i], s));
        }
        forall m: nat | m < pn.Length ensures pn[m] == ShrPart(x, k, s, m, i + 1) {
          ShrTurn(x, k, s, m, i);
        }
      }
      ShrDone(x, k, s, pn[..]);
      ShrValue(x, k, s, pn[..]);
    }

    /** operator/=; false stands for the division-by-zero exception, thrown when the number is already cleared. */
    method DivAssign(b: BaseUint) returns (ok: bool)
      requires b.pn.Length == pn.Length > 0
      modifies pn
      ensures ok <==> old(b.Value()) != 0
      ensures Value() == if ok then Quo(old(Value()), old(b.Value())) else 0
    {
      hide Mul, Quo, Rem, Pow2, HasBits, Dividing;
      ghost var n, d := Value(), b.Value();
      var div := new BaseUint.Copy(b);
      var num := new BaseUint.Copy(this);
      Clear();
      ValZeros(pn.Length);
      var numBits := num.Bits();
      var divBits := div.Bits();
      NoBits(d, divBits);
      if divBits == 0 {
        return false;
      }
      ok := true;
      if divBits > numBits {
        FewerBits(n, d, numBits, divBits);
        return;
      }
      ValBound(num.pn[..]);
      DivideStart(n, d, numBits, divBits, pn.Length);
      div.ShlAssign(numBits - divBits);
      DivideLoop(num, div, numBits - divBits, n, d);
    }

    method DivideLoop(num: BaseUint, div: BaseUint, start: nat, ghost n: nat, ghost d: nat)
      requires num.pn.Length == div.pn.Length == pn.Length > 0 && start < 32 * pn.Length
      requires num.pn != pn && div.pn != pn && num.pn != div.pn
      requires d > 0 && pn[..] == seq(pn.Length, _ => 0)
      requires Dividing(n, d, 0, num.Value(), div.Value(), start)
      modifies pn, num.pn, div.pn
      ensures Value() == Quo(n, d)
    {
      hide Mul, Quo, Rem, Pow2, Dividing, LowZero, BitOr;
      ValZeros(pn.Length);
      ZerosLow(pn[..], start + 1);
      var shift: int := start;
      while shift >= 0
        invariant -1 <= shift <= start && LowZero(pn[..], shift + 1)
        invariant shift >= 0 ==> Dividing(n, d, Value(), num.Value(), div.Value(), shift)
        invariant shift == -1 ==> n == Mul(Value(), d) + num.Value() && num.Value() < d
      {
        DivideTurn(n, d, Value(), num.Value(), div.Value(), shift);
        var c := num.CompareTo(div);
        if c >= 0 {
          num.SubAssign(div);
          SetQuotientBit(shift);
        } else {
          SetBit(pn[..], shift);
        }
        HalfOf(div.Value());
        div.ShrAssign(1);
        shift := shift - 1;
      }
      DivModUnique(n, Value(), num.Value(), d);
    }

    method SetQuotientBit(shift: nat)
      requires shift < 32 * pn.Length && LowZero(pn[..], shift + 1)
      modifies pn
      ensures LowZero(pn[..], shift) && Value() == old(Value()) + Pow2(shift)
    {
      hide LowZero, BitOr, Pow2;
      SetBit(pn[..], shift);
      var w := shift / 32;
      ghost var x := pn[..];
      pn[w] := BitOr(pn[w], Pow2(shift % 32));
      assert pn[..] == x[w := x[w] + Pow2(shift % 32)];
    }

    method CompareTo(b: BaseUint) returns (c: int)
      requires b.pn.Length == pn.Length
      ensures c == if Value() < b.Value() then -1 else if Value() > b.Value() then 1 else 0
    {
      var i := pn.Length;
      while i > 0
        invariant 0 <= i <= pn.Length && pn[i..] == b.pn[i..]
      {
        i := i - 1;
        if pn[i] < b.pn[i] {
          HighestDecides(pn[..], b.pn[..], i);
          return -1;
        }
        if pn[i] > b.pn[i] {
          HighestDecides(b.pn[..], pn[..], i);
          return 1;
        }
      }
      assert pn[..] == b.pn[..];
      c := 0;
    }

    method Bits() returns (n: nat)
      ensures HasBits(Value(), n)
    {
      hide Pow2;
      var pos := pn.Length;
      while pos > 0
        invariant 0 <= pos <= pn.Length
        invariant forall i | pos <= i < pn.Length :: pn[i] == 0
      {
        pos := pos - 1;
        if pn[pos] != 0 {
          var bits := TopBitOf(pn[pos]);
          TopBit(pn[..], pos, bits);
          return 32 * pos + bits + 1;
        }
      }
      ZeroBits(pn[..]);
      Pow2Zero();
      n := 0;
    }

    /** The search for the highest bit of a limb that is not zero. */
    static method TopBitOf(x: Limb) returns (bits: nat)
      requires x != 0
      ensures bits < 32 && Pow2(bits) <= x < Pow2(bits + 1)
    {
      hide Quo, Pow2;
      bits := 31;
      Pow2Of32();
      while bits > 0
        invariant bits < 32 && x < Pow2(bits + 1)
      {
        BitTest(x, bits);
        if Quo(x, Pow2(bits)) % 2 == 1 {
          return;
        }
        bits := bits - 1;
      }
      Pow2Zero();
    }

    static lemma {:induction false} BitTest(x: nat, b: nat)
      requires x < Pow2(b + 1)
      ensures if Quo(x, Pow2(b)) % 2 == 1 then Pow2(b) <= x else x < Pow2(b)
    {
      hide Mul, Quo, Rem;
      var p := Pow2(b);
      QuoBounds(x, p);
      DivMod(x, p);
      MulStep(1, Quo(x, p), p);
      MulStep(2, Quo(x, p), p);
      MulBasics(p, 0);
    }
  }

  // ----------------------------------------------- shift-and-subtract division

  lemma {:induction false} NoBits(v: nat, n: nat)
    requires HasBits(v, n)
    ensures n == 0 <==> v == 0
  {
  }

  lemma {:induction false} FewerBits(n: nat, d: nat, nb: nat, db: nat)
    requires HasBits(n, nb) && HasBits(d, db) && nb < db
    ensures d > 0 && Quo(n, d) == 0
  {
    Pow2Mono(nb, db - 1);
    MulBasics(d, 0);
    DivModUnique(n, 0, n, d);
  }

  lemma {:induction false} HalfOf(v: nat)
    ensures Quo(v, Pow2(1)) == Quo(v, 2)
  {
  }

  lemma {:induction false} ZerosLow(a: seq<Limb>, e: nat)
    requires a == seq(|a|, _ => 0)
    ensures LowZero(a, e)
  {
    ZeroIsMultiple(e % 32);
    if e / 32 < |a| {
      assert Multiple(a[e / 32], 0, e % 32);
    }
  }

  /** Dividend n, divisor b: quotient q so far, what is left, and the divisor shifted to bit e. */
  ghost predicate Dividing(n: nat, b: nat, q: nat, left: nat, d: nat, e: nat) {
    n == Mul(q, b) + left && d == Mul(b, Pow2(e)) && left < 2 * d
  }

  /** One turn: the quotient's bit e is decided. */
  lemma {:induction false} DivideTurn(n: nat, b: nat, q: nat, left: nat, d: nat, e: nat)
    requires b > 0 && Dividing(n, b, q, left, d, e)
    ensures var take := left >= d;
      var left' := if take then left - d else left;
      var q' := if take then q + Pow2(e) else q;
      && n == Mul(q', b) + left' && left' < d
      && (e > 0 ==> Dividing(n, b, q', left', Quo(d, 2), e - 1))
      && (e == 0 ==> left' < b)
  {
    hide Mul, Quo, Rem;
    MulAdd(q, Pow2(e), b);
    MulBasics(Pow2(e), b);
    if e > 0 {
      var p := Pow2(e - 1);
      MulAdd(p, p, b);
      MulBasics(p, b);
      MulBasics(Mul(b, p), 2);
      DivModUnique(d, Mul(b, p), 0, 2);
    } else {
      MulBasics(b, 1);
    }
  }

  /** Aligned at the top bit, the shifted divisor does not overflow and exceeds half the dividend. */
  lemma {:induction false} DivideStart(n: nat, b: nat, nb: nat, db: nat, width: nat)
    requires HasBits(n, nb) && HasBits(b, db) && n < Up(1, width) && 0 < db <= nb
    ensures 0 <= Mul(b, Pow2(nb - db)) < Up(1, width)
    ensures Rem(Mul(b, Pow2(nb - db)), Up(1, width)) == Mul(b, Pow2(nb - db))
    ensures Dividing(n, b, 0, n, Mul(b, Pow2(nb - db)), nb - db)
    ensures nb <= 32 * width
  {
    hide Mul, Quo, Rem;
    var s := nb - db;
    var p := Pow2(s);
    MulStep(b, Pow2(db), p);
    MulStep(Pow2(db - 1), b, p);
    Pow2Add(db, s);
    Pow2Add(db - 1, s);
    MulBasics(b, p);
    MulBasics(b, 0);
    ModulusIsPow2(width);
    if nb > 32 * width {
      Pow2Mono(32 * width, nb - 1);
    }
    Pow2Mono(nb, 32 * width);
    MulBasics(Up(1, width), 0);
    DivModUnique(Mul(b, p), 0, Mul(b, p), Up(1, width));
  }

  lemma {:induction false} ShlNone(x: seq<Limb>, k: nat, s: nat)
    requires s < 32
    ensures forall m: nat | m < |x| :: ShlPart(x, k, s, m, 0) == 0
  {
    OrZero();
  }

  lemma {:induction false} ShlDone(x: seq<Limb>, k: nat, s: nat, r: seq<Limb>)
    requires s < 32 && |r| == |x| && forall m: nat | m < |x| :: r[m] == ShlPart(x, k, s, m, |x|)
    ensures forall m: nat | m < |x| :: r[m] == ShlAt(x, k, s, m)
  {
  }

  lemma {:induction false} ShrNone(x: seq<Limb>, k: nat, s: nat)
    requires s < 32
    ensures forall m: nat | m < |x| :: ShrPart(x, k, s, m, 0) == 0
  {
    OrZero();
  }

  lemma {:induction false} ShrDone(x: seq<Limb>, k: nat, s: nat, r: seq<Limb>)
    requires s < 32 && |r| == |x| && forall m: nat | m < |x| :: r[m] == ShrPart(x, k, s, m, |x|)
    ensures forall m: nat | m < |x| :: r[m] == ShrAt(x, k, s, m)
  {
  }
}
