/**
 * The compact encoding of difficulty targets (src/arith_uint256.cpp), as
 * functions on numbers: which numbers it denotes, and how much it rounds.
 */
module Compact {
  import opened Arithmetic
  import opened Common

  const TWO_23: int := 0x80_0000
  const TWO_24: int := 0x100_0000

  type Word32 = x: int | 0 <= x < 0x1_0000_0000 witness 0

  function Size(c: Word32): nat {
    c / TWO_24
  }

  /** The 23-bit mantissa, shifted down for sizes below three. */
  function Word(c: Word32): nat {
    var w := c % TWO_23;
    if Size(c) <= 3 then
      QuoBounds(w, Pow2(8 * (3 - Size(c))));
      Quo(w, Pow2(8 * (3 - Size(c))))
    else w
  }

  predicate SignBit(c: Word32) {
    c / TWO_23 % 2 == 1
  }

  /** The number that the encoding denotes, without its sign. */
  function Denotes(c: Word32): nat {
    if Size(c) <= 3 then Word(c)
    else
      MulBasics(Word(c), Pow2(8 * (Size(c) - 3)));
      Mul(Word(c), Pow2(8 * (Size(c) - 3)))
  }

  /** The flags of SetCompact. */
  predicate IsNegative(c: Word32) {
    Word(c) != 0 && SignBit(c)
  }

  predicate IsOverflow(c: Word32) {
    Word(c) != 0 && (Size(c) > 34 || (Word(c) > 0xff && Size(c) > 33) || (Word(c) > 0xffff && Size(c) > 32))
  }

  // ------------------------------------------------------- overflow is exact

  lemma {:induction false} Pow2Values()
    ensures Pow2(8) == 256 && Pow2(15) == 0x8000 && Pow2(16) == 0x1_0000
    ensures Pow2(23) == TWO_23 && Pow2(24) == TWO_24 && Pow2(256) == TWO_256
  {
    Pow2Of8();
    hide Pow2;
    Pow2Add(8, 8);
    Pow2Add(8, 7);
    Pow2Add(16, 8);
    Pow2Add(16, 7);
    Pow2Add(16, 16);
    Pow2Add(32, 32);
    Pow2Add(64, 64);
    Pow2Add(128, 128);
  }

  lemma {:induction false} Pow2Of8()
    ensures Pow2(8) == 256 && Pow2(7) == 128
  {
  }

  lemma {:induction false} WordBound(c: Word32)
    ensures Word(c) < TWO_23
  {
    hide Quo, Pow2;
    if Size(c) <= 3 {
      QuoBounds(c % TWO_23, Pow2(8 * (3 - Size(c))));
    }
  }

  /** w * 2^a < 2^b where w < 2^k and k + a <= b. */
  lemma {:induction false} ProductBelow(w: nat, k: nat, a: nat, b: nat)
    requires w < Pow2(k) && k + a <= b
    ensures 0 <= Mul(w, Pow2(a)) && Mul(w, Pow2(a)) + Pow2(a) <= Pow2(b)
  {
    hide Mul, Pow2;
    MulBasics(w, Pow2(a));
    MulStep(w, Pow2(k), Pow2(a));
    Pow2Add(k, a);
    Pow2Mono(k + a, b);
  }

  lemma {:induction false} ProductAbove(w: nat, k: nat, a: nat, b: nat)
    requires w >= Pow2(k) && k + a >= b
    ensures Mul(w, Pow2(a)) >= Pow2(b)
  {
    hide Mul, Pow2;
    MulStep(Pow2(k), w, Pow2(a));
    Pow2Add(k, a);
    Pow2Mono(b, k + a);
  }

  /** The overflow flag is set exactly when the denoted number does not fit 256 bits. */
  lemma {:induction false} OverflowExact(c: Word32)
    ensures IsOverflow(c) <==> Denotes(c) >= TWO_256
  {
    hide Mul, Pow2, Word;
    var w, s := Word(c), Size(c);
    Pow2Values();
    WordBound(c);
    if s > 3 {
      var a := 8 * (s - 3);
      if s <= 32 {
        ProductBelow(w, 23, a, 256);
      } else if s == 33 {
        if w > 0xffff { ProductAbove(w, 16, a, 256); } else { ProductBelow(w, 16, a, 256); }
      } else if s == 34 {
        if w > 0xff { ProductAbove(w, 8, a, 256); } else { ProductBelow(w, 8, a, 256); }
      } else if w != 0 {
        assert Pow2(0) == 1 by { Pow2Zero(); }
        ProductAbove(w, 0, a, 256);
      } else {
        MulBasics(Pow2(a), 0);
      }
    }
  }

  /** A target that fits leaves room for the next number. */
  lemma {:induction false} DenotesRoom(c: Word32)
    requires !IsOverflow(c)
    ensures Denotes(c) + 2 <= TWO_256
  {
    hide Mul, Pow2, Word;
    var w, s := Word(c), Size(c);
    Pow2Values();
    WordBound(c);
    if s > 3 {
      var a := 8 * (s - 3);
      Pow2Mono(8, a);
      if s <= 32 {
        ProductBelow(w, 23, a, 256);
      } else if s == 33 {
        ProductBelow(w, 16, a, 256);
      } else if s == 34 {
        ProductBelow(w, 8, a, 256);
      } else {
        MulBasics(Pow2(a), 0);
      }
    }
  }

  // ------------------------------------------------------------- encoding

  /** The number of bytes of n. */
  ghost predicate HasBytes(n: nat, s: nat) {
    n < Pow2(8 * s) && (s > 0 ==> Pow2(8 * (s - 1)) <= n)
  }

  /** The top three bytes of n, which has s bytes. */
  function TopBytes(n: nat, s: nat): nat {
    if s <= 3 then
      MulBasics(n, Pow2(8 * (3 - s)));
      Mul(n, Pow2(8 * (3 - s)))
    else
      QuoBounds(n, Pow2(8 * (s - 3)));
      Quo(n, Pow2(8 * (s - 3)))
  }

  /** Mantissa and size after making room for the sign bit. */
  function Mantissa(n: nat, s: nat): nat {
    if TopBytes(n, s) >= TWO_23 then TopBytes(n, s) / 256 else TopBytes(n, s)
  }

  function FinalSize(n: nat, s: nat): nat {
    if TopBytes(n, s) >= TWO_23 then s + 1 else s
  }

  /** GetCompact */
  function Encode(n: nat, s: nat, negative: bool): int {
    Mantissa(n, s) + FinalSize(n, s) * TWO_24 + if negative && Mantissa(n, s) != 0 then TWO_23 else 0
  }

  lemma {:induction false} TopBytesRange(n: nat, s: nat)
    requires HasBytes(n, s) && s <= 32
    ensures TopBytes(n, s) < TWO_24
    ensures s > 0 ==> TopBytes(n, s) >= 0x1_0000
    ensures s == 0 ==> n == 0 && TopBytes(n, s) == 0
  {
    hide Mul, Quo, Rem, Pow2;
    Pow2Values();
    Pow2Zero();
    if s <= 3 {
      ProductBelow(n, 8 * s, 8 * (3 - s), 24);
      if s > 0 {
        ProductAbove(n, 8 * (s - 1), 8 * (3 - s), 16);
      } else {
        MulBasics(Pow2(24), 0);
      }
    } else {
      var p := Pow2(8 * (s - 3));
      var q := Quo(n, p);
      DivMod(n, p);
      QuoBounds(n, p);
      MulStep(TWO_24, q, p);
      Pow2Add(24, 8 * (s - 3));
      MulStep(q, 0x1_0000, p);
      Pow2Add(16, 8 * (s - 3));
    }
  }

  /** Both assertions of GetCompact, and what its result is made of. */
  lemma {:induction false} EncodeFields(n: nat, s: nat, negative: bool)
    requires HasBytes(n, s) && s <= 32
    ensures 0 <= Encode(n, s, negative) < 0x1_0000_0000
    ensures Mantissa(n, s) < TWO_23 && FinalSize(n, s) <= 33
    ensures Size(Encode(n, s, negative)) == FinalSize(n, s)
    ensures Encode(n, s, negative) % TWO_23 == Mantissa(n, s)
    ensures SignBit(Encode(n, s, negative)) <==> negative && Mantissa(n, s) != 0
  {
    TopBytesRange(n, s);
    hide TopBytes, HasBytes;
    Fields(Mantissa(n, s), FinalSize(n, s), negative && Mantissa(n, s) != 0);
  }

  lemma {:induction false} Fields(m: nat, f: nat, sign: bool)
    requires m < TWO_23 && f <= 33
    ensures var c: int := m + f * TWO_24 + if sign then TWO_23 else 0;
      0 <= c < 0x1_0000_0000 && c / TWO_24 == f && c % TWO_23 == m && (c / TWO_23 % 2 == 1 <==> sign)
  {
  }

  // -------------------------------------------------------------- rounding

  /** d is n rounded down by less than one part in 2^15. */
  ghost predicate RoundsTo(n: nat, d: nat) {
    d <= n && (n > 0 ==> 0x8000 * n < 0x8001 * d)
  }

  /** A mantissa of at least 15 bits keeps the error small. */
  lemma {:induction false} GoodMantissa(n: nat, m: nat, p: nat)
    requires p > 0 && m == Quo(n, p) && m >= 0x8000
    ensures Mul(m, p) >= 0 && RoundsTo(n, Mul(m, p))
  {
    hide Mul, Quo, Rem;
    DivMod(n, p);
    MulBasics(m, p);
    MulStep(0x8000, m, p);
    MulConst(p);
  }

  lemma {:induction false} MulConst(p: int)
    ensures Mul(0x8000, p) == 0x8000 * p && Mul(256, p) == 256 * p
  {
  }

  lemma {:induction false} ExactQuo(n: nat, p: nat)
    requires p > 0
    ensures Mul(n, p) >= 0 && Quo(Mul(n, p), p) == n
  {
    hide Mul, Quo, Rem;
    MulBasics(n, p);
    DivModUnique(Mul(n, p), n, 0, p);
  }

  /** The quotient by 256 * p is the quotient by p, divided by 256. */
  lemma {:induction false} QuoBy256(n: nat, p: nat)
    requires p > 0
    ensures Quo(n, p) / 256 == Quo(n, 256 * p)
  {
    hide Mul, Quo, Rem;
    var q := Quo(n, p);
    DivMod(n, p);
    var t, u := q / 256, q % 256;
    MulAdd(256 * t, u, p);
    MulBasics(256 * t, p);
    MulBasics(t, p);
    Mul256(p, t);
    MulBasics(t, 256 * p);
    Mul256(t, p);
    MulStep(u, 256, p);
    MulConst(p);
    MulBasics(u, p);
    DivModUnique(n, t, Mul(u, p) + Rem(n, p), 256 * p);
  }

  lemma {:induction false} Mul256(a: int, b: int)
    ensures Mul(a, 256 * b) == 256 * Mul(a, b)
  {
  }

  lemma {:induction false} Pow2Byte(s: nat)
    ensures Pow2(8 * (s + 1)) == 256 * Pow2(8 * s)
  {
    hide Pow2;
    Pow2Add(8 * s, 8);
    Pow2Of8();
    MulBasics(Pow2(8 * s), 256);
    MulConst(Pow2(8 * s));
  }

  /** Small numbers are encoded exactly; three bytes with the top bit set lose their last byte. */
  lemma {:induction false} SmallRounds(n: nat, s: nat, negative: bool)
    requires HasBytes(n, s) && s <= 3
    ensures 0 <= Encode(n, s, negative) < 0x1_0000_0000 && RoundsTo(n, Denotes(Encode(n, s, negative)))
  {
    EncodeFields(n, s, negative);
    TopBytesRange(n, s);
    hide Mul, Quo, Rem, Pow2, Encode;
    var t := TopBytes(n, s);
    Pow2Zero();
    if t < TWO_23 {
      ExactQuo(n, Pow2(8 * (3 - s)));
    } else if s <= 2 {
      Pow2Byte(2 - s);
      Mul256(n, Pow2(8 * (2 - s)));
      ExactQuo(n, Pow2(8 * (2 - s)));
    } else {
      Pow2Of8();
      MulBasics(n, 1);
      MulBasics(Mantissa(n, s), 256);
      MulConst(Mantissa(n, s));
    }
  }

  lemma {:induction false} LargeRounds(n: nat, s: nat, negative: bool)
    requires HasBytes(n, s) && 3 < s <= 32
    ensures 0 <= Encode(n, s, negative) < 0x1_0000_0000 && RoundsTo(n, Denotes(Encode(n, s, negative)))
  {
    EncodeFields(n, s, negative);
    TopBytesRange(n, s);
    hide Mul, Quo, Rem, Pow2, Encode, RoundsTo;
    var p := Pow2(8 * (s - 3));
    var t := TopBytes(n, s);
    if t < TWO_23 {
      GoodMantissa(n, t, p);
    } else {
      Pow2Byte(s - 3);
      QuoBy256(n, p);
      GoodMantissa(n, t / 256, 256 * p);
    }
  }

  /**
   * What GetCompact writes, SetCompact reads without overflow as the number
   * rounded down by less than one part in 2^15, with the sign asked for.
   */
  lemma {:induction false} EncodeRounds(n: nat, s: nat, negative: bool)
    requires HasBytes(n, s) && s <= 32
    ensures 0 <= Encode(n, s, negative) < 0x1_0000_0000
    ensures RoundsTo(n, Denotes(Encode(n, s, negative)))
    ensures !IsOverflow(Encode(n, s, negative))
    ensures IsNegative(Encode(n, s, negative)) <==> negative && n > 0
  {
    if s <= 3 {
      SmallRounds(n, s, negative);
    } else {
      LargeRounds(n, s, negative);
    }
    EncodeFields(n, s, negative);
    TopBytesRange(n, s);
    var c := Encode(n, s, negative);
    OverflowExact(c);
    Pow2Values();
    hide Encode, Mul, Quo, Pow2, TopBytes;
    Pow2Mono(8 * s, 256);
    if Size(c) > 3 {
      MulBasics(Pow2(8 * (Size(c) - 3)), 0);
    }
  }
}
