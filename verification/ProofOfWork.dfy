/**
 * Targets, block proof and retargeting: SetCompact and GetCompact on limbs
 * (src/arith_uint256.cpp), GetBlockProof (src/chain.cpp), the retarget formula
 * (src/coinyecoin.cpp) and the range test of src/pow.cpp.
 */
module ProofOfWork {
  import opened Arithmetic
  import opened Common
  import opened Limbs
  import opened LimbShifts
  import opened ArithUint
  import opened Compact

  const WIDTH := 8

  lemma {:induction false} Modulus256()
    ensures Up(1, WIDTH) == TWO_256
  {
    ModulusIsPow2(WIDTH);
    Pow2Values();
  }

  // ---------------------------------------------------------- compact targets

  method SetCompact(x: BaseUint, nCompact: Word32) returns (fNegative: bool, fOverflow: bool)
    requires x.pn.Length == WIDTH
    modifies x.pn
    ensures x.Value() == Rem(Denotes(nCompact), TWO_256)
    ensures fNegative == IsNegative(nCompact) && fOverflow == IsOverflow(nCompact)
  {
    hide Mul, Quo, Rem, Pow2;
    Modulus256();
    WordBound(nCompact);
    var nSize := nCompact / TWO_24;
    var nWord: nat := nCompact % TWO_23;
    if nSize <= 3 {
      QuoBounds(nWord, Pow2(8 * (3 - nSize)));
      nWord := Quo(nWord, Pow2(8 * (3 - nSize)));
      x.SetSmall(nWord);
      RemSmall(nWord, TWO_256);
    } else {
      x.SetSmall(nWord);
      x.ShlAssign(8 * (nSize - 3));
    }
    fNegative := nWord != 0 && nCompact / TWO_23 % 2 == 1;
    fOverflow := nWord != 0 && (nSize > 34 || (nWord > 0xff && nSize > 33) || (nWord > 0xffff && nSize > 32));
  }

  lemma {:induction false} BytesOfBits(v: nat, nb: nat)
    requires HasBits(v, nb)
    ensures HasBytes(v, (nb + 7) / 8)
  {
    hide Pow2;
    var s := (nb + 7) / 8;
    Pow2Mono(nb, 8 * s);
    if nb > 0 {
      Pow2Mono(8 * (s - 1), nb - 1);
    }
  }

  method GetCompact(x: BaseUint, fNegative: bool) returns (nCompact: Word32, ghost s: nat)
    requires x.pn.Length == WIDTH
    ensures HasBytes(x.Value(), s) && s <= 32
    ensures nCompact == Encode(x.Value(), s, fNegative)
  {
    hide Mul, Quo, Rem, Pow2, HasBits, HasBytes;
    ghost var v := x.Value();
    var bits := x.Bits();
    var nSize := (bits + 7) / 8;
    s := nSize;
    BytesOfBits(v, bits);
    ValBound(x.pn[..]);
    Modulus256();
    BytesBound(v, nSize);
    TopBytesRange(v, nSize);
    EncodeFields(v, nSize, fNegative);
    var compact: nat;
    if nSize <= 3 {
      var low := GetLow64(x);
      BytesSmall(v, nSize);
      RemSmall(v, B * B);
      compact := Mul(low, Pow2(8 * (3 - nSize)));
    } else {
      var bn := new BaseUint.Copy(x);
      bn.ShrAssign(8 * (nSize - 3));
      var low := GetLow64(bn);
      RemSmall(bn.Value(), B * B);
      compact := low;
    }
    assert compact == TopBytes(v, s);
    if compact / TWO_23 % 2 == 1 {
      compact := compact / 256;
      nSize := nSize + 1;
    }
    assert compact < TWO_23 && nSize < 256;
    nCompact := compact + nSize * TWO_24 + if fNegative && compact != 0 then TWO_23 else 0;
  }

  /** A 256-bit number has at most 32 bytes. */
  lemma {:induction false} BytesBound(v: nat, s: nat)
    requires HasBytes(v, s) && v < TWO_256
    ensures s <= 32
  {
    Pow2Values();
    hide Pow2;
    if s > 32 {
      Pow2Mono(256, 8 * (s - 1));
    }
  }

  lemma {:induction false} BytesSmall(v: nat, s: nat)
    requires HasBytes(v, s) && s <= 3
    ensures v < TWO_24
  {
    Pow2Values();
    hide Pow2;
    Pow2Mono(8 * s, 24);
  }

  /** The lowest 64 bits. */
  method GetLow64(x: BaseUint) returns (r: nat)
    requires x.pn.Length >= 2
    ensures r < B * B && r == Rem(x.Value(), B * B)
  {
    hide Mul, Quo, Rem;
    r := x.pn[0] + x.pn[1] * B;
    ghost var a := x.pn[..];
    assert a == a[..2] + a[2..];
    ValConcat(a[..2], a[2..]);
    assert a[..2][1..] == [a[1]];
    assert Val([a[1]]) == a[1] + B * Val([]);
    assert Up(1, 2) == B * B by { assert Up(1, 1) == B; }
    ValBound(a[..2]);
    CarryIsMod(Val(a), Val(a[..2]), Val(a[2..]), 2);
  }

  // -------------------------------------------------------------- block proof

  /** The number of hashes that a block with this target stands for. */
  function BlockProof(c: Word32): nat {
    if IsNegative(c) || IsOverflow(c) || Denotes(c) == 0 then 0
    else
      QuoBounds(TWO_256, Denotes(c) + 1);
      Quo(TWO_256, Denotes(c) + 1)
  }

  /** 2^256 / (t + 1) without leaving 256 bits. */
  lemma {:induction false} ProofFormula(t: nat)
    requires 0 < t && t + 2 <= TWO_256
    ensures Quo(TWO_256 - 1 - t, t + 1) + 1 == Quo(TWO_256, t + 1) < TWO_256
    ensures 0 <= Quo(TWO_256 - 1 - t, t + 1)
  {
    hide Mul, Quo, Rem;
    var x, m := TWO_256 - 1 - t, t + 1;
    QuoBounds(x, m);
    DivMod(x, m);
    MulAdd(Quo(x, m), 1, m);
    MulBasics(m, 1);
    DivModUnique(TWO_256, Quo(x, m) + 1, Rem(x, m), m);
  }

  method GetBlockProof(nBits: Word32) returns (r: BaseUint)
    ensures fresh(r) && fresh(r.pn) && r.pn.Length == WIDTH && r.Value() == BlockProof(nBits)
  {
    hide Mul, Quo, Rem, Word;
    Modulus256();
    var target := new BaseUint.Zero(WIDTH);
    var fNegative, fOverflow := SetCompact(target, nBits);
    var zero := new BaseUint.Zero(WIDTH);
    if fNegative || fOverflow {
      return zero;
    }
    DenotesRoom(nBits);
    RemSmall(Denotes(nBits), TWO_256);
    var isZero := target.CompareTo(zero);
    if isZero == 0 {
      return zero;
    }
    r := InverseOf(target);
  }

  /** ~t / (t + 1) + 1 on the limbs. */
  method InverseOf(target: BaseUint) returns (r: BaseUint)
    requires target.pn.Length == WIDTH && 0 < target.Value() && target.Value() + 2 <= TWO_256
    ensures fresh(r) && fresh(r.pn) && r.pn.Length == WIDTH
    ensures r.Value() == Quo(TWO_256, target.Value() + 1)
  {
    hide Mul, Quo, Rem;
    Modulus256();
    ghost var t := target.Value();
    ProofFormula(t);
    r := target.Complemented();
    var next := new BaseUint.Copy(target);
    var one := new BaseUint.Zero(WIDTH);
    one.SetSmall(1);
    next.AddAssign(one);
    RemSmall(t + 1, TWO_256);
    var ok := r.DivAssign(next);
    r.AddAssign(one);
    RemSmall(Quo(TWO_256, t + 1), TWO_256);
  }

  // --------------------------------------------------------------- retargeting

  /** Division of the source language: towards zero. */
  function TruncDiv(a: int, b: nat): int
    requires b > 0
  {
    if a >= 0 then a / b else -((-a) / b)
  }

  datatype Rule = Digishield | ByHeight(height: int)

  function MinSpan(rule: Rule, r: nat): nat {
    match rule
    case Digishield => r - r / 4
    case ByHeight(h) => if h > 10000 then r / 4 else if h > 5000 then r / 8 else r / 16
  }

  function MaxSpan(rule: Rule, r: nat): nat {
    match rule
    case Digishield => r + r / 2
    case ByHeight(_) => r * 4
  }

  /** The time span that the retarget formula uses. */
  function Span(rule: Rule, r: nat, actual: int): int {
    var m := if rule.Digishield? then r + TruncDiv(actual - r, 8) else actual;
    if m < MinSpan(rule, r) then MinSpan(rule, r)
    else if m > MaxSpan(rule, r) then MaxSpan(rule, r)
    else m
  }

  /** The new target before encoding; the factor is passed as 32 bits and the product kept to 256. */
  function NextTarget(last: nat, span: int, r: nat, limit: nat): nat
    requires r > 0
  {
    QuoBounds(Rem(Mul(span % B, last), TWO_256), r);
    var t := Quo(Rem(Mul(span % B, last), TWO_256), r);
    if t > limit then limit else t
  }

  /** The parameters for which no step of the formula exceeds its width. */
  predicate NoWrap(last: nat, r: nat, limit: nat) {
    16 <= r && 4 * r < B && last <= limit < TWO_256 && Mul(4 * r, limit) < TWO_256
  }

  /** The target scaled by a / r and cut at the limit. */
  function Scaled(last: nat, a: int, r: nat, limit: nat): int
    requires r > 0
  {
    Min(limit, Quo(Mul(a, last), r))
  }

  /** d is an eighth of what a exceeds r by, rounded towards zero. */
  predicate IsEighth(a: int, r: nat, d: int) {
    if a >= r then 8 * d <= a - r < 8 * d + 8 else 8 * d - 8 < a - r <= 8 * d
  }

  /** Between a lowest and a highest time span the target follows the time, outside it the nearer end. */
  predicate Follows(last: nat, a: int, lo: int, hi: int, r: nat, limit: nat, t: int)
    requires r > 0
  {
    && (lo <= a <= hi ==> t == Scaled(last, a, r, limit))
    && (a < lo ==> t == Scaled(last, lo, r, limit))
    && (a > hi ==> t == Scaled(last, hi, r, limit))
  }

  /** The new target t, in numbers. */
  ghost predicate Retargets(rule: Rule, r: nat, actual: int, last: nat, limit: nat, t: int)
    requires r > 0
  {
    match rule
    case Digishield =>
      forall d: int :: IsEighth(actual, r, d) ==> Follows(last, r + d, r - r / 4, r + r / 2, r, limit, t)
    case ByHeight(h) =>
      && (h > 10000 ==> Follows(last, actual, r / 4, 4 * r, r, limit, t))
      && (5000 < h <= 10000 ==> Follows(last, actual, r / 8, 4 * r, r, limit, t))
      && (h <= 5000 ==> Follows(last, actual, r / 16, 4 * r, r, limit, t))
  }

  /** The answer of the formula for every rule, time span and old target. */
  lemma {:induction false} RetargetInNumbers(rule: Rule, r: nat, actual: int, last: nat, limit: nat)
    requires NoWrap(last, r, limit)
    ensures Retargets(rule, r, actual, last, limit, NextTarget(last, Span(rule, r, actual), r, limit))
  {
    hide Mul, Quo, Rem, NextTarget;
    SpanBounds(rule, r, actual);
    NextTargetExact(last, Span(rule, r, actual), r, limit);
  }

  /** For an elapsed time of r + 8d the Digishield target is scaled by (r + d) / r. */
  lemma {:induction false} DigishieldEighth(r: nat, d: int, last: nat, limit: nat)
    requires NoWrap(last, r, limit) && -(r / 4) <= d <= r / 2
    ensures NextTarget(last, Span(Digishield, r, r + 8 * d), r, limit) == Scaled(last, r + d, r, limit)
  {
    hide Mul, Quo, Rem, NextTarget, Span;
    RetargetInNumbers(Digishield, r, r + 8 * d, last, limit);
    assert IsEighth(r + 8 * d, r, d);
  }

  /** The target never falls when more time has passed. */
  lemma {:induction false} RetargetMonotone(rule: Rule, r: nat, a: int, b: int, last: nat, limit: nat)
    requires NoWrap(last, r, limit) && a <= b
    ensures NextTarget(last, Span(rule, r, a), r, limit) <= NextTarget(last, Span(rule, r, b), r, limit)
  {
    SpanMonotone(rule, r, a, b);
    hide Mul, Quo, Rem, NextTarget, Span;
    SpanBounds(rule, r, a);
    SpanBounds(rule, r, b);
    var x, y := Span(rule, r, a), Span(rule, r, b);
    NextTargetExact(last, x, r, limit);
    NextTargetExact(last, y, r, limit);
    MulStep(x, y, last);
    QuoMono(Mul(x, last), Mul(y, last), r);
  }

  lemma SpanMonotone(rule: Rule, r: nat, a: int, b: int)
    requires a <= b
    ensures Span(rule, r, a) <= Span(rule, r, b)
  {
  }

  method NextWorkRequired(nBits: Word32, rule: Rule, r: nat, actual: int, limit: BaseUint)
    returns (nCompact: Word32, ghost s: nat)
    requires limit.pn.Length == WIDTH && 0 < r < B * B
    ensures var t := NextTarget(Rem(Denotes(nBits), TWO_256), Span(rule, r, actual), r, limit.Value());
      && HasBytes(t, s) && s <= 32 && nCompact == Encode(t, s, false)
      && (NoWrap(Denotes(nBits), r, limit.Value()) ==> Retargets(rule, r, actual, Denotes(nBits), limit.Value(), t))
  {
    hide Mul, Quo, Rem, Pow2, HasBytes, Encode, Word, Span, Retargets;
    Modulus256();
    if NoWrap(Denotes(nBits), r, limit.Value()) {
      RemSmall(Denotes(nBits), TWO_256);
      RetargetInNumbers(rule, r, actual, Denotes(nBits), limit.Value());
    }
    var modulated := ModulatedSpan(rule, r, actual);
    var bn := new BaseUint.Zero(WIDTH);
    var fNegative, fOverflow := SetCompact(bn, nBits);
    bn.MulSmallAssign(modulated % B);
    var divisor := new BaseUint.Zero(WIDTH);
    divisor.SetSmall(r);
    var ok := bn.DivAssign(divisor);
    var c := bn.CompareTo(limit);
    if c > 0 {
      bn := new BaseUint.Copy(limit);
    }
    nCompact, s := GetCompact(bn, false);
  }

  method ModulatedSpan(rule: Rule, r: nat, actual: int) returns (modulated: int)
    ensures modulated == Span(rule, r, actual)
  {
    modulated := actual;
    if rule.Digishield? {
      modulated := r + TruncDiv(modulated - r, 8);
    }
    var minSpan, maxSpan := MinSpan(rule, r), MaxSpan(rule, r);
    if modulated < minSpan {
      modulated := minSpan;
    } else if modulated > maxSpan {
      modulated := maxSpan;
    }
  }

  predicate InRange(nBits: Word32, limit: nat) {
    !IsNegative(nBits) && Denotes(nBits) != 0 && !IsOverflow(nBits) && Denotes(nBits) <= limit
  }

  /** CheckProofOfWork */
  predicate CheckProofOfWork(hash: nat, nBits: Word32, limit: nat) {
    InRange(nBits, limit) && hash <= Denotes(nBits)
  }

  lemma {:induction false} SpanBounds(rule: Rule, r: nat, actual: int)
    requires r >= 16
    ensures 1 <= MinSpan(rule, r) <= Span(rule, r, actual) <= MaxSpan(rule, r) <= 4 * r
  {
  }

  /** No step of the formula wraps, so the new target is the scaled old one, cut at the limit. */
  lemma {:induction false} NextTargetExact(last: nat, span: nat, r: nat, limit: nat)
    requires 0 < r && 1 <= span <= 4 * r < B && last <= limit && Mul(4 * r, limit) < TWO_256
    ensures Mul(span, last) >= 0
    ensures NextTarget(last, span, r, limit) ==
            if Quo(Mul(span, last), r) > limit then limit else Quo(Mul(span, last), r)
  {
    hide Mul, Quo, Rem;
    MulBasics(span, last);
    MulBasics(4 * r, limit);
    MulStep(span, 4 * r, last);
    MulStep(last, limit, 4 * r);
    MulBasics(4 * r, last);
    RemSmall(Mul(span, last), TWO_256);
  }

  lemma {:induction false} QuoMono(a: int, b: int, m: nat)
    requires m > 0 && a <= b
    ensures Quo(a, m) <= Quo(b, m)
  {
    hide Mul, Quo, Rem;
    DivMod(a, m);
    DivMod(b, m);
    MulStep(Quo(b, m), Quo(a, m), m);
  }

  /**
   * A retarget changes the target by no more than the rule's ratios, never
   * beyond the limit, and what is stored rounds it down by less than one part
   * in 2^15. Unless the new target is zero, the hashes that CheckProofOfWork
   * then accepts are exactly those that do not exceed what is stored.
   */
  lemma {:induction false} RetargetBounded(nBits: Word32, rule: Rule, r: nat, actual: int, limit: nat, s: nat)
    requires 16 <= r && 4 * r < B && Denotes(nBits) <= limit < TWO_256 && Mul(4 * r, limit) < TWO_256
    requires HasBytes(NextTarget(Denotes(nBits), Span(rule, r, actual), r, limit), s) && s <= 32
    ensures var last := Denotes(nBits);
      var t := NextTarget(last, Span(rule, r, actual), r, limit);
      && t <= limit
      && t <= Quo(Mul(MaxSpan(rule, r), last), r)
      && (t >= Quo(Mul(MinSpan(rule, r), last), r) || t == limit)
      && 0 <= Encode(t, s, false) < 0x1_0000_0000
      && RoundsTo(t, Denotes(Encode(t, s, false)))
      && (t != 0 ==> forall hash: nat :: CheckProofOfWork(hash, Encode(t, s, false), limit) <==>
                                           hash <= Denotes(Encode(t, s, false)))
  {
    hide Mul, Quo, Rem, Pow2, Encode, Word, HasBytes;
    var last, span := Denotes(nBits), Span(rule, r, actual);
    SpanBounds(rule, r, actual);
    NextTargetExact(last, span, r, limit);
    MulStep(span, MaxSpan(rule, r), last);
    MulStep(MinSpan(rule, r), span, last);
    QuoMono(Mul(span, last), Mul(MaxSpan(rule, r), last), r);
    QuoMono(Mul(MinSpan(rule, r), last), Mul(span, last), r);
    EncodeRounds(NextTarget(last, span, r, limit), s, false);
  }
}
