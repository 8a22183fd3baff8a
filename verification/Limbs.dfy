/**
 * Little-endian sequences of 32-bit limbs and the numbers they stand for: what
 * the carry loops of src/arith_uint256.cpp and src/arith_uint256.h compute.
 */
module Limbs {
  import opened Arithmetic

  const B: int := 0x1_0000_0000

  /** uint32_t */
  type Limb = x: int | 0 <= x < B witness 0

  function Val(s: seq<Limb>): nat {
    if s == [] then 0 else s[0] + B * Val(s[1..])
  }

  /** x * B^n */
  function Up(x: nat, n: nat): (r: nat)
    ensures x > 0 ==> r > 0
  {
    if n == 0 then x else B * Up(x, n - 1)
  }

  // ---------------------------------------------------------- basic facts

  lemma {:induction false} UpAdd(x: nat, y: nat, n: nat)
    ensures Up(x + y, n) == Up(x, n) + Up(y, n)
  {
    if n > 0 {
      UpAdd(x, y, n - 1);
    }
  }

  lemma {:induction false} UpTimes(x: nat, n: nat)
    ensures Up(x, n) == Mul(x, Up(1, n))
  {
    MulBasics(x, 1);
    if n > 0 {
      UpTimes(x, n - 1);
      ScaleUp(x, Up(1, n - 1));
    }
  }

  lemma {:induction false} ScaleUp(x: int, u: int)
    ensures Mul(x, B * u) == B * Mul(x, u)
  {
  }

  lemma {:induction false} UpPlus(x: nat, m: nat, n: nat)
    ensures Up(Up(x, m), n) == Up(x, m + n)
  {
    if n > 0 {
      UpPlus(x, m, n - 1);
    }
  }

  lemma {:induction false} ValBound(s: seq<Limb>)
    ensures Val(s) < Up(1, |s|)
  {
    if s != [] {
      ValBound(s[1..]);
    }
  }

  lemma {:induction false} ValConcat(a: seq<Limb>, b: seq<Limb>)
    ensures Val(a + b) == Val(a) + Up(Val(b), |a|)
  {
    if a == [] {
      assert a + b == b;
    } else {
      assert (a + b)[1..] == a[1..] + b;
      ValConcat(a[1..], b);
    }
  }

  lemma {:induction false} ValZeros(n: nat)
    ensures Val(seq(n, _ => 0)) == 0
  {
    if n > 0 {
      var s: seq<Limb> := seq(n, _ => 0);
      assert s[1..] == seq(n - 1, _ => 0);
      ValZeros(n - 1);
    }
  }

  /** Limb sequences of one length are equal when their values are. */
  lemma {:induction false} ValInjective(a: seq<Limb>, b: seq<Limb>)
    requires |a| == |b| && Val(a) == Val(b)
    ensures a == b
  {
    if a != [] {
      ValInjective(a[1..], b[1..]);
    }
  }

  /** What a carry out of the top limb means: the result is the remainder modulo B^n. */
  lemma {:induction false} CarryIsMod(x: nat, r: nat, carry: nat, n: nat)
    requires x == r + Up(carry, n) && r < Up(1, n)
    ensures r == Rem(x, Up(1, n)) && carry == Quo(x, Up(1, n))
  {
    hide Mul, Quo, Rem, Up;
    UpTimes(carry, n);
    DivModUnique(x, carry, r, Up(1, n));
  }

  // ------------------------------------------------------------- addition

  /** operator+= */
  function AddC(a: seq<Limb>, b: seq<Limb>, carry: nat): seq<Limb>
    requires |a| == |b|
  {
    if a == [] then []
    else
      var n := carry + a[0] + b[0];
      [n % B] + AddC(a[1..], b[1..], n / B)
  }

  /** One turn of the addition: the next limb joins those that are done. */
  lemma AddTurn(a: seq<Limb>, b: seq<Limb>, i: nat, carry: nat, done: seq<Limb>)
    requires |a| == |b| && i < |a|
    ensures done + AddC(a[i..], b[i..], carry)
         == done + [(carry + a[i] + b[i]) % B] + AddC(a[i + 1..], b[i + 1..], (carry + a[i] + b[i]) / B)
  {
    assert a[i..][1..] == a[i + 1..] && b[i..][1..] == b[i + 1..];
  }

  lemma AddEnd(a: seq<Limb>, b: seq<Limb>, carry: nat)
    requires a == b == []
    ensures AddC(a, b, carry) == []
  {
  }

  lemma {:induction false} AddCValue(a: seq<Limb>, b: seq<Limb>, carry: nat) returns (out: nat)
    requires |a| == |b|
    ensures |AddC(a, b, carry)| == |a|
    ensures Val(a) + Val(b) + carry == Val(AddC(a, b, carry)) + Up(out, |a|)
  {
    if a == [] {
      out := carry;
    } else {
      var n := carry + a[0] + b[0];
      out := AddCValue(a[1..], b[1..], n / B);
    }
  }

  lemma {:induction false} AddIsMod(a: seq<Limb>, b: seq<Limb>)
    requires |a| == |b|
    ensures |AddC(a, b, 0)| == |a| && Val(AddC(a, b, 0)) == Rem(Val(a) + Val(b), Up(1, |a|))
  {
    var out := AddCValue(a, b, 0);
    ValBound(AddC(a, b, 0));
    CarryIsMod(Val(a) + Val(b), Val(AddC(a, b, 0)), out, |a|);
  }

  // -------------------------------------------- complement and increment

  /** operator~ */
  function Complement(a: seq<Limb>): seq<Limb> {
    if a == [] then [] else [B - 1 - a[0]] + Complement(a[1..])
  }

  lemma {:induction false} ComplementValue(a: seq<Limb>)
    ensures |Complement(a)| == |a| && Val(Complement(a)) == Up(1, |a|) - 1 - Val(a)
  {
    if a != [] {
      ComplementValue(a[1..]);
    }
  }

  /** operator++: the carry stops at the first limb that does not wrap. */
  function Inc(a: seq<Limb>): seq<Limb> {
    if a == [] then [] else if a[0] == B - 1 then [0] + Inc(a[1..]) else [a[0] + 1] + a[1..]
  }

  lemma {:induction false} IncValue(a: seq<Limb>) returns (out: nat)
    ensures |Inc(a)| == |a|
    ensures Val(a) + 1 == Val(Inc(a)) + Up(out, |a|)
  {
    if a == [] {
      out := 1;
    } else if a[0] == B - 1 {
      out := IncValue(a[1..]);
    } else {
      out := 0;
      UpTimes(0, |a|);
      assert Inc(a)[1..] == a[1..];
    }
  }

  /** Where the carry stopped, and what it left behind. */
  lemma {:induction false} IncIs(x: seq<Limb>, r: seq<Limb>, i: nat)
    requires i < |x| == |r| && (forall j | 0 <= j < i :: x[j] == B - 1 && r[j] == 0)
    requires r[i] == (x[i] + 1) % B && (r[i] != 0 || i == |x| - 1) && r[i + 1..] == x[i + 1..]
    ensures r == Inc(x)
    decreases i
  {
    if i > 0 {
      IncIs(x[1..], r[1..], i - 1);
    } else if r[0] == 0 {
      assert x[1..] == [];
    }
    assert r == [r[0]] + r[1..];
  }

  lemma {:induction false} IncIsMod(a: seq<Limb>)
    ensures |Inc(a)| == |a| && Val(Inc(a)) == Rem(Val(a) + 1, Up(1, |a|))
  {
    var out := IncValue(a);
    ValBound(Inc(a));
    CarryIsMod(Val(a) + 1, Val(Inc(a)), out, |a|);
  }

  /** operator- (unary) */
  function Negate(a: seq<Limb>): seq<Limb> {
    Inc(Complement(a))
  }

  /** operator-= */
  function Sub(a: seq<Limb>, b: seq<Limb>): seq<Limb>
    requires |a| == |b| && |Negate(b)| == |b|
  {
    AddC(a, Negate(b), 0)
  }

  /** Subtraction is exact modulo B^n; without borrow it is exact. */
  lemma {:induction false} SubIsMod(a: seq<Limb>, b: seq<Limb>)
    requires |a| == |b|
    ensures |Negate(b)| == |b| && |Sub(a, b)| == |a|
    ensures Val(Sub(a, b)) == Rem(Val(a) - Val(b), Up(1, |a|))
    ensures Val(b) <= Val(a) ==> Val(Sub(a, b)) == Val(a) - Val(b)
  {
    var k := SubCarry(a, b);
    ValBound(Sub(a, b));
    ValBound(a);
    ValBound(b);
    UpTimes(k, |a|);
    hide Val, Up, Sub, Mul, Rem, Negate;
    BorrowIsMod(Val(a) - Val(b), Val(Sub(a, b)), k, Up(1, |a|));
  }

  lemma {:induction false} SubCarry(a: seq<Limb>, b: seq<Limb>) returns (k: nat)
    requires |a| == |b|
    ensures |Negate(b)| == |b| && |Sub(a, b)| == |a|
    ensures Val(a) - Val(b) + Up(1, |a|) == Val(Sub(a, b)) + Up(k, |a|)
  {
    hide Val, Up, AddC, Inc, Complement;
    ComplementValue(b);
    var out1 := IncValue(Complement(b));
    var out2 := AddCValue(a, Negate(b), 0);
    UpAdd(out1, out2, |a|);
    k := out1 + out2;
  }

  lemma {:induction false} BorrowIsMod(d: int, r: nat, k: int, m: nat)
    requires r < m && d < m && d + m == r + Mul(k, m)
    ensures r == Rem(d, m)
    ensures d >= 0 ==> r == d
  {
    hide Mul, Quo, Rem;
    MulAdd(k, 1, m);
    MulBasics(m, 0);
    ModAdd(r, k - 1, m);
    DivModUnique(r, 0, r, m);
    MulStep(1, k, m);
    MulStep(k, 1, m);
  }

  // ------------------------------------------------------- multiplication

  /** operator*= by a 32-bit factor */
  function MulSmall(a: seq<Limb>, k: nat, carry: nat): seq<Limb> {
    if a == [] then []
    else
      var n := carry + Mul(k, a[0]);
      [n % B] + MulSmall(a[1..], k, n / B)
  }

  lemma {:induction false} MulSmallValue(a: seq<Limb>, k: nat, carry: nat) returns (out: nat)
    ensures |MulSmall(a, k, carry)| == |a|
    ensures Mul(k, Val(a)) + carry == Val(MulSmall(a, k, carry)) + Up(out, |a|)
  {
    hide Mul;
    if a == [] {
      out := carry;
      MulBasics(k, 0);
    } else {
      MulBasics(k, a[0]);
      var n := carry + Mul(k, a[0]);
      out := MulSmallValue(a[1..], k, n / B);
      Distribute(k, a[0], Val(a[1..]));
    }
  }

  lemma {:induction false} Distribute(k: int, x: int, v: int)
    ensures Mul(k, x + B * v) == Mul(k, x) + B * Mul(k, v)
  {
    hide Mul;
    MulBasics(k, x + B * v);
    MulBasics(k, x);
    MulBasics(k, B * v);
    MulAdd(x, B * v, k);
    ScaleUp(k, v);
  }

  lemma {:induction false} MulSmallIsMod(a: seq<Limb>, k: nat)
    ensures |MulSmall(a, k, 0)| == |a| && Val(MulSmall(a, k, 0)) == Rem(Mul(k, Val(a)), Up(1, |a|))
  {
    var out := MulSmallValue(a, k, 0);
    ValBound(MulSmall(a, k, 0));
    hide Mul, Rem;
    CarryIsMod(Mul(k, Val(a)), Val(MulSmall(a, k, 0)), out, |a|);
  }

  /** The inner loop of operator*=: acc + k * b, as far as acc reaches. */
  function MulRow(acc: seq<Limb>, k: nat, b: seq<Limb>, carry: nat): (r: seq<Limb>)
    requires |acc| <= |b|
    ensures |r| == |acc|
  {
    if acc == [] then []
    else
      var n := carry + acc[0] + Mul(k, b[0]);
      [n % B] + MulRow(acc[1..], k, b[1..], n / B)
  }

  /** One limb of a row. */
  lemma {:induction false} MulRowStep(p: seq<Limb>, k: Limb, y: seq<Limb>, j: nat, i: nat, carry: nat)
    requires j + i < |p| == |y|
    ensures var n := carry + p[j + i] + Mul(k, y[i]);
      n >= 0 &&
      MulRow(p[j + i..], k, y[i..], carry) == [n % B] + MulRow(p[j + i + 1..], k, y[i + 1..], n / B)
  {
    MulBasics(k, y[i]);
    hide Mul;
    assert p[j + i..][1..] == p[j + i + 1..];
    assert y[i..][1..] == y[i + 1..];
  }

  lemma {:induction false} MulRowValue(acc: seq<Limb>, k: nat, b: seq<Limb>, carry: nat) returns (out: nat)
    requires |acc| <= |b|
    ensures Val(acc) + Mul(k, Val(b)) + carry == Val(MulRow(acc, k, b, carry)) + Up(out, |acc|)
  {
    hide Mul;
    MulBasics(k, Val(b));
    if acc == [] {
      out := Mul(k, Val(b)) + carry;
    } else {
      MulBasics(k, b[0]);
      var n := carry + acc[0] + Mul(k, b[0]);
      out := MulRowValue(acc[1..], k, b[1..], n / B);
      Distribute(k, b[0], Val(b[1..]));
    }
  }

  /** The rows of operator*= from one position on; acc is what stands there. */
  function MulFrom(acc: seq<Limb>, a: seq<Limb>, b: seq<Limb>): (r: seq<Limb>)
    requires |acc| == |a| <= |b|
    ensures |r| == |a|
    decreases |a|
  {
    if a == [] then []
    else
      var row := MulRow(acc, a[0], b, 0);
      [row[0]] + MulFrom(row[1..], a[1..], b)
  }

  /** One row. */
  lemma {:induction false} MulFromStep(p: seq<Limb>, x: seq<Limb>, y: seq<Limb>, j: nat)
    requires j < |p| == |x| == |y|
    ensures var row := MulRow(p[j..], x[j], y, 0);
      MulFrom(p[j..], x[j..], y) == [row[0]] + MulFrom(row[1..], x[j + 1..], y)
  {
    hide MulRow;
    assert x[j..][1..] == x[j + 1..];
  }

  lemma {:induction false} MulFromValue(acc: seq<Limb>, a: seq<Limb>, b: seq<Limb>) returns (out: nat)
    requires |acc| == |a| <= |b|
    ensures Val(acc) + Mul(Val(b), Val(a)) == Val(MulFrom(acc, a, b)) + Up(out, |a|)
    decreases |a|
  {
    hide Mul, MulRow;
    if a == [] {
      out := 0;
      MulBasics(Val(b), 0);
    } else {
      var row := MulRow(acc, a[0], b, 0);
      var o1 := MulRowValue(acc, a[0], b, 0);
      var o2 := MulFromValue(row[1..], a[1..], b);
      out := o1 + o2;
      UpAdd(o1, o2, |a|);
      MulBasics(Val(b), a[0]);
      Distribute(Val(b), a[0], Val(a[1..]));
    }
  }

  /** operator*= computes the product modulo B^n. */
  lemma {:induction false} MulIsMod(a: seq<Limb>, b: seq<Limb>)
    requires |a| == |b|
    ensures Val(MulFrom(seq(|a|, _ => 0), a, b)) == Rem(Mul(Val(a), Val(b)), Up(1, |a|))
  {
    hide Mul, Rem, MulRow, MulFrom;
    var zeros: seq<Limb> := seq(|a|, _ => 0);
    ValZeros(|a|);
    var out := MulFromValue(zeros, a, b);
    ValBound(MulFrom(zeros, a, b));
    MulBasics(Val(a), Val(b));
    CarryIsMod(Mul(Val(a), Val(b)), Val(MulFrom(zeros, a, b)), out, |a|);
  }

  // ------------------------------------------------------------- bit level

  /** Bitwise or of natural numbers. */
  function BitOr(x: nat, y: nat): nat
    decreases x + y
  {
    if x == 0 then y else if y == 0 then x
    else (if x % 2 == 1 || y % 2 == 1 then 1 else 0) + 2 * BitOr(x / 2, y / 2)
  }

  /** Or of numbers that share no bit position is their sum. */
  lemma {:induction false} OrIsAdd(x: nat, y: nat, h: nat, s: nat)
    requires x == Mul(h, Pow2(s)) && y < Pow2(s)
    ensures BitOr(x, y) == x + y
    decreases s
  {
    hide Mul;
    if s > 0 && x > 0 && y > 0 {
      var p := Pow2(s - 1);
      MulAdd(p, p, h);
      MulBasics(p, h);
      MulBasics(2 * p, h);
      OrIsAdd(x / 2, y / 2, h, s - 1);
    }
  }

  lemma {:induction false} SplitB(s: nat)
    requires s <= 32
    ensures Mul(Pow2(s), Pow2(32 - s)) == B
  {
    hide Mul, Pow2;
    Pow2Add(s, 32 - s);
    Pow2Of32();
  }

  lemma {:induction false} Pow2Of32()
    ensures Pow2(32) == B && Pow2(8) == 256 && Pow2(16) == 0x1_0000
  {
    assert Pow2(8) == 256;
    Pow2Add(8, 8);
    Pow2Add(16, 16);
  }

  /** x << s on 32 bits */
  function Shl32(x: Limb, s: nat): Limb {
    Mul(x, Pow2(s)) % B
  }

  /** x >> s on 32 bits */
  function Shr32(x: Limb, s: nat): Limb {
    QuoBounds(x, Pow2(s));
    Quo(x, Pow2(s))
  }

  /** The two halves into which a shifted limb falls. */
  lemma {:induction false} ShlHalves(x: Limb, s: nat, c: nat)
    requires s <= 32 && c < Pow2(s)
    ensures Shr32(x, 32 - s) == (Mul(x, Pow2(s)) + c) / B && Shr32(x, 32 - s) < Pow2(s)
    ensures BitOr(Shl32(x, s), c) == (Mul(x, Pow2(s)) + c) % B
  {
    hide Mul, Quo, Rem, Pow2, BitOr;
    var p, q := Pow2(s), Pow2(32 - s);
    SplitB(s);
    var h, l := Quo(x, q), Rem(x, q);
    Halves(x, p, q);
    MulBasics(l, p);
    OrIsAdd(Mul(l, p), c, l, s);
  }

  lemma {:induction false} Halves(x: nat, p: nat, q: nat)
    requires Mul(p, q) == B && x < B && p > 0 && q > 0
    ensures Mul(x, p) == Quo(x, q) * B + Mul(Rem(x, q), p)
    ensures 0 <= Mul(Rem(x, q), p) <= B - p && 0 <= Quo(x, q) < p
  {
    hide Mul, Quo, Rem;
    var h, l := Quo(x, q), Rem(x, q);
    QuoBounds(x, q);
    DivMod(x, q);
    MulAdd(Mul(h, q), l, p);
    MulAssoc(h, q, p);
    MulBasics(q, p);
    MulBasics(p, q);
    MulB(h);
    MulStep(l, q, p);
    MulBasics(l, p);
    MulStep(p, h, q);
  }

  lemma {:induction false} MulB(h: int)
    ensures Mul(h, B) == h * B
  {
  }
}
