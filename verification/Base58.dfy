/**
 * Base-58 strings (src/base58.cpp). Encoding and decoding both rewrite a number
 * from one base into another, keeping its leading zeros.
 */
module Base58 {
  import opened Arithmetic
  import opened Common

  // ------------------------------------------------------------ numbers in a base

  function Pow(b: nat, n: nat): (r: nat)
    ensures b > 0 ==> r > 0
  {
    if n == 0 then 1 else MulBasics(b, Pow(b, n - 1)); Mul(b, Pow(b, n - 1))
  }

  ghost predicate InBase(d: Bytes, b: nat) {
    forall i | 0 <= i < |d| :: d[i] < b
  }

  /** The value of digits, most significant first. */
  ghost function Val(d: Bytes, b: nat): nat {
    if d == [] then 0
    else MulBasics(Val(d[..|d| - 1], b), b); Mul(Val(d[..|d| - 1], b), b) + d[|d| - 1]
  }

  ghost function Digits(n: nat, b: nat): Bytes
    requires 2 <= b <= 256
  {
    if n == 0 then []
    else
      Shrinks(n, b);
      Digits(Quo(n, b), b) + [Rem(n, b)]
  }

  lemma Shrinks(n: nat, b: nat)
    requires n > 0 && b >= 2
    ensures 0 <= Quo(n, b) < n
  {
    hide Mul, Quo, Rem;
    QuoBounds(n, b);
    DivMod(n, b);
    if Quo(n, b) == n {
      MulBasics(n, b);
      MulStep(2, b, n);
      MulBasics(n, n);
    }
  }

  lemma {:induction false} PowAdd(b: nat, m: nat, n: nat)
    ensures Pow(b, m + n) == Mul(Pow(b, m), Pow(b, n))
  {
    hide Mul;
    if m == 0 {
      MulBasics(Pow(b, n), 0);
    } else {
      PowAdd(b, m - 1, n);
      MulAssoc(b, Pow(b, m - 1), Pow(b, n));
    }
  }

  lemma {:induction false} PowMono(b: nat, m: nat, n: nat)
    requires b > 0 && m <= n
    ensures Pow(b, m) <= Pow(b, n)
    decreases n
  {
    hide Mul;
    if m < n {
      PowMono(b, m, n - 1);
      MulBasics(Pow(b, n - 1), b);
      MulStep(1, b, Pow(b, n - 1));
    }
  }

  // ---------------------------------------------------- digits and values agree

  lemma {:induction false} ValDigits(n: nat, b: nat)
    requires 2 <= b <= 256
    ensures Val(Digits(n, b), b) == n && InBase(Digits(n, b), b)
    ensures n > 0 ==> Digits(n, b) != [] && Digits(n, b)[0] != 0
  {
    hide Mul, Quo, Rem;
    if n > 0 {
      Shrinks(n, b);
      ValDigits(Quo(n, b), b);
      DivMod(n, b);
      var d := Digits(n, b);
      assert d[..|d| - 1] == Digits(Quo(n, b), b);
      MulBasics(b, 0);
    }
  }

  /** Digits without a leading zero are the digits of their value. */
  lemma {:induction false} DigitsVal(d: Bytes, b: nat)
    requires 2 <= b <= 256 && InBase(d, b) && (d != [] ==> d[0] != 0)
    ensures Digits(Val(d, b), b) == d && (d != [] ==> Val(d, b) > 0)
  {
    hide Mul, Quo, Rem;
    if d != [] {
      var n := |d| - 1;
      var v := Val(d[..n], b);
      DigitsVal(d[..n], b);
      assert Val(d, b) == Mul(v, b) + d[n];
      DivModUnique(Val(d, b), v, d[n], b);
      MulBasics(b, v);
      if n > 0 {
        MulStep(1, v, b);
        MulBasics(1, b);
      }
      assert d == d[..n] + [d[n]];
    }
  }

  lemma {:induction false} ValCons(x: Byte, d: Bytes, b: nat)
    ensures Val([x] + d, b) == Mul(x, Pow(b, |d|)) + Val(d, b)
  {
    hide Mul;
    if d == [] {
      assert ([x] + d)[..0] == [];
      MulBasics(b, x);
      MulBasics(x, 1);
    } else {
      var n := |d| - 1;
      assert ([x] + d)[..n + 1] == [x] + d[..n];
      ValCons(x, d[..n], b);
      MulAdd(Mul(x, Pow(b, n)), Val(d[..n], b), b);
      MulAssoc(x, Pow(b, n), b);
      MulBasics(b, Pow(b, n));
    }
  }

  lemma {:induction false} ValBelow(d: Bytes, b: nat)
    requires b > 0 && InBase(d, b)
    ensures Val(d, b) < Pow(b, |d|)
  {
    hide Mul;
    if d != [] {
      var n := |d| - 1;
      ValBelow(d[..n], b);
      MulStep(Val(d[..n], b), Pow(b, n), b);
      MulBasics(b, Pow(b, n));
    }
  }

  // ---------------------------------------------------------- changing the base

  function Zeros(d: Bytes): (n: nat)
    ensures n <= |d| && (forall i | 0 <= i < n :: d[i] == 0) && (n < |d| ==> d[n] != 0)
  {
    if d == [] || d[0] != 0 then 0 else 1 + Zeros(d[1..])
  }

  function Repeat(n: nat): (r: Bytes)
    ensures |r| == n && forall i | 0 <= i < n :: r[i] == 0
  {
    seq(n, _ => 0)
  }

  /** The same number in another base, with as many leading zeros as before. */
  ghost function Rebased(d: Bytes, a: nat, b: nat): Bytes
    requires 2 <= b <= 256
  {
    Repeat(Zeros(d)) + Digits(Val(d[Zeros(d)..], a), b)
  }

  lemma {:induction false} ZerosOf(n: nat, d: Bytes)
    requires d != [] ==> d[0] != 0
    ensures Zeros(Repeat(n) + d) == n && (Repeat(n) + d)[n..] == d
  {
    if n == 0 {
      assert Repeat(n) + d == d;
    } else {
      assert (Repeat(n) + d)[1..] == Repeat(n - 1) + d;
      ZerosOf(n - 1, d);
    }
  }

  /** Changing the base and changing it back gives the same digits, for every two bases. */
  lemma RebasedTwice(d: Bytes, a: nat, b: nat)
    requires 2 <= a <= 256 && 2 <= b <= 256 && InBase(d, a)
    ensures InBase(Rebased(d, a, b), b) && Rebased(Rebased(d, a, b), b, a) == d
  {
    hide Val, Digits, Zeros;
    var z := Zeros(d);
    var rest := d[z..];
    var n := Val(rest, a);
    ValDigits(n, b);
    DigitsVal(rest, a);
    assert n == 0 ==> Digits(n, b) == [] by { DigitsOfZero(b); }
    ZerosOf(z, Digits(n, b));
    assert d == Repeat(z) + rest;
  }

  lemma DigitsOfZero(b: nat)
    requires 2 <= b <= 256
    ensures Digits(0, b) == []
  {
  }

  // ------------------------------------------------------- the conversion loops

  /** One step of long multiplication, on numbers. */
  lemma CarryStep(vNew: nat, vOld: nat, a: nat, b: nat, p: nat, carry: nat, ch: nat, x: nat)
    requires b > 0 && vNew + Mul(carry, p) == Mul(a, vOld) + ch
    ensures var t := carry + Mul(a, x);
            Mul(Rem(t, b), p) + vNew + Mul(Quo(t, b), Mul(b, p)) == Mul(a, Mul(x, p) + vOld) + ch
  {
    hide Mul, Quo, Rem;
    var t := carry + Mul(a, x);
    DivMod(t, b);
    MulAdd(carry, Mul(a, x), p);
    MulAdd(Mul(Quo(t, b), b), Rem(t, b), p);
    MulAssoc(Quo(t, b), b, p);
    MulAssoc(a, x, p);
    MulBasics(a, Mul(x, p) + vOld);
    MulBasics(a, Mul(x, p));
    MulBasics(a, vOld);
    MulAdd(Mul(x, p), vOld, a);
  }

  /** The value of the last i digits of a buffer. */
  ghost function Low(s: Bytes, i: nat, b: nat): nat
    requires i <= |s|
  {
    Val(s[|s| - i..], b)
  }

  lemma LowNext(s: Bytes, i: nat, b: nat)
    requires i < |s|
    ensures Low(s, i + 1, b) == Mul(s[|s| - i - 1], Pow(b, i)) + Low(s, i, b)
  {
    hide Val, Mul, Pow;
    var k := |s| - i - 1;
    assert s[k..] == [s[k]] + s[k + 1..];
    ValCons(s[k], s[k + 1..], b);
  }

  /** Leading zeros do not count. */
  lemma {:induction false} LowAll(s: Bytes, i: nat, b: nat)
    requires i <= |s| && forall k | 0 <= k < |s| - i :: s[k] == 0
    ensures Low(s, i, b) == Val(s, b)
    decreases |s| - i
  {
    hide Mul, Pow;
    if i == |s| {
      assert s[0..] == s;
    } else {
      LowNext(s, i, b);
      MulBasics(Pow(b, i), 0);
      LowAll(s, i + 1, b);
    }
  }

  /** The buffer holds a times the old number plus ch, up to digit i and a carry. */
  ghost predicate Carried(now: Bytes, was: Bytes, i: nat, a: nat, b: nat, carry: nat, ch: nat) {
    && |now| == |was| && i <= |now|
    && now[..|now| - i] == was[..|now| - i]
    && Low(now, i, b) + Mul(carry, Pow(b, i)) == Mul(a, Low(was, i, b)) + ch
  }

  lemma CarryStart(was: Bytes, a: nat, b: nat, ch: nat)
    ensures Carried(was, was, 0, a, b, ch, ch)
  {
    assert was[|was|..] == [];
    MulBasics(a, 0);
    MulBasics(1, ch);
  }

  lemma CarryOn(now: Bytes, was: Bytes, i: nat, a: nat, b: nat, carry: nat, ch: nat, digit: Byte, more: nat)
    requires i < |now| && 0 < b <= 256
    requires digit == Rem(carry + Mul(a, now[|now| - i - 1]), b) && more == Quo(carry + Mul(a, now[|now| - i - 1]), b)
    requires Carried(now, was, i, a, b, carry, ch)
    ensures Carried(now[|now| - i - 1 := digit], was, i + 1, a, b, more, ch)
  {
    hide Mul, Quo, Rem, Val;
    var k := |now| - i - 1;
    var next := now[k := digit];
    assert now[k] == now[..k + 1][k] == was[k];
    CarryStep(Low(now, i, b), Low(was, i, b), a, b, Pow(b, i), carry, ch, was[k]);
    LowNext(was, i, b);
    LowNext(next, i, b);
    assert next[k + 1..] == now[k + 1..];
    assert next[..k] == now[..k + 1][..k] == was[..k];
  }

  /** With room for the result, nothing is carried out of the buffer. */
  lemma CarryEnd(now: Bytes, was: Bytes, i: nat, a: nat, b: nat, carry: nat, ch: nat)
    requires Carried(now, was, i, a, b, carry, ch) && 0 < b <= 256
    requires i == |now| || carry == 0
    requires forall k | 0 <= k < |now| - i :: was[k] == 0
    requires Mul(a, Val(was, b)) + ch < Pow(b, |now|)
    ensures carry == 0 && Val(now, b) == Mul(a, Val(was, b)) + ch
    ensures forall k | 0 <= k < |now| - i :: now[k] == 0
  {
    hide Mul, Val, Pow;
    assert forall k | 0 <= k < |now| - i :: now[k] == now[..|now| - i][k] == was[..|now| - i][k];
    LowAll(was, i, b);
    LowAll(now, i, b);
    if carry > 0 {
      MulStep(1, carry, Pow(b, i));
      MulBasics(Pow(b, i), 0);
    }
    MulBasics(Pow(b, i), 0);
  }

  /** Multiplies the number in the buffer by a and adds ch; there must be room for the result. */
  method MulAddInPlace(buf: array<Byte>, length: nat, a: nat, b: nat, ch: Byte) returns (i: nat)
    requires 2 <= a <= 256 && 2 <= b <= 256 && length <= buf.Length && InBase(buf[..], b)
    requires forall k | 0 <= k < buf.Length - length :: buf[k] == 0
    requires Mul(a, Val(buf[..], b)) + ch < Pow(b, buf.Length)
    modifies buf
    ensures InBase(buf[..], b) && i <= buf.Length
    ensures forall k | 0 <= k < buf.Length - i :: buf[k] == 0
    ensures Val(buf[..], b) == Mul(a, old(Val(buf[..], b))) + ch
  {
    hide Mul, Pow, Val, Quo, Rem, Carried;
    ghost var was := buf[..];
    var size := buf.Length;
    var carry: nat := ch;
    i := 0;
    CarryStart(was, a, b, ch);
    while (carry != 0 || i < length) && i < size
      invariant 0 <= i <= size && InBase(buf[..], b)
      invariant Carried(buf[..], was, i, a, b, carry, ch)
    {
      var k := size - i - 1;
      MulBasics(a, buf[k]);
      QuoBounds(carry + Mul(a, buf[k]), b);
      var digit: Byte, more: nat := Rem(carry + Mul(a, buf[k]), b), Quo(carry + Mul(a, buf[k]), b);
      CarryOn(buf[..], was, i, a, b, carry, ch, digit, more);
      ghost var next := buf[..][k := digit];
      buf[k] := digit;
      assert buf[..] == next;
      carry := more;
      i := i + 1;
    }
    CarryEnd(buf[..], was, i, a, b, carry, ch);
    assert carry == 0;
  }

  /** Rewrites digits of base a in base b, in a buffer of the given size. */
  method Rebase(d: Bytes, a: nat, b: nat, size: nat) returns (out: Bytes)
    requires 2 <= a <= 256 && 2 <= b <= 256 && InBase(d, a)
    requires Pow(a, |d|) <= Pow(b, size)
    ensures out == Digits(Val(d, a), b)
  {
    hide Mul, Pow, Digits;
    var buf := new Byte[size](_ => 0);
    var length: nat := 0;
    BlankIsZero(buf[..], b);
    for j := 0 to |d|
      invariant InBase(buf[..], b) && length <= size
      invariant forall k | 0 <= k < size - length :: buf[k] == 0
      invariant Val(buf[..], b) == Val(d[..j], a)
    {
      NextDigit(d, a, j);
      length := MulAddInPlace(buf, length, a, b, d[j]);
    }
    assert d[..|d|] == d;
    out := WithoutZeros(buf, length, b);
  }

  lemma BlankIsZero(s: Bytes, b: nat)
    requires forall k | 0 <= k < |s| :: s[k] == 0
    ensures Val(s, b) == 0
  {
    LowAll(s, 0, b);
    assert s[|s|..] == [];
  }

  lemma NextDigit(d: Bytes, a: nat, j: nat)
    requires j < |d| && a > 0 && InBase(d, a)
    ensures Val(d[..j + 1], a) == Mul(a, Val(d[..j], a)) + d[j] < Pow(a, |d|)
  {
    hide Mul, Pow;
    assert d[..j + 1][..j] == d[..j];
    MulBasics(a, Val(d[..j], a));
    ValBelow(d[..j + 1], a);
    PowMono(a, j + 1, |d|);
  }

  method WithoutZeros(buf: array<Byte>, length: nat, b: nat) returns (out: Bytes)
    requires 2 <= b <= 256 && InBase(buf[..], b) && length <= buf.Length
    requires forall k | 0 <= k < buf.Length - length :: buf[k] == 0
    ensures out == Digits(Val(buf[..], b), b)
  {
    hide Val, Digits;
    var it := buf.Length - length;
    while it < buf.Length && buf[it] == 0
      invariant 0 <= it <= buf.Length
      invariant forall k | 0 <= k < it :: buf[k] == 0
    {
      it := it + 1;
    }
    out := buf[it..];
    assert buf[..][it..] == out;
    LowAll(buf[..], buf.Length - it, b);
    DigitsVal(out, b);
  }

  // -------------------------------------------------------------- buffer sizes

  /** Powers of a fit into powers of b in blocks of p digits to q. */
  lemma {:induction false} Blocks(a: nat, b: nat, p: nat, q: nat, k: nat)
    requires a > 0 && b > 0 && Pow(a, p) <= Pow(b, q)
    ensures Pow(a, p * k) <= Pow(b, q * k)
    decreases k
  {
    hide Mul, Pow;
    if k == 0 {
      assert p * k == 0 && q * k == 0;
      PowZero(a);
      PowZero(b);
    } else {
      Blocks(a, b, p, q, k - 1);
      assert p * k == p * (k - 1) + p && q * k == q * (k - 1) + q;
      PowAdd(a, p * (k - 1), p);
      PowAdd(b, q * (k - 1), q);
      Larger(Pow(a, p * (k - 1)), Pow(a, p), Pow(b, q * (k - 1)), Pow(b, q));
    }
  }

  lemma PowZero(a: nat)
    ensures Pow(a, 0) == 1
  {
  }

  lemma Larger(a: nat, b: nat, c: nat, d: nat)
    requires a <= c && b <= d
    ensures Mul(a, b) <= Mul(c, d)
  {
    MulStep(a, c, b);
    MulBasics(c, b);
    MulBasics(c, d);
    MulStep(b, d, c);
  }

  lemma Powers58()
    ensures Pow(58, 1) == 58
    ensures Pow(58, 2) == 3364
    ensures Pow(58, 3) == 195112
    ensures Pow(58, 4) == 11316496
    ensures Pow(58, 5) == 656356768
    ensures Pow(58, 6) == 38068692544
    ensures Pow(58, 7) == 2207984167552
    ensures Pow(58, 8) == 128063081718016
    ensures Pow(58, 9) == 7427658739644928
    ensures Pow(58, 10) == 430804206899405824
    ensures Pow(58, 11) == 24986644000165537792
    ensures Pow(58, 12) == 1449225352009601191936
    ensures Pow(58, 13) == 84055070416556869132288
    ensures Pow(58, 14) == 4875194084160298409672704
    ensures Pow(58, 15) == 282761256881297307761016832
  {
    assert Pow(58, 1) == 58 * Pow(58, 0);
    assert Pow(58, 2) == 58 * Pow(58, 1);
    assert Pow(58, 3) == 58 * Pow(58, 2);
    assert Pow(58, 4) == 58 * Pow(58, 3);
    assert Pow(58, 5) == 58 * Pow(58, 4);
    assert Pow(58, 6) == 58 * Pow(58, 5);
    assert Pow(58, 7) == 58 * Pow(58, 6);
    assert Pow(58, 8) == 58 * Pow(58, 7);
    assert Pow(58, 9) == 58 * Pow(58, 8);
    assert Pow(58, 10) == 58 * Pow(58, 9);
    assert Pow(58, 11) == 58 * Pow(58, 10);
    assert Pow(58, 12) == 58 * Pow(58, 11);
    assert Pow(58, 13) == 58 * Pow(58, 12);
    assert Pow(58, 14) == 58 * Pow(58, 13);
    assert Pow(58, 15) == 58 * Pow(58, 14);
  }

  lemma Powers256()
    ensures Pow(256, 1) == 256
    ensures Pow(256, 2) == 65536
    ensures Pow(256, 3) == 16777216
    ensures Pow(256, 4) == 4294967296
    ensures Pow(256, 5) == 1099511627776
    ensures Pow(256, 6) == 281474976710656
    ensures Pow(256, 7) == 72057594037927936
    ensures Pow(256, 8) == 18446744073709551616
    ensures Pow(256, 9) == 4722366482869645213696
    ensures Pow(256, 10) == 1208925819614629174706176
    ensures Pow(256, 11) == 309485009821345068724781056
  {
    assert Pow(256, 1) == 256 * Pow(256, 0);
    assert Pow(256, 2) == 256 * Pow(256, 1);
    assert Pow(256, 3) == 256 * Pow(256, 2);
    assert Pow(256, 4) == 256 * Pow(256, 3);
    assert Pow(256, 5) == 256 * Pow(256, 4);
    assert Pow(256, 6) == 256 * Pow(256, 5);
    assert Pow(256, 7) == 256 * Pow(256, 6);
    assert Pow(256, 8) == 256 * Pow(256, 7);
    assert Pow(256, 9) == 256 * Pow(256, 8);
    assert Pow(256, 10) == 256 * Pow(256, 9);
    assert Pow(256, 11) == 256 * Pow(256, 10);
  }

  /** Eight bytes never need more than eleven digits, */
  lemma EightInEleven()
    ensures Pow(256, 8) <= Pow(58, 11)
  {
    hide Pow;
    Powers58();
    Powers256();
  }

  /** and seventy-one digits never more than fifty-two bytes. */
  lemma SeventyOneInFiftyTwo()
    ensures Pow(58, 71) <= Pow(256, 52)
  {
    hide Pow;
    Powers58();
    Powers256();
    PowAdd(58, 15, 15);
    PowAdd(58, 30, 30);
    PowAdd(58, 60, 11);
    PowAdd(256, 10, 10);
    PowAdd(256, 20, 20);
    PowAdd(256, 40, 10);
    PowAdd(256, 50, 2);
  }

  function EncodedSize(n: nat): nat {
    n * 138 / 100 + 1
  }

  function DecodedSize(n: nat): nat {
    n * 733 / 1000 + 1
  }

  lemma FewBytes(r: nat)
    requires r < 8
    ensures Pow(256, r) <= Pow(58, EncodedSize(r))
  {
    hide Pow;
    Powers58();
    Powers256();
    PowZero(256);
  }

  lemma FewDigits(r: nat)
    requires r < 15
    ensures Pow(58, r) <= Pow(256, DecodedSize(r))
  {
    hide Pow;
    Powers58();
    Powers256();
    PowZero(58);
  }

  /** Blocks first and then a small rest. */
  lemma BlocksAndRest(a: nat, b: nat, p: nat, q: nat, k: nat, r: nat, s: nat)
    requires a > 0 && b > 0 && Pow(a, p) <= Pow(b, q) && Pow(a, r) <= Pow(b, s)
    ensures Pow(a, p * k + r) <= Pow(b, q * k + s)
  {
    hide Pow, Mul;
    Blocks(a, b, p, q, k);
    PowAdd(a, p * k, r);
    PowAdd(b, q * k, s);
    Larger(Pow(a, p * k), Pow(a, r), Pow(b, q * k), Pow(b, s));
  }

  /** The buffer of EncodeBase58 is large enough for every input. */
  lemma RoomToEncode(n: nat)
    ensures Pow(256, n) <= Pow(58, EncodedSize(n))
  {
    hide Pow;
    var k, r := n / 8, n % 8;
    EightInEleven();
    FewBytes(r);
    BlocksAndRest(256, 58, 8, 11, k, r, EncodedSize(r));
    PowMono(58, 11 * k + EncodedSize(r), EncodedSize(n));
  }

  lemma RoomToDecodeSome(n: nat)
    requires n < 71
    ensures Pow(58, n) <= Pow(256, DecodedSize(n))
  {
    hide Pow;
    var k, r := n / 15, n % 15;
    FewDigits(r);
    assert Pow(58, 15) <= Pow(256, 11) by { Powers58(); Powers256(); }
    PowZero(58);
    PowZero(256);
    var s := if r == 0 then 0 else DecodedSize(r);
    BlocksAndRest(58, 256, 15, 11, k, r, s);
    PowMono(256, 11 * k + s, DecodedSize(n));
  }

  /** The buffer of DecodeBase58 is large enough for every input. */
  lemma RoomToDecode(n: nat)
    ensures Pow(58, n) <= Pow(256, DecodedSize(n))
  {
    hide Pow;
    var k, r := n / 71, n % 71;
    SeventyOneInFiftyTwo();
    RoomToDecodeSome(r);
    BlocksAndRest(58, 256, 71, 52, k, r, DecodedSize(r));
    PowMono(256, 52 * k + DecodedSize(r), DecodedSize(n));
  }
}
