/**
 * The skip heights of src/chain.cpp and the number of steps in which
 * GetAncestor goes back along them, with its exact worst case.
 */
module SkipList {
  import opened Arithmetic

  // ------------------------------------------------------------ skip heights

  function BitAnd(x: nat, y: nat): (r: nat)
    ensures r <= x && r <= y
  {
    if x == 0 || y == 0 then 0
    else (if x % 2 == 1 && y % 2 == 1 then 1 else 0) + 2 * BitAnd(x / 2, y / 2)
  }

  /** n & (n - 1) */
  function InvertLowestOne(n: nat): nat {
    if n == 0 then 0 else BitAnd(n, n - 1)
  }

  /** The height that the skip pointer of a block leads to; always lower than the block. */
  function GetSkipHeight(height: nat): (r: nat)
    ensures height > 0 ==> r < height
  {
    if height < 2 then 0
    else if height % 2 == 1 then InvertLowestOne(InvertLowestOne(height - 1)) + 1
    else InvertLowestOne(height)
  }

  // ------------------------------------------------------------------- steps

  /** Where one turn of GetAncestor's loop goes from height w on the way to height h. */
  function Next(w: nat, h: nat): (r: nat)
    requires h < w
    ensures h <= r < w
  {
    var heightSkip, heightSkipPrev := GetSkipHeight(w), GetSkipHeight(w - 1);
    if heightSkip == h || (heightSkip > h && !(heightSkipPrev < heightSkip - 2 && heightSkipPrev >= h))
    then heightSkip else w - 1
  }

  /** The number of turns. */
  function Steps(w: nat, h: nat): nat
    requires h <= w
  {
    if w == h then 0 else 1 + Steps(Next(w, h), h)
  }

  // ------------------------------------------------------------- lowest ones

  /** p is a multiple of 2^j. */
  predicate Div(p: nat, j: nat) {
    j == 0 || (p % 2 == 0 && Div(p / 2, j - 1))
  }

  lemma {:induction false} AndSelf(n: nat)
    ensures BitAnd(n, n) == n
  {
    if n > 0 {
      AndSelf(n / 2);
    }
  }

  lemma Halves(n: nat)
    requires n > 0
    ensures InvertLowestOne(n) == if n % 2 == 1 then n - 1 else 2 * InvertLowestOne(n / 2)
  {
    if n % 2 == 1 {
      AndSelf(n / 2);
    } else {
      assert (n - 1) / 2 == n / 2 - 1;
    }
  }

  lemma {:induction false} Clears(p: nat, j: nat)
    requires Div(p, j + 1)
    ensures InvertLowestOne(p + Pow2(j)) == p
  {
    hide InvertLowestOne;
    Halves(p + Pow2(j));
    if j > 0 {
      Clears(p / 2, j - 1);
      assert (p + Pow2(j)) / 2 == p / 2 + Pow2(j - 1);
    }
  }

  /** The lowest one of a number, and what is left without it. */
  lemma {:induction false} Lowest(n: nat) returns (q: nat, a: nat)
    requires n > 0
    ensures n == q + Pow2(a) && Div(q, a + 1) && InvertLowestOne(n) == q
  {
    hide InvertLowestOne;
    if n % 2 == 1 {
      q, a := n - 1, 0;
    } else {
      q, a := Lowest(n / 2);
      q, a := 2 * q, a + 1;
    }
    Clears(q, a);
  }

  lemma {:induction false} DivLess(p: nat, i: nat, j: nat)
    requires Div(p, j) && i <= j
    ensures Div(p, i)
  {
    if i > 0 {
      DivLess(p / 2, i - 1, j - 1);
    }
  }

  lemma {:induction false} DivSum(p: nat, q: nat, j: nat)
    requires Div(p, j) && Div(q, j)
    ensures Div(p + q, j) && (p >= q ==> Div(p - q, j))
  {
    if j > 0 {
      DivSum(p / 2, q / 2, j - 1);
      assert (p + q) / 2 == p / 2 + q / 2;
      assert p >= q ==> (p - q) / 2 == p / 2 - q / 2;
    }
  }

  lemma {:induction false} DivPow(i: nat, j: nat)
    requires i <= j
    ensures Div(Pow2(j), i)
  {
    if i > 0 {
      DivPow(i - 1, j - 1);
    }
  }

  /** Multiples of 2^j that are not zero are not below it. */
  lemma {:induction false} DivLarge(p: nat, j: nat)
    requires Div(p, j) && p > 0
    ensures p >= Pow2(j)
  {
    if j > 0 {
      DivLarge(p / 2, j - 1);
    }
  }

  /** p + 2^j - 2^m has the bits m to j - 1 above p, and loses the lowest of them. */
  lemma Block(p: nat, j: nat, m: nat)
    requires Div(p, j) && m < j
    ensures Pow2(m + 1) <= Pow2(j) && Pow2(m + 1) == 2 * Pow2(m)
    ensures Div(p + Pow2(j) - Pow2(m + 1), m + 1)
    ensures InvertLowestOne(p + Pow2(j) - Pow2(m)) == p + Pow2(j) - Pow2(m + 1)
  {
    Pow2Mono(m + 1, j);
    assert Pow2(m + 1) == 2 * Pow2(m);
    hide Pow2, Div, InvertLowestOne;
    DivLess(p, m + 1, j);
    DivPow(m + 1, j);
    DivPow(m + 1, m + 1);
    DivSum(p, Pow2(j), m + 1);
    DivSum(p + Pow2(j), Pow2(m + 1), m + 1);
    Clears(p + Pow2(j) - Pow2(m + 1), m);
  }

  lemma EvenParts(q: nat, a: nat)
    requires a >= 1 && Div(q, a + 1)
    ensures q % 2 == 0 && (q + Pow2(a)) % 2 == 0 && Pow2(a) >= 2
  {
    assert Pow2(a) == 2 * Pow2(a - 1);
    hide Pow2;
  }

  // -------------------------------------------------------------- single steps

  lemma SkipOfEven(e: nat)
    requires e > 0 && e % 2 == 0
    ensures GetSkipHeight(e) == InvertLowestOne(e)
  {
  }

  lemma SkipOfOdd(e: nat)
    requires e > 0 && e % 2 == 0
    ensures GetSkipHeight(e + 1) == InvertLowestOne(InvertLowestOne(e)) + 1
  {
  }

  lemma InvertLowers(n: nat)
    ensures InvertLowestOne(n) <= n
  {
  }

  /** From odd heights the skip is taken whenever it does not go too far. */
  lemma NextOfOdd(e: nat, h: nat)
    requires e > 0 && e % 2 == 0 && h <= e
    ensures var s := InvertLowestOne(InvertLowestOne(e)) + 1;
      Next(e + 1, h) == if s >= h then s else e
  {
    hide InvertLowestOne, GetSkipHeight;
    SkipOfOdd(e);
    SkipOfEven(e);
    InvertLowers(InvertLowestOne(e));
  }

  lemma NextTooFar(e: nat, h: nat)
    requires e > 0 && e % 2 == 0 && InvertLowestOne(e) < h < e
    ensures Next(e, h) == e - 1
  {
    hide InvertLowestOne, GetSkipHeight;
    SkipOfEven(e);
  }

  /** From even heights the skip is taken if the skip of the height before goes too far. */
  lemma NextOfEven(e: nat, h: nat)
    requires e > 2 && e % 2 == 0 && h <= InvertLowestOne(e) && InvertLowestOne(InvertLowestOne(e - 2)) + 1 < h
    ensures h < e && Next(e, h) == InvertLowestOne(e)
  {
    SkipOfEven(e);
    SkipOfOdd(e - 2);
    hide InvertLowestOne;
  }

  /** From multiples of 8 the skip is taken whenever it does not go too far. */
  lemma NextOfEight(q: nat, a: nat, h: nat)
    requires a >= 3 && Div(q, a + 1) && h < q + Pow2(a)
    ensures Next(q + Pow2(a), h) == if q >= h then q else q + Pow2(a) - 1
  {
    var e := q + Pow2(a);
    EvenParts(q, a);
    Clears(q, a);
    DivLess(q, a, a + 1);
    Pow2Mono(3, a);
    assert Pow2(1) == 2 && Pow2(2) == 4 && Pow2(3) == 8;
    Block(q, a, 1);
    Block(q, a, 2);
    SkipOfEven(e);
    SkipOfOdd(e - 2);
    hide InvertLowestOne, GetSkipHeight, Pow2, Div;
    assert GetSkipHeight(e - 1) == e - 7;
  }

  // ------------------------------------------------------ down from one power

  /** The worst case from p + 2^j down to a height after p + 1. */
  function Drop(j: nat): nat {
    if j <= 1 then 0 else Drop(j - 1) + if j % 2 == 0 then j / 2 + 1 else (j + 3) / 2
  }

  lemma DropStep(i: nat)
    ensures Drop(2 * i + 2) == Drop(2 * i + 1) + i + 2
    ensures Drop(2 * i + 3) == Drop(2 * i + 2) + i + 3
  {
  }

  lemma {:induction false} DropClosed(i: nat)
    requires i >= 1
    ensures Drop(2 * i) == i * i + 3 * i - 2 && Drop(2 * i + 1) == i * i + 4 * i
  {
    if i > 1 {
      DropClosed(i - 1);
      DropStep(i - 1);
      assert (i - 1) * (i - 1) == i * i - 2 * i + 1;
    } else {
      DropStep(0);
    }
    hide Drop;
  }

  lemma {:induction false} DropMono(i: nat, j: nat)
    requires i <= j
    ensures Drop(i) <= Drop(j)
    decreases j
  {
    if i < j {
      DropMono(i, j - 1);
    }
  }

  /** From p + 2^j - 2^m + 1 the skip clears two bits of the block. */
  lemma Slide(p: nat, j: nat, m: nat, h: nat)
    requires Div(p, j) && 1 <= m && m + 2 <= j
    ensures Pow2(m + 2) <= Pow2(j) && Pow2(m) < Pow2(m + 2)
    ensures h <= p + Pow2(j) - Pow2(m + 2) + 1 ==>
              Steps(p + Pow2(j) - Pow2(m) + 1, h) == 1 + Steps(p + Pow2(j) - Pow2(m + 2) + 1, h)
    ensures p + Pow2(j) - Pow2(m + 2) + 1 < h <= p + Pow2(j) - Pow2(m) ==>
              Steps(p + Pow2(j) - Pow2(m) + 1, h) == 1 + Steps(p + Pow2(j) - Pow2(m), h)
  {
    hide Pow2, Div, InvertLowestOne, Next;
    Block(p, j, m);
    Block(p, j, m + 1);
    var e := p + Pow2(j) - Pow2(m);
    BlockEven(p, j, m);
    if h <= e {
      NextOfOdd(e, h);
    }
  }

  lemma BlockEven(p: nat, j: nat, m: nat)
    requires Div(p, j) && 1 <= m < j
    ensures Pow2(m) <= Pow2(j) && (p + Pow2(j) - Pow2(m)) % 2 == 0 && p + Pow2(j) - Pow2(m) >= 2
  {
    Block(p, j, m);
    assert Pow2(j) == 2 * Pow2(j - 1) && Pow2(m) == 2 * Pow2(m - 1);
  }

  /** The first step down from p + 2^j. */
  lemma StepOff(p: nat, j: nat, h: nat)
    requires j >= 1 && Div(p, j + 1) && p < h < p + Pow2(j)
    ensures Steps(p + Pow2(j), h) == 1 + Steps(p + Pow2(j) - 1, h)
  {
    Clears(p, j);
    EvenParts(p, j);
    hide InvertLowestOne, Pow2, Div;
    NextTooFar(p + Pow2(j), h);
  }

  /** From the last bit of the block, p + 2^(j-1) + 1, the way leads over p + 2^(j-1). */
  lemma LastBit(p: nat, j: nat, h: nat)
    requires j >= 2 && Div(p, j) && p + 1 <= h <= p + Pow2(j - 1) && (h == p + 1 ==> p > 0)
    ensures Pow2(j) == 2 * Pow2(j - 1)
    ensures Steps(p + Pow2(j - 1) + 1, h) == 1 + Steps(p + Pow2(j - 1), h)
  {
    assert Pow2(j) == 2 * Pow2(j - 1);
    Clears(p, j - 1);
    EvenParts(p, j - 1);
    if p > 0 {
      var q, a := Lowest(p);
    }
    hide Pow2, Div;
    InvertLowers(p);
    NextOfOdd(p + Pow2(j - 1), h);
  }

  /** From p + 2^j - 2^m + 1, m == 2i + 1, down to h, in the middle of the descent from p + 2^j. */
  lemma {:induction false} SlideBound(p: nat, j: nat, i: nat, h: nat)
    requires Div(p, j + 1) && 2 * i + 1 < j && Pow2(2 * i + 1) <= Pow2(j)
    requires p + 2 <= h <= p + Pow2(j) - Pow2(2 * i + 1) + 1
    ensures Steps(p + Pow2(j) - Pow2(2 * i + 1) + 1, h) + 1 + i <= Drop(j)
    decreases j, 0, j - i
  {
    hide Steps, Pow2, Div, Drop;
    DivLess(p, j, j + 1);
    if h == p + Pow2(j) - Pow2(2 * i + 1) + 1 {
      StepsSelf(h);
      DropRoom(j);
    } else if 2 * i + 2 == j {
      Block(p, j, j - 1);
      LastBit(p, j, h);
      DropStep(i);
      DropBound(p, j - 1, h);
    } else {
      Slide(p, j, 2 * i + 1, h);
      if h > p + Pow2(j) - Pow2(2 * i + 3) + 1 {
        StopBound(p, j, i, h);
      } else {
        assert 2 * i + 3 < j;
        SlideBound(p, j, i + 1, h);
      }
    }
  }

  lemma StepsSelf(h: nat)
    ensures Steps(h, h) == 0
  {
  }

  lemma {:induction false} DropRoom(j: nat)
    requires j >= 2
    ensures Drop(j) >= j
  {
    if j > 2 {
      DropRoom(j - 1);
    }
  }

  /** The slide stops at p + 2^j - 2^m, m == 2i + 1, of which two more bits would be too many. */
  lemma {:induction false} StopBound(p: nat, j: nat, i: nat, h: nat)
    requires Div(p, j) && 2 * i + 3 <= j && Pow2(2 * i + 1) <= Pow2(2 * i + 3) <= Pow2(j)
    requires p + Pow2(j) - Pow2(2 * i + 3) + 2 <= h <= p + Pow2(j) - Pow2(2 * i + 1)
    ensures Steps(p + Pow2(j) - Pow2(2 * i + 1), h) + 2 + i <= Drop(j)
    decreases j, 0, 0
  {
    hide Steps, Pow2, Div, Drop, InvertLowestOne;
    var m := 2 * i + 1;
    DropMono(2 * i + 3, j);
    DropStep(i);
    Block(p, j, m);
    Block(p, j, m + 1);
    var r, base := p + Pow2(j) - Pow2(m + 1), p + Pow2(j) - Pow2(m + 2);
    if h <= r {
      TakesOne(p, j, m, h);
      StopAt(base, r, m, h);
    } else {
      StopAbove(r, p + Pow2(j) - Pow2(m), i, h);
    }
  }

  lemma {:induction false} StopAt(base: nat, r: nat, m: nat, h: nat)
    requires r == base + Pow2(m + 1) && Div(base, m + 2) && base + 2 <= h <= r
    ensures Steps(r, h) <= Drop(m + 1)
    decreases m + 1, 2, 0
  {
    hide Steps, Pow2, Div, Drop;
    DropBound(base, m + 1, h);
  }

  lemma {:induction false} StopAbove(r: nat, e: nat, i: nat, h: nat)
    requires e == r + Pow2(2 * i + 1) && Div(r, 2 * i + 2) && r < h <= e
    ensures Steps(e, h) <= Drop(2 * i + 2) + 1
    decreases 2 * i + 2, 0, 0
  {
    hide Steps, Pow2, Div, Drop;
    if h == r + 1 {
      AfterFirst(r, 2 * i + 1);
      DropRoom(2 * i + 2);
    } else {
      DropBound(r, 2 * i + 1, h);
      DropMono(2 * i + 1, 2 * i + 2);
    }
  }

  lemma TakesOne(p: nat, j: nat, m: nat, h: nat)
    requires Div(p, j) && 1 <= m && m + 2 <= j && Pow2(m) <= Pow2(m + 1) <= Pow2(m + 2) <= Pow2(j)
    requires p + Pow2(j) - Pow2(m + 2) + 2 <= h <= p + Pow2(j) - Pow2(m + 1)
    ensures Steps(p + Pow2(j) - Pow2(m), h) == 1 + Steps(p + Pow2(j) - Pow2(m + 1), h)
  {
    var e := p + Pow2(j) - Pow2(m);
    Block(p, j, m);
    Block(p, j, m + 1);
    BlockEven(p, j, m);
    if m >= 3 {
      NextOfEight(p + Pow2(j) - Pow2(m + 1), m, h);
    } else {
      TwoBitsBefore(p, j, m, h);
    }
  }

  lemma TwoBitsBefore(p: nat, j: nat, m: nat, h: nat)
    requires Div(p, j) && 1 <= m <= 2 && m + 2 <= j && Pow2(m) <= Pow2(m + 1) <= Pow2(m + 2) <= Pow2(j)
    requires p + Pow2(j) - Pow2(m + 2) + 2 <= h <= p + Pow2(j) - Pow2(m + 1)
    ensures h < p + Pow2(j) - Pow2(m) && Next(p + Pow2(j) - Pow2(m), h) == p + Pow2(j) - Pow2(m + 1)
  {
    var e, r := p + Pow2(j) - Pow2(m), p + Pow2(j) - Pow2(m + 1);
    Block(p, j, m);
    Block(p, j, m + 1);
    BlockEven(p, j, m);
    assert Pow2(1) == 2 && Pow2(2) == 4;
    if m == 1 {
      InvertLowers(InvertLowestOne(r));
      BelowTwice(r, p + Pow2(j) - Pow2(m + 2));
    } else {
      Clears(r, 1) by { DivLess(r, 2, 3); }
      assert e - 2 == r + 2;
    }
    NextOfEven(e, h);
  }

  lemma BelowTwice(r: nat, s: nat)
    requires InvertLowestOne(r) == s
    ensures InvertLowestOne(InvertLowestOne(r)) <= s
  {
    InvertLowers(s);
  }

  /** From p + 2^j, j odd, to the height after p every step is a skip but the first. */
  lemma {:induction false} SlideDown(p: nat, j: nat, m: nat)
    requires Div(p, j) && m % 2 == 1 && j % 2 == 1 && m <= j
    ensures Pow2(m) <= Pow2(j) && Steps(p + Pow2(j) - Pow2(m) + 1, p + 1) == (j - m) / 2
    decreases j - m
  {
    hide Steps, Pow2, Div;
    Pow2Mono(m, j);
    StepsSelf(p + 1);
    if m < j {
      Slide(p, j, m, p + 1);
      SlideDown(p, j, m + 2);
    }
  }

  lemma AfterFirst(p: nat, j: nat)
    requires Div(p, j + 1) && j % 2 == 1
    ensures Steps(p + Pow2(j), p + 1) == 1 + j / 2
  {
    EvenParts(p, j);
    DivLess(p, j, j + 1);
    StepOff(p, j, p + 1);
    assert Pow2(1) == 2;
    SlideDown(p, j, 1);
  }

  /** Down from p + 2^j to any height after p + 1. */
  lemma {:induction false} DropBound(p: nat, j: nat, h: nat)
    requires j >= 1 && Div(p, j + 1) && p + 2 <= h <= p + Pow2(j)
    ensures Steps(p + Pow2(j), h) <= Drop(j)
    decreases j, 1, 0
  {
    assert Pow2(1) == 2;
    if h < p + Pow2(j) {
      StepOff(p, j, h);
      if j >= 2 {
        Pow2Mono(1, j);
        SlideBound(p, j, 0, h);
      }
    }
  }

  // -------------------------------------------------------- from any height

  /** From p + 2^j - 2^m + 1, m odd and j even, to the height after p. */
  lemma {:induction false} SlideToLast(p: nat, j: nat, m: nat)
    requires Div(p, j) && m % 2 == 1 && j % 2 == 0 && m < j
    ensures Pow2(m) <= Pow2(j) && Steps(p + Pow2(j) - Pow2(m) + 1, p + 1) + m / 2 <= j
    decreases j - m
  {
    hide Steps, Pow2, Div;
    Pow2Mono(m, j);
    if m + 1 < j {
      Slide(p, j, m, p + 1);
      SlideToLast(p, j, m + 2);
    } else {
      Block(p, j, m);
      if p > 0 {
        LastBit(p, j, p + 1);
        AfterFirst(p, j - 1);
      } else {
        FromPower(j - 1);
      }
    }
  }

  lemma FromPower(j: nat)
    requires j >= 1
    ensures Steps(Pow2(j) + 1, 1) == 1
  {
    DivZero(j + 1);
    Clears(0, j);
    EvenParts(0, j);
    hide Pow2;
    NextOfOdd(Pow2(j), 1);
    assert InvertLowestOne(0) == 0;
    hide Next, InvertLowestOne;
    StepsSelf(1);
  }

  lemma {:induction false} DivZero(j: nat)
    ensures Div(0, j)
  {
    if j > 0 {
      DivZero(j - 1);
    }
  }

  lemma ToFirst(p: nat, j: nat)
    requires j >= 1 && Div(p, j + 1)
    ensures Steps(p + Pow2(j), p + 1) <= j + 1
  {
    EvenParts(p, j);
    hide Steps, Div;
    if j % 2 == 1 {
      AfterFirst(p, j);
    } else {
      DivLess(p, j, j + 1);
      StepOff(p, j, p + 1);
      SlideToLast(p, j, 1);
      assert Pow2(1) == 2;
    }
  }

  /** A lowest one of a multiple of 2^c is not below bit c. */
  lemma LowestAbove(base: nat, b: nat, c: nat)
    requires Div(base + Pow2(b), c) && Div(base, b + 1)
    ensures b >= c
  {
    assert Pow2(b + 1) == 2 * Pow2(b);
    hide Pow2, Div;
    if b < c {
      DivLess(base + Pow2(b), b + 1, c);
      DivSum(base + Pow2(b), base, b + 1);
      DivLarge(Pow2(b), b + 1);
    }
  }

  lemma BitBelow(a: nat, k: nat)
    requires Pow2(a) < Pow2(k)
    ensures a < k
  {
    if a >= k {
      Pow2Mono(k, a);
    }
  }

  /** From an even height to one that two skips would miss. */
  lemma NearTop(e: nat, h: nat, k: nat)
    requires e > 0 && e % 2 == 0 && e < Pow2(k) && k >= 3
    requires InvertLowestOne(InvertLowestOne(e)) + 2 <= h <= e
    ensures Steps(e, h) <= Drop(k - 1) + if InvertLowestOne(e) == 0 then 0 else 1
  {
    hide Steps, Pow2, Div, Drop, InvertLowestOne;
    var q, a := Lowest(e);
    LowestOfEven(q, a);
    BitBelow(a, k);
    InvertZero(q);
    if q > 0 {
      NearTopTwo(q, a, h, k);
    } else {
      DropMono(a, k - 1);
      DropBound(0, a, h);
    }
  }

  lemma NearTopTwo(q: nat, a: nat, h: nat, k: nat)
    requires a >= 1 && Div(q, a + 1) && q > 0 && q + Pow2(a) < Pow2(k) && k >= 3
    requires InvertLowestOne(q) + 2 <= h <= q + Pow2(a)
    ensures Steps(q + Pow2(a), h) <= Drop(k - 1) + 1
  {
    hide Steps, Pow2, Div, Drop, InvertLowestOne;
    var base, b := Lowest(q);
    LowestAbove(base, b, a + 1);
    BitBelow(b, k);
    if h <= q {
      InvertLowers(base);
      SkipsOnce(q, a, base, h);
      DropBound(base, b, h);
      DropMono(b, k - 1);
    } else if h == q + 1 {
      ToFirst(q, a);
      DropRoom(k - 1);
    } else {
      DropBound(q, a, h);
      DropMono(a, k - 1);
    }
  }

  lemma InvertZero(q: nat)
    ensures q == 0 ==> InvertLowestOne(q) == 0
  {
  }

  lemma LowestOfEven(q: nat, a: nat)
    requires (q + Pow2(a)) % 2 == 0 && Div(q, a + 1)
    ensures a >= 1 && q % 2 == 0
  {
  }

  lemma SkipsOnce(q: nat, a: nat, base: nat, h: nat)
    requires a >= 1 && Div(q, a + 1) && 0 < q && base == InvertLowestOne(q)
    requires h <= q && (if a == 1 then InvertLowestOne(base) + 2 else base + 2) <= h
    ensures Steps(q + Pow2(a), h) == 1 + Steps(q, h)
  {
    var e := q + Pow2(a);
    EvenParts(q, a);
    Clears(q, a);
    assert Pow2(1) == 2 && Pow2(2) == 4;
    if a >= 3 {
      NextOfEight(q, a, h);
    } else {
      if a == 2 {
        DivLess(q, 2, 3);
        Clears(q, 1);
      }
      hide InvertLowestOne, Pow2, Div;
      NextOfEven(e, h);
    }
    hide Next;
  }

  /** From the odd height e + 1; a is the lowest one of e. */
  lemma {:induction false} OddWalk(e: nat, q: nat, a: nat, h: nat, k: nat)
    requires e == q + Pow2(a) && a >= 1 && Div(q, a + 1) && e < Pow2(k) && k >= 3 && h <= e + 1
    ensures a < k && Steps(e + 1, h) <= Drop(k - 1) + (k + 2 - a) / 2
    decreases e
  {
    hide Steps, Pow2, Div, Drop, InvertLowestOne;
    Clears(q, a);
    EvenParts(q, a);
    InvertZero(q);
    BitBelow(a, k);
    DropRoom(k - 1);
    StepsSelf(e + 1);
    if h <= e {
      OddTurn(e, h);
      var base := InvertLowestOne(q);
      if h > base + 1 {
        if q > 0 {
          var b := RoomAbove(q, a, k);
        }
        NearTop(e, h, k);
      } else if base == 0 {
        FromOne(h);
      } else {
        InvertZero(0);
        var b := RoomAbove(q, a, k);
        var base', b' := Lowest(base);
        LowestAbove(base', b', b + 1);
        InvertLowers(q);
        OddWalk(base, base', b', h, k);
      }
    }
  }

  /** A second one stands above the lowest. */
  lemma RoomAbove(q: nat, a: nat, k: nat) returns (b: nat)
    requires Div(q, a + 1) && 0 < q < Pow2(k)
    ensures a < b < k && Div(InvertLowestOne(q), b + 1)
  {
    hide Pow2, Div, InvertLowestOne;
    var base;
    base, b := Lowest(q);
    LowestAbove(base, b, a + 1);
    BitBelow(b, k);
  }

  lemma OddTurn(e: nat, h: nat)
    requires e > 0 && e % 2 == 0 && h <= e
    ensures var s := InvertLowestOne(InvertLowestOne(e)) + 1;
      Steps(e + 1, h) == 1 + if h <= s then Steps(s, h) else Steps(e, h)
  {
    NextOfOdd(e, h);
    hide Next, InvertLowestOne;
  }

  lemma FromOne(h: nat)
    requires h <= 1
    ensures Steps(1, h) <= 1
  {
  }

  /** From a multiple of 8. */
  lemma {:induction false} EightWalk(q: nat, a: nat, h: nat, k: nat)
    requires a >= 3 && Div(q, a + 1) && q + Pow2(a) < Pow2(k) && k >= 10 && h <= q + Pow2(a)
    ensures a < k && Steps(q + Pow2(a), h) <= Drop(k - 1) + k - 1 - a
    decreases q
  {
    hide Steps, Pow2, Div, Drop, Next;
    BitBelow(a, k);
    DropMono(a, k - 1);
    LotsOfRoom(k - 1);
    StepsSelf(h);
    if q < h < q + Pow2(a) {
      if h == q + 1 {
        ToFirst(q, a);
      } else {
        DropBound(q, a, h);
      }
    } else if h <= q {
      EightTurn(q, a, h);
      if q > 0 {
        var base, b := Lowest(q);
        LowestAbove(base, b, a + 1);
        EightWalk(base, b, h, k);
      }
    }
  }

  lemma EightTurn(q: nat, a: nat, h: nat)
    requires a >= 3 && Div(q, a + 1) && h <= q
    ensures Steps(q + Pow2(a), h) == 1 + Steps(q, h)
  {
    NextOfEight(q, a, h);
    hide Next;
  }

  lemma LotsOfRoom(j: nat)
    requires j >= 9
    ensures Drop(j) >= j + 1
  {
    DropRoom(j - 1);
  }

  /** From an even height that is not a multiple of 8. */
  lemma LowWalk(q: nat, a: nat, h: nat, k: nat)
    requires 1 <= a <= 2 && Div(q, a + 1) && q + Pow2(a) < Pow2(k) && k >= 10 && h <= q + Pow2(a)
    ensures Steps(q + Pow2(a), h) <= Drop(k - 1) + k - 4
  {
    var e := q + Pow2(a);
    EvenParts(q, a);
    hide Steps, Pow2, Div, Drop;
    DropMono(a, k - 1);
    LotsOfRoom(k - 1);
    StepsSelf(h);
    if q < h < e {
      if h == q + 1 {
        ToFirst(q, a);
      } else {
        DropBound(q, a, h);
      }
    } else if h == q {
      SkipsExactly(q, a);
    } else if h < q {
      LowTurn(q, a, h, k);
    }
  }

  lemma SkipsExactly(q: nat, a: nat)
    requires a >= 1 && Div(q, a + 1)
    ensures Steps(q + Pow2(a), q) == 1
  {
    EvenParts(q, a);
    Clears(q, a);
    SkipOfEven(q + Pow2(a));
    hide InvertLowestOne, GetSkipHeight;
    StepsSelf(q);
  }

  lemma LowTurn(q: nat, a: nat, h: nat, k: nat)
    requires 1 <= a <= 2 && Div(q, a + 1) && q + Pow2(a) < Pow2(k) && k >= 10 && h < q
    ensures Steps(q + Pow2(a), h) <= Drop(k - 1) + k - 4
  {
    SmallPowers();
    hide Steps, Div, Drop, InvertLowestOne, Pow2;
    EvenParts(q, a);
    LotsOfRoom(k - 1);
    var base, b := Lowest(q);
    LowestAbove(base, b, a + 1);
    BitBelow(b, k);
    InvertLowers(base);
    if (if a == 1 then InvertLowestOne(base) + 2 else base + 2) <= h {
      SkipsOnce(q, a, base, h);
      if a == 1 {
        NearTop(q, h, k);
      } else {
        DropBound(base, b, h);
        DropMono(b, k - 1);
      }
    } else {
      Detour(q, a, base, b, h);
      if a == 1 {
        OddWalk(q, base, b, h, k);
      } else {
        DivLess(q, 2, 3);
        OddWalk(q + 2, q, 1, h, k);
      }
    }
  }

  /** The skip of the height before is better. */
  lemma Detour(q: nat, a: nat, base: nat, b: nat, h: nat)
    requires 1 <= a <= 2 && Div(q, a + 1) && h < q && q == base + Pow2(b) && Div(base, b + 1) && b > a
    requires h < if a == 1 then InvertLowestOne(base) + 2 else base + 2
    ensures Steps(q + Pow2(a), h) == 1 + Steps(q + Pow2(a) - 1, h)
  {
    var e := q + Pow2(a);
    EvenParts(q, a);
    Clears(q, a);
    Clears(base, b);
    assert Pow2(1) == 2 && Pow2(2) == 4;
    Pow2Mono(a + 1, b);
    assert Pow2(a + 1) == 2 * Pow2(a);
    if a == 2 {
      DivLess(q, 2, 3);
      Clears(q, 1);
    }
    InvertLowers(base);
    SkipOfEven(e);
    SkipOfOdd(e - 2);
    hide InvertLowestOne, GetSkipHeight, Pow2, Div;
    assert Next(e, h) == e - 1;
    hide Next;
  }

  /** The most steps that any walk from below 2^k takes. */
  function MaxSteps(k: nat): nat
    requires k >= 10
  {
    Drop(k - 1) + k - 4
  }

  lemma WorstCase(w: nat, h: nat, k: nat)
    requires k >= 10 && h <= w < Pow2(k)
    ensures Steps(w, h) <= MaxSteps(k)
  {
    StepsSelf(w);
    hide Steps, Pow2, Div, Drop;
    LotsOfRoom(k - 1);
    if w == 1 {
      FromOne(h);
    } else if w > 1 && w % 2 == 1 {
      var q, a := Lowest(w - 1);
      LowestOfEven(q, a);
      OddWalk(w - 1, q, a, h, k);
    } else if w > 1 {
      var q, a := Lowest(w);
      LowestOfEven(q, a);
      if a >= 3 {
        EightWalk(q, a, h, k);
      } else {
        LowWalk(q, a, h, k);
      }
    }
  }

  // -------------------------------------------------------- the bound is met

  lemma {:induction false} SlideReached(j: nat, i: nat)
    requires 2 * i + 1 < j
    ensures Pow2(2 * i + 1) <= Pow2(j) && Pow2(j) - Pow2(2 * i + 1) + 1 >= 2
    ensures Steps(Pow2(j) - Pow2(2 * i + 1) + 1, 2) + 1 + i == Drop(j)
    decreases j, 0, j - i
  {
    hide Steps, Pow2, Div, Drop;
    var m := 2 * i + 1;
    DivZero(j);
    Block(0, j, m);
    AtLeastTwo(m);
    DropStep(i);
    if m + 1 == j {
      LastBit(0, j, 2);
      DropReached(j - 1);
    } else {
      Slide(0, j, m, 2);
      Block(0, j, m + 1);
      if m + 2 == j {
        TakesOne(0, j, m, 2);
        DropReached(j - 1);
      } else {
        SlideReached(j, i + 1);
      }
    }
  }

  lemma AtLeastTwo(m: nat)
    requires m >= 1
    ensures Pow2(m) >= 2
  {
    Pow2Mono(1, m);
    assert Pow2(1) == 2;
  }

  /** From 2^j to height 2 takes as many steps as any such descent may. */
  lemma {:induction false} DropReached(j: nat)
    requires j >= 1
    ensures Pow2(j) >= 2 && Steps(Pow2(j), 2) == Drop(j)
    decreases j, 1, 0
  {
    SmallPowers();
    assert Drop(1) == 0;
    hide Steps, Pow2, Div, Drop;
    AtLeastTwo(j);
    StepsSelf(2);
    if j > 1 {
      DivZero(j + 1);
      Pow2Mono(2, j);
      StepOff(0, j, 2);
      SlideReached(j, 0);
    }
  }

  lemma SmallPowers()
    ensures Pow2(0) == 1 && Pow2(1) == 2 && Pow2(2) == 4 && Pow2(3) == 8
  {
  }

  lemma {:induction false} EightReached(k: nat, a: nat)
    requires 3 <= a < k
    ensures Pow2(a) + 2 <= Pow2(k) && Steps(Pow2(k) - Pow2(a), 2) == Drop(k - 1) + k - 1 - a
    decreases k - a
  {
    hide Steps, Pow2, Div, Drop;
    DivZero(k);
    Block(0, k, a);
    AtLeastTwo(a);
    if a + 1 == k {
      DropReached(a);
    } else {
      EightReached(k, a + 1);
      EightTurn(Pow2(k) - Pow2(a + 1), a, 2);
    }
  }

  /** For every k the bound is met: by the walk from 2^k - 8 to height 2. */
  lemma WorstCaseReached(k: nat)
    requires k >= 10
    ensures Pow2(k) >= 10 && Steps(Pow2(k) - 8, 2) == MaxSteps(k)
  {
    EightReached(k, 3);
    assert Pow2(3) == 8;
  }

  /** The documented maximum: 110 steps among 2^18 blocks, and this many are taken. */
  lemma DocumentedMaximum(w: nat, h: nat)
    requires h <= w < Pow2(18)
    ensures Steps(w, h) <= 110 && MaxSteps(18) == 110
  {
    WorstCase(w, h, 18);
    DropClosed(8);
  }

  /** The steps are not logarithmic in the height, as documented: no line in the bit length bounds them. */
  lemma NotLogarithmic(c: nat, d: nat) returns (k: nat)
    ensures k >= 10 && Pow2(k) >= 10 && Steps(Pow2(k) - 8, 2) > c * k + d
  {
    hide Steps, Pow2, Drop;
    var i := 2 * c + d + 5;
    k := 2 * i + 1;
    WorstCaseReached(k);
    DropClosed(i);
    Quadratic(c, d, i);
  }

  lemma Quadratic(c: nat, d: nat, i: nat)
    requires i == 2 * c + d + 5
    ensures i * i + 5 * i > c * (2 * i + 1) + d + 5
  {
    assert i * i == 2 * (c * i) + d * i + 5 * i;
    assert c * (2 * i + 1) == 2 * (c * i) + c;
    MulStep(1, i, d);
    assert d * i == Mul(i, d) && Mul(1, d) == d;
  }
}
