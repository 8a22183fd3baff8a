/**
 * The Merkle root in a block header (src/consensus/merkle.cpp): one pass over
 * the leaves with one hash for each level, proved to give the root of the tree
 * of module MerkleTree, and what its check for repeated leaves is good for.
 */
module MerkleRoot {
  import opened Arithmetic
  import opened Common
  import opened MerkleTree

  /** The counter of the sweep has 32 bits. */
  const MAX_LEAVES: nat := 0x8000_0000

  // ------------------------------------------------------------- bit counters

  /** n >> l */
  function Shr(n: nat, l: nat): nat {
    if l == 0 then n else Shr(n, l - 1) / 2
  }

  lemma {:induction false} ShrBelowWidth(c: nat, n: nat, l: nat)
    requires c <= n
    ensures Shr(c, l) <= Width(n, l)
  {
    if l > 0 {
      ShrBelowWidth(c, n, l - 1);
    }
  }

  lemma {:induction false} ShrSmall(n: nat, l: nat)
    requires n < Pow2(l)
    ensures Shr(n, l) == 0
  {
    if l > 0 {
      ShrOnce(n, l);
      ShrSmall(n / 2, l - 1);
    }
  }

  lemma {:induction false} ShrOnce(n: nat, l: nat)
    requires l > 0
    ensures Shr(n, l) == Shr(n / 2, l - 1)
  {
    if l > 1 {
      ShrOnce(n, l - 1);
    }
  }

  lemma {:induction false} ShrZeroAbove(n: nat, l: nat, m: nat)
    requires l <= m && Shr(n, l) == 0
    ensures Shr(n, m) == 0
    decreases m
  {
    if l < m {
      ShrZeroAbove(n, l, m - 1);
    }
  }

  /** A level of a number below 2^32 that is not shifted out. */
  lemma LevelBelow32(n: nat, l: nat)
    requires n < TWO_32 && Shr(n, l) > 0
    ensures l < 32
  {
    if l >= 32 {
      Pow2Widths();
      ShrSmall(n, 32);
      ShrZeroAbove(n, 32, l);
    }
  }

  /** c and the number before it agree above the lowest one of c. */
  lemma {:induction false} ShrAgree(c: nat, level: nat, l: nat)
    requires c > 0 && Shr(c, level) % 2 == 1 && Shr(c - 1, level) == Shr(c, level) - 1 && level < l
    ensures Shr(c - 1, l) == Shr(c, l)
  {
    if level + 1 < l {
      ShrAgree(c, level, l - 1);
    }
  }

  // -------------------------------------------------------------------- nodes

  /** The hash of node p at level l. */
  ghost function NodeHash(H: PairHash, s: seq<Digest>, l: nat, p: nat): Digest
    requires p < Width(|s|, l)
  {
    CalcHash(H, s, Shape(|s|, l, p))
  }

  lemma NodeAbove(H: PairHash, s: seq<Digest>, l: nat, q: nat)
    requires 2 * q < Width(|s|, l)
    ensures q < Width(|s|, l + 1)
    ensures NodeHash(H, s, l + 1, q) ==
            H(NodeHash(H, s, l, 2 * q), NodeHash(H, s, l, if 2 * q + 1 < Width(|s|, l) then 2 * q + 1 else 2 * q))
  {
  }

  /** Two siblings that are there have equal hashes. */
  ghost predicate Twins(H: PairHash, s: seq<Digest>, l: nat, q: nat) {
    2 * q + 1 < Width(|s|, l) && NodeHash(H, s, l, 2 * q) == NodeHash(H, s, l, 2 * q + 1)
  }

  /** Among the first c leaves, two full siblings have equal hashes. */
  ghost predicate Repeats(H: PairHash, s: seq<Digest>, c: nat) {
    exists l: nat, q: nat :: q < Shr(c, l + 1) && Twins(H, s, l, q)
  }

  /** inner[l] is the last full node at each level whose bit of c is set. */
  ghost predicate Inner(H: PairHash, s: seq<Digest>, c: nat, inner: seq<Digest>) {
    c <= |s| && forall l: nat | l < |inner| && Shr(c, l) % 2 == 1 :: HoldsNode(H, s, l, Shr(c, l) - 1, inner[l])
  }

  ghost predicate HoldsNode(H: PairHash, s: seq<Digest>, l: nat, p: int, h: Digest) {
    0 <= p < Width(|s|, l) && h == NodeHash(H, s, l, p)
  }

  // ------------------------------------------------------------------ the pass

  /** The root, and whether two siblings were found equal on the way. */
  method ComputeMerkleRoot(H: PairHash, leaves: seq<Digest>) returns (root: Digest, mutated: bool, ghost h: nat)
    requires |leaves| <= MAX_LEAVES
    ensures leaves == [] ==> root == NULL && !mutated
    ensures leaves != [] ==> IsHeight(|leaves|, h) && root == CalcHash(H, leaves, Root(|leaves|, h))
    ensures leaves != [] ==> (mutated <==> Repeats(H, leaves, |leaves|))
  {
    h := 0;
    if |leaves| == 0 {
      return NULL, false, 0;
    }
    hide Width, Shr, NodeHash, Repeats, IsHeight;
    var count: nat := 0;
    var inner := new Digest[32](_ => 0);
    mutated := false;
    NoneRepeats(H, leaves);
    while count < |leaves|
      invariant count <= |leaves| && Inner(H, leaves, count, inner[..])
      invariant mutated <==> Repeats(H, leaves, count)
    {
      count, mutated := AddLeaf(H, leaves, count, inner, mutated);
    }
    root, h := Sweep(H, leaves, inner);
    RootIsNode(H, leaves, h);
  }

  lemma NoneRepeats(H: PairHash, s: seq<Digest>)
    ensures !Repeats(H, s, 0) && forall l: nat :: Shr(0, l) == 0
  {
    forall l: nat ensures Shr(0, l) == 0 {
      ShrSmall(0, l);
    }
  }

  lemma RootIsNode(H: PairHash, s: seq<Digest>, h: nat)
    requires IsHeight(|s|, h) && Width(|s|, h) == 1
    ensures NodeHash(H, s, h, 0) == CalcHash(H, s, Root(|s|, h))
  {
  }

  /** Takes in one leaf, combining it with the nodes of the lower zero bits. */
  method AddLeaf(H: PairHash, leaves: seq<Digest>, countIn: nat, inner: array<Digest>, mutatedIn: bool)
    returns (count: nat, mutated: bool)
    requires countIn < |leaves| <= MAX_LEAVES && inner.Length == 32 && Inner(H, leaves, countIn, inner[..])
    requires mutatedIn <==> Repeats(H, leaves, countIn)
    modifies inner
    ensures count == countIn + 1 && Inner(H, leaves, count, inner[..])
    ensures mutated <==> Repeats(H, leaves, count)
  {
    hide NodeHash, Width, Repeats;
    var h := leaves[countIn];
    count, mutated := countIn + 1, mutatedIn;
    var level: nat := 0;
    LeafNode(H, leaves, countIn);
    ghost var was := inner[..];
    while Shr(count, level) % 2 == 0
      invariant inner[..] == was && Shr(count, level) > 0 && Shr(countIn, level) == Shr(count, level) - 1
      invariant forall k: nat | k < level :: Shr(count, k) % 2 == 0
      invariant HoldsNode(H, leaves, level, Shr(count, level) - 1, h)
      invariant mutated <==> Repeats(H, leaves, countIn) || TwinsBelow(H, leaves, count, level)
      decreases Shr(count, level)
    {
      LevelBelow32(count, level);
      assert HoldsNode(H, leaves, level, Shr(countIn, level) - 1, inner[level]);
      ghost var q: nat := Shr(count, level + 1) - 1;
      TwinsStep(H, leaves, count, level);
      NodeAbove(H, leaves, level, q);
      mutated := mutated || inner[level] == h;
      h := H(inner[level], h);
      level := level + 1;
    }
    LevelBelow32(count, level);
    inner[level] := h;
    InnerNext(H, leaves, count, level, was, inner[..], h);
    RepeatsNext(H, leaves, count, level);
  }

  lemma LeafNode(H: PairHash, s: seq<Digest>, i: nat)
    requires i < |s|
    ensures HoldsNode(H, s, 0, i, s[i])
  {
  }

  /** A pair that was combined for leaf c - 1 at a level below the given one was equal. */
  ghost predicate TwinsBelow(H: PairHash, s: seq<Digest>, c: nat, level: nat) {
    exists l: nat | l < level :: LastTwins(H, s, c, l)
  }

  ghost predicate LastTwins(H: PairHash, s: seq<Digest>, c: nat, l: nat) {
    Shr(c, l + 1) > 0 && Twins(H, s, l, Shr(c, l + 1) - 1)
  }

  lemma TwinsStep(H: PairHash, s: seq<Digest>, c: nat, level: nat)
    requires Shr(c, level) % 2 == 0 && Shr(c, level) > 0 && c <= |s|
    ensures Shr(c, level + 1) > 0 && 2 * (Shr(c, level + 1) - 1) + 1 == Shr(c, level) - 1 < Width(|s|, level)
    ensures TwinsBelow(H, s, c, level + 1) <==>
              TwinsBelow(H, s, c, level) || Twins(H, s, level, Shr(c, level + 1) - 1)
  {
    ShrBelowWidth(c, |s|, level);
    assert LastTwins(H, s, c, level) <==> Twins(H, s, level, Shr(c, level + 1) - 1);
    hide Shr, Twins, LastTwins;
  }

  lemma InnerNext(H: PairHash, s: seq<Digest>, c: nat, level: nat, was: seq<Digest>, now: seq<Digest>, h: Digest)
    requires 0 < c <= |s| && level < |was| && now == was[level := h] && Inner(H, s, c - 1, was)
    requires Shr(c, level) % 2 == 1 && Shr(c - 1, level) == Shr(c, level) - 1
    requires forall k: nat | k < level :: Shr(c, k) % 2 == 0
    requires HoldsNode(H, s, level, Shr(c, level) - 1, h)
    ensures Inner(H, s, c, now)
  {
    hide HoldsNode, Shr;
    forall l: nat | l < |now| && Shr(c, l) % 2 == 1 ensures HoldsNode(H, s, l, Shr(c, l) - 1, now[l]) {
      if l > level {
        ShrAgree(c, level, l);
      }
    }
  }

  lemma RepeatsNext(H: PairHash, s: seq<Digest>, c: nat, level: nat)
    requires c > 0 && Shr(c, level) % 2 == 1 && Shr(c - 1, level) == Shr(c, level) - 1
    requires forall k: nat | k < level :: Shr(c, k) % 2 == 0
    ensures Repeats(H, s, c) <==> Repeats(H, s, c - 1) || TwinsBelow(H, s, c, level)
  {
    hide Twins, Shr;
    if Repeats(H, s, c) {
      var l: nat, q: nat :| q < Shr(c, l + 1) && Twins(H, s, l, q);
      ShrNext(c, level, l);
      assert q == Shr(c, l + 1) - 1 ==> LastTwins(H, s, c, l);
    }
    if Repeats(H, s, c - 1) {
      var l: nat, q: nat :| q < Shr(c - 1, l + 1) && Twins(H, s, l, q);
      ShrNext(c, level, l);
    }
    if TwinsBelow(H, s, c, level) {
      var l: nat :| l < level && LastTwins(H, s, c, l);
    }
  }

  lemma ShrNext(c: nat, level: nat, l: nat)
    requires c > 0 && Shr(c, level) % 2 == 1 && Shr(c - 1, level) == Shr(c, level) - 1
    requires forall k: nat | k < level :: Shr(c, k) % 2 == 0
    ensures Shr(c, l + 1) == Shr(c - 1, l + 1) + One(l < level)
  {
    hide Shr;
    if l < level {
      ShrLower(c, level, l + 1);
    } else {
      ShrAgree(c, level, l + 1);
    }
  }

  lemma {:induction false} ShrLower(c: nat, level: nat, l: nat)
    requires c > 0 && l <= level && forall k: nat | k < level :: Shr(c, k) % 2 == 0
    ensures Shr(c, l) > 0 && Shr(c - 1, l) == Shr(c, l) - 1
  {
    if l > 0 {
      ShrLower(c, level, l - 1);
    }
  }

  // ------------------------------------------------------------------ the sweep

  /** The width of a level is the number of full nodes, and one more where leaves are left over. */
  lemma {:induction false} WidthOfLevel(n: nat, l: nat)
    ensures Width(n, l) == Shr(n, l) || Width(n, l) == Shr(n, l) + 1
    ensures l > 0 && Width(n, l - 1) == Shr(n, l - 1) + 1 ==> Width(n, l) == Shr(n, l) + 1
    ensures l > 0 && Width(n, l - 1) % 2 == 1 && Shr(n, l - 1) % 2 == 1 ==> Width(n, l) == Shr(n, l) + 1
  {
    if l > 0 {
      WidthOfLevel(n, l - 1);
    }
  }

  /** All widths below a level are above one. */
  ghost predicate WideBelow(n: nat, level: nat) {
    forall k: nat | k < level :: Width(n, k) > 1
  }

  /** h is the last node of its level, and count the number of leaves rounded up to whole nodes of it. */
  ghost predicate Swept(H: PairHash, s: seq<Digest>, level: nat, h: Digest, count: nat) {
    && WideBelow(|s|, level) && HoldsNode(H, s, level, Width(|s|, level) - 1, h)
    && count == Mul(Width(|s|, level), Pow2(level))
  }

  /** What the tests of the rounded count see. */
  lemma {:induction false} RoundedCount(w: nat, l: nat)
    ensures Mul(w, Pow2(l)) >= 0
    ensures Shr(Mul(w, Pow2(l)), l) == w && (Mul(w, Pow2(l)) == Pow2(l) <==> w == 1)
  {
    MulBasics(w, Pow2(l));
    MulBasics(Pow2(l), w);
    ShrOfProduct(w, l);
    hide Mul, Pow2, Shr;
    MulStep(w, 1, Pow2(l));
    MulStep(1, w, Pow2(l));
  }

  lemma {:induction false} ShrOfProduct(w: nat, l: nat)
    ensures Mul(w, Pow2(l)) >= 0 && Shr(Mul(w, Pow2(l)), l) == w
  {
    MulBasics(w, Pow2(l));
    if l > 0 {
      ShrOfProduct(w, l - 1);
      HalfProduct(w, Pow2(l - 1));
      ShrOnce(Mul(w, Pow2(l)), l);
    } else {
      MulBasics(1, w);
    }
  }

  lemma HalfProduct(w: nat, p: nat)
    ensures Mul(w, 2 * p) == 2 * Mul(w, p)
  {
  }

  lemma AtZero(n: nat)
    ensures Shr(n, 0) == Width(n, 0) == n && WideBelow(n, 0) && Mul(n, Pow2(0)) == n
  {
  }

  /** A level with an even number of full nodes, and nothing left over. */
  lemma HalveEven(n: nat, l: nat)
    requires Shr(n, l) == Width(n, l) > 0 && Shr(n, l) % 2 == 0 && WideBelow(n, l)
    ensures Shr(n, l + 1) == Width(n, l + 1) > 0 && WideBelow(n, l + 1) && Shr(n, l + 1) < Shr(n, l)
    ensures Mul(Width(n, l + 1), Pow2(l + 1)) == Mul(Width(n, l), Pow2(l))
  {
    assert 2 * Width(n, l + 1) == Width(n, l) && Pow2(l + 1) == 2 * Pow2(l);
    HalfProduct(Width(n, l + 1), Pow2(l));
    MulAdd(Width(n, l + 1), Width(n, l + 1), Pow2(l));
  }

  /** The last node of an odd level is combined with itself. */
  lemma SweepOdd(H: PairHash, s: seq<Digest>, l: nat, h: Digest, count: nat)
    requires Swept(H, s, l, h, count) && Width(|s|, l) % 2 == 1 && Width(|s|, l) > 1
    ensures Swept(H, s, l + 1, H(h, h), count + Pow2(l)) && 0 < Width(|s|, l + 1) < Width(|s|, l)
    ensures Width(|s|, l + 1) == Shr(|s|, l + 1) + 1
  {
    var w := Width(|s|, l);
    NodeAbove(H, s, l, (w - 1) / 2);
    WidthOfLevel(|s|, l);
    WidthOfLevel(|s|, l + 1);
    assert Pow2(l + 1) == 2 * Pow2(l) && 2 * Width(|s|, l + 1) == w + 1;
    hide Mul, Pow2, Width, Shr, NodeHash;
    HalfProduct(Width(|s|, l + 1), Pow2(l));
    MulBasics(1, Pow2(l));
    MulAdd(w, 1, Pow2(l));
    MulAdd(Width(|s|, l + 1), Width(|s|, l + 1), Pow2(l));
  }

  /** The last node of an even level is combined with the full one before it. */
  lemma SweepEven(H: PairHash, s: seq<Digest>, l: nat, h: Digest, count: nat)
    requires Swept(H, s, l, h, count) && Width(|s|, l) % 2 == 0 && Width(|s|, l) == Shr(|s|, l) + 1
    ensures Shr(|s|, l) % 2 == 1
    ensures forall x: Digest | HoldsNode(H, s, l, Shr(|s|, l) - 1, x) :: Swept(H, s, l + 1, H(x, h), count)
    ensures 0 < Width(|s|, l + 1) < Width(|s|, l) && Width(|s|, l + 1) == Shr(|s|, l + 1) + 1
  {
    var w := Width(|s|, l);
    NodeAbove(H, s, l, w / 2 - 1);
    WidthOfLevel(|s|, l + 1);
    assert Pow2(l + 1) == 2 * Pow2(l) && 2 * Width(|s|, l + 1) == w;
    hide Mul, Pow2, Shr, NodeHash;
    HalfProduct(Width(|s|, l + 1), Pow2(l));
    MulAdd(Width(|s|, l + 1), Width(|s|, l + 1), Pow2(l));
  }

  /** Doubles the nodes of odd levels up to the top. */
  method Sweep(H: PairHash, leaves: seq<Digest>, inner: array<Digest>) returns (h: Digest, ghost top: nat)
    requires 0 < |leaves| <= MAX_LEAVES && inner.Length == 32 && Inner(H, leaves, |leaves|, inner[..])
    ensures IsHeight(|leaves|, top) && Width(|leaves|, top) == 1 && h == NodeHash(H, leaves, top, 0)
  {
    hide NodeHash, Shr, Width, Pow2, Mul, WideBelow;
    ghost var n := |leaves|;
    var count: nat, level: nat := |leaves|, 0;
    AtZero(n);
    while Shr(count, level) % 2 == 0
      invariant count == n == Mul(Width(n, level), Pow2(level))
      invariant Shr(n, level) == Width(n, level) > 0 && WideBelow(n, level)
      decreases Shr(n, level)
    {
      HalveEven(n, level);
      level := level + 1;
    }
    LevelBelow32(n, level);
    h := inner[level];
    assert HoldsNode(H, leaves, level, Shr(n, level) - 1, inner[..][level]);
    RoundedCount(Width(n, level), level);
    while count != Pow2(level)
      invariant Width(n, level) % 2 == 1 && Swept(H, leaves, level, h, count)
      invariant count == Pow2(level) <==> Width(n, level) == 1
      decreases Width(n, level)
    {
      ghost var width := Width(n, level);
      SweepOdd(H, leaves, level, h, count);
      h := H(h, h);
      count := count + Pow2(level);
      level := level + 1;
      RoundedCount(Width(n, level), level);
      while Shr(count, level) % 2 == 0
        invariant Swept(H, leaves, level, h, count) && Shr(count, level) == Width(n, level) == Shr(n, level) + 1
        invariant Width(n, level) < width && (count == Pow2(level) <==> Width(n, level) == 1)
        decreases Width(n, level)
      {
        SweepEven(H, leaves, level, h, count);
        LevelBelow32(n, level);
        assert HoldsNode(H, leaves, level, Shr(n, level) - 1, inner[..][level]);
        h := H(inner[level], h);
        level := level + 1;
        RoundedCount(Width(n, level), level);
      }
    }
    top := level;
    TopReached(n, level);
  }

  lemma TopReached(n: nat, l: nat)
    requires WideBelow(n, l) && Width(n, l) == 1
    ensures IsHeight(n, l)
  {
  }

  /** The counter of the sweep ends at 2^h and does not wrap if and only if there are at most 2^31 leaves. */
  lemma CounterFits(n: nat, h: nat)
    requires IsHeight(n, h)
    ensures Mul(Width(n, h), Pow2(h)) == Pow2(h) && (Pow2(h) < TWO_32 <==> n <= MAX_LEAVES)
  {
    Pow2Widths();
    assert Pow2(32) == 2 * Pow2(31);
    MulBasics(Pow2(h), 1);
    WidthFact(n, 31, 1);
    hide Pow2, Width, Mul;
    assert 31 < h ==> Width(n, 31) > 1;
    if h <= 31 {
      Pow2Mono(h, 31);
      WidthNarrows(n, h, 31);
    } else {
      Pow2Mono(32, h);
    }
  }

  lemma {:induction false} WidthNarrows(n: nat, l: nat, m: nat)
    requires l <= m
    ensures Width(n, m) <= Width(n, l)
    decreases m
  {
    if l < m {
      WidthNarrows(n, l, m - 1);
    }
  }

  // ----------------------------------------------------------------- small trees

  /** The left hash comes first, and the last hash of an odd level is taken twice. */
  lemma SmallTrees(H: PairHash, a: Digest, b: Digest, c: Digest)
    ensures IsHeight(1, 0) && CalcHash(H, [a], Root(1, 0)) == a
    ensures IsHeight(2, 1) && CalcHash(H, [a, b], Root(2, 1)) == H(a, b)
    ensures IsHeight(3, 2) && CalcHash(H, [a, b, c], Root(3, 2)) == H(H(a, b), H(c, c))
  {
    assert Width(2, 0) == 2 && Width(2, 1) == 1;
    assert Width(3, 0) == 3 && Width(3, 1) == 2 && Width(3, 2) == 1;
    assert Root(2, 1) == Fork(Leaf(0), Leaf(1));
    assert Root(3, 2) == Fork(Fork(Leaf(0), Leaf(1)), Only(Leaf(2)));
    PairOfLeaves(H, [a, b, c], 0);
    LeafAlone(H, [a, b, c], 2);
  }

  lemma LeafAlone(H: PairHash, s: seq<Digest>, i: nat)
    requires i < |s|
    ensures Fits(Only(Leaf(i)), |s|) && CalcHash(H, s, Only(Leaf(i))) == H(s[i], s[i])
  {
  }

  lemma PairOfLeaves(H: PairHash, s: seq<Digest>, i: nat)
    requires i + 1 < |s|
    ensures Fits(Fork(Leaf(i), Leaf(i + 1)), |s|) && CalcHash(H, s, Fork(Leaf(i), Leaf(i + 1))) == H(s[i], s[i + 1])
  {
  }

  // ------------------------------------------------------ what the root decides

  /** Somewhere below, two siblings have equal hashes. */
  ghost predicate HasTwins(H: PairHash, s: seq<Digest>, t: Tree)
    requires Fits(t, |s|)
  {
    match t
    case Leaf(_) => false
    case Only(c) => HasTwins(H, s, c)
    case Fork(l, r) => CalcHash(H, s, l) == CalcHash(H, s, r) || HasTwins(H, s, l) || HasTwins(H, s, r)
  }

  ghost function LeavesOf(s: seq<Digest>, t: Tree): seq<Digest>
    requires Fits(t, |s|)
  {
    match t
    case Leaf(i) => [s[i]]
    case Only(c) => LeavesOf(s, c)
    case Fork(l, r) => LeavesOf(s, l) + LeavesOf(s, r)
  }

  lemma {:induction false} LeavesAre(s: seq<Digest>, t: Tree, h: nat)
    requires Fits(t, |s|) && Ordered(t, h)
    ensures Start(t) <= End(t) <= |s| && LeavesOf(s, t) == s[Start(t)..End(t)]
  {
    match t
    case Leaf(_) =>
    case Only(c) => LeavesAre(s, c, h - 1);
    case Fork(l, r) =>
      LeavesAre(s, l, h - 1);
      LeavesAre(s, r, h - 1);
  }

  /** Equal hashes at one height stand over equal leaves, unless a pair collides or siblings are equal. */
  lemma {:induction false} SameLeaves(H: PairHash, a: seq<Digest>, b: seq<Digest>, s: Tree, t: Tree, h: nat,
                                      ps: set<Pair>)
    requires Fits(s, |a|) && Fits(t, |b|) && Ordered(s, h) && Ordered(t, h)
    requires NoClash(H, ps, ps) && TreePairs(H, a, s) <= ps && TreePairs(H, b, t) <= ps
    requires CalcHash(H, a, s) == CalcHash(H, b, t)
    ensures LeavesOf(a, s) == LeavesOf(b, t) || HasTwins(H, a, s) || HasTwins(H, b, t)
  {
    hide NoClash;
    if h > 0 {
      SameChildren(H, ps, ps, CalcHash(H, a, LeftOf(s)), CalcHash(H, a, RightOf(s)),
                   CalcHash(H, b, LeftOf(t)), CalcHash(H, b, RightOf(t)));
      SameLeaves(H, a, b, LeftOf(s), LeftOf(t), h - 1, ps);
      if s.Fork? && t.Fork? {
        SameLeaves(H, a, b, s.right, t.right, h - 1, ps);
      }
    }
  }

  lemma {:induction false} ShrFact(n: nat, l: nat, p: nat)
    ensures p < Shr(n, l) <==> (p + 1) * Pow2(l) <= n
  {
    if l > 0 {
      ShrFact(n, l - 1, 2 * p + 1);
      var half := Pow2(l - 1);
      assert Pow2(l) == 2 * half;
      hide Pow2;
      Doubled(p + 1, half);
    }
  }

  /** Equal siblings anywhere mean that two full siblings are equal, which is what the pass looks for. */
  lemma {:induction false} TwinsAreSeen(H: PairHash, s: seq<Digest>, l: nat, p: nat, ps: set<Pair>)
    requires p < Width(|s|, l) && HasTwins(H, s, Shape(|s|, l, p))
    requires NoClash(H, ps, ps) && TreePairs(H, s, Shape(|s|, l, p)) <= ps
    ensures Repeats(H, s, |s|)
    decreases l
  {
    hide NoClash, Repeats, CalcHash, NodeHash, Shr;
    if l > 0 {
      var n := |s|;
      if HasTwins(H, s, Shape(n, l - 1, 2 * p)) {
        TwinsAreSeen(H, s, l - 1, 2 * p, ps);
      } else if 2 * p + 1 < Width(n, l - 1) && HasTwins(H, s, Shape(n, l - 1, 2 * p + 1)) {
        TwinsAreSeen(H, s, l - 1, 2 * p + 1, ps);
      } else {
        FullTwins(H, s, l, p, ps);
      }
    }
  }

  lemma FullTwins(H: PairHash, s: seq<Digest>, l: nat, p: nat, ps: set<Pair>)
    requires l > 0 && 2 * p + 1 < Width(|s|, l - 1) && NoClash(H, ps, ps)
    requires var x, y := Shape(|s|, l - 1, 2 * p), Shape(|s|, l - 1, 2 * p + 1);
      && TreePairs(H, s, x) <= ps && TreePairs(H, s, y) <= ps && !HasTwins(H, s, x) && !HasTwins(H, s, y)
      && CalcHash(H, s, x) == CalcHash(H, s, y)
    ensures Repeats(H, s, |s|)
  {
    var n, x, y := |s|, Shape(|s|, l - 1, 2 * p), Shape(|s|, l - 1, 2 * p + 1);
    assert Twins(H, s, l - 1, p);
    hide NoClash, CalcHash, Twins, TreePairs, HasTwins, LeavesOf, Shape, Width, Shr, Pow2;
    if p < Shr(n, l) {
      assert p < Shr(n, l - 1 + 1);
    } else {
      HalfSizes(n, l, p);
      SameLeaves(H, s, s, x, y, l - 1, ps);
      LeavesAre(s, x, l - 1);
      LeavesAre(s, y, l - 1);
    }
  }

  /** Where the right half is not full it has fewer leaves than the left one. */
  lemma HalfSizes(n: nat, l: nat, p: nat)
    requires l > 0 && 2 * p + 1 < Width(n, l - 1) && p >= Shr(n, l)
    ensures var x, y := Shape(n, l - 1, 2 * p), Shape(n, l - 1, 2 * p + 1);
      Ordered(x, l - 1) && Ordered(y, l - 1) && End(y) - Start(y) < End(x) - Start(x)
  {
    hide Shape, Width, Shr, Ordered;
    ShapeOrdered(n, l - 1, 2 * p);
    ShapeOrdered(n, l - 1, 2 * p + 1);
    ShrFact(n, l, p);
    TwoHalves(p, l);
    WidthFact(n, l - 1, 2 * p + 1);
    hide Pow2;
  }

  lemma TwoHalves(p: nat, l: nat)
    requires l > 0
    ensures (2 * p + 1) * Pow2(l - 1) == 2 * p * Pow2(l - 1) + Pow2(l - 1)
    ensures (2 * p + 2) * Pow2(l - 1) == (2 * p + 1) * Pow2(l - 1) + Pow2(l - 1) == (p + 1) * Pow2(l)
  {
    assert Pow2(l) == 2 * Pow2(l - 1);
  }

  /**
   * Two lists of one height with the same root, for neither of which the pass
   * reports equal siblings, are the same list, unless two of their pairs collide.
   */
  lemma RootDecides(H: PairHash, a: seq<Digest>, b: seq<Digest>, h: nat)
    requires IsHeight(|a|, h) && IsHeight(|b|, h)
    requires CalcHash(H, a, Root(|a|, h)) == CalcHash(H, b, Root(|b|, h))
    requires var ps := TreePairs(H, a, Root(|a|, h)) + TreePairs(H, b, Root(|b|, h)); NoClash(H, ps, ps)
    ensures a == b || Repeats(H, a, |a|) || Repeats(H, b, |b|)
  {
    hide NoClash, CalcHash, TreePairs, LeavesOf, Repeats, HasTwins;
    var s, t := Root(|a|, h), Root(|b|, h);
    var ps := TreePairs(H, a, s) + TreePairs(H, b, t);
    RootOrdered(|a|, h);
    RootOrdered(|b|, h);
    SameLeaves(H, a, b, s, t, h, ps);
    LeavesAre(a, s, h);
    LeavesAre(b, t, h);
    if HasTwins(H, a, s) {
      TwinsAreSeen(H, a, h, 0, ps);
    }
    if HasTwins(H, b, t) {
      TwinsAreSeen(H, b, h, 0, ps);
    }
  }

  /** The documented pair of lists with one root, of which the second is reported. */
  lemma DocumentedRepeat(H: PairHash)
    ensures IsHeight(6, 3) && IsHeight(8, 3)
    ensures CalcHash(H, [1, 2, 3, 4, 5, 6], Root(6, 3)) == CalcHash(H, [1, 2, 3, 4, 5, 6, 5, 6], Root(8, 3))
    ensures Repeats(H, [1, 2, 3, 4, 5, 6, 5, 6], 8)
  {
    SixLeaves();
    EightLeaves();
    hide Width, Shape, Root;
    var s, t := [1, 2, 3, 4, 5, 6], [1, 2, 3, 4, 5, 6, 5, 6];
    PairOfLeaves(H, t, 0);
    PairOfLeaves(H, t, 2);
    PairOfLeaves(H, t, 4);
    PairOfLeaves(H, t, 6);
    var left := Fork(Fork(Leaf(0), Leaf(1)), Fork(Leaf(2), Leaf(3)));
    PairOfLeaves(H, s, 0);
    PairOfLeaves(H, s, 2);
    PairOfLeaves(H, s, 4);
    assert CalcHash(H, s, left) == CalcHash(H, t, left);
    assert CalcHash(H, s, Only(Fork(Leaf(4), Leaf(5)))) == H(H(5, 6), H(5, 6));
    assert Twins(H, t, 1, 1);
  }

  lemma SixLeaves()
    ensures IsHeight(6, 3)
    ensures Root(6, 3) ==
            Fork(Fork(Fork(Leaf(0), Leaf(1)), Fork(Leaf(2), Leaf(3))), Only(Fork(Leaf(4), Leaf(5))))
  {
    assert Width(6, 0) == 6 && Width(6, 1) == 3 && Width(6, 2) == 2 && Width(6, 3) == 1;
    assert Shape(6, 1, 0) == Fork(Leaf(0), Leaf(1));
    assert Shape(6, 1, 1) == Fork(Leaf(2), Leaf(3));
    assert Shape(6, 1, 2) == Fork(Leaf(4), Leaf(5));
    hide Width;
  }

  lemma EightLeaves()
    ensures IsHeight(8, 3) && Width(8, 1) == 4 && Shr(8, 1 + 1) == 2
    ensures Root(8, 3) ==
            Fork(Fork(Fork(Leaf(0), Leaf(1)), Fork(Leaf(2), Leaf(3))),
                 Fork(Fork(Leaf(4), Leaf(5)), Fork(Leaf(6), Leaf(7))))
    ensures Shape(8, 1, 2) == Fork(Leaf(4), Leaf(5)) && Shape(8, 1, 3) == Fork(Leaf(6), Leaf(7))
  {
    assert Width(8, 0) == 8 && Width(8, 1) == 4 && Width(8, 2) == 2 && Width(8, 3) == 1;
    assert Shape(8, 1, 0) == Fork(Leaf(0), Leaf(1));
    assert Shape(8, 1, 1) == Fork(Leaf(2), Leaf(3));
    hide Width;
  }

  /** The height matters: a list of two inner hashes has the root of the list below them. */
  lemma OtherHeight(H: PairHash, a: Digest, b: Digest, c: Digest, d: Digest)
    ensures IsHeight(4, 2) && IsHeight(2, 1)
    ensures CalcHash(H, [a, b, c, d], Root(4, 2)) == CalcHash(H, [H(a, b), H(c, d)], Root(2, 1))
  {
    assert Width(4, 0) == 4 && Width(4, 1) == 2 && Width(4, 2) == 1;
    assert Width(2, 0) == 2 && Width(2, 1) == 1;
    assert Root(4, 2) == Fork(Fork(Leaf(0), Leaf(1)), Fork(Leaf(2), Leaf(3)));
    assert Root(2, 1) == Fork(Leaf(0), Leaf(1));
    PairOfLeaves(H, [a, b, c, d], 0);
    PairOfLeaves(H, [a, b, c, d], 2);
    PairOfLeaves(H, [H(a, b), H(c, d)], 0);
  }
}
