/**
 * Partial Merkle trees (src/merkleblock.cpp, src/merkleblock.h): what the
 * builder writes and what the extractor reads, as values.
 *
 * A digest is any natural number and the pair hash is a parameter, so that it
 * can be assumed injective without contradiction (no injective map from pairs
 * of 256-bit words to 256-bit words exists).
 */
module MerkleTree {
  import opened Arithmetic
  import opened Common

  type Digest = nat
  type PairHash = (Digest, Digest) -> Digest

  /** uint256(), which the extractor returns on failure */
  const NULL: Digest := 0

  // ------------------------------------------------------- shape of the tree

  /** The nodes below a node; Only is a node whose right child would be beyond the end. */
  datatype Tree = Leaf(index: nat) | Only(child: Tree) | Fork(left: Tree, right: Tree)

  function Start(t: Tree): nat {
    match t case Leaf(i) => i case Only(c) => Start(c) case Fork(l, _) => Start(l)
  }

  function End(t: Tree): nat {
    match t case Leaf(i) => i + 1 case Only(c) => End(c) case Fork(_, r) => End(r)
  }

  /** All leaves are h levels down, and they are Start, Start + 1, ..., End - 1 in order. */
  ghost predicate Ordered(t: Tree, h: nat)
    ensures Ordered(t, h) ==> Start(t) < End(t)
  {
    match t
    case Leaf(_) => h == 0
    case Only(c) => h > 0 && Ordered(c, h - 1)
    case Fork(l, r) => h > 0 && Ordered(l, h - 1) && Ordered(r, h - 1) && End(l) == Start(r)
  }

  /** Every leaf is below n. */
  predicate Fits(t: Tree, n: nat) {
    match t
    case Leaf(i) => i < n
    case Only(c) => Fits(c, n)
    case Fork(l, r) => Fits(l, n) && Fits(r, n)
  }

  /** The number of nodes at height h: each level halves the one below, rounding up. */
  function Width(n: nat, h: nat): nat {
    if h == 0 then n else (Width(n, h - 1) + 1) / 2
  }

  /** The closed form that the program computes. */
  function CalcTreeWidth(n: nat, h: nat): nat {
    (n + Pow2(h) - 1) / Pow2(h)
  }

  /** The tree below node p at height h in a block of n transactions. */
  function Shape(n: nat, h: nat, p: nat): (t: Tree)
    requires p < Width(n, h)
    ensures Fits(t, n)
    decreases h
  {
    if h == 0 then Leaf(p)
    else if 2 * p + 1 < Width(n, h - 1) then Fork(Shape(n, h - 1, 2 * p), Shape(n, h - 1, 2 * p + 1))
    else Only(Shape(n, h - 1, 2 * p))
  }

  lemma DivBound(a: nat, b: nat, p: nat)
    requires b > 0
    ensures p < (a + b - 1) / b <==> p * b < a
  {
    var q := (a + b - 1) / b;
    var r := (a + b - 1) % b;
    assert a + b - 1 == q * b + r;
    if p < q {
      assert p * b <= (q - 1) * b;
    } else {
      assert p * b >= q * b;
    }
  }

  /** Node p exists at height h exactly when it has a leaf below it. */
  lemma {:induction false} WidthFact(n: nat, h: nat, p: nat)
    ensures p < Width(n, h) <==> p * Pow2(h) < n
  {
    if h > 0 {
      WidthFact(n, h - 1, 2 * p);
      var half := Pow2(h - 1);
      assert Pow2(h) == 2 * half;
      hide Pow2;
      Doubled(p, half);
    }
  }

  lemma Doubled(p: nat, half: nat)
    ensures p * (2 * half) == (2 * p) * half
  {
  }

  lemma {:induction false} WidthClosedForm(n: nat, h: nat)
    ensures CalcTreeWidth(n, h) == Width(n, h)
  {
    hide Width;
    var w, c := Width(n, h), CalcTreeWidth(n, h);
    WidthFact(n, h, w);
    WidthFact(n, h, c);
    DivBound(n, Pow2(h), w);
    DivBound(n, Pow2(h), c);
  }

  /** Where the children of a node begin and end. */
  lemma ChildFacts(n: nat, h: nat, p: nat)
    requires h > 0
    ensures (2 * p) * Pow2(h - 1) == p * Pow2(h)
    ensures (2 * p + 2) * Pow2(h - 1) == (p + 1) * Pow2(h)
    ensures (2 * p + 1) * Pow2(h - 1) <= (p + 1) * Pow2(h)
    ensures 2 * p + 1 < Width(n, h - 1) <==> (2 * p + 1) * Pow2(h - 1) < n
  {
    hide Width;
    WidthFact(n, h - 1, 2 * p + 1);
  }

  /** The leaves below node p at height h are those with p * 2^h <= i < (p+1) * 2^h and i < n. */
  lemma {:induction false} ShapeOrdered(n: nat, h: nat, p: nat)
    requires p < Width(n, h)
    ensures Ordered(Shape(n, h, p), h)
    ensures Start(Shape(n, h, p)) == p * Pow2(h)
    ensures End(Shape(n, h, p)) == Min((p + 1) * Pow2(h), n)
    decreases h
  {
    hide Pow2;
    if h == 0 {
      assert Pow2(0) == 1 by { Pow2Zero(); }
    } else {
      ChildFacts(n, h, p);
      ShapeOrdered(n, h - 1, 2 * p);
      if 2 * p + 1 < Width(n, h - 1) {
        ShapeOrdered(n, h - 1, 2 * p + 1);
      }
    }
  }

  predicate IsHeight(n: nat, h: nat) {
    Width(n, h) == 1 && forall k: nat | k < h :: Width(n, k) > 1
  }

  /** The whole block's tree. */
  function Root(n: nat, h: nat): (t: Tree)
    requires IsHeight(n, h)
    ensures Fits(t, n)
  {
    Shape(n, h, 0)
  }

  lemma {:induction false} RootOrdered(n: nat, h: nat)
    requires IsHeight(n, h)
    ensures Ordered(Root(n, h), h) && Start(Root(n, h)) == 0 && End(Root(n, h)) == n
  {
    ShapeOrdered(n, h, 0);
    WidthFact(n, h, 1);
  }

  // ------------------------------------------------------------ full hashes

  function CalcHash(H: PairHash, txids: seq<Digest>, t: Tree): Digest
    requires Fits(t, |txids|)
  {
    match t
    case Leaf(i) => txids[i]
    case Only(c) => var left := CalcHash(H, txids, c); H(left, left)
    case Fork(l, r) => H(CalcHash(H, txids, l), CalcHash(H, txids, r))
  }

  predicate Apart(H: PairHash, a: Digest, b: Digest, c: Digest, d: Digest) {
    H(a, b) == H(c, d) ==> a == c && b == d
  }

  ghost predicate Injective(H: PairHash) {
    forall a, b, c, d :: Apart(H, a, b, c, d)
  }

  type Pair = (Digest, Digest)

  /** No pair of one set collides with a pair of the other. */
  ghost predicate NoClash(H: PairHash, s: set<Pair>, t: set<Pair>) {
    forall x, y | x in s && y in t :: Apart(H, x.0, x.1, y.0, y.1)
  }

  lemma InjectiveNoClash(H: PairHash, s: set<Pair>, t: set<Pair>)
    requires Injective(H)
    ensures NoClash(H, s, t)
  {
  }

  /** Equal parents have equal children, unless they collide. */
  lemma SameChildren(H: PairHash, s: set<Pair>, t: set<Pair>, a: Digest, b: Digest, c: Digest, d: Digest)
    requires NoClash(H, s, t) && (a, b) in s && (c, d) in t && H(a, b) == H(c, d)
    ensures a == c && b == d
  {
    assert Apart(H, (a, b).0, (a, b).1, (c, d).0, (c, d).1);
  }

  predicate Distinct(txids: seq<Digest>) {
    forall i, j | 0 <= i < j < |txids| :: txids[i] != txids[j]
  }

  function LeftOf(t: Tree): Tree
    requires !t.Leaf?
  {
    if t.Only? then t.child else t.left
  }

  /** The left child again where there is no right child. */
  function RightOf(t: Tree): Tree
    requires !t.Leaf?
  {
    if t.Only? then t.child else t.right
  }

  lemma FitsBounds(t: Tree, n: nat)
    requires Fits(t, n)
    ensures Start(t) < n && End(t) <= n
  {
  }

  /** The pairs that are hashed for the full hash of a node. */
  function TreePairs(H: PairHash, txids: seq<Digest>, t: Tree): set<Pair>
    requires Fits(t, |txids|)
  {
    if t.Leaf? then {}
    else
      {(CalcHash(H, txids, LeftOf(t)), CalcHash(H, txids, RightOf(t)))}
      + TreePairs(H, txids, LeftOf(t)) + TreePairs(H, txids, RightOf(t))
  }

  /** No two pairs hashed for the full tree collide. */
  ghost predicate CollisionFree(H: PairHash, txids: seq<Digest>) {
    forall h: nat | IsHeight(|txids|, h) ::
      var pairs := TreePairs(H, txids, Root(|txids|, h)); NoClash(H, pairs, pairs)
  }

  /** Equal hashes at one height have equal first leaves below them, unless two pairs collide. */
  lemma {:induction false} HashFixesFirstLeaf(
      H: PairHash, txids: seq<Digest>, s: Tree, t: Tree, h: nat, pairs: set<Pair>)
    requires Ordered(s, h) && Ordered(t, h) && Fits(s, |txids|) && Fits(t, |txids|)
    requires NoClash(H, pairs, pairs) && TreePairs(H, txids, s) <= pairs && TreePairs(H, txids, t) <= pairs
    requires CalcHash(H, txids, s) == CalcHash(H, txids, t)
    ensures Start(s) < |txids| && Start(t) < |txids| && txids[Start(s)] == txids[Start(t)]
  {
    hide NoClash;
    FitsBounds(s, |txids|);
    FitsBounds(t, |txids|);
    if h > 0 {
      SameChildren(H, pairs, pairs, CalcHash(H, txids, LeftOf(s)), CalcHash(H, txids, RightOf(s)),
                   CalcHash(H, txids, LeftOf(t)), CalcHash(H, txids, RightOf(t)));
      HashFixesFirstLeaf(H, txids, LeftOf(s), LeftOf(t), h - 1, pairs);
    }
  }

  lemma SiblingsDiffer(H: PairHash, txids: seq<Digest>, t: Tree, h: nat, pairs: set<Pair>)
    requires Distinct(txids) && t.Fork? && Ordered(t, h) && Fits(t, |txids|)
    requires NoClash(H, pairs, pairs) && TreePairs(H, txids, t) <= pairs
    ensures CalcHash(H, txids, t.left) != CalcHash(H, txids, t.right)
  {
    hide NoClash;
    FitsBounds(t.left, |txids|);
    FitsBounds(t.right, |txids|);
    if CalcHash(H, txids, t.left) == CalcHash(H, txids, t.right) {
      HashFixesFirstLeaf(H, txids, t.left, t.right, h - 1, pairs);
    }
  }

  // --------------------------------------------------------------- building

  /** A node is flagged when a marked leaf is below it. */
  predicate Flag(mask: seq<bool>, t: Tree)
    requires Fits(t, |mask|)
  {
    match t
    case Leaf(i) => mask[i]
    case Only(c) => Flag(mask, c)
    case Fork(l, r) => Flag(mask, l) || Flag(mask, r)
  }

  predicate AnyMatch(mask: seq<bool>, lo: nat, hi: nat)
    requires hi <= |mask|
  {
    exists i | lo <= i < hi :: mask[i]
  }

  /** The flag is what the program's loop over the leaves computes. */
  lemma {:induction false} FlagIsAnyMatch(mask: seq<bool>, t: Tree, h: nat)
    requires Ordered(t, h) && Fits(t, |mask|)
    ensures End(t) <= |mask|
    ensures Flag(mask, t) <==> AnyMatch(mask, Start(t), End(t))
  {
    FitsBounds(t, |mask|);
    match t
    case Leaf(i) =>
    case Only(c) => FlagIsAnyMatch(mask, c, h - 1);
    case Fork(l, r) =>
      FlagIsAnyMatch(mask, l, h - 1);
      FlagIsAnyMatch(mask, r, h - 1);
  }

  /** Where the builder stores a hash and stops. */
  predicate Stops(mask: seq<bool>, t: Tree)
    requires Fits(t, |mask|)
  {
    t.Leaf? || !Flag(mask, t)
  }

  function BuildBits(mask: seq<bool>, t: Tree): seq<bool>
    requires Fits(t, |mask|)
  {
    [Flag(mask, t)]
    + if Stops(mask, t) then []
      else BuildBits(mask, LeftOf(t)) + if t.Fork? then BuildBits(mask, t.right) else []
  }

  function BuildHashes(H: PairHash, txids: seq<Digest>, mask: seq<bool>, t: Tree): seq<Digest>
    requires |txids| == |mask| && Fits(t, |mask|)
  {
    if Stops(mask, t) then [CalcHash(H, txids, t)]
    else BuildHashes(H, txids, mask, LeftOf(t))
         + if t.Fork? then BuildHashes(H, txids, mask, t.right) else []
  }

  // ------------------------------------------------------------- extracting

  datatype Match = Match(txid: Digest, index: nat)

  /** What TraverseAndExtract carries along. */
  datatype Cursor = Cursor(nBits: nat, nHash: nat, matches: seq<Match>, bad: bool)

  /** The untrusted content of a partial tree. */
  datatype Proof = Proof(n: nat, bits: seq<bool>, hashes: seq<Digest>)

  function Extract(H: PairHash, f: Proof, t: Tree, c: Cursor): (Digest, Cursor) {
    if c.nBits >= |f.bits| then (NULL, c.(bad := true))
    else
      var flag := f.bits[c.nBits];
      var c1 := c.(nBits := c.nBits + 1);
      if t.Leaf? || !flag then
        if c1.nHash >= |f.hashes| then (NULL, c1.(bad := true))
        else
          var hash := f.hashes[c1.nHash];
          var c2 := c1.(nHash := c1.nHash + 1);
          (hash, if t.Leaf? && flag then c2.(matches := c2.matches + [Match(hash, t.index)]) else c2)
      else
        var (left, c2) := Extract(H, f, LeftOf(t), c1);
        if t.Fork? then
          var (right, c3) := Extract(H, f, t.right, c2);
          (H(left, right), if right == left then c3.(bad := true) else c3)
        else
          (H(left, left), c2)
  }

  /** The pairs that an extraction hashes. */
  function UsedPairs(H: PairHash, f: Proof, t: Tree, c: Cursor): set<Pair> {
    if c.nBits >= |f.bits| || t.Leaf? || !f.bits[c.nBits] then {}
    else
      var c1 := c.(nBits := c.nBits + 1);
      var (left, c2) := Extract(H, f, LeftOf(t), c1);
      var right := if t.Fork? then Extract(H, f, t.right, c2).0 else left;
      {(left, right)} + UsedPairs(H, f, LeftOf(t), c1) + if t.Fork? then UsedPairs(H, f, t.right, c2) else {}
  }

  const MAX_TRANSACTIONS: nat := 1000000 / 60

  predicate Plausible(f: Proof) {
    0 < f.n <= MAX_TRANSACTIONS && |f.hashes| <= f.n && |f.hashes| <= |f.bits|
  }

  predicate AllUsed(f: Proof, c: Cursor) {
    !c.bad && (c.nBits + 7) / 8 == (|f.bits| + 7) / 8 && c.nHash == |f.hashes|
  }

  /** ExtractMatches: the root, or NULL, and the matches found on the way. */
  function ExtractMatches(H: PairHash, f: Proof, fBad: bool, h: nat): (Digest, seq<Match>)
    requires Plausible(f) ==> IsHeight(f.n, h)
  {
    if !Plausible(f) then (NULL, [])
    else
      var (root, c) := Extract(H, f, Root(f.n, h), Cursor(0, 0, [], fBad));
      (if AllUsed(f, c) then root else NULL, c.matches)
  }

  // ------------------------------------------------------------- soundness

  ghost predicate Genuine(txids: seq<Digest>, ms: seq<Match>) {
    forall i | 0 <= i < |ms| :: ms[i].index < |txids| && txids[ms[i].index] == ms[i].txid
  }

  /** A traversal only ever advances and appends, and never forgives. */
  lemma {:induction false} ExtractGrows(H: PairHash, f: Proof, t: Tree, c: Cursor)
    ensures var d := Extract(H, f, t, c).1;
      c.matches <= d.matches && c.nBits <= d.nBits && c.nHash <= d.nHash && (c.bad ==> d.bad)
  {
    if c.nBits < |f.bits| && !t.Leaf? && f.bits[c.nBits] {
      var c1 := c.(nBits := c.nBits + 1);
      ExtractGrows(H, f, LeftOf(t), c1);
      if t.Fork? {
        ExtractGrows(H, f, t.right, Extract(H, f, LeftOf(t), c1).1);
      }
    }
  }

  /** Unless a pair that the extraction hashes collides with one of the full tree. */
  lemma {:induction false} ExtractSound(H: PairHash, f: Proof, txids: seq<Digest>, t: Tree, c: Cursor,
                                        used: set<Pair>, pairs: set<Pair>)
    requires Fits(t, |txids|) && Genuine(txids, c.matches)
    requires NoClash(H, used, pairs) && UsedPairs(H, f, t, c) <= used && TreePairs(H, txids, t) <= pairs
    requires !Extract(H, f, t, c).1.bad && Extract(H, f, t, c).0 == CalcHash(H, txids, t)
    ensures Genuine(txids, Extract(H, f, t, c).1.matches)
  {
    hide NoClash, Genuine;
    if !t.Leaf? && f.bits[c.nBits] {
      var c1 := c.(nBits := c.nBits + 1);
      var (left, c2) := Extract(H, f, LeftOf(t), c1);
      var right := if t.Fork? then Extract(H, f, t.right, c2).0 else left;
      assert (left, right) in UsedPairs(H, f, t, c);
      SameChildren(H, used, pairs, left, right, CalcHash(H, txids, LeftOf(t)), CalcHash(H, txids, RightOf(t)));
      ExtractGrows(H, f, RightOf(t), c2);
      ExtractSound(H, f, txids, LeftOf(t), c1, used, pairs);
      if t.Fork? {
        ExtractSound(H, f, txids, t.right, c2, used, pairs);
      }
    } else {
      OneMoreGenuine(H, f, txids, t, c);
    }
  }

  lemma OneMoreGenuine(H: PairHash, f: Proof, txids: seq<Digest>, t: Tree, c: Cursor)
    requires Fits(t, |txids|) && Genuine(txids, c.matches) && c.nBits < |f.bits| && (t.Leaf? || !f.bits[c.nBits])
    requires !Extract(H, f, t, c).1.bad && Extract(H, f, t, c).0 == CalcHash(H, txids, t)
    ensures Genuine(txids, Extract(H, f, t, c).1.matches)
  {
  }

  /**
   * Whatever bits and hashes an adversary sends: if the extraction ends in the
   * true, non-null root of a list of that length, every extracted pair is in
   * the list at its index, unless a pair hashed on the way collides with one
   * of the full tree.
   */
  lemma ExtractMatchesSound(H: PairHash, f: Proof, fBad: bool, h: nat, txids: seq<Digest>)
    requires |txids| == f.n && IsHeight(f.n, h)
    requires NoClash(H, UsedPairs(H, f, Root(f.n, h), Cursor(0, 0, [], fBad)), TreePairs(H, txids, Root(f.n, h)))
    requires CalcHash(H, txids, Root(f.n, h)) != NULL
    requires ExtractMatches(H, f, fBad, h).0 == CalcHash(H, txids, Root(f.n, h))
    ensures Genuine(txids, ExtractMatches(H, f, fBad, h).1)
  {
    ExtractSound(H, f, txids, Root(f.n, h), Cursor(0, 0, [], fBad),
                 UsedPairs(H, f, Root(f.n, h), Cursor(0, 0, [], fBad)), TreePairs(H, txids, Root(f.n, h)));
  }

  // --------------------------------------------------------- damaged hashes

  /** Two proofs of one shape: the same bits and as many hashes. */
  ghost predicate SameShape(f: Proof, g: Proof) {
    f.n == g.n && f.bits == g.bits && |f.hashes| == |g.hashes|
  }

  ghost predicate SamePlace(c: Cursor, d: Cursor) {
    c.nBits == d.nBits && c.nHash == d.nHash
  }

  /** Where a traversal goes depends on the bits and on the number of hashes alone. */
  lemma {:induction false} SamePath(H: PairHash, f: Proof, g: Proof, t: Tree, c: Cursor, d: Cursor)
    requires SameShape(f, g) && SamePlace(c, d) && c.nHash <= |f.hashes|
    ensures SamePlace(Extract(H, f, t, c).1, Extract(H, g, t, d).1)
    ensures Extract(H, f, t, c).1.nHash <= |f.hashes|
  {
    if c.nBits < |f.bits| && !t.Leaf? && f.bits[c.nBits] {
      var c1, d1 := c.(nBits := c.nBits + 1), d.(nBits := d.nBits + 1);
      SamePath(H, f, g, LeftOf(t), c1, d1);
      if t.Fork? {
        SamePath(H, f, g, t.right, Extract(H, f, LeftOf(t), c1).1, Extract(H, g, LeftOf(t), d1).1);
      }
    }
  }

  ghost predicate AgreeOn(f: Proof, g: Proof, lo: nat, hi: nat) {
    SameShape(f, g) && forall i | lo <= i < hi && i < |f.hashes| :: f.hashes[i] == g.hashes[i]
  }

  /** Two traversals of one shape that end in one hash used the same hashes, unless two pairs collide. */
  lemma {:induction false} SameHashSameParts(H: PairHash, f: Proof, g: Proof, t: Tree, c: Cursor, d: Cursor,
                                             used: set<Pair>, other: set<Pair>)
    requires SameShape(f, g) && SamePlace(c, d) && c.nHash <= |f.hashes|
    requires NoClash(H, used, other) && UsedPairs(H, f, t, c) <= used && UsedPairs(H, g, t, d) <= other
    requires !Extract(H, f, t, c).1.bad && !Extract(H, g, t, d).1.bad
    requires Extract(H, f, t, c).0 == Extract(H, g, t, d).0
    ensures AgreeOn(f, g, c.nHash, Extract(H, f, t, c).1.nHash)
  {
    hide NoClash;
    if !t.Leaf? && f.bits[c.nBits] {
      var c1, d1 := c.(nBits := c.nBits + 1), d.(nBits := d.nBits + 1);
      var (left, c2) := Extract(H, f, LeftOf(t), c1);
      var (left', d2) := Extract(H, g, LeftOf(t), d1);
      SamePath(H, f, g, LeftOf(t), c1, d1);
      ExtractGrows(H, f, RightOf(t), c2);
      ExtractGrows(H, g, RightOf(t), d2);
      var right := if t.Fork? then Extract(H, f, t.right, c2).0 else left;
      var right' := if t.Fork? then Extract(H, g, t.right, d2).0 else left';
      assert (left, right) in UsedPairs(H, f, t, c) && (left', right') in UsedPairs(H, g, t, d);
      SameChildren(H, used, other, left, right, left', right');
      SameHashSameParts(H, f, g, LeftOf(t), c1, d1, used, other);
      if t.Fork? {
        SameHashSameParts(H, f, g, t.right, c2, d2, used, other);
      }
    }
  }

  /** The pairs that a whole extraction hashes. */
  ghost function AllUsedPairs(H: PairHash, f: Proof, fBad: bool, h: nat): set<Pair>
    requires IsHeight(f.n, h)
  {
    UsedPairs(H, f, Root(f.n, h), Cursor(0, 0, [], fBad))
  }

  /** Of all proofs of one shape only one gives a given root, unless two pairs collide. */
  lemma RootFixesHashes(H: PairHash, f: Proof, g: Proof, fBad: bool, h: nat)
    requires SameShape(f, g) && IsHeight(f.n, h)
    requires NoClash(H, AllUsedPairs(H, f, fBad, h), AllUsedPairs(H, g, fBad, h))
    requires ExtractMatches(H, f, fBad, h).0 == ExtractMatches(H, g, fBad, h).0 != NULL
    ensures f.hashes == g.hashes
  {
    hide Extract, UsedPairs, NoClash, Root, IsHeight;
    var c := Cursor(0, 0, [], fBad);
    SameHashSameParts(H, f, g, Root(f.n, h), c, c, AllUsedPairs(H, f, fBad, h), AllUsedPairs(H, g, fBad, h));
    assert forall i | 0 <= i < |f.hashes| :: f.hashes[i] == g.hashes[i];
  }

  /** Changing any of the hashes of a partial tree changes the root it gives, unless two pairs collide. */
  lemma DamageShows(H: PairHash, f: Proof, g: Proof, fBad: bool, h: nat)
    requires SameShape(f, g) && f.hashes != g.hashes && IsHeight(f.n, h)
    requires NoClash(H, AllUsedPairs(H, f, fBad, h), AllUsedPairs(H, g, fBad, h))
    requires ExtractMatches(H, f, fBad, h).0 != NULL
    ensures ExtractMatches(H, g, fBad, h).0 != ExtractMatches(H, f, fBad, h).0
  {
    hide Extract, UsedPairs, NoClash, Root, IsHeight, ExtractMatches;
    if ExtractMatches(H, g, fBad, h).0 == ExtractMatches(H, f, fBad, h).0 {
      RootFixesHashes(H, f, g, fBad, h);
    }
  }

  /** A proof that seems to prove, for the list's own root, a pair that is not in the list. */
  ghost predicate Misleads(H: PairHash, f: Proof, fBad: bool, h: nat, txids: seq<Digest>)
    requires IsHeight(|txids|, h)
  {
    && f.n == |txids| && ExtractMatches(H, f, fBad, h).0 == CalcHash(H, txids, Root(f.n, h))
    && !Genuine(txids, ExtractMatches(H, f, fBad, h).1)
  }

  function Nodes(t: Tree): nat {
    match t
    case Leaf(_) => 1
    case Only(c) => 1 + Nodes(c)
    case Fork(l, r) => 1 + Nodes(l) + Nodes(r)
  }

  lemma {:induction false} BitsUsed(H: PairHash, f: Proof, t: Tree, c: Cursor)
    ensures Extract(H, f, t, c).1.nBits <= c.nBits + Nodes(t)
  {
    if c.nBits < |f.bits| && !t.Leaf? && f.bits[c.nBits] {
      var c1 := c.(nBits := c.nBits + 1);
      BitsUsed(H, f, LeftOf(t), c1);
      if t.Fork? {
        BitsUsed(H, f, t.right, Extract(H, f, LeftOf(t), c1).1);
      }
    }
  }

  /** Where all bits are set, the next hash is taken for the first leaf. */
  lemma {:induction false} FirstLeafTaken(H: PairHash, f: Proof, t: Tree, c: Cursor)
    requires c.nBits + Nodes(t) <= |f.bits| && c.nHash < |f.hashes| && forall i | 0 <= i < |f.bits| :: f.bits[i]
    ensures c.matches + [Match(f.hashes[c.nHash], Start(t))] <= Extract(H, f, t, c).1.matches
  {
    if !t.Leaf? {
      var c1 := c.(nBits := c.nBits + 1);
      FirstLeafTaken(H, f, LeftOf(t), c1);
      if t.Fork? {
        ExtractGrows(H, f, t.right, Extract(H, f, LeftOf(t), c1).1);
      }
    }
  }

  /** For a list with a null root: one wrong hash, and more set bits than the tree has nodes. */
  lemma NullRootMisleads(H: PairHash, h: nat, txids: seq<Digest>) returns (f: Proof)
    requires |txids| <= MAX_TRANSACTIONS && IsHeight(|txids|, h) && CalcHash(H, txids, Root(|txids|, h)) == NULL
    ensures Misleads(H, f, false, h, txids)
  {
    var n := |txids|;
    var t := Root(n, h);
    RootOrdered(n, h);
    FitsBounds(t, n);
    f := Proof(n, seq(Nodes(t) + 8, _ => true), [txids[0] + 1]);
    var c := Cursor(0, 0, [], false);
    BitsUsed(H, f, t, c);
    FirstLeafTaken(H, f, t, c);
    hide Extract, CalcHash, Nodes, Root, IsHeight;
    var ms := Extract(H, f, t, c).1.matches;
    assert ms[0] == Match(txids[0] + 1, 0);
    assert !Genuine(txids, ms);
  }

  /** The root is proof of the pairs exactly for the lists whose root is not the null hash that failure returns. */
  lemma SoundExactly(H: PairHash, h: nat, txids: seq<Digest>)
    requires Injective(H) && |txids| <= MAX_TRANSACTIONS && IsHeight(|txids|, h)
    ensures (forall f: Proof, fBad: bool :: !Misleads(H, f, fBad, h, txids)) <==>
            CalcHash(H, txids, Root(|txids|, h)) != NULL
  {
    if CalcHash(H, txids, Root(|txids|, h)) == NULL {
      var f := NullRootMisleads(H, h, txids);
    } else {
      forall f: Proof, fBad: bool ensures !Misleads(H, f, fBad, h, txids) {
        if f.n == |txids| && ExtractMatches(H, f, fBad, h).0 == CalcHash(H, txids, Root(f.n, h)) {
          InjectiveNoClash(H, UsedPairs(H, f, Root(f.n, h), Cursor(0, 0, [], fBad)),
                           TreePairs(H, txids, Root(f.n, h)));
          ExtractMatchesSound(H, f, fBad, h, txids);
        }
      }
    }
  }

  // ------------------------------------------------------------- round trip

  /** The matched transactions below a node, in order. */
  function Below(txids: seq<Digest>, mask: seq<bool>, t: Tree): seq<Match>
    requires |txids| == |mask| && Fits(t, |mask|)
  {
    match t
    case Leaf(i) => if mask[i] then [Match(txids[i], i)] else []
    case Only(c) => Below(txids, mask, c)
    case Fork(l, r) => Below(txids, mask, l) + Below(txids, mask, r)
  }

  lemma {:induction false} BelowUnflagged(txids: seq<Digest>, mask: seq<bool>, t: Tree)
    requires |txids| == |mask| && Fits(t, |mask|)
    ensures Flag(mask, t) <==> Below(txids, mask, t) != []
  {
    match t
    case Leaf(_) =>
    case Only(c) => BelowUnflagged(txids, mask, c);
    case Fork(l, r) =>
      BelowUnflagged(txids, mask, l);
      BelowUnflagged(txids, mask, r);
  }

  /** The matches are exactly the marked positions of the leaves, each once, in order. */
  ghost predicate Exactly(ms: seq<Match>, txids: seq<Digest>, mask: seq<bool>, lo: nat, hi: nat)
    requires |txids| == |mask| && hi <= |mask|
  {
    && (forall i | 0 <= i < |ms| ::
          lo <= ms[i].index < hi && mask[ms[i].index] && ms[i].txid == txids[ms[i].index])
    && (forall k | lo <= k < hi && mask[k] :: Match(txids[k], k) in ms)
    && (forall i, j | 0 <= i < j < |ms| :: ms[i].index < ms[j].index)
  }

  lemma {:induction false} BelowExact(txids: seq<Digest>, mask: seq<bool>, t: Tree, h: nat)
    requires |txids| == |mask| && Fits(t, |mask|) && Ordered(t, h)
    ensures End(t) <= |mask|
    ensures Exactly(Below(txids, mask, t), txids, mask, Start(t), End(t))
  {
    FitsBounds(t, |mask|);
    match t
    case Leaf(_) =>
    case Only(c) => BelowExact(txids, mask, c, h - 1);
    case Fork(l, r) =>
      BelowExact(txids, mask, l, h - 1);
      BelowExact(txids, mask, r, h - 1);
  }

  /** part stands in whole from position k on */
  predicate At<T(==)>(part: seq<T>, whole: seq<T>, k: nat) {
    k + |part| <= |whole| && whole[k..k + |part|] == part
  }

  lemma AtFirst<T>(part: seq<T>, whole: seq<T>, k: nat)
    requires At(part, whole, k) && part != []
    ensures k < |whole| && whole[k] == part[0]
  {
    assert whole[k..k + |part|][0] == whole[k];
  }

  lemma AtSplit<T>(a: seq<T>, b: seq<T>, whole: seq<T>, k: nat)
    requires At(a + b, whole, k)
    ensures At(a, whole, k) && At(b, whole, k + |a|)
  {
    assert whole[k..k + |a|] == (a + b)[..|a|];
    assert whole[k + |a|..k + |a| + |b|] == (a + b)[|a|..];
  }

  /** The cursor after a freshly built node was extracted. */
  function After(H: PairHash, txids: seq<Digest>, mask: seq<bool>, t: Tree, c: Cursor): Cursor
    requires |txids| == |mask| && Fits(t, |mask|)
  {
    Cursor(c.nBits + |BuildBits(mask, t)|, c.nHash + |BuildHashes(H, txids, mask, t)|,
           c.matches + Below(txids, mask, t), c.bad)
  }

  /** The bits and hashes of a built node stand in the proof where the cursor is. */
  predicate Ready(H: PairHash, f: Proof, txids: seq<Digest>, mask: seq<bool>, t: Tree, c: Cursor)
    requires |txids| == |mask| && Fits(t, |mask|)
  {
    At(BuildBits(mask, t), f.bits, c.nBits) && At(BuildHashes(H, txids, mask, t), f.hashes, c.nHash)
  }

  /** What a descended node's right child stores, if there is one. */
  function RightBits(mask: seq<bool>, t: Tree): seq<bool>
    requires Fits(t, |mask|)
  {
    if t.Fork? then BuildBits(mask, t.right) else []
  }

  function RightHashes(H: PairHash, txids: seq<Digest>, mask: seq<bool>, t: Tree): seq<Digest>
    requires |txids| == |mask| && Fits(t, |mask|)
  {
    if t.Fork? then BuildHashes(H, txids, mask, t.right) else []
  }

  /** A descended node stores its flag, then its left child, then its right child. */
  lemma {:induction false} BuildDescends(H: PairHash, txids: seq<Digest>, mask: seq<bool>, t: Tree)
    requires |txids| == |mask| && Fits(t, |mask|) && !Stops(mask, t)
    ensures BuildBits(mask, t) == [true] + (BuildBits(mask, LeftOf(t)) + RightBits(mask, t))
    ensures BuildHashes(H, txids, mask, t) ==
            BuildHashes(H, txids, mask, LeftOf(t)) + RightHashes(H, txids, mask, t)
  {
    hide Flag;
  }

  /** The bits of the children follow the node's own bit. */
  lemma BitsSplit(f: Proof, lb: seq<bool>, rb: seq<bool>, k: nat)
    requires At([true] + (lb + rb), f.bits, k)
    ensures k < |f.bits| && f.bits[k] && At(lb, f.bits, k + 1) && At(rb, f.bits, k + 1 + |lb|)
  {
    hide At;
    AtSplit([true], lb + rb, f.bits, k);
    AtSplit(lb, rb, f.bits, k + 1);
    AtFirst([true], f.bits, k);
  }

  lemma {:induction false} ReadyChildren(
      H: PairHash, f: Proof, txids: seq<Digest>, mask: seq<bool>, t: Tree, c: Cursor)
    requires |txids| == |mask| && Fits(t, |mask|) && Ready(H, f, txids, mask, t, c) && !Stops(mask, t)
    ensures c.nBits < |f.bits| && f.bits[c.nBits]
    ensures Ready(H, f, txids, mask, LeftOf(t), c.(nBits := c.nBits + 1))
    ensures t.Fork? ==>
              Ready(H, f, txids, mask, t.right, After(H, txids, mask, t.left, c.(nBits := c.nBits + 1)))
  {
    hide At, Flag, BuildBits, BuildHashes, CalcHash, Below;
    BuildDescends(H, txids, mask, t);
    BitsSplit(f, BuildBits(mask, LeftOf(t)), RightBits(mask, t), c.nBits);
    AtSplit(BuildHashes(H, txids, mask, LeftOf(t)), RightHashes(H, txids, mask, t), f.hashes, c.nHash);
  }

  lemma {:induction false} ExtractStop(H: PairHash, f: Proof, txids: seq<Digest>, mask: seq<bool>, t: Tree, c: Cursor)
    requires |txids| == |mask| && Fits(t, |mask|) && Ready(H, f, txids, mask, t, c) && Stops(mask, t)
    ensures Extract(H, f, t, c) == (CalcHash(H, txids, t), After(H, txids, mask, t, c))
  {
    hide At;
    BelowUnflagged(txids, mask, t);
    AtFirst(BuildBits(mask, t), f.bits, c.nBits);
    AtFirst(BuildHashes(H, txids, mask, t), f.hashes, c.nHash);
    assert c.matches + [] == c.matches;
  }

  lemma {:induction false} AfterDescends(H: PairHash, txids: seq<Digest>, mask: seq<bool>, t: Tree, c: Cursor)
    requires |txids| == |mask| && Fits(t, |mask|) && !Stops(mask, t)
    ensures var c2 := After(H, txids, mask, LeftOf(t), c.(nBits := c.nBits + 1));
      After(H, txids, mask, t, c) == if t.Fork? then After(H, txids, mask, t.right, c2) else c2
  {
    BuildDescends(H, txids, mask, t);
    hide Flag, BuildBits, BuildHashes;
    if t.Fork? {
      assert c.matches + Below(txids, mask, t) ==
             (c.matches + Below(txids, mask, t.left)) + Below(txids, mask, t.right);
    }
  }

  /** A descended node combines what its children give. */
  lemma {:induction false} ExtractDescends(
      H: PairHash, f: Proof, txids: seq<Digest>, mask: seq<bool>, t: Tree, c: Cursor)
    requires |txids| == |mask| && Fits(t, |mask|) && !Stops(mask, t)
    requires c.nBits < |f.bits| && f.bits[c.nBits]
    requires var c1 := c.(nBits := c.nBits + 1);
      && Extract(H, f, LeftOf(t), c1) == (CalcHash(H, txids, LeftOf(t)), After(H, txids, mask, LeftOf(t), c1))
      && (t.Fork? ==>
            var c2 := After(H, txids, mask, t.left, c1);
            && Extract(H, f, t.right, c2) == (CalcHash(H, txids, t.right), After(H, txids, mask, t.right, c2))
            && CalcHash(H, txids, t.left) != CalcHash(H, txids, t.right))
    ensures Extract(H, f, t, c) == (CalcHash(H, txids, t), After(H, txids, mask, t, c))
  {
    hide Flag, BuildBits, BuildHashes, After, Below, Fits;
    AfterDescends(H, txids, mask, t, c);
  }

  /** Extracting what was built consumes it and gives the full tree's hash and the matches. */
  lemma {:induction false} ExtractBuilt(
      H: PairHash, f: Proof, txids: seq<Digest>, mask: seq<bool>, t: Tree, h: nat, c: Cursor, pairs: set<Pair>)
    requires Distinct(txids) && Fits(t, |txids|)
    requires NoClash(H, pairs, pairs) && TreePairs(H, txids, t) <= pairs
    requires |txids| == |mask| && Ordered(t, h) && Fits(t, |mask|) && Ready(H, f, txids, mask, t, c)
    ensures Extract(H, f, t, c) == (CalcHash(H, txids, t), After(H, txids, mask, t, c))
  {
    hide NoClash, Distinct, Ready, Flag, BuildBits, BuildHashes, Extract, CalcHash, Below, After;
    if Stops(mask, t) {
      ExtractStop(H, f, txids, mask, t, c);
    } else {
      ReadyChildren(H, f, txids, mask, t, c);
      var c1 := c.(nBits := c.nBits + 1);
      ExtractBuilt(H, f, txids, mask, LeftOf(t), h - 1, c1, pairs);
      if t.Fork? {
        ExtractBuilt(H, f, txids, mask, t.right, h - 1, After(H, txids, mask, t.left, c1), pairs);
        SiblingsDiffer(H, txids, t, h, pairs);
      }
      ExtractDescends(H, f, txids, mask, t, c);
    }
  }

  // ------------------------------------------------------------------- size

  /** The descended nodes that have only one child. */
  function Singles(mask: seq<bool>, t: Tree): nat
    requires Fits(t, |mask|)
  {
    if Stops(mask, t) then 0
    else if t.Only? then 1 + Singles(mask, t.child)
    else Singles(mask, t.left) + Singles(mask, t.right)
  }

  lemma StepBound(m: nat, a: nat, b: nat, h: nat, x: nat, y: nat)
    requires m == a + b && m >= 1 && h >= 1
    requires x <= 1 + a * (h - 1) && y <= 1 + b * (h - 1)
    ensures x + y <= 1 + m * h
  {
    assert m * h == a * (h - 1) + b * (h - 1) + m;
  }

  /** Stored hashes: at most one for each leaf, and at most one for each step down to a match. */
  lemma {:induction false} HashCount(H: PairHash, txids: seq<Digest>, mask: seq<bool>, t: Tree, h: nat)
    requires |txids| == |mask| && Fits(t, |mask|) && Ordered(t, h)
    ensures 1 <= |BuildHashes(H, txids, mask, t)| <= End(t) - Start(t)
    ensures |BuildHashes(H, txids, mask, t)| <= 1 + |Below(txids, mask, t)| * h
  {
    BelowUnflagged(txids, mask, t);
    hide Flag, CalcHash;
    if !Stops(mask, t) {
      var x, a := |BuildHashes(H, txids, mask, LeftOf(t))|, |Below(txids, mask, LeftOf(t))|;
      HashCount(H, txids, mask, LeftOf(t), h - 1);
      if t.Fork? {
        HashCount(H, txids, mask, t.right, h - 1);
        StepBound(|Below(txids, mask, t)|, a, |Below(txids, mask, t.right)|, h,
                  x, |BuildHashes(H, txids, mask, t.right)|);
      } else {
        StepBound(a, a, 0, h, x, 0);
      }
    }
  }

  /** The number of flag bits is 2N - 1, plus one for every descended single-child node. */
  lemma {:induction false} BitCount(H: PairHash, txids: seq<Digest>, mask: seq<bool>, t: Tree)
    requires |txids| == |mask| && Fits(t, |mask|)
    ensures |BuildBits(mask, t)| == 2 * |BuildHashes(H, txids, mask, t)| - 1 + Singles(mask, t)
    ensures |BuildHashes(H, txids, mask, t)| >= 1
  {
    if !Stops(mask, t) {
      BitCount(H, txids, mask, LeftOf(t));
      if t.Fork? {
        BitCount(H, txids, mask, t.right);
      }
    }
  }

  /** The documented bound of 2N - 1 bits holds exactly where no single-child node is descended. */
  lemma BitBoundExact(H: PairHash, txids: seq<Digest>, mask: seq<bool>, t: Tree)
    requires |txids| == |mask| && Fits(t, |mask|)
    ensures |BuildBits(mask, t)| <= 2 * |BuildHashes(H, txids, mask, t)| - 1 <==> Singles(mask, t) == 0
  {
    BitCount(H, txids, mask, t);
  }

  /** Three transactions, the last one matched: 2 hashes take 4 bits, more than 2N - 1. */
  lemma BitBoundFails(H: PairHash)
    ensures IsHeight(3, 2)
    ensures |BuildHashes(H, [5, 6, 7], [false, false, true], Root(3, 2))| == 2
    ensures |BuildBits([false, false, true], Root(3, 2))| == 4
  {
    assert Width(3, 0) == 3 && Width(3, 1) == 2 && Width(3, 2) == 1;
    var t := Fork(Fork(Leaf(0), Leaf(1)), Only(Leaf(2)));
    assert Root(3, 2) == t;
    var mask := [false, false, true];
    assert Flag(mask, t.right.child) && Flag(mask, t.right) && Flag(mask, t);
    assert !Flag(mask, t.left);
    assert BuildBits(mask, t.right.child) == [true];
    assert BuildBits(mask, t.right) == [true, true];
    assert BuildBits(mask, t.left) == [false];
    assert |BuildHashes(H, [5, 6, 7], mask, t.right)| == 1;
  }

  /** The length of a length written by WriteCompactSize. */
  function CompactSizeLength(n: nat): nat {
    if n < 253 then 1 else if n <= 0xFFFF then 3 else if n <= 0xFFFF_FFFF then 5 else 9
  }

  /** The bytes of a serialized tree: the transaction count, the hashes and the packed bits. */
  function SerializedSize(hashes: nat, bits: nat): nat {
    4 + CompactSizeLength(hashes) + 32 * hashes + CompactSizeLength((bits + 7) / 8) + (bits + 7) / 8
  }

  /** 10 + ceil(32.25 * N) */
  function DocumentedSize(hashes: nat): nat {
    10 + (129 * hashes + 3) / 4
  }

  /** A node with all its leaves has no single-child node below it. */
  lemma {:induction false} FullSingles(mask: seq<bool>, n: nat, h: nat, p: nat)
    requires |mask| == n && (p + 1) * Pow2(h) <= n
    ensures p < Width(n, h) && Singles(mask, Shape(n, h, p)) == 0
    decreases h
  {
    hide Width, Flag;
    WidthFact(n, h, p);
    assert (p + 1) * Pow2(h) == p * Pow2(h) + Pow2(h);
    if h > 0 {
      ChildFacts(n, h, p);
      assert (2 * p + 2) * Pow2(h - 1) == (2 * p + 1) * Pow2(h - 1) + Pow2(h - 1);
      hide Pow2;
      FullSingles(mask, n, h - 1, 2 * p);
      FullSingles(mask, n, h - 1, 2 * p + 1);
    }
  }

  /** Only the last node of each height can have a single child. */
  lemma {:induction false} SinglesBound(mask: seq<bool>, n: nat, h: nat, p: nat)
    requires |mask| == n && p < Width(n, h)
    ensures Singles(mask, Shape(n, h, p)) <= h
    decreases h
  {
    hide Flag;
    if h > 0 {
      ChildFacts(n, h, p);
      hide Pow2, Width;
      if 2 * p + 1 < Width(n, h - 1) {
        FullSingles(mask, n, h - 1, 2 * p);
        SinglesBound(mask, n, h - 1, 2 * p + 1);
      } else {
        SinglesBound(mask, n, h - 1, 2 * p);
      }
    }
  }

  /** Where the leaves of the last node at a height begin. */
  function LastStart(n: nat, h: nat): nat
    requires n > 0
  {
    WidthPositive(n, h);
    MulBasics(Width(n, h) - 1, Pow2(h));
    Mul(Width(n, h) - 1, Pow2(h))
  }

  lemma {:induction false} WidthPositive(n: nat, h: nat)
    requires n > 0
    ensures Width(n, h) > 0
  {
    if h > 0 {
      WidthPositive(n, h - 1);
    }
  }

  /** The width at height k is odd, and a marked transaction is below the last node above it. */
  predicate OddAt(mask: seq<bool>, k: nat)
    requires mask != []
  {
    Width(|mask|, k) % 2 == 1 && AnyMatch(mask, LastStart(|mask|, k + 1), |mask|)
  }

  /** The number of such heights below h. */
  function OddHeights(mask: seq<bool>, h: nat): nat
    requires mask != []
  {
    if h == 0 then 0 else OddHeights(mask, h - 1) + One(OddAt(mask, h - 1))
  }

  lemma LastStartFalls(n: nat, h: nat)
    requires n > 0 && h > 0
    ensures LastStart(n, h) <= LastStart(n, h - 1)
  {
    WidthPositive(n, h);
    WidthPositive(n, h - 1);
    var w, v := Width(n, h) - 1, Width(n, h - 1) - 1;
    assert 2 * w <= v && Pow2(h) == 2 * Pow2(h - 1);
    hide Width, Pow2;
    MulStep(2 * w, v, Pow2(h - 1));
    assert Mul(2 * w, Pow2(h - 1)) == w * (2 * Pow2(h - 1));
    assert Mul(v, Pow2(h - 1)) == v * Pow2(h - 1);
  }

  lemma {:induction false} NoOddHeights(mask: seq<bool>, h: nat)
    requires mask != [] && !AnyMatch(mask, LastStart(|mask|, h), |mask|)
    ensures OddHeights(mask, h) == 0
  {
    hide LastStart, Width;
    if h > 0 {
      LastStartFalls(|mask|, h);
      NoOddHeights(mask, h - 1);
    }
  }

  lemma LastFlag(mask: seq<bool>, h: nat)
    requires mask != []
    ensures Width(|mask|, h) > 0
    ensures Flag(mask, Shape(|mask|, h, Width(|mask|, h) - 1)) <==> AnyMatch(mask, LastStart(|mask|, h), |mask|)
  {
    hide Width, Shape, Flag, Pow2, AnyMatch, Ordered, Fits;
    WidthPositive(|mask|, h);
    var n, p := |mask|, Width(|mask|, h) - 1;
    WidthFact(n, h, p + 1);
    ShapeOrdered(n, h, p);
    FlagIsAnyMatch(mask, Shape(n, h, p), h);
  }

  /** The single-child nodes below the last node of a height, counted by widths and marks. */
  lemma {:induction false} SinglesByWidths(mask: seq<bool>, h: nat)
    requires mask != []
    ensures Width(|mask|, h) > 0 && Singles(mask, Shape(|mask|, h, Width(|mask|, h) - 1)) == OddHeights(mask, h)
  {
    LastFlag(mask, h);
    var n, p := |mask|, Width(|mask|, h) - 1;
    if h > 0 {
      if !AnyMatch(mask, LastStart(n, h), n) {
        NoOddHeights(mask, h);
      } else {
        SinglesByWidths(mask, h - 1);
        LastChild(mask, h);
      }
    }
  }

  lemma LastChild(mask: seq<bool>, h: nat)
    requires mask != [] && h > 0 && Width(|mask|, h) > 0 && Flag(mask, Shape(|mask|, h, Width(|mask|, h) - 1))
    ensures Width(|mask|, h - 1) > 0
    ensures Singles(mask, Shape(|mask|, h, Width(|mask|, h) - 1)) ==
            Singles(mask, Shape(|mask|, h - 1, Width(|mask|, h - 1) - 1)) + One(Width(|mask|, h - 1) % 2 == 1)
  {
    var n, p := |mask|, Width(|mask|, h) - 1;
    WidthPositive(n, h - 1);
    assert 2 * p == Width(n, h - 1) - 1 || 2 * p + 1 == Width(n, h - 1) - 1;
    hide Flag, Pow2, Width, Fits;
    ChildFacts(n, h, p);
    if 2 * p + 1 < Width(n, h - 1) {
      FullSingles(mask, n, h - 1, 2 * p);
    }
  }

  /** In the whole tree: one for each odd width below the root under whose last node a transaction is marked. */
  lemma SinglesExactly(mask: seq<bool>, h: nat)
    requires IsHeight(|mask|, h)
    ensures mask != [] && Singles(mask, Root(|mask|, h)) == OddHeights(mask, h)
  {
    EmptyWidth(h);
    SinglesByWidths(mask, h);
  }

  lemma {:induction false} EmptyWidth(h: nat)
    ensures Width(0, h) == 0
  {
    if h > 0 {
      EmptyWidth(h - 1);
    }
  }

  /** The documented bound of 2N - 1 bits, by widths and marks only. */
  lemma BitBoundByWidths(H: PairHash, txids: seq<Digest>, mask: seq<bool>, h: nat)
    requires |txids| == |mask| && IsHeight(|mask|, h)
    ensures mask != []
    ensures |BuildBits(mask, Root(|mask|, h))| <= 2 * |BuildHashes(H, txids, mask, Root(|mask|, h))| - 1 <==>
            forall k: nat | k < h :: !OddAt(mask, k)
  {
    SinglesExactly(mask, h);
    BitBoundExact(H, txids, mask, Root(|mask|, h));
    NoneOdd(mask, h);
  }

  lemma {:induction false} NoneOdd(mask: seq<bool>, h: nat)
    requires mask != []
    ensures OddHeights(mask, h) == 0 <==> forall k: nat | k < h :: !OddAt(mask, k)
  {
    hide OddAt;
    if h > 0 {
      NoneOdd(mask, h - 1);
    }
  }

  lemma RootSingles(mask: seq<bool>, h: nat)
    requires IsHeight(|mask|, h)
    ensures Singles(mask, Root(|mask|, h)) <= h
  {
    hide Singles;
    SinglesBound(mask, |mask|, h, 0);
  }

  lemma HeightBound(n: nat, h: nat)
    requires IsHeight(n, h) && n <= MAX_TRANSACTIONS
    ensures h <= 15
  {
    assert Pow2(5) == 32 && Pow2(10) == 32 * Pow2(5) && Pow2(15) == 32 * Pow2(10);
    if h > 15 {
      WidthFact(n, h - 1, 1);
      Pow2Mono(15, h - 1);
    }
  }

  lemma SizeArithmetic(n: nat, singles: nat)
    requires 1 <= n <= MAX_TRANSACTIONS && singles <= 15
    ensures SerializedSize(n, 2 * n - 1 + singles) <= DocumentedSize(n) <==>
            (2 * n + singles <= 2017 || singles <= 1 + 2 * (4 * ((n + 3) / 4) - n))
  {
  }

  /**
   * The documented bound on the size holds exactly where the bits fit in 252
   * bytes, or the single-child nodes, counted by widths and marks, fit into
   * what rounding N/4 up leaves free.
   */
  lemma SizeBoundExact(H: PairHash, txids: seq<Digest>, mask: seq<bool>, h: nat)
    requires |txids| == |mask| <= MAX_TRANSACTIONS && IsHeight(|txids|, h)
    ensures var t := Root(|txids|, h);
      var n, singles := |BuildHashes(H, txids, mask, t)|, (SinglesExactly(mask, h); OddHeights(mask, h));
      && |BuildBits(mask, t)| == 2 * n - 1 + singles
      && (SerializedSize(n, |BuildBits(mask, t)|) <= DocumentedSize(n) <==>
          (2 * n + singles <= 2017 || singles <= 1 + 2 * (4 * ((n + 3) / 4) - n)))
  {
    hide Singles, BuildBits, BuildHashes, Below, IsHeight, Shape, Fits, SerializedSize, DocumentedSize;
    var t := Root(|txids|, h);
    RootOrdered(|txids|, h);
    HashCount(H, txids, mask, t, h);
    BitCount(H, txids, mask, t);
    HeightBound(|txids|, h);
    RootSingles(mask, h);
    SinglesExactly(mask, h);
    SizeArithmetic(|BuildHashes(H, txids, mask, t)|, Singles(mask, t));
  }

  ghost predicate AllMarked(mask: seq<bool>) {
    forall i | 0 <= i < |mask| :: mask[i]
  }

  /** With every transaction marked, the hashes are the transactions. */
  lemma {:induction false} AllMarkedHashes(H: PairHash, txids: seq<Digest>, mask: seq<bool>, t: Tree, h: nat)
    requires |txids| == |mask| && AllMarked(mask) && Fits(t, |mask|) && Ordered(t, h)
    ensures Flag(mask, t) && |BuildHashes(H, txids, mask, t)| == End(t) - Start(t)
  {
    if h > 0 {
      AllMarkedHashes(H, txids, mask, LeftOf(t), h - 1);
      AllMarkedHashes(H, txids, mask, RightOf(t), h - 1);
    }
  }

  /** With every transaction marked, every odd width counts. */
  lemma AllMarkedOdd(mask: seq<bool>, k: nat)
    requires mask != [] && AllMarked(mask)
    ensures OddAt(mask, k) <==> Width(|mask|, k) % 2 == 1
  {
    var n := |mask|;
    WidthPositive(n, k + 1);
    WidthFact(n, k + 1, Width(n, k + 1) - 1);
    hide Width, Pow2;
    assert mask[LastStart(n, k + 1)];
  }

  lemma OneHeight(n: nat, g: nat, h: nat)
    requires IsHeight(n, g) && IsHeight(n, h)
    ensures g == h
  {
    assert g < h ==> Width(n, g) > 1;
    assert h < g ==> Width(n, h) > 1;
  }

  lemma Widths1012(n: nat)
    requires n == 1012
    ensures Width(n, 0) == 1012 && Width(n, 1) == 506 && Width(n, 2) == 253 && Width(n, 3) == 127
    ensures Width(n, 4) == 64 && Width(n, 5) == 32 && Width(n, 6) == 16
    ensures Width(n, 7) == 8 && Width(n, 8) == 4 && Width(n, 9) == 2 && Width(n, 10) == 1
    ensures IsHeight(n, 10)
  {
    assert Width(n, 2) == 253;
    assert Width(n, 3) == 127;
    assert Width(n, 5) == 32;
    assert Width(n, 7) == 8;
    assert Width(n, 9) == 2;
  }

  /** Two of the widths are odd: 253 at height 2 and 127 at height 3. */
  lemma {:induction false} Odd1012(mask: seq<bool>, h: nat)
    requires |mask| == 1012 && AllMarked(mask) && h <= 10
    ensures OddHeights(mask, h) == if h <= 2 then 0 else if h == 3 then 1 else 2
  {
    Widths1012(|mask|);
    hide OddAt, Width, AllMarked;
    if h > 0 {
      Odd1012(mask, h - 1);
      AllMarkedOdd(mask, h - 1);
    }
  }

  /** 1012 transactions, all marked: 2025 bits take 254 bytes, and the tree one byte more than documented. */
  lemma SizeBoundFails(H: PairHash, txids: seq<Digest>, mask: seq<bool>, h: nat)
    requires |txids| == |mask| == 1012 && AllMarked(mask) && IsHeight(|txids|, h)
    ensures var t := Root(|txids|, h);
      var n := |BuildHashes(H, txids, mask, t)|;
      && n == 1012 && |BuildBits(mask, t)| == 2025
      && SerializedSize(n, |BuildBits(mask, t)|) == 32648 && DocumentedSize(n) == 32647
  {
    hide Singles, BuildBits, BuildHashes, Flag, Below, IsHeight, Shape, Fits;
    var n := |txids|;
    var t := Root(n, h);
    RootOrdered(n, h);
    AllMarkedHashes(H, txids, mask, t, h);
    BitCount(H, txids, mask, t);
    Widths1012(n);
    OneHeight(n, h, 10);
    SinglesExactly(mask, h);
    Odd1012(mask, h);
  }

  // ------------------------------------------------------ the whole exchange

  /** The bits as they come back from the wire: padded with zeros to whole bytes. */
  ghost predicate Padded(bits: seq<bool>, read: seq<bool>) {
    bits <= read && |read| == 8 * ((|bits| + 7) / 8)
  }

  /** A node that is ready at the start of a proof, with nothing after it but padding. */
  lemma {:induction false} ReadyAtStart(
      H: PairHash, txids: seq<Digest>, mask: seq<bool>, t: Tree, read: seq<bool>)
    requires |txids| == |mask| && Fits(t, |mask|) && Padded(BuildBits(mask, t), read)
    ensures Ready(H, Proof(|txids|, read, BuildHashes(H, txids, mask, t)), txids, mask, t, Cursor(0, 0, [], false))
  {
    hide BuildBits, BuildHashes, Fits;
  }

  /**
   * Build, send with the bits packed to bytes, read and extract: the result is
   * the full tree's root and exactly the marked transactions at their positions.
   */
  lemma {:induction false} BuildThenExtract(
      H: PairHash, txids: seq<Digest>, mask: seq<bool>, h: nat, read: seq<bool>)
    requires CollisionFree(H, txids) && Distinct(txids)
    requires |txids| == |mask| <= MAX_TRANSACTIONS && IsHeight(|txids|, h)
    requires Padded(BuildBits(mask, Root(|txids|, h)), read)
    ensures ExtractMatches(H, Proof(|txids|, read, BuildHashes(H, txids, mask, Root(|txids|, h))), false, h) ==
            (CalcHash(H, txids, Root(|txids|, h)), Below(txids, mask, Root(|txids|, h)))
    ensures Exactly(Below(txids, mask, Root(|txids|, h)), txids, mask, 0, |txids|)
  {
    hide NoClash, Distinct, Exactly, IsHeight, Root, Ready, Extract, CalcHash, BuildBits, BuildHashes, Below, Fits,
         TreePairs;
    var n := |txids|;
    var t := Root(n, h);
    var f := Proof(n, read, BuildHashes(H, txids, mask, t));
    RootOrdered(n, h);
    HashCount(H, txids, mask, t, h);
    BitCount(H, txids, mask, t);
    ReadyAtStart(H, txids, mask, t, read);
    ExtractBuilt(H, f, txids, mask, t, h, Cursor(0, 0, [], false), TreePairs(H, txids, t));
    BelowExact(txids, mask, t, h);
    assert [] + Below(txids, mask, t) == Below(txids, mask, t);
  }
}
