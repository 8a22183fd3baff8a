/**
 * Merged-mining proofs (CAuxPow::check in src/auxpow.cpp): which block a parent
 * coinbase commits to.
 */
module AuxPow {
  import opened Arithmetic
  import opened Common

  /** A 256-bit hash, as its bytes in memory. */
  type Digest = d: Bytes | |d| == 32 witness ZEROS

  const ZEROS: Bytes :=
    [0, 0, 0, 0, 0, 0, 0, 0, 0, 0, 0, 0, 0, 0, 0, 0, 0, 0, 0, 0, 0, 0, 0, 0, 0, 0, 0, 0, 0, 0, 0, 0]
  const NULL_DIGEST: Digest := ZEROS
  const MERGED_MINING_HEADER: Bytes := [0xfa, 0xbe, 0x6d, 0x6d]

  type PairHash = (Digest, Digest) -> Digest

  // ------------------------------------------------------------ merkle branches

  /** The root above a hash, given the other hashes on the way and the position of the leaf. */
  function Folded(H: PairHash, hash: Digest, branch: seq<Digest>, nIndex: int): Digest
    decreases |branch|
  {
    if branch == [] then hash
    else Folded(H, Above(H, hash, branch[0], nIndex), branch[1..], nIndex / 2)
  }

  function Above(H: PairHash, hash: Digest, other: Digest, nIndex: int): Digest {
    if nIndex % 2 == 1 then H(other, hash) else H(hash, other)
  }

  function BranchRoot(H: PairHash, hash: Digest, branch: seq<Digest>, nIndex: int): Digest {
    if nIndex == -1 then NULL_DIGEST else Folded(H, hash, branch, nIndex)
  }

  /** The parity test and the arithmetic shift are those of a 32-bit signed index. */
  method CheckMerkleBranch(H: PairHash, hash: Digest, branch: seq<Digest>, nIndex: int) returns (root: Digest)
    ensures root == BranchRoot(H, hash, branch, nIndex)
  {
    if nIndex == -1 {
      return NULL_DIGEST;
    }
    root := hash;
    var index := nIndex;
    assert branch[0..] == branch;
    for i := 0 to |branch|
      invariant Folded(H, root, branch[i..], index) == Folded(H, hash, branch, nIndex)
    {
      assert branch[i..][1..] == branch[i + 1..];
      if index % 2 == 1 {
        root := H(branch[i], root);
      } else {
        root := H(root, branch[i]);
      }
      index := index / 2;
    }
  }

  /** The pairs that are hashed on the way up a branch. */
  function Hashed(H: PairHash, hash: Digest, branch: seq<Digest>, nIndex: int): (r: seq<(Digest, Digest)>)
    ensures |r| == |branch|
    decreases |branch|
  {
    if branch == [] then []
    else
      [if nIndex % 2 == 1 then (branch[0], hash) else (hash, branch[0])]
      + Hashed(H, Above(H, hash, branch[0], nIndex), branch[1..], nIndex / 2)
  }

  /** Different pairs have different hashes, level by level. */
  ghost predicate NoCollision(H: PairHash, s: seq<(Digest, Digest)>, t: seq<(Digest, Digest)>) {
    forall i | 0 <= i < |s| && i < |t| :: H(s[i].0, s[i].1) == H(t[i].0, t[i].1) ==> s[i] == t[i]
  }

  /** At one position, branches of one length lead one root to one hash, unless two of their pairs collide. */
  lemma {:induction false} FoldedSame(H: PairHash, x: Digest, y: Digest, p: seq<Digest>, q: seq<Digest>, nIndex: int)
    requires |p| == |q| && Folded(H, x, p, nIndex) == Folded(H, y, q, nIndex)
    requires NoCollision(H, Hashed(H, x, p, nIndex), Hashed(H, y, q, nIndex))
    ensures x == y && p == q
    decreases |p|
  {
    if p != [] {
      var s, t := Hashed(H, x, p, nIndex), Hashed(H, y, q, nIndex);
      assert NoCollision(H, s[1..], t[1..]);
      FoldedSame(H, Above(H, x, p[0], nIndex), Above(H, y, q[0], nIndex), p[1..], q[1..], nIndex / 2);
      assert s[0] == t[0];
      assert p == [p[0]] + p[1..] && q == [q[0]] + q[1..];
    }
  }

  /** The next level of a tree whose level has an even number of nodes. */
  function Paired(H: PairHash, level: seq<Digest>): (r: seq<Digest>)
    ensures |r| == |level| / 2 && forall j | 0 <= j < |r| :: r[j] == H(level[2 * j], level[2 * j + 1])
    decreases |level|
  {
    if |level| < 2 then [] else [H(level[0], level[1])] + Paired(H, level[2..])
  }

  /** The root of a tree with 2^h leaves. */
  function FullRoot(H: PairHash, leaves: seq<Digest>, h: nat): Digest
    requires |leaves| == Pow2(h)
    decreases h
  {
    if h == 0 then leaves[0] else FullRoot(H, Paired(H, leaves), h - 1)
  }

  function Sibling(i: nat): nat {
    if i % 2 == 1 then i - 1 else i + 1
  }

  /** The other child at every level above leaf i. */
  function Others(H: PairHash, leaves: seq<Digest>, h: nat, i: nat): (r: seq<Digest>)
    requires i < |leaves| == Pow2(h)
    ensures |r| == h
    decreases h
  {
    if h == 0 then []
    else [leaves[Sibling(i)]] + Others(H, Paired(H, leaves), h - 1, i / 2)
  }

  lemma PairAbove(H: PairHash, level: seq<Digest>, i: nat)
    requires |level| % 2 == 0 && i < |level|
    ensures Paired(H, level)[i / 2] == Above(H, level[i], level[Sibling(i)], i)
  {
    hide Paired;
    assert Paired(H, level)[i / 2] == H(level[2 * (i / 2)], level[2 * (i / 2) + 1]);
  }

  /** In a full tree the branch of leaf i at position i leads from it to the root, */
  lemma {:induction false} BranchLeadsToRoot(H: PairHash, leaves: seq<Digest>, h: nat, i: nat)
    requires i < |leaves| == Pow2(h)
    ensures BranchRoot(H, leaves[i], Others(H, leaves, h, i), i) == FullRoot(H, leaves, h)
    decreases h
  {
    hide Paired, Above, Sibling;
    if h > 0 {
      var up := Paired(H, leaves);
      BranchLeadsToRoot(H, up, h - 1, i / 2);
      PairAbove(H, leaves, i);
      assert Others(H, leaves, h, i)[1..] == Others(H, up, h - 1, i / 2);
    }
  }

  /** and nothing else at that position does, unless two pairs collide. */
  lemma RootFixesLeaf(H: PairHash, leaves: seq<Digest>, h: nat, i: nat, x: Digest, branch: seq<Digest>)
    requires i < |leaves| == Pow2(h) && |branch| == h
    requires BranchRoot(H, x, branch, i) == FullRoot(H, leaves, h)
    requires NoCollision(H, Hashed(H, x, branch, i), Hashed(H, leaves[i], Others(H, leaves, h, i), i))
    ensures x == leaves[i] && branch == Others(H, leaves, h, i)
  {
    BranchLeadsToRoot(H, leaves, h, i);
    FoldedSame(H, x, leaves[i], branch, Others(H, leaves, h, i), i);
  }

  // ------------------------------------------------------------- expected index

  function Scrambled(x: int): int {
    x * 1103515245 + 12345
  }

  /** In 32-bit unsigned arithmetic. */
  function ExpectedIndex(nNonce: nat, nChainId: int, h: nat): (r: nat)
    requires h <= 30
    ensures r < Pow2(h)
  {
    var rand := Scrambled(nNonce) % TWO_32;
    var mixed := (rand + nChainId) % TWO_32;
    Rem(Scrambled(mixed) % TWO_32, Pow2(h))
  }

  ghost predicate Congruent(a: int, b: int, m: nat)
    requires m > 0
  {
    Rem(a, m) == Rem(b, m)
  }

  lemma CongruentBy(a: int, b: int, k: int, m: nat)
    requires m > 0 && a == b + Mul(k, m)
    ensures Congruent(a, b, m)
  {
    hide Mul, Rem;
    ModAdd(b, k, m);
  }

  lemma CongruentStep(a: int, b: int, m: nat)
    requires m > 0 && Congruent(a, b, m)
    ensures exists k :: a == b + Mul(k, m)
  {
    hide Mul, Quo, Rem;
    DivMod(a, m);
    DivMod(b, m);
    MulAdd(Quo(a, m), Quo(b, m), m);
    assert a == b + Mul(Quo(a, m) - Quo(b, m), m);
  }

  lemma CongruentScrambled(a: int, b: int, c: int, m: nat)
    requires m > 0 && Congruent(a, b, m)
    ensures Congruent(Scrambled(a + c), Scrambled(b + c), m)
  {
    hide Mul, Rem;
    CongruentStep(a, b, m);
    var k :| a == b + Mul(k, m);
    MulAssoc(1103515245, k, m);
    assert Mul(1103515245, k) == 1103515245 * k && Mul(1103515245, Mul(k, m)) == 1103515245 * Mul(k, m) by {
      MulIs(1103515245, k);
      MulIs(1103515245, Mul(k, m));
    }
    CongruentBy(Scrambled(a + c), Scrambled(b + c), 1103515245 * k, m);
  }

  lemma MulIs(a: int, b: int)
    ensures Mul(a, b) == a * b
  {
  }

  /** Wrapping at 32 bits is invisible modulo a smaller power of two. */
  lemma CongruentWrapped(x: int, h: nat)
    requires h <= 32
    ensures Congruent(x % TWO_32, x, Pow2(h))
  {
    Pow2Widths();
    hide Mul, Quo, Rem, Pow2;
    Pow2Add(32 - h, h);
    assert x == Mul(Quo(x, TWO_32), TWO_32) + x % TWO_32 by { WrapIs(x); }
    MulAssoc(Quo(x, TWO_32), Pow2(32 - h), Pow2(h));
    CongruentBy(x, x % TWO_32, Mul(Quo(x, TWO_32), Pow2(32 - h)), Pow2(h));
  }

  lemma WrapIs(x: int)
    ensures x == Mul(Quo(x, TWO_32), TWO_32) + x % TWO_32
  {
  }

  /** The slot is the same in arithmetic of any width. */
  lemma ExpectedIndexAnyWidth(nNonce: nat, nChainId: int, h: nat)
    requires h <= 30
    ensures ExpectedIndex(nNonce, nChainId, h) == Rem(Scrambled(Scrambled(nNonce) + nChainId), Pow2(h))
  {
    hide Scrambled, Rem, Pow2;
    var m := Pow2(h);
    var once := Scrambled(nNonce);
    CongruentWrapped(once, h);
    CongruentScrambled(once % TWO_32, once, nChainId, m);
    var sum := once % TWO_32 + nChainId;
    CongruentWrapped(sum, h);
    CongruentScrambled(sum % TWO_32, sum, 0, m);
    CongruentWrapped(Scrambled(sum % TWO_32), h);
  }

  // ------------------------------------------------------------------ the check

  /** The first place at or after from where the pattern occurs, or the end. */
  function Search(s: Bytes, from: nat, pattern: Bytes): (r: nat)
    requires from <= |s| && pattern != []
    ensures from <= r <= |s|
    ensures r < |s| ==> Occurs(s, r, pattern)
    ensures forall i | from <= i < r :: !Occurs(s, i, pattern)
    decreases |s| - from
  {
    if from + |pattern| > |s| then |s|
    else if s[from..from + |pattern|] == pattern then from
    else Search(s, from + 1, pattern)
  }

  predicate Occurs(s: Bytes, i: nat, pattern: Bytes) {
    i + |pattern| <= |s| && s[i..i + |pattern|] == pattern
  }

  function LittleEndian(b: Bytes): nat
    requires |b| == 4
  {
    var n: seq<int> := b;
    n[0] + 0x100 * n[1] + 0x1_0000 * n[2] + 0x100_0000 * n[3]
  }

  /** The proof: a coinbase transaction of the parent block and the branches up to it. */
  datatype Proof = Proof(
    nIndex: int,
    parentChainId: int,
    parentMerkleRoot: Digest,
    txHash: Digest,
    script: Bytes,
    merkleBranch: seq<Digest>,
    chainMerkleBranch: seq<Digest>,
    nChainIndex: int)

  datatype Verdict =
    | Accepted | NotGenerate | ParentHasOurChainId | ChainBranchTooLong | MerkleRootIncorrect | MissingRoot
    | MultipleHeaders | HeaderNotBeforeRoot | RootTooLate | MissingSizeAndNonce | SizeDoesNotMatch | WrongIndex

  /** Where the root must stand in the coinbase script. */
  function Placed(script: Bytes, root: Bytes): Verdict
    requires root != []
  {
    var pcHead := Search(script, 0, MERGED_MINING_HEADER);
    var pc := Search(script, 0, root);
    if pc == |script| then MissingRoot
    else if pcHead != |script| then
      if Search(script, pcHead + 1, MERGED_MINING_HEADER) != |script| then MultipleHeaders
      else if pcHead + 4 != pc then HeaderNotBeforeRoot
      else Accepted
    else if pc > 20 then RootTooLate
    else Accepted
  }

  /** The size and the nonce that follow the root. */
  function Slotted(p: Proof, pc: nat, nChainId: int): Verdict
    requires |p.chainMerkleBranch| <= 30
  {
    if pc > |p.script| || |p.script| - pc < 8 then MissingSizeAndNonce
    else if LittleEndian(p.script[pc..pc + 4]) != Pow2(|p.chainMerkleBranch|) then SizeDoesNotMatch
    else if p.nChainIndex != ExpectedIndex(LittleEndian(p.script[pc + 4..pc + 8]), nChainId, |p.chainMerkleBranch|)
    then WrongIndex
    else Accepted
  }

  function ChainRoot(H: PairHash, hashAuxBlock: Digest, p: Proof): Bytes {
    Reversed(BranchRoot(H, hashAuxBlock, p.chainMerkleBranch, p.nChainIndex))
  }

  function Check(H: PairHash, p: Proof, hashAuxBlock: Digest, nChainId: int, fStrictChainId: bool): Verdict {
    if p.nIndex != 0 then NotGenerate
    else if fStrictChainId && p.parentChainId == nChainId then ParentHasOurChainId
    else if |p.chainMerkleBranch| > 30 then ChainBranchTooLong
    else if BranchRoot(H, p.txHash, p.merkleBranch, p.nIndex) != p.parentMerkleRoot then MerkleRootIncorrect
    else
      var root := ChainRoot(H, hashAuxBlock, p);
      var placed := Placed(p.script, root);
      if placed != Accepted then placed
      else Slotted(p, Search(p.script, 0, root) + |root|, nChainId)
  }

  // ------------------------------------------------------------ one commitment

  /** A script that holds the merged-mining header anywhere. */
  ghost predicate HasHeader(script: Bytes) {
    exists i: nat :: Occurs(script, i, MERGED_MINING_HEADER)
  }

  /** With the header in it, a script fixes the root it accepts: the 32 bytes after the header. */
  lemma HeaderFixesRoot(script: Bytes, root: Digest)
    requires HasHeader(script) && Placed(script, root) == Accepted
    ensures var pc := Search(script, 0, MERGED_MINING_HEADER) + 4;
            pc + 32 <= |script| && Search(script, 0, root) == pc && root == script[pc..pc + 32]
  {
    var i: nat :| Occurs(script, i, MERGED_MINING_HEADER);
    var pcHead := Search(script, 0, MERGED_MINING_HEADER);
    assert i < |script|;
    assert pcHead < |script|;
    assert Occurs(script, Search(script, 0, root), root);
  }

  lemma ReversedSame(a: Digest, b: Digest)
    requires Reversed(a) == Reversed(b)
    ensures a == b
  {
    forall i | 0 <= i < 32 ensures a[i] == b[i] {
      assert Reversed(a)[31 - i] == Reversed(b)[31 - i];
    }
  }

  lemma {:induction false} Pow2Injective(m: nat, n: nat)
    requires Pow2(m) == Pow2(n)
    ensures m == n
  {
    if m < n {
      Pow2Mono(m, n - 1);
    } else if n < m {
      Pow2Mono(n, m - 1);
    }
  }

  /**
   * Two proofs accepted for one chain with one coinbase script that holds the header
   * prove the same block, unless the hash collides on the very pairs they hash.
   */
  lemma OneCommitment(H: PairHash, p: Proof, q: Proof, x: Digest, y: Digest,
                      nChainId: int, strictP: bool, strictQ: bool)
    requires Check(H, p, x, nChainId, strictP) == Accepted && Check(H, q, y, nChainId, strictQ) == Accepted
    requires p.script == q.script && HasHeader(p.script)
    requires NoCollision(H, Hashed(H, x, p.chainMerkleBranch, p.nChainIndex),
                         Hashed(H, y, q.chainMerkleBranch, q.nChainIndex))
    ensures x == y && p.chainMerkleBranch == q.chainMerkleBranch && p.nChainIndex == q.nChainIndex
  {
    hide Placed, Search, LittleEndian, ExpectedIndex, Folded, HasHeader, Reversed, NoCollision, Hashed, Pow2;
    var a := BranchRoot(H, x, p.chainMerkleBranch, p.nChainIndex);
    var b := BranchRoot(H, y, q.chainMerkleBranch, q.nChainIndex);
    HeaderFixesRoot(p.script, ChainRoot(H, x, p));
    HeaderFixesRoot(q.script, ChainRoot(H, y, q));
    ReversedSame(a, b);
    Pow2Injective(|p.chainMerkleBranch|, |q.chainMerkleBranch|);
    FoldedSame(H, x, y, p.chainMerkleBranch, q.chainMerkleBranch, p.nChainIndex);
  }

  /** The first occurrence of a pattern. */
  ghost predicate First(s: Bytes, i: nat, pattern: Bytes) {
    Occurs(s, i, pattern) && forall j: nat | j < i :: !Occurs(s, j, pattern)
  }

  /** The one and only occurrence of a pattern. */
  ghost predicate Only(s: Bytes, i: nat, pattern: Bytes) {
    Occurs(s, i, pattern) && forall j: nat | Occurs(s, j, pattern) :: j == i
  }

  /** The root first stands at pc: right after the only header, or early in a script without one. */
  ghost predicate WellPlaced(script: Bytes, root: Bytes, pc: nat) {
    && First(script, pc, root)
    && if HasHeader(script) then pc >= 4 && Only(script, pc - 4, MERGED_MINING_HEADER) else pc <= 20
  }

  lemma PlacedExactly(script: Bytes, root: Digest)
    ensures Placed(script, root) == Accepted <==> exists pc: nat :: WellPlaced(script, root, pc)
    ensures Placed(script, root) == Accepted ==> WellPlaced(script, root, Search(script, 0, root))
  {
    hide Search;
    var pcHead, pc := Search(script, 0, MERGED_MINING_HEADER), Search(script, 0, root);
    FoundExactly(script, root);
    FoundExactly(script, MERGED_MINING_HEADER);
    if pcHead < |script| {
      SecondHeader(script, pcHead);
    }
    if Placed(script, root) == Accepted {
      assert WellPlaced(script, root, pc);
    }
    if exists p: nat :: WellPlaced(script, root, p) {
      var p: nat :| WellPlaced(script, root, p);
      WellPlacedAccepted(script, root, p);
    }
  }

  lemma WellPlacedAccepted(script: Bytes, root: Digest, pc: nat)
    requires WellPlaced(script, root, pc)
    ensures Placed(script, root) == Accepted
  {
    hide Search;
    var pcHead := Search(script, 0, MERGED_MINING_HEADER);
    FoundExactly(script, root);
    FoundExactly(script, MERGED_MINING_HEADER);
    assert Search(script, 0, root) == pc < |script|;
    if HasHeader(script) {
      assert pcHead == pc - 4;
      SecondHeader(script, pcHead);
    }
  }

  /** The root stands at pc, and the size and the nonce after it fit the branch. */
  ghost predicate CommitsAt(p: Proof, root: Bytes, nChainId: int, pc: nat)
    requires |p.chainMerkleBranch| <= 30
  {
    && WellPlaced(p.script, root, pc) && pc + 40 <= |p.script|
    && LittleEndian(p.script[pc + 32..pc + 36]) == Pow2(|p.chainMerkleBranch|)
    && p.nChainIndex == ExpectedIndex(LittleEndian(p.script[pc + 36..pc + 40]), nChainId, |p.chainMerkleBranch|)
  }

  /** What check accepts, without the order of its tests. */
  lemma AcceptedExactly(H: PairHash, p: Proof, hashAuxBlock: Digest, nChainId: int, fStrictChainId: bool)
    ensures Check(H, p, hashAuxBlock, nChainId, fStrictChainId) == Accepted <==>
              && p.nIndex == 0 && (fStrictChainId ==> p.parentChainId != nChainId)
              && |p.chainMerkleBranch| <= 30
              && Folded(H, p.txHash, p.merkleBranch, 0) == p.parentMerkleRoot
              && exists pc: nat :: CommitsAt(p, ChainRoot(H, hashAuxBlock, p), nChainId, pc)
  {
    hide Placed, Search, LittleEndian, ExpectedIndex, Pow2, Folded, Reversed, WellPlaced;
    var root: Digest := ChainRoot(H, hashAuxBlock, p);
    var at := Search(p.script, 0, root);
    PlacedExactly(p.script, root);
    forall pc: nat | WellPlaced(p.script, root, pc) ensures pc == at {
      PlaceIsFirst(p.script, root, pc);
    }
    if |p.chainMerkleBranch| <= 30 && Placed(p.script, root) == Accepted {
      assert Slotted(p, at + 32, nChainId) == Accepted <==> CommitsAt(p, root, nChainId, at);
    }
  }

  lemma PlaceIsFirst(script: Bytes, root: Digest, pc: nat)
    requires WellPlaced(script, root, pc)
    ensures pc == Search(script, 0, root)
  {
    FoundExactly(script, root);
  }

  /** A search from the start finds the first occurrence, if there is any. */
  lemma FoundExactly(s: Bytes, pattern: Bytes)
    requires pattern != []
    ensures var r := Search(s, 0, pattern);
            && (r < |s| ==> First(s, r, pattern))
            && (forall i: nat | First(s, i, pattern) :: r == i)
            && (r == |s| ==> forall i: nat :: !Occurs(s, i, pattern))
  {
  }

  /** A search behind the first header finds nothing exactly when it is the only one. */
  lemma SecondHeader(s: Bytes, i: nat)
    requires i < |s| && First(s, i, MERGED_MINING_HEADER)
    ensures Search(s, i + 1, MERGED_MINING_HEADER) == |s| <==> Only(s, i, MERGED_MINING_HEADER)
  {
  }

  // ------------------------------------- when a script commits to one block

  /** A size that a branch of accepted length can have. */
  ghost predicate IsTreeSize(n: nat) {
    exists h: nat | h <= 30 :: n == Pow2(h)
  }

  /** A place where a script without the header commits to the 32 bytes that stand there. */
  ghost predicate LegacyPlace(script: Bytes, pc: nat) {
    && pc <= 20 && pc + 40 <= |script| && First(script, pc, script[pc..pc + 32])
    && IsTreeSize(LittleEndian(script[pc + 32..pc + 36]))
  }

  /** At most one place can be committed to; the script alone decides this. */
  ghost predicate OnePlace(script: Bytes) {
    forall pc: nat, qc: nat | LegacyPlace(script, pc) && LegacyPlace(script, qc) :: pc == qc
  }

  /** The script commits to a root, for some size and nonce after it. */
  ghost predicate CommitsTo(script: Bytes, root: Digest) {
    exists pc: nat | WellPlaced(script, root, pc) ::
      pc + 40 <= |script| && IsTreeSize(LittleEndian(script[pc + 32..pc + 36]))
  }

  /** Without the header, a script commits to one root at most if and only if it has one place at most. */
  lemma OneRootExactly(script: Bytes)
    requires !HasHeader(script)
    ensures (forall r: Digest, t: Digest | CommitsTo(script, r) && CommitsTo(script, t) :: r == t) <==> OnePlace(script)
  {
    hide LittleEndian, IsTreeSize, HasHeader;
    if OnePlace(script) {
      forall r: Digest, t: Digest | CommitsTo(script, r) && CommitsTo(script, t) ensures r == t {
        var pc := RootPlace(script, r);
        var qc := RootPlace(script, t);
      }
    }
    if forall r: Digest, t: Digest | CommitsTo(script, r) && CommitsTo(script, t) :: r == t {
      forall pc: nat, qc: nat | LegacyPlace(script, pc) && LegacyPlace(script, qc) ensures pc == qc {
        PlaceRoot(script, pc);
        PlaceRoot(script, qc);
        FirstOnce(script, pc, qc, script[pc..pc + 32]);
      }
    }
  }

  lemma RootPlace(script: Bytes, root: Digest) returns (pc: nat)
    requires !HasHeader(script) && CommitsTo(script, root)
    ensures LegacyPlace(script, pc) && root == script[pc..pc + 32]
  {
    hide LittleEndian, IsTreeSize, HasHeader;
    pc :| WellPlaced(script, root, pc) && pc + 40 <= |script| && IsTreeSize(LittleEndian(script[pc + 32..pc + 36]));
  }

  lemma PlaceRoot(script: Bytes, pc: nat)
    requires !HasHeader(script) && LegacyPlace(script, pc)
    ensures CommitsTo(script, script[pc..pc + 32])
  {
    hide LittleEndian, IsTreeSize, HasHeader;
    assert WellPlaced(script, script[pc..pc + 32], pc);
  }

  lemma FirstOnce(s: Bytes, i: nat, j: nat, pattern: Bytes)
    requires First(s, i, pattern) && First(s, j, pattern)
    ensures i == j
  {
  }

  /** An accepted proof over a script without the header has its root at such a place. */
  lemma AcceptedPlace(H: PairHash, p: Proof, x: Digest, nChainId: int, strict: bool) returns (pc: nat)
    requires Check(H, p, x, nChainId, strict) == Accepted && !HasHeader(p.script)
    ensures |p.chainMerkleBranch| <= 30 && CommitsAt(p, ChainRoot(H, x, p), nChainId, pc)
    ensures LegacyPlace(p.script, pc) && ChainRoot(H, x, p) == p.script[pc..pc + 32]
  {
    hide Check, LittleEndian, ExpectedIndex, HasHeader, Pow2, Reversed, BranchRoot, Folded;
    AcceptedExactly(H, p, x, nChainId, strict);
    pc :| CommitsAt(p, ChainRoot(H, x, p), nChainId, pc);
  }

  /** The conclusion of OneCommitment for a script without the header that has one place. */
  lemma OneLegacyCommitment(H: PairHash, p: Proof, q: Proof, x: Digest, y: Digest,
                            nChainId: int, strictP: bool, strictQ: bool)
    requires Check(H, p, x, nChainId, strictP) == Accepted && Check(H, q, y, nChainId, strictQ) == Accepted
    requires p.script == q.script && !HasHeader(p.script) && OnePlace(p.script)
    requires NoCollision(H, Hashed(H, x, p.chainMerkleBranch, p.nChainIndex),
                         Hashed(H, y, q.chainMerkleBranch, q.nChainIndex))
    ensures x == y && p.chainMerkleBranch == q.chainMerkleBranch && p.nChainIndex == q.nChainIndex
  {
    hide Check, LegacyPlace, WellPlaced, LittleEndian, ExpectedIndex, Folded, HasHeader, Reversed, NoCollision,
         Hashed, Pow2;
    var pc := AcceptedPlace(H, p, x, nChainId, strictP);
    var qc := AcceptedPlace(H, q, y, nChainId, strictQ);
    assert pc == qc;
    ReversedSame(BranchRoot(H, x, p.chainMerkleBranch, p.nChainIndex),
                 BranchRoot(H, y, q.chainMerkleBranch, q.nChainIndex));
    Pow2Injective(|p.chainMerkleBranch|, |q.chainMerkleBranch|);
    FoldedSame(H, x, y, p.chainMerkleBranch, q.chainMerkleBranch, p.nChainIndex);
  }

  /** Two accepted proofs over one script for different blocks, with no two hashed pairs colliding. */
  ghost predicate Disputes(script: Bytes, nChainId: int, H: PairHash, p: Proof, q: Proof, x: Digest, y: Digest,
                           strict: bool)
  {
    && p.script == script && q.script == script && x != y
    && Check(H, p, x, nChainId, strict) == Accepted && Check(H, q, y, nChainId, strict) == Accepted
    && NoCollision(H, Hashed(H, x, p.chainMerkleBranch, p.nChainIndex),
                   Hashed(H, y, q.chainMerkleBranch, q.nChainIndex))
  }

  /** A pair hash that returns the other digest where one is null. */
  function Keep(a: Digest, b: Digest): Digest {
    if b == NULL_DIGEST then a else b
  }

  function Nulls(n: nat): (r: seq<Digest>)
    ensures |r| == n && forall i | 0 <= i < n :: r[i] == NULL_DIGEST
  {
    seq(n, _ => NULL_DIGEST)
  }

  lemma {:induction false} KeepFolds(x: Digest, branch: seq<Digest>, nIndex: int)
    requires forall i | 0 <= i < |branch| :: branch[i] == NULL_DIGEST
    ensures Folded(Keep, x, branch, nIndex) == x
    ensures forall i | 0 <= i < |branch| ::
              var h := Hashed(Keep, x, branch, nIndex)[i]; Keep(h.0, h.1) == x
    decreases |branch|
  {
    if branch != [] {
      assert Above(Keep, x, branch[0], nIndex) == x;
      KeepFolds(x, branch[1..], nIndex / 2);
    }
  }

  /** A proof for the bytes at a place, with a branch of null digests. */
  function PlaceProof(script: Bytes, pc: nat, h: nat, nChainId: int): Proof
    requires pc + 40 <= |script| && h <= 30
  {
    Proof(0, nChainId + 1, NULL_DIGEST, NULL_DIGEST, script, [], Nulls(h),
          ExpectedIndex(LittleEndian(script[pc + 36..pc + 40]), nChainId, h))
  }

  lemma PlaceProofAccepted(script: Bytes, pc: nat, nChainId: int, strict: bool) returns (p: Proof, x: Digest)
    requires !HasHeader(script) && LegacyPlace(script, pc)
    ensures p.script == script && x == Reversed(script[pc..pc + 32])
    ensures forall i | 0 <= i < |p.chainMerkleBranch| :: p.chainMerkleBranch[i] == NULL_DIGEST
    ensures Check(Keep, p, x, nChainId, strict) == Accepted
  {
    hide Check, LittleEndian, ExpectedIndex, HasHeader, Pow2, Reversed;
    var h: nat :| h <= 30 && LittleEndian(script[pc + 32..pc + 36]) == Pow2(h);
    p := PlaceProof(script, pc, h, nChainId);
    var root := script[pc..pc + 32];
    x := Reversed(root);
    assert Reversed(x) == root;
    KeepFolds(x, p.chainMerkleBranch, p.nChainIndex);
    assert WellPlaced(script, root, pc);
    AcceptedExactly(Keep, p, x, nChainId, strict);
    assert CommitsAt(p, ChainRoot(Keep, x, p), nChainId, pc);
  }

  lemma TwoPlacesDispute(script: Bytes, pc: nat, qc: nat, nChainId: int, strict: bool)
    requires !HasHeader(script) && LegacyPlace(script, pc) && LegacyPlace(script, qc) && pc != qc
    ensures exists H: PairHash, p: Proof, q: Proof, x: Digest, y: Digest ::
              Disputes(script, nChainId, H, p, q, x, y, strict)
  {
    hide Check, HasHeader, LittleEndian, IsTreeSize, Reversed, Folded, Hashed;
    var p, x := PlaceProofAccepted(script, pc, nChainId, strict);
    var q, y := PlaceProofAccepted(script, qc, nChainId, strict);
    if x == y {
      ReversedSame(script[pc..pc + 32], script[qc..qc + 32]);
      FirstOnce(script, pc, qc, script[pc..pc + 32]);
    }
    KeepFolds(x, p.chainMerkleBranch, p.nChainIndex);
    KeepFolds(y, q.chainMerkleBranch, q.nChainIndex);
    assert Disputes(script, nChainId, Keep, p, q, x, y, strict);
  }

  /**
   * A coinbase script proves one block for one chain, whatever the hash and the branches,
   * if and only if it holds the header or has one place at most.
   */
  lemma OneBlockExactly(script: Bytes, nChainId: int, strict: bool)
    ensures (forall H: PairHash, p: Proof, q: Proof, x: Digest, y: Digest ::
               !Disputes(script, nChainId, H, p, q, x, y, strict))
       <==> HasHeader(script) || OnePlace(script)
  {
    hide Check, HasHeader, LegacyPlace, NoCollision, Hashed;
    if HasHeader(script) || OnePlace(script) {
      forall H: PairHash, p: Proof, q: Proof, x: Digest, y: Digest
        ensures !Disputes(script, nChainId, H, p, q, x, y, strict)
      {
        if Disputes(script, nChainId, H, p, q, x, y, strict) {
          if HasHeader(script) {
            OneCommitment(H, p, q, x, y, nChainId, strict, strict);
          } else {
            OneLegacyCommitment(H, p, q, x, y, nChainId, strict, strict);
          }
        }
      }
    } else {
      var pc: nat, qc: nat :| LegacyPlace(script, pc) && LegacyPlace(script, qc) && pc != qc;
      TwoPlacesDispute(script, pc, qc, nChainId, strict);
    }
  }

  // --------------------------------------------------------- an ambiguous script

  const LEGACY_SCRIPT: Bytes :=
    [11, 12, 13, 14, 15, 16, 17, 18, 19, 20, 21, 22, 23, 24, 25, 26, 27, 28, 29, 30, 31, 32, 33, 34, 35, 36, 37, 38, 39,
     40, 41, 42] + [1, 0, 0, 0] + [0, 0, 0, 0] + [1, 0, 0, 0] + [0, 0, 0, 0]

  /** Without the header one script can be accepted for two blocks: here at places 0 and 8. */
  lemma LegacyScriptIsAmbiguous(H: PairHash, nChainId: int) returns (p: Proof, x: Digest, y: Digest)
    ensures x != y && !HasHeader(p.script)
    ensures Check(H, p, x, nChainId, false) == Accepted && Check(H, p, y, nChainId, false) == Accepted
  {
    hide Check, HasHeader, Reversed, LegacyAt;
    p := Proof(0, 0, NULL_DIGEST, NULL_DIGEST, LEGACY_SCRIPT, [], [], 0);
    NoHeader();
    LegacyPlaces();
    x := Reversed(LEGACY_SCRIPT[0..32]);
    y := Reversed(LEGACY_SCRIPT[8..40]);
    LegacyAccepts(H, nChainId, p, x, 0);
    LegacyAccepts(H, nChainId, p, y, 8);
    assert x[31] == LEGACY_SCRIPT[0] && y[31] == LEGACY_SCRIPT[8];
  }

  lemma NoHeader()
    ensures !HasHeader(LEGACY_SCRIPT)
  {
    forall i: nat ensures !Occurs(LEGACY_SCRIPT, i, MERGED_MINING_HEADER) {
      if i + 4 <= |LEGACY_SCRIPT| {
        assert LEGACY_SCRIPT[i..i + 4][0] == LEGACY_SCRIPT[i] <= 42;
      }
    }
  }

  /** A root of 32 bytes first occurs at the place, with size 1 and a nonce after it. */
  ghost predicate LegacyAt(s: Bytes, at: nat) {
    && at <= 20 && at + 40 <= |s| && s[at + 32..at + 36] == [1, 0, 0, 0]
    && forall i | 0 <= i < at :: s[i] != s[at]
  }

  lemma LegacyPlaces()
    ensures LegacyAt(LEGACY_SCRIPT, 0) && LegacyAt(LEGACY_SCRIPT, 8) && LEGACY_SCRIPT[0] != LEGACY_SCRIPT[8]
  {
  }

  lemma FirstHere(s: Bytes, at: nat, pattern: Bytes)
    requires pattern != [] && Occurs(s, at, pattern) && forall i | 0 <= i < at :: s[i] != s[at]
    ensures Search(s, 0, pattern) == at
  {
    assert s[at] == pattern[0];
    forall i | 0 <= i < at ensures !Occurs(s, i, pattern) {
      if i + |pattern| <= |s| {
        assert s[i..i + |pattern|][0] == s[i];
      }
    }
  }

  lemma HeaderNotFound(script: Bytes)
    requires !HasHeader(script)
    ensures Search(script, 0, MERGED_MINING_HEADER) == |script|
  {
  }

  lemma LegacyAccepts(H: PairHash, nChainId: int, p: Proof, x: Digest, at: nat)
    requires p == Proof(0, 0, NULL_DIGEST, NULL_DIGEST, p.script, [], [], 0)
    requires LegacyAt(p.script, at) && !HasHeader(p.script) && x == Reversed(p.script[at..at + 32])
    ensures Check(H, p, x, nChainId, false) == Accepted
  {
    hide ExpectedIndex, Search, Reversed;
    var root := p.script[at..at + 32];
    assert Reversed(x) == root;
    FirstHere(p.script, at, root);
    HeaderNotFound(p.script);
    assert LittleEndian([1, 0, 0, 0]) == Pow2(0);
  }
}
