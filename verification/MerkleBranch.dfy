/**
 * Merkle branches (src/consensus/merkle.cpp): the pass of module MerkleRoot
 * with a position to follow, which collects the siblings on the way from that
 * leaf to the root, and the way back from a leaf and its branch to the root.
 */
module MerkleBranch {
  import opened Arithmetic
  import opened Common
  import opened MerkleTree
  import opened MerkleRoot

  // -------------------------------------------------------------- from a branch

  /** The root above a leaf, given the other hashes on the way and the position of the leaf. */
  function Climb(H: PairHash, hash: Digest, branch: seq<Digest>, nIndex: nat): Digest
    decreases |branch|
  {
    if branch == [] then hash else Climb(H, Joined(H, hash, branch[0], nIndex), branch[1..], nIndex / 2)
  }

  function Joined(H: PairHash, hash: Digest, other: Digest, nIndex: nat): Digest {
    if nIndex % 2 == 1 then H(other, hash) else H(hash, other)
  }

  method ComputeMerkleRootFromBranch(H: PairHash, leaf: Digest, vMerkleBranch: seq<Digest>, position: nat)
    returns (hash: Digest)
    ensures hash == Climb(H, leaf, vMerkleBranch, position)
  {
    hash := leaf;
    var nIndex := position;
    assert vMerkleBranch[0..] == vMerkleBranch;
    for i := 0 to |vMerkleBranch|
      invariant Climb(H, hash, vMerkleBranch[i..], nIndex) == Climb(H, leaf, vMerkleBranch, position)
    {
      assert vMerkleBranch[i..][1..] == vMerkleBranch[i + 1..];
      if nIndex % 2 == 1 {
        hash := H(vMerkleBranch[i], hash);
      } else {
        hash := H(hash, vMerkleBranch[i]);
      }
      nIndex := nIndex / 2;
    }
  }

  lemma {:induction false} ClimbOnce(H: PairHash, hash: Digest, branch: seq<Digest>, other: Digest, nIndex: nat)
    ensures Climb(H, hash, branch + [other], nIndex) ==
            Joined(H, Climb(H, hash, branch, nIndex), other, Shr(nIndex, |branch|))
    decreases |branch|
  {
    hide Joined;
    var all := branch + [other];
    if branch == [] {
      assert all[1..] == [];
    } else {
      assert all[1..] == branch[1..] + [other];
      ClimbOnce(H, Joined(H, hash, branch[0], nIndex), branch[1..], other, nIndex / 2);
      ShrOnce(nIndex, |branch|);
    }
  }

  // -------------------------------------------------------------- the siblings

  lemma {:induction false} ShrInside(p: nat, n: nat, l: nat)
    requires p < n
    ensures Shr(p, l) < Width(n, l)
  {
    if l > 0 {
      ShrInside(p, n, l - 1);
    }
  }

  /** The sibling of node p in a level of w nodes; the last of an odd level is its own. */
  function SiblingOf(p: nat, w: nat): (r: nat)
    requires p < w
    ensures r < w
  {
    if p % 2 == 1 then p - 1 else if p + 1 < w then p + 1 else p
  }

  /** The hash beside the node above leaf pos at level l. */
  ghost function Beside(H: PairHash, s: seq<Digest>, pos: nat, l: nat): Digest
    requires pos < |s|
  {
    ShrInside(pos, |s|, l);
    NodeHash(H, s, l, SiblingOf(Shr(pos, l), Width(|s|, l)))
  }

  /** The hashes beside the way up from leaf pos to level m. */
  ghost function BranchTo(H: PairHash, s: seq<Digest>, pos: nat, m: nat): (r: seq<Digest>)
    requires pos < |s|
    ensures |r| == m
  {
    if m == 0 then [] else BranchTo(H, s, pos, m - 1) + [Beside(H, s, pos, m - 1)]
  }

  lemma NodeAndSibling(H: PairHash, s: seq<Digest>, pos: nat, l: nat)
    requires pos < |s|
    ensures Shr(pos, l) < Width(|s|, l) && Shr(pos, l + 1) < Width(|s|, l + 1)
    ensures NodeHash(H, s, l + 1, Shr(pos, l + 1)) ==
            Joined(H, NodeHash(H, s, l, Shr(pos, l)), Beside(H, s, pos, l), Shr(pos, l))
  {
    hide NodeHash;
    ShrInside(pos, |s|, l);
    NodeAbove(H, s, l, Shr(pos, l + 1));
  }

  /** The branch of every leaf leads to the node above it at every level. */
  lemma {:induction false} BranchClimbs(H: PairHash, s: seq<Digest>, pos: nat, m: nat)
    requires pos < |s|
    ensures Shr(pos, m) < Width(|s|, m)
    ensures Climb(H, s[pos], BranchTo(H, s, pos, m), pos) == NodeHash(H, s, m, Shr(pos, m))
  {
    if m == 0 {
      LeafNode(H, s, pos);
    } else {
      hide NodeHash, Joined, Beside, Climb;
      BranchClimbs(H, s, pos, m - 1);
      ClimbOnce(H, s[pos], BranchTo(H, s, pos, m - 1), Beside(H, s, pos, m - 1), pos);
      NodeAndSibling(H, s, pos, m - 1);
    }
  }

  // -------------------------------------------------------------------- the pass

  /** The node of inner that has leaf pos below it is at level m. */
  ghost predicate IsMatchLevel(c: nat, pos: nat, m: int) {
    m >= 0 && Shr(c, m) % 2 == 1 && Shr(pos, m) == Shr(c, m) - 1
  }

  /** After c leaves: the level at which leaf pos is, and the branch up to there. */
  ghost predicate Followed(H: PairHash, s: seq<Digest>, c: nat, pos: nat, m: int, branch: seq<Digest>)
    requires c <= |s|
  {
    if pos < c then IsMatchLevel(c, pos, m) && branch == BranchTo(H, s, pos, m)
    else m == -1 && branch == []
  }

  /** Above its level a leaf and the count agree, so there is only one such level. */
  lemma {:induction false} AgreeAbove(c: nat, pos: nat, m: nat, l: nat)
    requires IsMatchLevel(c, pos, m) && m < l
    ensures Shr(pos, l) == Shr(c, l)
  {
    if m + 1 < l {
      AgreeAbove(c, pos, m, l - 1);
    }
  }

  lemma OneMatchLevel(c: nat, pos: nat, m: int, l: int)
    requires IsMatchLevel(c, pos, m) && IsMatchLevel(c, pos, l)
    ensures m == l
  {
    hide Shr;
    if m < l {
      AgreeAbove(c, pos, m, l);
    } else if l < m {
      AgreeAbove(c, pos, l, m);
    }
  }

  /**
   * While leaf c - 1 is taken in, with a node at this level in hand: either leaf pos is below that node and
   * the branch has reached the level, or it is still where it was after c - 1 leaves.
   */
  ghost predicate Following(H: PairHash, s: seq<Digest>, c: nat, pos: nat, level: nat, m: int, branch: seq<Digest>,
                            matchh: bool)
    requires 0 < c <= |s|
  {
    if matchh then pos < c && Shr(pos, level) == Shr(c, level) - 1 && branch == BranchTo(H, s, pos, level)
    else pos != c - 1 && Followed(H, s, c - 1, pos, m, branch) && (pos < c ==> m >= level)
  }

  lemma FollowUp(H: PairHash, s: seq<Digest>, c: nat, pos: nat, level: nat, m: int, branch: seq<Digest>, matchh: bool,
                 left: Digest, right: Digest)
    requires 0 < c <= |s| && Following(H, s, c, pos, level, m, branch, matchh)
    requires Shr(c, level) % 2 == 0 && Shr(c, level) > 0 && Shr(c - 1, level) == Shr(c, level) - 1
    requires HoldsNode(H, s, level, Shr(c, level) - 2, left) && HoldsNode(H, s, level, Shr(c, level) - 1, right)
    ensures matchh ==> Following(H, s, c, pos, level + 1, m, branch + [left], true)
    ensures !matchh && m == level ==> Following(H, s, c, pos, level + 1, m, branch + [right], true)
    ensures !matchh && m != level ==> Following(H, s, c, pos, level + 1, m, branch, false)
  {
    if pos < |s| {
      ShrInside(pos, |s|, level);
    }
    hide NodeHash;
  }

  /** Takes in one leaf. */
  method AddLeafFollowing(H: PairHash, leaves: seq<Digest>, countIn: nat, inner: array<Digest>, branchpos: nat,
                          matchlevelIn: int, branchIn: seq<Digest>)
    returns (count: nat, matchlevel: int, branch: seq<Digest>)
    requires countIn < |leaves| <= MAX_LEAVES && inner.Length == 32 && Inner(H, leaves, countIn, inner[..])
    requires Followed(H, leaves, countIn, branchpos, matchlevelIn, branchIn)
    modifies inner
    ensures count == countIn + 1 && Inner(H, leaves, count, inner[..])
    ensures Followed(H, leaves, count, branchpos, matchlevel, branch)
  {
    hide NodeHash, Width, Following, Followed, BranchTo, IsMatchLevel, Repeats;
    var h := leaves[countIn];
    var matchh := countIn == branchpos;
    count, matchlevel, branch := countIn + 1, matchlevelIn, branchIn;
    var level: nat := 0;
    LeafNode(H, leaves, countIn);
    StartFollowing(H, leaves, count, branchpos, matchlevel, branch);
    ghost var was := inner[..];
    while Shr(count, level) % 2 == 0
      invariant inner[..] == was && Shr(count, level) > 0 && Shr(countIn, level) == Shr(count, level) - 1
      invariant forall k: nat | k < level :: Shr(count, k) % 2 == 0
      invariant HoldsNode(H, leaves, level, Shr(count, level) - 1, h)
      invariant matchlevel == matchlevelIn && Following(H, leaves, count, branchpos, level, matchlevel, branch, matchh)
      decreases Shr(count, level)
    {
      LevelBelow32(count, level);
      assert HoldsNode(H, leaves, level, Shr(countIn, level) - 1, inner[level]);
      FollowUp(H, leaves, count, branchpos, level, matchlevel, branch, matchh, inner[level], h);
      NodeAbove(H, leaves, level, Shr(count, level + 1) - 1);
      if matchh {
        branch := branch + [inner[level]];
      } else if matchlevel == level {
        branch := branch + [h];
        matchh := true;
      }
      h := H(inner[level], h);
      level := level + 1;
    }
    LevelBelow32(count, level);
    inner[level] := h;
    InnerNext(H, leaves, count, level, was, inner[..], h);
    EndFollowing(H, leaves, count, branchpos, level, matchlevel, branch, matchh);
    if matchh {
      matchlevel := level;
    }
  }

  lemma StartFollowing(H: PairHash, s: seq<Digest>, c: nat, pos: nat, m: int, branch: seq<Digest>)
    requires 0 < c <= |s| && Followed(H, s, c - 1, pos, m, branch)
    ensures Following(H, s, c, pos, 0, m, branch, pos == c - 1)
  {
  }

  lemma EndFollowing(H: PairHash, s: seq<Digest>, c: nat, pos: nat, level: nat, m: int, branch: seq<Digest>,
                     matchh: bool)
    requires 0 < c <= |s| && Following(H, s, c, pos, level, m, branch, matchh)
    requires Shr(c, level) % 2 == 1 && Shr(c - 1, level) == Shr(c, level) - 1
    ensures Followed(H, s, c, pos, if matchh then level else m, branch)
  {
    hide BranchTo;
    if !matchh && pos < c && m != level {
      ShrAgree(c, level, m);
    }
  }

  // ------------------------------------------------------------------ the sweep

  /** During the sweep: leaf pos is below the last node of the level, or further up in inner, or not there. */
  ghost predicate Tracing(H: PairHash, s: seq<Digest>, pos: nat, level: nat, m: int, branch: seq<Digest>, matchh: bool)
  {
    if pos >= |s| then !matchh && m == -1 && branch == []
    else if matchh then Shr(pos, level) == Width(|s|, level) - 1 && branch == BranchTo(H, s, pos, level)
    else
      && IsMatchLevel(|s|, pos, m) && branch == BranchTo(H, s, pos, m)
      && m >= level && Shr(pos, level) < Width(|s|, level) - 1
  }

  lemma StartTracing(H: PairHash, s: seq<Digest>, pos: nat, level: nat, m: int, branch: seq<Digest>)
    requires Followed(H, s, |s|, pos, m, branch)
    requires Shr(|s|, level) == Width(|s|, level) && Shr(|s|, level) % 2 == 1
    requires forall k: nat | k < level :: Shr(|s|, k) % 2 == 0
    ensures Tracing(H, s, pos, level, m, branch, m == level)
  {
    hide BranchTo, Shr, Width;
    if pos < |s| {
      ShrInside(pos, |s|, level);
      if Shr(pos, level) == Width(|s|, level) - 1 {
        OneMatchLevel(|s|, pos, m, level);
      }
    }
  }

  lemma TraceOdd(H: PairHash, s: seq<Digest>, pos: nat, level: nat, m: int, branch: seq<Digest>, matchh: bool,
                 h: Digest)
    requires Tracing(H, s, pos, level, m, branch, matchh) && (matchh || m != level)
    requires Width(|s|, level) % 2 == 1 && HoldsNode(H, s, level, Width(|s|, level) - 1, h)
    ensures Tracing(H, s, pos, level + 1, m, if matchh then branch + [h] else branch, matchh)
  {
    hide NodeHash;
  }

  lemma TraceEven(H: PairHash, s: seq<Digest>, pos: nat, level: nat, m: int, branch: seq<Digest>, matchh: bool,
                  left: Digest, right: Digest)
    requires Tracing(H, s, pos, level, m, branch, matchh)
    requires Width(|s|, level) % 2 == 0 && Width(|s|, level) == Shr(|s|, level) + 1
    requires HoldsNode(H, s, level, Shr(|s|, level) - 1, left) && HoldsNode(H, s, level, Width(|s|, level) - 1, right)
    ensures matchh ==> Tracing(H, s, pos, level + 1, m, branch + [left], true)
    ensures !matchh && m == level ==> Tracing(H, s, pos, level + 1, m, branch + [right], true)
    ensures !matchh && m != level ==> Tracing(H, s, pos, level + 1, m, branch, false)
  {
    hide NodeHash;
    if pos < |s| && !matchh && m != level && Shr(pos, level) == Shr(|s|, level) - 1 {
      OneMatchLevel(|s|, pos, m, level);
    }
  }

  method SweepFollowing(H: PairHash, leaves: seq<Digest>, inner: array<Digest>, branchpos: nat, matchlevel: int,
                        branchIn: seq<Digest>)
    returns (h: Digest, branch: seq<Digest>, ghost top: nat)
    requires 0 < |leaves| <= MAX_LEAVES && inner.Length == 32 && Inner(H, leaves, |leaves|, inner[..])
    requires Followed(H, leaves, |leaves|, branchpos, matchlevel, branchIn)
    ensures IsHeight(|leaves|, top)
    ensures branch == if branchpos < |leaves| then BranchTo(H, leaves, branchpos, top) else []
  {
    hide NodeHash, Shr, Width, Pow2, Mul, WideBelow, Tracing, BranchTo, Followed, IsMatchLevel;
    ghost var n := |leaves|;
    var count: nat, level: nat := |leaves|, 0;
    branch := branchIn;
    AtZero(n);
    while Shr(count, level) % 2 == 0
      invariant count == n == Mul(Width(n, level), Pow2(level))
      invariant Shr(n, level) == Width(n, level) > 0 && WideBelow(n, level)
      invariant forall k: nat | k < level :: Shr(n, k) % 2 == 0
      decreases Shr(n, level)
    {
      HalveEven(n, level);
      level := level + 1;
    }
    LevelBelow32(n, level);
    h := inner[level];
    var matchh := matchlevel == level;
    StartTracing(H, leaves, branchpos, level, matchlevel, branch);
    assert HoldsNode(H, leaves, level, Shr(n, level) - 1, inner[..][level]);
    RoundedCount(Width(n, level), level);
    while count != Pow2(level)
      invariant Width(n, level) % 2 == 1 && Swept(H, leaves, level, h, count)
      invariant count == Pow2(level) <==> Width(n, level) == 1
      invariant Tracing(H, leaves, branchpos, level, matchlevel, branch, matchh) && (matchh || matchlevel != level)
      decreases Width(n, level)
    {
      ghost var width := Width(n, level);
      SweepOdd(H, leaves, level, h, count);
      TraceOdd(H, leaves, branchpos, level, matchlevel, branch, matchh, h);
      if matchh {
        branch := branch + [h];
      }
      h := H(h, h);
      count := count + Pow2(level);
      level := level + 1;
      RoundedCount(Width(n, level), level);
      while Shr(count, level) % 2 == 0
        invariant Swept(H, leaves, level, h, count) && Shr(count, level) == Width(n, level) == Shr(n, level) + 1
        invariant Width(n, level) < width && (count == Pow2(level) <==> Width(n, level) == 1)
        invariant Tracing(H, leaves, branchpos, level, matchlevel, branch, matchh)
        decreases Width(n, level)
      {
        SweepEven(H, leaves, level, h, count);
        LevelBelow32(n, level);
        assert HoldsNode(H, leaves, level, Shr(n, level) - 1, inner[..][level]);
        TraceEven(H, leaves, branchpos, level, matchlevel, branch, matchh, inner[level], h);
        if matchh {
          branch := branch + [inner[level]];
        } else if matchlevel == level {
          branch := branch + [h];
          matchh := true;
        }
        h := H(inner[level], h);
        level := level + 1;
        RoundedCount(Width(n, level), level);
      }
      NotHere(H, leaves, branchpos, level, matchlevel, branch, matchh);
    }
    top := level;
    TopReached(n, level);
    TracedToTop(H, leaves, branchpos, level, matchlevel, branch, matchh);
  }

  lemma NotHere(H: PairHash, s: seq<Digest>, pos: nat, level: nat, m: int, branch: seq<Digest>, matchh: bool)
    requires Tracing(H, s, pos, level, m, branch, matchh) && Shr(|s|, level) % 2 == 0
    ensures matchh || m != level
  {
  }

  lemma TracedToTop(H: PairHash, s: seq<Digest>, pos: nat, level: nat, m: int, branch: seq<Digest>, matchh: bool)
    requires Tracing(H, s, pos, level, m, branch, matchh) && Width(|s|, level) == 1
    ensures branch == if pos < |s| then BranchTo(H, s, pos, level) else []
  {
  }

  /** The siblings of a leaf on its way to the root; no leaf, no siblings. */
  method ComputeMerkleBranch(H: PairHash, leaves: seq<Digest>, position: nat)
    returns (branch: seq<Digest>, ghost top: nat)
    requires |leaves| <= MAX_LEAVES
    ensures leaves != [] ==> IsHeight(|leaves|, top)
    ensures branch == if position < |leaves| then BranchTo(H, leaves, position, top) else []
  {
    hide Width, Shr, NodeHash, IsHeight, BranchTo;
    if |leaves| == 0 {
      return [], 0;
    }
    var count: nat, matchlevel := 0, -1;
    var inner := new Digest[32](_ => 0);
    branch := [];
    NoneRepeats(H, leaves);
    while count < |leaves|
      invariant count <= |leaves| && Inner(H, leaves, count, inner[..])
      invariant Followed(H, leaves, count, position, matchlevel, branch)
    {
      hide Followed;
      count, matchlevel, branch := AddLeafFollowing(H, leaves, count, inner, position, matchlevel, branch);
    }
    var h;
    h, branch, top := SweepFollowing(H, leaves, inner, position, matchlevel, branch);
  }

  /** The branch of a leaf, the leaf and its position give the root of all leaves. */
  method BranchThenRoot(H: PairHash, leaves: seq<Digest>, position: nat) returns (oldRoot: Digest, newRoot: Digest)
    requires position < |leaves| <= MAX_LEAVES
    ensures oldRoot == newRoot
  {
    hide Climb, BranchTo, CalcHash;
    var mutated, branch;
    ghost var h, top;
    oldRoot, mutated, h := ComputeMerkleRoot(H, leaves);
    branch, top := ComputeMerkleBranch(H, leaves, position);
    newRoot := ComputeMerkleRootFromBranch(H, leaves[position], branch, position);
    OneHeight(|leaves|, h, top);
    BranchClimbs(H, leaves, position, h);
    RootIsNode(H, leaves, h);
  }
}
