/**
 * Block indexes with skip pointers and the active chain (src/chain.cpp,
 * src/chain.h): the fast walks and updates, proved against walking back one
 * block at a time.
 */
module Chain {
  import opened Arithmetic
  import opened SkipList

  // ------------------------------------------------------------ block index

  /** CBlockIndex; its links do not change once the block is in the tree. */
  class BlockIndex {
    const pprev: BlockIndex?
    const pskip: BlockIndex?
    const nHeight: nat

    /** Following pprev leads down to height 0, one at a time. */
    ghost predicate Linked()
      decreases nHeight
    {
      if pprev == null then nHeight == 0 else nHeight == pprev.nHeight + 1 && pprev.Linked()
    }

    /** The ancestor at height h, found by following pprev. */
    ghost function Walk(h: nat): (b: BlockIndex)
      requires Linked() && h <= nHeight
      ensures b.Linked() && b.nHeight == h
      decreases nHeight
    {
      if h == nHeight then this else pprev.Walk(h)
    }

    /** Every skip pointer on the way down is the one BuildSkip makes. */
    ghost predicate Valid()
      decreases nHeight
    {
      && Linked()
      && if pprev == null then pskip == null else pskip == pprev.Walk(GetSkipHeight(nHeight)) && pprev.Valid()
    }

    constructor Genesis()
      ensures Valid() && pprev == null
    {
      pprev, pskip, nHeight := null, null, 0;
    }

    /** A new block on top of another, with BuildSkip. */
    constructor Extend(prev: BlockIndex)
      requires prev.Valid()
      ensures Valid() && pprev == prev
    {
      var skip, steps := prev.GetAncestor(GetSkipHeight(prev.nHeight + 1));
      pprev, pskip, nHeight := prev, skip, prev.nHeight + 1;
    }

    /** steps counts the turns of the loop. */
    method GetAncestor(height: int) returns (r: BlockIndex?, ghost steps: nat)
      requires Valid()
      ensures r == if 0 <= height <= nHeight then Walk(height) else null
      ensures steps == if 0 <= height <= nHeight then Steps(nHeight, height) else 0
    {
      steps := 0;
      if height > nHeight || height < 0 {
        return null, 0;
      }
      hide Linked, Walk, Valid, BitAnd, InvertLowestOne, GetSkipHeight;
      var walk: BlockIndex, heightWalk := this, nHeight;
      assert walk == Walk(nHeight) by { WalkSelf(); }
      while heightWalk > height
        invariant height <= heightWalk <= nHeight && walk == Walk(heightWalk)
        invariant steps + Steps(heightWalk, height) == Steps(nHeight, height)
      {
        Links(heightWalk);
        var heightSkip := GetSkipHeight(heightWalk);
        var heightSkipPrev := GetSkipHeight(heightWalk - 1);
        if walk.pskip != null &&
           (heightSkip == height ||
            (heightSkip > height && !(heightSkipPrev < heightSkip - 2 && heightSkipPrev >= height))) {
          walk := walk.pskip;
          heightWalk := heightSkip;
        } else {
          assert walk.pprev != null;
          walk := walk.pprev;
          heightWalk := heightWalk - 1;
        }
        steps := steps + 1;
      }
      r := walk;
    }

    lemma WalkSelf()
      requires Linked()
      ensures Walk(nHeight) == this
    {
    }

    /** Walking in two stages. */
    lemma {:induction false} WalkWalk(h: nat, k: nat)
      requires Linked() && k <= h <= nHeight
      ensures Walk(h).Walk(k) == Walk(k)
      decreases nHeight
    {
      if h < nHeight {
        pprev.WalkWalk(h, k);
      }
    }

    lemma {:induction false} WalkValid(h: nat)
      requires Valid() && h <= nHeight
      ensures Walk(h).Valid()
      decreases nHeight
    {
      if h < nHeight {
        pprev.WalkValid(h);
      }
    }

    /** The two links of an ancestor, as walks from here. */
    lemma {:induction false} Links(h: nat)
      requires Valid() && 0 < h <= nHeight
      ensures Walk(h).pprev == Walk(h - 1)
      ensures Walk(h).pskip == Walk(GetSkipHeight(h))
    {
      WalkValid(h);
      WalkWalk(h, h - 1);
      WalkWalk(h, GetSkipHeight(h));
    }
  }

  ghost predicate IsAncestor(a: BlockIndex, b: BlockIndex)
    requires b.Linked()
  {
    a.nHeight <= b.nHeight && b.Walk(a.nHeight) == a
  }

  // --------------------------------------------------------- the active chain

  /** The whole path from genesis to a block. */
  ghost function PathTo(b: BlockIndex): (p: seq<BlockIndex>)
    requires b.Valid()
    ensures |p| == b.nHeight + 1 && forall h: nat | h < |p| :: p[h] == b.Walk(h)
  {
    seq(b.nHeight + 1, h requires 0 <= h <= b.nHeight => b.Walk(h))
  }

  class CChain {
    var vChain: seq<BlockIndex>

    /** The chain is the path to its last block. */
    ghost predicate Valid()
      reads this
    {
      vChain != [] ==> vChain[|vChain| - 1].Valid() && vChain == PathTo(vChain[|vChain| - 1])
    }

    constructor ()
      ensures Valid() && vChain == []
    {
      vChain := [];
    }

    function At(h: int): (b: BlockIndex?)
      reads this
    {
      if 0 <= h < |vChain| then vChain[h] else null
    }

    predicate Contains(b: BlockIndex)
      reads this
    {
      At(b.nHeight) == b
    }

    function Height(): int
      reads this
    {
      |vChain| - 1
    }

    /** The blocks of a valid chain, and the ancestors of each. */
    lemma ChainFacts(h: nat)
      requires Valid() && h < |vChain|
      ensures vChain[h].Valid() && vChain[h].nHeight == h
      ensures forall k: nat | k <= h :: vChain[k] == vChain[h].Walk(k)
    {
      var tip := vChain[|vChain| - 1];
      tip.WalkValid(h);
      forall k: nat | k <= h ensures vChain[k] == vChain[h].Walk(k) {
        tip.WalkWalk(h, k);
      }
    }

    /** Overwrites entries from the new tip down until the old chain already agrees. */
    method SetTip(pindex: BlockIndex?)
      requires Valid() && (pindex != null ==> pindex.Valid())
      modifies this
      ensures Valid()
      ensures vChain == if pindex == null then [] else PathTo(pindex)
    {
      if pindex == null {
        vChain := [];
        return;
      }
      ghost var was := vChain;
      var n := pindex.nHeight + 1;
      var chain: seq<BlockIndex?> := seq(n, i requires 0 <= i < n reads this => At(i));
      var cur: BlockIndex? := pindex;
      while cur != null && chain[cur.nHeight] != cur
        invariant |chain| == n && vChain == was
        invariant cur != null ==> cur.Linked() && cur.nHeight < n && cur == pindex.Walk(cur.nHeight)
        invariant forall h: nat | h < n ::
                    chain[h] == if cur != null && h <= cur.nHeight then At(h) else pindex.Walk(h)
        decreases if cur == null then 0 else cur.nHeight + 1
      {
        chain := chain[cur.nHeight := cur];
        if cur.pprev != null {
          pindex.WalkWalk(cur.nHeight, cur.pprev.nHeight);
        }
        cur := cur.pprev;
      }
      forall h: nat | h < n ensures chain[h] == pindex.Walk(h) {
        if cur != null && h <= cur.nHeight {
          ChainFacts(cur.nHeight);
          pindex.WalkWalk(cur.nHeight, h);
        }
      }
      vChain := seq(n, i requires 0 <= i < n && chain[i] != null => chain[i]);
      assert vChain == PathTo(pindex);
    }

    /** The highest block of the chain that a block descends from. */
    method FindFork(pindex: BlockIndex?) returns (r: BlockIndex?)
      requires Valid() && (pindex != null ==> pindex.Valid())
      ensures pindex == null ==> r == null
      ensures pindex != null && r != null ==> Contains(r) && IsAncestor(r, pindex)
      ensures pindex != null ==>
                forall b: BlockIndex | Contains(b) && IsAncestor(b, pindex) :: r != null && b.nHeight <= r.nHeight
    {
      if pindex == null {
        return null;
      }
      r := ForkStart(pindex);
      hide NoneAbove, BlockIndex.Walk, BlockIndex.Linked;
      while r != null && !Contains(r)
        invariant r != null ==> r.nHeight <= pindex.nHeight && r == pindex.Walk(r.nHeight)
        invariant NoneAbove(pindex, if r == null then -1 else r.nHeight)
        decreases if r == null then 0 else r.nHeight + 1
      {
        OneLower(pindex, r.nHeight);
        r := Parent(pindex, r);
      }
      HighestFork(pindex, if r == null then -1 else r.nHeight);
    }

    /** The block itself, or its ancestor at the height of the chain. */
    method ForkStart(pindex: BlockIndex) returns (r: BlockIndex?)
      requires pindex.Valid()
      ensures r != null ==> r.nHeight <= pindex.nHeight && r == pindex.Walk(r.nHeight)
      ensures NoneAbove(pindex, if r == null then -1 else r.nHeight)
    {
      r := pindex;
      pindex.WalkSelf();
      if pindex.nHeight > Height() {
        ghost var steps;
        r, steps := pindex.GetAncestor(Height());
      }
    }

    lemma OneLower(b: BlockIndex, h: nat)
      requires b.Linked() && h <= b.nHeight && NoneAbove(b, h) && At(h) != b.Walk(h)
      ensures NoneAbove(b, h - 1)
    {
    }

    lemma HighestFork(b: BlockIndex, h: int)
      requires b.Linked() && NoneAbove(b, h)
      ensures forall a: BlockIndex | Contains(a) && IsAncestor(a, b) :: a.nHeight <= h
    {
      forall a: BlockIndex | Contains(a) && IsAncestor(a, b) ensures a.nHeight <= h {
        assert At(a.nHeight) == b.Walk(a.nHeight);
      }
    }

    method Parent(ghost from: BlockIndex, b: BlockIndex) returns (r: BlockIndex?)
      requires from.Valid() && b.nHeight <= from.nHeight && b == from.Walk(b.nHeight)
      ensures r == if b.nHeight == 0 then null else from.Walk(b.nHeight - 1)
    {
      r := b.pprev;
      if r != null {
        from.Links(b.nHeight);
      }
    }

    /** No ancestor of the block higher than h is on the chain. */
    ghost predicate NoneAbove(b: BlockIndex, h: int)
      requires b.Linked()
      reads this
    {
      forall k: nat | h < k <= b.nHeight :: At(k) != b.Walk(k)
    }

    /**
     * The blocks that a locator names: ancestors of the start, each lower than the
     * one before, the start first, height 0 last, and in between at known depths.
     */
    ghost predicate Locates(have: seq<BlockIndex>, start: BlockIndex)
      requires start.Linked()
    {
      && |have| > 0 && have[0] == start && have[|have| - 1].nHeight == 0
      && Descends(have, start) && Spaced(have, start.nHeight)
    }

    /** Block locator for a block, by default for the tip. */
    method GetLocator(pindex: BlockIndex?) returns (have: seq<BlockIndex>)
      requires Valid() && (pindex != null ==> pindex.Valid())
      ensures pindex == null && vChain == [] ==> have == []
      ensures pindex != null ==> Locates(have, pindex) && ShortFor(|have|, pindex.nHeight)
      ensures pindex == null && vChain != [] ==>
                Locates(have, vChain[|vChain| - 1]) && ShortFor(|have|, vChain[|vChain| - 1].nHeight)
    {
      var start := pindex;
      if start == null {
        if vChain == [] {
          return [];
        }
        start := vChain[|vChain| - 1];
      }
      have := LocateFrom(start);
    }

    method LocateFrom(start: BlockIndex) returns (have: seq<BlockIndex>)
      requires Valid() && start.Valid()
      ensures Locates(have, start) && ShortFor(|have|, start.nHeight)
    {
      assert start.Linked();
      hide BlockIndex.Linked, BlockIndex.Walk, BlockIndex.Valid, ShortFor, StepOk, Pow2, Descends, Contains, Valid;
      hide Spaced;
      DescendsStart(start);
      have := [];
      var nStep: nat := 1;
      var cur := start;
      start.WalkSelf();
      StepStart(start.nHeight);
      while true
        invariant cur.nHeight <= start.nHeight && cur == start.Walk(cur.nHeight)
        invariant Descends(have, start) && Spaced(have, start.nHeight)
        invariant have == [] ==> cur == start
        invariant have != [] ==> have[0] == start && cur.nHeight < have[|have| - 1].nHeight
        invariant StepOk(|have|, nStep, start.nHeight, cur.nHeight)
        invariant ShortFor(|have| + 1, start.nHeight)
        decreases cur.nHeight
      {
        DescendsFurther(have, cur, start);
        SpacedFurther(have, cur, nStep, start.nHeight);
        have := have + [cur];
        if cur.nHeight == 0 {
          break;
        }
        var nHeight := if cur.nHeight - nStep > 0 then cur.nHeight - nStep else 0;
        StepOn(|have| - 1, nStep, start.nHeight, cur.nHeight);
        cur := Earlier(start, cur, nHeight);
        if |have| > 10 {
          nStep := nStep * 2;
        }
      }
    }

    /** The block at a lower height: out of the chain when it is on it, else by the skip list. */
    method Earlier(ghost start: BlockIndex, cur: BlockIndex, nHeight: nat) returns (r: BlockIndex)
      requires Valid() && start.Valid() && nHeight <= cur.nHeight <= start.nHeight
      requires cur == start.Walk(cur.nHeight)
      ensures r == start.Walk(nHeight)
    {
      start.WalkValid(cur.nHeight);
      start.WalkWalk(cur.nHeight, nHeight);
      if Contains(cur) {
        ChainFacts(cur.nHeight);
        r := vChain[nHeight];
      } else {
        ghost var steps;
        r, steps := cur.GetAncestor(nHeight);
      }
    }
  }

  /** Ancestors of a block, each lower than the one before. */
  ghost predicate Descends(have: seq<BlockIndex>, start: BlockIndex)
    requires start.Linked()
  {
    && (forall i | 0 <= i < |have| :: IsAncestor(have[i], start))
    && (forall i | 0 < i < |have| :: have[i].nHeight < have[i - 1].nHeight)
  }

  /** How far below the start entry i of a locator is: ten steps of one, then steps that double. */
  function LocatorDepth(i: nat): nat {
    if i <= 10 then i else 9 + Pow2(i - 10)
  }

  ghost predicate IsAtDepth(height: nat, start: nat, i: nat) {
    height == if LocatorDepth(i) <= start then start - LocatorDepth(i) else 0
  }

  /** Every entry is as far below the start as its place says, or at height 0. */
  ghost predicate Spaced(have: seq<BlockIndex>, start: nat) {
    forall i | 0 <= i < |have| :: IsAtDepth(have[i].nHeight, start, i)
  }

  lemma SpacedFurther(have: seq<BlockIndex>, b: BlockIndex, nStep: nat, start: nat)
    requires Spaced(have, start) && StepOk(|have|, nStep, start, b.nHeight)
    ensures Spaced(have + [b], start)
  {
    hide LocatorDepth;
  }

  /** Consecutive depths are one apart up to the eleventh entry, and then twice as far each time. */
  lemma DepthsDouble(i: nat)
    ensures LocatorDepth(0) == 0
    ensures i <= 10 ==> LocatorDepth(i + 1) - LocatorDepth(i) == 1
    ensures i >= 10 ==>
              LocatorDepth(i + 2) - LocatorDepth(i + 1) == 2 * (LocatorDepth(i + 1) - LocatorDepth(i))
  {
  }

  lemma DescendsStart(start: BlockIndex)
    requires start.Linked()
    ensures Descends([], start) && Spaced([], start.nHeight)
  {
  }

  lemma DescendsFurther(have: seq<BlockIndex>, b: BlockIndex, start: BlockIndex)
    requires start.Linked() && Descends(have, start) && IsAncestor(b, start)
    requires have != [] ==> b.nHeight < have[|have| - 1].nHeight
    ensures Descends(have + [b], start)
  {
    hide IsAncestor, BlockIndex.Linked, BlockIndex.Walk;
    var more := have + [b];
    forall i | 0 < i < |more| ensures more[i].nHeight < more[i - 1].nHeight {
      assert more[i - 1] == have[i - 1];
      assert i < |have| ==> more[i] == have[i];
    }
  }

  /** n is at most 12 + log2(height + 1). */
  ghost predicate ShortFor(n: nat, height: nat) {
    n > 12 ==> Pow2(n - 12) <= height + 1
  }

  /** After n blocks from the given height down, the step and the position are known. */
  ghost predicate StepOk(n: nat, nStep: nat, height: nat, at: nat) {
    nStep == (if n <= 10 then 1 else Pow2(n - 10)) && IsAtDepth(at, height, n)
  }

  lemma StepStart(height: nat)
    ensures StepOk(0, 1, height, height) && ShortFor(1, height)
  {
  }

  /** One more block: the step doubles from the eleventh on, and the length stays short. */
  lemma {:induction false} StepOn(n: nat, nStep: nat, height: nat, at: nat)
    requires StepOk(n, nStep, height, at) && 0 < at <= height
    ensures StepOk(n + 1, if n + 1 > 10 then nStep * 2 else nStep, height, if at - nStep > 0 then at - nStep else 0)
    ensures nStep > 0
    ensures ShortFor(n + 2, height)
  {
  }
}
