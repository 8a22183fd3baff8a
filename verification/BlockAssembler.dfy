/**
 * The class BlockAssembler of src/miner.cpp: loops that fill a block in place,
 * proved against module Mining. Which candidate the comparisons by priority or
 * fee rate prefer is left open: every outcome is covered.
 */
module BlockAssembler {
  import opened Common
  import opened Mining

  // ----------------------------------------------- one entry of the update

  /** The entry of x when the transactions of done, among those of added, have been processed. */
  ghost function EntryAt(p: Pool, m: map<Id, Figures>, added: set<Id>, done: set<Id>, x: Id): Option<Figures>
  {
    if x in p.ids && x !in added && p.anc(x) * done != {} then
      Some(Reduced(p, if x in m then m[x] else CachedFigures(p, x), x, done))
    else Find(m, x)
  }

  /** now holds what m becomes when done is processed, and half of what one more does. */
  ghost predicate Halfway(p: Pool, now: map<Id, Figures>, m: map<Id, Figures>, added: set<Id>,
                          done: set<Id>, more: set<Id>, half: set<Id>)
  {
    forall x: Id :: Find(now, x) == EntryAt(p, m, added, if x in half then done + more else done, x)
  }

  /** Processing one more transaction for one of its descendants. */
  lemma EntryStep(p: Pool, m: map<Id, Figures>, added: set<Id>, done: set<Id>, it: Id, x: Id)
    requires it !in done && x in p.ids && x !in added && it in p.anc(x)
    ensures var was := EntryAt(p, m, added, done, x);
      var f := if was.Some? then was.value else CachedFigures(p, x);
      EntryAt(p, m, added, done + {it}, x) == Some(Figures(f.size - p.size(it), f.sigops - p.sigops(it)))
  {
    var part := p.anc(x) * (done + {it});
    assert it in part && part - {it} == p.anc(x) * done;
    SumSplit(p.size, part, it);
    SumSplit(p.sigops, part, it);
    if p.anc(x) * done == {} {
      assert Sum(p.size, {}) == 0 && Sum(p.sigops, {}) == 0;
    }
  }

  /** A transaction that does not depend on it has the same entry before and after. */
  lemma EntrySame(p: Pool, m: map<Id, Figures>, added: set<Id>, done: set<Id>, it: Id, x: Id)
    requires !(x in p.ids && x !in added && it in p.anc(x))
    ensures EntryAt(p, m, added, done + {it}, x) == EntryAt(p, m, added, done, x)
  {
    if x in p.ids && x !in added {
      assert p.anc(x) * (done + {it}) == p.anc(x) * done;
    }
  }

  lemma UpdateReached(p: Pool, now: map<Id, Figures>, m: map<Id, Figures>, added: set<Id>)
    requires Halfway(p, now, m, added, added, {}, {})
    ensures now == Update(p, m, added)
  {
    var u := Update(p, m, added);
    forall x: Id ensures Find(now, x) == Find(u, x) {
      assert Find(now, x) == EntryAt(p, m, added, added, x);
      assert x in Affected(p, added) <==> x in p.ids && x !in added && p.anc(x) * added != {};
    }
    forall x: Id ensures x in now <==> x in u {
      assert Find(now, x) == Find(u, x);
    }
    forall x | x in now ensures now[x] == u[x] {
      assert Find(now, x) == Find(u, x);
    }
  }

  lemma HalfwayStart(p: Pool, m: map<Id, Figures>, added: set<Id>)
    ensures Halfway(p, m, m, added, {}, {}, {})
  {
    forall x: Id ensures EntryAt(p, m, added, {}, x) == Find(m, x) {
      if x in p.ids {
        assert p.anc(x) * {} == {};
      }
    }
  }

  /** Once all descendants are served, the transaction is done. */
  lemma HalfwayDone(p: Pool, now: map<Id, Figures>, m: map<Id, Figures>, added: set<Id>,
                    done: set<Id>, it: Id, served: set<Id>)
    requires Halfway(p, now, m, added, done, {it}, served)
    requires forall x | x in p.ids && x !in added && it in p.anc(x) :: x in served
    ensures Halfway(p, now, m, added, done + {it}, {}, {})
  {
    forall x: Id ensures Find(now, x) == EntryAt(p, m, added, done + {it}, x) {
      if x !in served {
        EntrySame(p, m, added, done, it, x);
      }
    }
  }

  /** Serving one descendant. */
  lemma HalfwayStep(p: Pool, now: map<Id, Figures>, next: map<Id, Figures>, m: map<Id, Figures>, added: set<Id>,
                    done: set<Id>, it: Id, served: set<Id>, x: Id)
    requires Halfway(p, now, m, added, done, {it}, served) && x !in served
    requires next - {x} == now - {x} && Find(next, x) == EntryAt(p, m, added, done + {it}, x)
    ensures Halfway(p, next, m, added, done, {it}, served + {x})
  {
    forall y: Id ensures
      Find(next, y) == EntryAt(p, m, added, if y in served + {x} then done + {it} else done, y)
    {
      if y != x {
        assert y in next <==> y in next - {x};
        assert y in now <==> y in now - {x};
        assert Find(now, y) == EntryAt(p, m, added, if y in served then done + {it} else done, y);
      }
    }
  }

  /** A least element by number of ancestors exists. */
  lemma {:induction false} LeastOf(p: Pool, s: set<Id>) returns (x: Id)
    requires s != {}
    ensures x in s && forall y | y in s :: |p.anc(x)| <= |p.anc(y)|
    decreases s
  {
    x := Pick(s);
    if s != {x} {
      var z := LeastOf(p, s - {x});
      if |p.anc(z)| < |p.anc(x)| {
        x := z;
      }
    }
  }

  /** How the priority phase ends: switched off, queue empty, its share reached with last, or block full. */
  datatype PriorityEnd = Off | Exhausted | Enough(last: Id) | Full

  /** How the package phase ends: not yet, nothing left, a fee rate that is too low, too many failures in a row. */
  datatype PackageEnd = Going | Done | LowFee(x: Id, f: Figures) | GaveUp

  /** What becomes of a candidate: in the block, figures too large, transactions not allowed or too large. */
  datatype Outcome = Taken | NoRoom | NotAllowed

  const MAX_CONSECUTIVE_FAILURES: nat := 1000

  class BlockAssembler {
    const pool: Pool
    const limits: Limits
    /** the transactions whose lock times allow them in this block */
    const final: set<Id>
    /** the transactions without witness data, or all of them once witnesses are allowed */
    const witnessOk: set<Id>
    var fNeedSizeAccounting: bool
    var vtx: seq<Id>
    var inBlock: set<Id>
    var nBlockWeight: int
    var nBlockSize: int
    var nBlockTx: int
    var nBlockSigOpsCost: int
    var nFees: int
    var lastFewTxs: int
    var blockFinished: bool

    ghost function Blk(): Block
      reads this
    {
      Block(vtx, inBlock, nBlockWeight, nBlockSigOpsCost, nBlockSize, nFees)
    }

    function Acceptable(): set<Id> {
      final * witnessOk
    }

    /** What holds whenever the assembler is between two steps. */
    ghost predicate Valid(sized: bool)
      reads this
    {
      && PoolOk(pool) && LimitsOk(limits) && BlockOk(pool, limits, Blk(), sized)
      && nBlockTx == |vtx| && inBlock <= Acceptable()
    }

    constructor (pool: Pool, limits: Limits, final: set<Id>, witnessOk: set<Id>, sized: bool)
      ensures this.pool == pool && this.limits == limits && this.final == final && this.witnessOk == witnessOk
      ensures fNeedSizeAccounting == sized
    {
      this.pool, this.limits, this.final, this.witnessOk, fNeedSizeAccounting := pool, limits, final, witnessOk, sized;
      vtx, inBlock, nBlockWeight, nBlockSize, nBlockTx, nBlockSigOpsCost := [], {}, 0, 0, 0, 0;
      nFees, lastFewTxs, blockFinished := 0, 0, false;
    }

    method ResetBlock()
      requires PoolOk(pool) && LimitsOk(limits)
      modifies this
      ensures fNeedSizeAccounting == old(fNeedSizeAccounting)
      ensures Blk() == EMPTY_BLOCK && Valid(true) && !blockFinished
    {
      vtx, inBlock := [], {};
      nBlockSize, nBlockWeight, nBlockSigOpsCost := COINBASE_SIZE, COINBASE_WEIGHT, COINBASE_SIGOPS;
      nBlockTx, nFees, lastFewTxs, blockFinished := 0, 0, 0, false;
      assert (set x | x in vtx) == {};
    }

    method AddToBlock(iter: Id)
      modifies this
      ensures Blk() == Mining.AddToBlock(pool, old(Blk()), iter, fNeedSizeAccounting)
      ensures nBlockTx == old(nBlockTx) + 1
      ensures fNeedSizeAccounting == old(fNeedSizeAccounting)
      ensures lastFewTxs == old(lastFewTxs) && blockFinished == old(blockFinished)
    {
      vtx := vtx + [iter];
      if fNeedSizeAccounting {
        nBlockSize := nBlockSize + pool.bytes(iter);
      }
      nBlockWeight := nBlockWeight + pool.weight(iter);
      nBlockTx := nBlockTx + 1;
      nBlockSigOpsCost := nBlockSigOpsCost + pool.sigops(iter);
      nFees := nFees + pool.fee(iter);
      inBlock := inBlock + {iter};
    }

    // ------------------------------------------------------ priority phase

    method IsStillDependent(iter: Id) returns (dependent: bool)
      requires iter in pool.ids
      ensures dependent <==> !(pool.parents(iter) <= inBlock)
    {
      var rest := pool.parents(iter);
      while rest != {}
        invariant rest <= pool.parents(iter) && pool.parents(iter) - rest <= inBlock
      {
        var parent :| parent in rest;
        if parent !in inBlock {
          return true;
        }
        rest := rest - {parent};
      }
      dependent := false;
    }

    /** Hardly anything more can fit, or it was tried often enough. */
    ghost predicate NearlyFull(sized: bool)
      reads this
    {
      || nBlockWeight > limits.maxWeight - 400 || (sized && nBlockSize > limits.maxSize - 100)
      || nBlockSigOpsCost > MAX_BLOCK_SIGOPS_COST - 8 || lastFewTxs > 50
    }

    /** Whether one transaction fits; a full block is flagged as finished. */
    method TestForBlock(iter: Id) returns (fits: bool)
      requires iter in pool.ids
      modifies `lastFewTxs, `blockFinished
      ensures fits <==>
        && nBlockWeight + pool.weight(iter) < limits.maxWeight
        && (fNeedSizeAccounting ==> nBlockSize + pool.bytes(iter) < limits.maxSize)
        && nBlockSigOpsCost + pool.sigops(iter) < MAX_BLOCK_SIGOPS_COST
        && iter in final
      ensures fits ==> blockFinished == old(blockFinished) && lastFewTxs == old(lastFewTxs)
      ensures old(blockFinished) ==> blockFinished
      ensures blockFinished ==> old(blockFinished) || old(NearlyFull(fNeedSizeAccounting))
      ensures (&& nBlockWeight + pool.weight(iter) >= limits.maxWeight
               && (nBlockWeight > limits.maxWeight - 400 || old(lastFewTxs) > 50)) ==> blockFinished
      ensures lastFewTxs == old(lastFewTxs) || lastFewTxs == old(lastFewTxs) + 1
      ensures lastFewTxs > old(lastFewTxs) ==>
        || nBlockWeight > limits.maxWeight - 4000
        || (fNeedSizeAccounting && nBlockSize > limits.maxSize - 1000)
    {
      if nBlockWeight + pool.weight(iter) >= limits.maxWeight {
        if nBlockWeight > limits.maxWeight - 400 || lastFewTxs > 50 {
          blockFinished := true;
          return false;
        }
        if nBlockWeight > limits.maxWeight - 4000 {
          lastFewTxs := lastFewTxs + 1;
        }
        return false;
      }
      if fNeedSizeAccounting {
        if nBlockSize + pool.bytes(iter) >= limits.maxSize {
          if nBlockSize > limits.maxSize - 100 || lastFewTxs > 50 {
            blockFinished := true;
            return false;
          }
          if nBlockSize > limits.maxSize - 1000 {
            lastFewTxs := lastFewTxs + 1;
          }
          return false;
        }
      }
      if nBlockSigOpsCost + pool.sigops(iter) >= MAX_BLOCK_SIGOPS_COST {
        if nBlockSigOpsCost > MAX_BLOCK_SIGOPS_COST - 8 {
          blockFinished := true;
        }
        return false;
      }
      fits := iter in final;
    }

    /** All parents in a closed block: then all ancestors are. */
    lemma ParentsSuffice(iter: Id)
      requires Dag(pool) && iter in pool.ids
      requires Closed(pool, inBlock) && pool.parents(iter) <= inBlock
      ensures pool.anc(iter) <= inBlock
    {
      forall y | y in pool.anc(iter) ensures y in inBlock {
        if y !in pool.parents(iter) {
          var z :| z in pool.parents(iter) && y in pool.anc(z);
        }
      }
    }

    lemma AddKeepsValid(iter: Id)
      requires Valid(true) && iter in pool.ids && iter !in inBlock && pool.anc(iter) <= inBlock
      ensures Shaped(pool, Mining.AddToBlock(pool, Blk(), iter, true), true)
    {
      hide Shaped;
      AddKeepsShape(pool, Blk(), iter, true);
    }

    /** Takes one transaction of the priority queue into the block exactly if it fits. */
    method TryPriority(iter: Id) returns (added: bool)
      requires Valid(true) && fNeedSizeAccounting && iter in pool.ids && iter !in inBlock && pool.anc(iter) <= inBlock
      requires iter in witnessOk
      modifies this
      ensures Valid(true) && fNeedSizeAccounting
      ensures added <==> FitsNext(pool, limits, final, old(vtx), iter)
      ensures vtx == if added then old(vtx) + [iter] else old(vtx)
      ensures inBlock == if added then old(inBlock) + {iter} else old(inBlock)
      ensures !added ==> RefusedNext(pool, limits, final, vtx, iter)
      ensures blockFinished ==> old(blockFinished) || NearlyFull(true)
    {
      hide Shaped, PoolOk, LimitsOk, FitsNext, RefusedNext;
      NextIsExact(pool, limits, final, Blk(), iter);
      added := TestForBlock(iter);
      if added {
        AddKeepsValid(iter);
        AddToBlock(iter);
      }
    }

    /** The queue and the waiting set never hold a transaction twice, or one of the block. */
    ghost predicate Queued(queue: seq<Id>, waiting: set<Id>)
      reads this
    {
      && NoRepeats(queue) && waiting <= pool.ids - inBlock
      && forall x | x in queue :: x in pool.ids && x !in inBlock && x !in waiting
    }

    /** The assembler's part of the priority loop's state. */
    ghost function Stand(queue: seq<Id>, waiting: set<Id>): Standing
      reads this
    {
      Standing(pool, limits, final, witnessOk, vtx, inBlock, queue, waiting)
    }

    /**
     * allowFree says whether a transaction's priority lets the phase go on after it.
     * When the queue runs out, whoever is left has a forbidden witness, misses a parent or did not fit.
     */
    method AddPriorityTxs(nBlockPrioritySize: nat, heap: seq<Id>, allowFree: Id -> bool) returns (end: PriorityEnd)
      requires Valid(true) && !blockFinished && Queued(heap, {})
      modifies this
      ensures Valid(true) && fNeedSizeAccounting == old(fNeedSizeAccounting) && old(vtx) <= vtx
      ensures end.Off? <==> nBlockPrioritySize == 0
      ensures end.Off? ==> Blk() == old(Blk())
      ensures end.Full? ==> blockFinished && NearlyFull(true)
      ensures end.Enough? ==>
                end.last in inBlock && (nBlockSize >= nBlockPrioritySize || !allowFree(end.last))
      ensures end.Exhausted? ==> PriorityComplete(Stand([], {}), heap)
    {
      hide Shaped, PoolOk, PriorityComplete;
      if nBlockPrioritySize == 0 {
        return Off;
      }
      var fSizeAccounting := fNeedSizeAccounting;
      fNeedSizeAccounting := true;
      end := PriorityLoop(nBlockPrioritySize, heap, allowFree);
      fNeedSizeAccounting := fSizeAccounting;
    }

    method PriorityLoop(nBlockPrioritySize: nat, heap: seq<Id>, allowFree: Id -> bool) returns (end: PriorityEnd)
      requires Valid(true) && fNeedSizeAccounting && !blockFinished && Queued(heap, {})
      modifies this
      ensures Valid(true) && fNeedSizeAccounting && old(vtx) <= vtx && !end.Off?
      ensures end.Full? ==> blockFinished && NearlyFull(true)
      ensures end.Enough? ==>
                end.last in inBlock && (nBlockSize >= nBlockPrioritySize || !allowFree(end.last))
      ensures end.Exhausted? ==> PriorityComplete(Stand([], {}), heap)
    {
      hide Valid, Queued, Stuck, Considered, PriorityComplete;
      var queue, waiting := heap, {};
      AllQueued(Stand(queue, waiting));
      while queue != [] && !blockFinished
        invariant Valid(true) && fNeedSizeAccounting && Queued(queue, waiting) && old(vtx) <= vtx
        invariant Stuck(Stand(queue, waiting)) && Considered(Stand(queue, waiting), heap)
        invariant blockFinished ==> NearlyFull(true)
        decreases |pool.ids - inBlock|, |queue|
      {
        var last;
        queue, waiting, last := PriorityTurn(heap, queue, waiting, nBlockPrioritySize, allowFree);
        if last.Some? {
          return Enough(last.value);
        }
      }
      if blockFinished {
        end := Full;
      } else {
        end := Exhausted;
        QueueEmpty(Stand(queue, waiting), heap);
      }
    }

    /** One turn of the priority loop; any entry of the heap may be its front. last is what ends the phase. */
    method PriorityTurn(ghost heap: seq<Id>, queueIn: seq<Id>, waitingIn: set<Id>, nBlockPrioritySize: nat,
                        allowFree: Id -> bool)
      returns (queue: seq<Id>, waiting: set<Id>, last: Option<Id>)
      requires Valid(true) && fNeedSizeAccounting && Queued(queueIn, waitingIn) && queueIn != []
      requires Stuck(Stand(queueIn, waitingIn)) && Considered(Stand(queueIn, waitingIn), heap)
      modifies this
      ensures Valid(true) && fNeedSizeAccounting && old(vtx) <= vtx
      ensures last.None? ==>
                Queued(queue, waiting) && Stuck(Stand(queue, waiting)) && Considered(Stand(queue, waiting), heap)
      ensures last.Some? ==>
                last.value in inBlock && (nBlockSize >= nBlockPrioritySize || !allowFree(last.value))
      ensures blockFinished ==> old(blockFinished) || NearlyFull(true)
      ensures |pool.ids - inBlock| < old(|pool.ids - inBlock|)
           || (inBlock == old(inBlock) && |queue| < |queueIn|)
    {
      hide Valid, Stuck, Considered, RefusedNext;
      var top :| 0 <= top < |queueIn|;
      var iter := queueIn[top];
      ghost var s := Stand(queueIn, waitingIn);
      PopKeeps(queueIn, waitingIn, top);
      queue, waiting, last := queueIn[..top] + queueIn[top + 1..], waitingIn, None;
      assert iter !in inBlock;
      if iter !in witnessOk {
        PopConsidered(s, heap, waiting, top);
        return;
      }
      var dependent := IsStillDependent(iter);
      if dependent {
        waiting := waiting + {iter};
        PopConsidered(s, heap, waiting, top);
        return;
      }
      ValidFacts(true);
      ParentsSuffice(iter);
      var added := TryPriority(iter);
      if added {
        StrictSubset(pool.ids - inBlock, pool.ids - old(inBlock), iter);
        if nBlockSize >= nBlockPrioritySize || !allowFree(iter) {
          last := Some(iter);
        } else {
          queue, waiting := Release(iter, queue, waiting);
          AddedConsidered(s, heap, top, queue, waiting);
        }
      } else {
        PopConsidered(s, heap, waiting, top);
      }
    }

    lemma ValidFacts(sized: bool)
      requires Valid(sized)
      ensures Dag(pool) && Closed(pool, inBlock)
    {
    }

    lemma PopKeeps(queue: seq<Id>, waiting: set<Id>, top: nat)
      requires Queued(queue, waiting) && top < |queue|
      ensures Queued(queue[..top] + queue[top + 1..], waiting)
      ensures queue[top] !in queue[..top] + queue[top + 1..]
      ensures queue[top] in pool.ids && queue[top] !in waiting && queue[top] !in inBlock
    {
      var rest := queue[..top] + queue[top + 1..];
      forall x | x in rest ensures x in queue {
      }
    }

    /** The children of an added transaction that were waiting go back to the queue. */
    method Release(iter: Id, queueIn: seq<Id>, waitingIn: set<Id>) returns (queue: seq<Id>, waiting: set<Id>)
      requires Queued(queueIn, waitingIn)
      ensures Queued(queue, waiting)
      ensures queueIn <= queue
      ensures waiting == set x | x in waitingIn && iter !in pool.parents(x)
      ensures forall x | x in waitingIn :: x in waiting || x in queue
    {
      queue, waiting := queueIn, waitingIn;
      var children := set c | c in pool.ids && iter in pool.parents(c);
      while children != {}
        invariant Queued(queue, waiting) && queueIn <= queue && waiting <= waitingIn
        invariant forall x | x in waitingIn :: x in waiting || x in queue
        invariant forall x | x in waitingIn && x !in waiting :: iter in pool.parents(x)
        invariant forall x | x in waiting && iter in pool.parents(x) :: x in children
      {
        var child :| child in children;
        if child in waiting {
          queue := queue + [child];
          waiting := waiting - {child};
        }
        children := children - {child};
      }
    }

    // ------------------------------------------------------- package phase

    method UpdatePackagesForAdded(alreadyAdded: set<Id>, m: map<Id, Figures>)
      returns (mapModifiedTx: map<Id, Figures>, nDescendantsUpdated: nat)
      ensures mapModifiedTx == Update(pool, m, alreadyAdded)
    {
      mapModifiedTx, nDescendantsUpdated := m, 0;
      ghost var done: set<Id> := {};
      var todo := alreadyAdded;
      HalfwayStart(pool, m, alreadyAdded);
      while todo != {}
        invariant todo <= alreadyAdded && done == alreadyAdded - todo
        invariant Halfway(pool, mapModifiedTx, m, alreadyAdded, done, {}, {})
      {
        hide Halfway;
        var it :| it in todo;
        var n;
        mapModifiedTx, n := ServeDescendants(it, alreadyAdded, m, mapModifiedTx, done);
        nDescendantsUpdated := nDescendantsUpdated + n;
        todo, done := todo - {it}, done + {it};
      }
      assert done == alreadyAdded;
      UpdateReached(pool, mapModifiedTx, m, alreadyAdded);
    }

    /** The inner loop of UpdatePackagesForAdded. */
    method ServeDescendants(it: Id, alreadyAdded: set<Id>, ghost m: map<Id, Figures>, now: map<Id, Figures>,
                            ghost done: set<Id>)
      returns (next: map<Id, Figures>, n: nat)
      requires it in alreadyAdded && it !in done
      requires Halfway(pool, now, m, alreadyAdded, done, {}, {})
      ensures Halfway(pool, next, m, alreadyAdded, done + {it}, {}, {})
    {
      next, n := now, 0;
      var descendants := set x | x in pool.ids && (x == it || it in pool.anc(x));
      ghost var served: set<Id> := {};
      assert Halfway(pool, next, m, alreadyAdded, done, {it}, served);
      while descendants != {}
        invariant descendants <= pool.ids
        invariant forall x | x in descendants :: x !in served && (x == it || it in pool.anc(x))
        invariant forall x | x in pool.ids && x !in alreadyAdded && it in pool.anc(x) :: x in served || x in descendants
        invariant Halfway(pool, next, m, alreadyAdded, done, {it}, served)
      {
        hide Halfway;
        var desc :| desc in descendants;
        descendants := descendants - {desc};
        if desc !in alreadyAdded {
          n := n + 1;
          next := ServeOne(it, desc, alreadyAdded, m, next, done, served);
          served := served + {desc};
        }
      }
      HalfwayDone(pool, next, m, alreadyAdded, done, it, served);
    }

    method ServeOne(it: Id, desc: Id, alreadyAdded: set<Id>, ghost m: map<Id, Figures>, now: map<Id, Figures>,
                    ghost done: set<Id>, ghost served: set<Id>)
      returns (next: map<Id, Figures>)
      requires it !in done && desc in pool.ids && desc !in alreadyAdded && it in pool.anc(desc) && desc !in served
      requires Halfway(pool, now, m, alreadyAdded, done, {it}, served)
      ensures Halfway(pool, next, m, alreadyAdded, done, {it}, served + {desc})
    {
      assert Find(now, desc) == EntryAt(pool, m, alreadyAdded, done, desc);
      EntryStep(pool, m, alreadyAdded, done, it, desc);
      hide EntryAt;
      if desc !in now {
        var f := CachedFigures(pool, desc);
        next := now[desc := Figures(f.size - pool.size(it), f.sigops - pool.sigops(it))];
      } else {
        next := now[desc := Figures(now[desc].size - pool.size(it), now[desc].sigops - pool.sigops(it))];
      }
      HalfwayStep(pool, now, next, m, alreadyAdded, done, it, served, desc);
    }

    /** onlyUnconfirmed, and the package's own transaction. */
    method PackageOf(iter: Id) returns (package: set<Id>)
      ensures package == Package(pool, Blk(), iter)
    {
      package := pool.anc(iter);
      var rest := package;
      while rest != {}
        invariant rest <= package <= pool.anc(iter)
        invariant package - rest !! inBlock
        invariant pool.anc(iter) - inBlock <= package
      {
        var x :| x in rest;
        if x in inBlock {
          package := package - {x};
        }
        rest := rest - {x};
      }
      assert package == pool.anc(iter) - inBlock;
      package := package + {iter};
    }

    method TestPackage(f: Figures) returns (fits: bool)
      ensures fits == Mining.TestPackage(limits, Blk(), f)
    {
      if nBlockWeight + 4 * f.size >= limits.maxWeight {
        return false;
      }
      fits := nBlockSigOpsCost + f.sigops < MAX_BLOCK_SIGOPS_COST;
    }

    method TestPackageTransactions(package: set<Id>) returns (fits: bool)
      requires PoolOk(pool) && package <= pool.ids && package != {}
      ensures fits <==>
        && package <= Acceptable()
        && (fNeedSizeAccounting ==> nBlockSize + Sum(pool.bytes, package) < limits.maxSize)
    {
      hide PoolOk;
      var nPotentialBlockSize := nBlockSize;
      var rest := package;
      while rest != {}
        invariant rest <= package && package - rest <= Acceptable()
        invariant fNeedSizeAccounting ==>
          && nPotentialBlockSize + Sum(pool.bytes, rest) == nBlockSize + Sum(pool.bytes, package)
          && (rest != package ==> nPotentialBlockSize < limits.maxSize)
      {
        var it :| it in rest;
        SumSplit(pool.bytes, rest, it);
        BytesLeft(rest - {it});
        if it !in final {
          return false;
        }
        if it !in witnessOk {
          return false;
        }
        if fNeedSizeAccounting {
          if nPotentialBlockSize + pool.bytes(it) >= limits.maxSize {
            return false;
          }
          nPotentialBlockSize := nPotentialBlockSize + pool.bytes(it);
        }
        rest := rest - {it};
      }
      fits := true;
    }

    lemma BytesLeft(s: set<Id>)
      requires PoolOk(pool) && s <= pool.ids
      ensures Sum(pool.bytes, s) >= 0
    {
      SumNonNegative(pool.bytes, s);
    }

    method SortForBlock(package: set<Id>) returns (sortedEntries: seq<Id>)
      ensures IsSortOf(pool, sortedEntries, package)
    {
      sortedEntries := [];
      var rest := package;
      while rest != {}
        invariant rest <= package
        invariant IsSortOf(pool, sortedEntries, package - rest)
        invariant forall x, y | x in sortedEntries && y in rest :: |pool.anc(x)| <= |pool.anc(y)|
      {
        ghost var least := LeastOf(pool, rest);
        var x :| x in rest && forall y | y in rest :: |pool.anc(x)| <= |pool.anc(y)|;
        SortAppend(sortedEntries, package - rest, x);
        sortedEntries := sortedEntries + [x];
        rest := rest - {x};
        assert package - rest == package - (rest + {x}) + {x};
      }
    }

    lemma SortAppend(v: seq<Id>, s: set<Id>, x: Id)
      requires IsSortOf(pool, v, s) && x !in s && forall y | y in v :: |pool.anc(y)| <= |pool.anc(x)|
      ensures IsSortOf(pool, v + [x], s + {x})
    {
      assert forall y | y in v :: y in s;
      assert (set y | y in v + [x]) == s + {x};
    }

    /** Adds a sorted package; its transactions leave the modified set. */
    method AddPackage(sortedEntries: seq<Id>, m: map<Id, Figures>) returns (mapModifiedTx: map<Id, Figures>)
      modifies this
      ensures Blk() == AddAll(pool, old(Blk()), sortedEntries, fNeedSizeAccounting)
      ensures nBlockTx - |vtx| == old(nBlockTx - |vtx|) && fNeedSizeAccounting == old(fNeedSizeAccounting)
      ensures mapModifiedTx == m - Ids(sortedEntries)
    {
      mapModifiedTx := m;
      for i := 0 to |sortedEntries|
        invariant fNeedSizeAccounting == old(fNeedSizeAccounting)
        invariant Blk() == AddAll(pool, old(Blk()), sortedEntries[..i], fNeedSizeAccounting)
        invariant nBlockTx - |vtx| == old(nBlockTx - |vtx|)
        invariant mapModifiedTx == m - Ids(sortedEntries[..i])
      {
        AddOneMore(pool, old(Blk()), sortedEntries, i, fNeedSizeAccounting);
        hide AddAll, Mining.AddToBlock, Ids;
        AddToBlock(sortedEntries[i]);
        mapModifiedTx := mapModifiedTx - {sortedEntries[i]};
      }
      assert sortedEntries[..|sortedEntries|] == sortedEntries;
    }

    /** The assembler's part of the loop state. */
    ghost function Looping(rest: seq<Id>, m: map<Id, Figures>, failed: set<Id>): Loop
      reads this
    {
      Loop(Blk(), m, failed, rest)
    }

    /** What holds whenever the package loop is at its head; tried are the candidates that failed in a row. */
    ghost predicate Kept(order: seq<Id>, rest: seq<Id>, m: map<Id, Figures>, failed: set<Id>, tried: seq<Id>)
      reads this
    {
      && nBlockTx == |vtx| && inBlock <= Acceptable()
      && LoopKept(pool, limits, Acceptable(), fNeedSizeAccounting, order, Looping(rest, m, failed), tried)
    }

    /** A candidate whose fee rate was too low for its figures, and that is not in the block. */
    ghost predicate TooCheap(lowFee: (Id, Figures, seq<Id>) -> bool, x: Id, f: Figures)
      reads this
    {
      && x in pool.ids && x !in inBlock && lowFee(x, f, vtx)
      && AtLeast(f, TrueFigures(pool, x, inBlock))
    }

    /**
     * order is the mempool index by ancestor score; lowFee compares the fees of a candidate's package, given
     * what the block holds, with the least rate. When the loop runs to its end, every transaction of the
     * index is in the block or was refused while the block was filled.
     */
    method AddPackageTxs(order: seq<Id>, lowFee: (Id, Figures, seq<Id>) -> bool)
      returns (end: PackageEnd, ghost tried: seq<Id>)
      requires Valid(fNeedSizeAccounting) && forall x | x in order :: x in pool.ids
      modifies this
      ensures fNeedSizeAccounting == old(fNeedSizeAccounting)
      ensures Valid(fNeedSizeAccounting) && old(vtx) <= vtx
      ensures !end.Going?
      ensures end.Done? ==> Complete(pool, limits, Acceptable(), fNeedSizeAccounting, order, Blk())
      ensures end.LowFee? ==> TooCheap(lowFee, end.x, end.f)
      ensures end.GaveUp? ==>
                && |tried| > MAX_CONSECUTIVE_FAILURES
                && AllRefused(pool, limits, Acceptable(), fNeedSizeAccounting, vtx, tried)
                && nBlockWeight > limits.maxWeight - 4000
    {
      var sized := fNeedSizeAccounting;
      LoopStartOk(pool, limits, Blk(), order, sized);
      StartSettled(pool, limits, Acceptable(), sized, Blk(), order);
      var mapModifiedTx, updated := UpdatePackagesForAdded(inBlock, map[]);
      var failedTx: set<Id> := {};
      var rest, nConsecutiveFailed := order, 0;
      end, tried := Going, [];
      while rest != [] || mapModifiedTx != map[]
        invariant fNeedSizeAccounting == sized && end.Going? && |tried| == nConsecutiveFailed
        invariant Kept(order, rest, mapModifiedTx, failedTx, tried) && old(vtx) <= vtx
        decreases |pool.ids - inBlock|, |rest|, |mapModifiedTx|
      {
        hide Kept, TooCheap, AllRefused;
        rest, mapModifiedTx, failedTx, nConsecutiveFailed, end, tried :=
          PackageTurn(order, rest, mapModifiedTx, failedTx, nConsecutiveFailed, lowFee, tried);
        if !end.Going? {
          KeptValid(order, rest, mapModifiedTx, failedTx, tried);
          return;
        }
      }
      KeptValid(order, rest, mapModifiedTx, failedTx, tried);
      end := Done;
    }

    lemma KeptValid(order: seq<Id>, rest: seq<Id>, m: map<Id, Figures>, failed: set<Id>, tried: seq<Id>)
      requires LimitsOk(limits) && Kept(order, rest, m, failed, tried)
      ensures Valid(fNeedSizeAccounting) && AllRefused(pool, limits, Acceptable(), fNeedSizeAccounting, vtx, tried)
      ensures rest == [] && m == map[] ==>
                Complete(pool, limits, Acceptable(), fNeedSizeAccounting, order, Blk())
    {
      hide PoolOk, Shaped, FiguresOk, Refused;
    }

    /** One turn of the package loop. */
    method PackageTurn(ghost order: seq<Id>, restIn: seq<Id>, modifiedIn: map<Id, Figures>, failedIn: set<Id>,
                       nFailedIn: nat, lowFee: (Id, Figures, seq<Id>) -> bool, ghost triedIn: seq<Id>)
      returns (rest: seq<Id>, mapModifiedTx: map<Id, Figures>, failedTx: set<Id>, nConsecutiveFailed: nat,
               end: PackageEnd, ghost tried: seq<Id>)
      requires Kept(order, restIn, modifiedIn, failedIn, triedIn) && |triedIn| == nFailedIn
      requires restIn != [] || modifiedIn != map[]
      modifies this
      ensures fNeedSizeAccounting == old(fNeedSizeAccounting) && old(vtx) <= vtx
      ensures Kept(order, rest, mapModifiedTx, failedTx, tried) && |tried| == nConsecutiveFailed
      ensures end.Going? ==> Lower(Left(pool, Looping(rest, mapModifiedTx, failedTx)),
                                   old(Left(pool, Looping(restIn, modifiedIn, failedIn))))
      ensures !end.Done?
      ensures end.LowFee? ==> TooCheap(lowFee, end.x, end.f)
      ensures end.GaveUp? ==>
                nConsecutiveFailed > MAX_CONSECUTIVE_FAILURES && nBlockWeight > limits.maxWeight - 4000
    {
      hide Left, Lower, TooCheap, LoopKept, Turn, ChoiceOk, Honest, PoolOk, LoopOk, Accepts, FitsAfter;
      rest, mapModifiedTx, failedTx := restIn, modifiedIn, failedIn;
      nConsecutiveFailed, end, tried := nFailedIn, Going, triedIn;
      ghost var k := Looping(restIn, modifiedIn, failedIn);
      KeptFacts(order, rest, mapModifiedTx, failedTx, tried);
      if rest != [] && (rest[0] in mapModifiedTx || rest[0] in inBlock || rest[0] in failedTx) {
        rest := rest[1..];
        SkipKeeps(pool, limits, Acceptable(), fNeedSizeAccounting, order, k, tried);
        return;
      }
      var preferModified: bool := *;
      var best := 0;
      if rest == [] || (mapModifiedTx != map[] && preferModified) {
        best :| best in mapModifiedTx;
      }
      var fUsingModified := rest == [] || (mapModifiedTx != map[] && preferModified);
      var iter := if fUsingModified then best else rest[0];
      var f := if fUsingModified then mapModifiedTx[best] else CachedFigures(pool, rest[0]);
      if lowFee(iter, f, vtx) {
        CheapIsOut(k, Choice(preferModified, best, false, []), lowFee);
        end := LowFee(iter, f);
        return;
      }
      var outcome;
      ghost var c;
      rest, mapModifiedTx, failedTx, outcome, c := Evaluate(rest, mapModifiedTx, failedTx, preferModified, best);
      EvaluatedKeeps(pool, limits, Acceptable(), fNeedSizeAccounting, order, k, c, tried);
      if outcome.Taken? {
        nConsecutiveFailed, tried := 0, [];
      } else if outcome.NoRoom? {
        nConsecutiveFailed, tried := nConsecutiveFailed + 1, tried + [iter];
        if nConsecutiveFailed > MAX_CONSECUTIVE_FAILURES && nBlockWeight > limits.maxWeight - 4000 {
          end := GaveUp;
        }
      }
    }

    /** Tests the chosen candidate and takes its package or turns it away. */
    method Evaluate(restIn: seq<Id>, modifiedIn: map<Id, Figures>, failedIn: set<Id>, preferModified: bool, best: Id)
      returns (rest: seq<Id>, mapModifiedTx: map<Id, Figures>, failedTx: set<Id>, outcome: Outcome, ghost c: Choice)
      requires PoolOk(pool) && nBlockTx == |vtx| && inBlock <= Acceptable() && (restIn != [] || modifiedIn != map[])
      requires LoopOk(pool, limits, Looping(restIn, modifiedIn, failedIn), fNeedSizeAccounting)
      requires !Skips(Looping(restIn, modifiedIn, failedIn))
      requires Choosable(pool, Looping(restIn, modifiedIn, failedIn), Choice(preferModified, best, false, []))
      modifies this
      ensures fNeedSizeAccounting == old(fNeedSizeAccounting) && nBlockTx == |vtx| && inBlock <= Acceptable()
      ensures c.preferModified == preferModified && c.best == best
      ensures var k := old(Looping(restIn, modifiedIn, failedIn));
        && ChoiceOk(pool, limits, k, c, fNeedSizeAccounting) && Honest(pool, Acceptable(), k, c)
        && Looping(rest, mapModifiedTx, failedTx) == Turn(pool, limits, k, c, fNeedSizeAccounting)
        && (outcome.Taken? <==> Accepts(pool, limits, k, c, fNeedSizeAccounting))
        && (outcome.NoRoom? <==> !Mining.TestPackage(limits, k.block, Tested(pool, k, c)))
      ensures var x := old(Candidate(Looping(restIn, modifiedIn, failedIn), Choice(preferModified, best, false, [])));
        && (outcome.Taken? <==> x in inBlock)
        && (outcome.Taken? ==> FitsAfter(pool, limits, Acceptable(), fNeedSizeAccounting, old(vtx), x))
        && (x !in failedIn && FitsAfter(pool, limits, Acceptable(), fNeedSizeAccounting, old(vtx), x) ==> x in inBlock)
    {
      hide LoopOk, PoolOk, Update, AddAll, FiguresOk, FitsAfter, Sum, IsSortOf;
      rest, mapModifiedTx, failedTx := restIn, modifiedIn, failedIn;
      ghost var k := Looping(restIn, modifiedIn, failedIn);
      var fUsingModified := rest == [] || (mapModifiedTx != map[] && preferModified);
      var iter := if fUsingModified then best else rest[0];
      var f := if fUsingModified then mapModifiedTx[best] else CachedFigures(pool, rest[0]);
      c := Choice(preferModified, best, false, []);
      CandidateFigures(pool, limits, k, c, fNeedSizeAccounting);
      assert iter !in inBlock;
      var package := PackageOf(iter);
      AncestorsInPool(iter);
      c := c.(isFinal := package <= Acceptable());
      AcceptsWhatFits(pool, limits, Acceptable(), fNeedSizeAccounting, k, c);
      outcome := TestBoth(f, package);
      if !outcome.Taken? {
        if fUsingModified {
          mapModifiedTx, failedTx := mapModifiedTx - {best}, failedTx + {best};
        } else {
          rest := rest[1..];
        }
      } else {
        if !fUsingModified {
          rest := rest[1..];
        }
        var sorted;
        mapModifiedTx, sorted := TakePackage(package, mapModifiedTx);
        c := c.(sorted := sorted);
      }
    }

    lemma KeptFacts(order: seq<Id>, rest: seq<Id>, m: map<Id, Figures>, failed: set<Id>, tried: seq<Id>)
      requires Kept(order, rest, m, failed, tried)
      ensures PoolOk(pool) && nBlockTx == |vtx| && inBlock <= Acceptable()
      ensures LoopOk(pool, limits, Looping(rest, m, failed), fNeedSizeAccounting)
      ensures forall x | x in rest :: x in pool.ids
      ensures forall x | x in m :: x in pool.ids
    {
    }

    lemma CheapIsOut(k: Loop, c: Choice, lowFee: (Id, Figures, seq<Id>) -> bool)
      requires PoolOk(pool) && LoopOk(pool, limits, k, fNeedSizeAccounting) && k.block == Blk()
      requires Running(k) && !Skips(k) && Choosable(pool, k, c)
      requires lowFee(Candidate(k, c), Tested(pool, k, c), vtx)
      ensures TooCheap(lowFee, Candidate(k, c), Tested(pool, k, c))
    {
      CandidateFigures(pool, limits, k, c, fNeedSizeAccounting);
    }

    lemma AncestorsInPool(x: Id)
      requires PoolOk(pool) && x in pool.ids
      ensures pool.anc(x) <= pool.ids
    {
    }

    /** The two tests of a package, by figures and by transactions. */
    method TestBoth(f: Figures, package: set<Id>) returns (outcome: Outcome)
      requires PoolOk(pool) && package <= pool.ids && package != {}
      ensures outcome.NoRoom? <==> !Mining.TestPackage(limits, Blk(), f)
      ensures outcome.Taken? <==>
        && Mining.TestPackage(limits, Blk(), f)
        && package <= Acceptable()
        && (fNeedSizeAccounting ==> nBlockSize + Sum(pool.bytes, package) < limits.maxSize)
    {
      var fits := TestPackage(f);
      if !fits {
        return NoRoom;
      }
      fits := TestPackageTransactions(package);
      outcome := if fits then Taken else NotAllowed;
    }

    /** Sorts a package, adds it and updates the entries of its descendants. */
    method TakePackage(package: set<Id>, m: map<Id, Figures>)
      returns (mapModifiedTx: map<Id, Figures>, sorted: seq<Id>)
      requires nBlockTx == |vtx|
      modifies this
      ensures fNeedSizeAccounting == old(fNeedSizeAccounting) && nBlockTx == |vtx|
      ensures inBlock == old(inBlock) + package
      ensures IsSortOf(pool, sorted, package)
      ensures Blk() == AddAll(pool, old(Blk()), sorted, fNeedSizeAccounting)
      ensures mapModifiedTx == Update(pool, m - package, package)
    {
      hide Update, AddAll;
      sorted := SortForBlock(package);
      AddAllIn(pool, Blk(), sorted, fNeedSizeAccounting);
      var rest := AddPackage(sorted, m);
      assert rest == m - package;
      var updated;
      mapModifiedTx, updated := UpdatePackagesForAdded(package, rest);
    }

    /** CreateNewBlock, as far as it chooses transactions. */
    method CreateNewBlock(nBlockPrioritySize: nat, heap: seq<Id>, allowFree: Id -> bool, order: seq<Id>,
                          lowFee: (Id, Figures, seq<Id>) -> bool)
      returns (first: PriorityEnd, end: PackageEnd)
      requires PoolOk(pool) && LimitsOk(limits)
      requires NoRepeats(heap) && (forall x | x in heap :: x in pool.ids) && forall x | x in order :: x in pool.ids
      modifies this
      ensures fNeedSizeAccounting == old(fNeedSizeAccounting)
      ensures Valid(fNeedSizeAccounting) && inBlock <= Acceptable() && !end.Going?
      ensures first.Off? <==> nBlockPrioritySize == 0
      ensures end.Done? ==> Complete(pool, limits, Acceptable(), fNeedSizeAccounting, order, Blk())
      ensures end.LowFee? ==> TooCheap(lowFee, end.x, end.f)
      ensures end.GaveUp? ==> nBlockWeight > limits.maxWeight - 4000
    {
      ResetBlock();
      first := AddPriorityTxs(nBlockPrioritySize, heap, allowFree);
      hide TooCheap, Complete, PoolOk;
      ghost var tried;
      end, tried := AddPackageTxs(order, lowFee);
    }
  }
}
