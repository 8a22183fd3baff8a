/**
 * Block assembly (src/miner.cpp) as values: a mempool of transactions that
 * depend on each other, a block under construction, the bookkeeping of the
 * package selection, and what each of its steps does.
 */
module Mining {

  type Id = nat

  // -------------------------------------------------------- sums over sets

  ghost function Pick(s: set<Id>): (x: Id)
    requires s != {}
    ensures x in s
  {
    var x :| x in s;
    x
  }

  ghost function Sum(w: Id -> int, s: set<Id>): int
  {
    if s == {} then 0 else w(Pick(s)) + Sum(w, s - {Pick(s)})
  }

  lemma {:induction false} SumSplit(w: Id -> int, s: set<Id>, x: Id)
    requires x in s
    ensures Sum(w, s) == w(x) + Sum(w, s - {x})
    decreases s
  {
    var y := Pick(s);
    if y != x {
      SumSplit(w, s - {y}, x);
      SumSplit(w, s - {x}, y);
      assert s - {y} - {x} == s - {x} - {y};
    }
  }

  lemma {:induction false} SumUnion(w: Id -> int, a: set<Id>, b: set<Id>)
    requires a !! b
    ensures Sum(w, a + b) == Sum(w, a) + Sum(w, b)
    decreases a
  {
    if a == {} {
      assert a + b == b;
    } else {
      var x := Pick(a);
      SumSplit(w, a + b, x);
      assert a + b - {x} == (a - {x}) + b;
      SumUnion(w, a - {x}, b);
    }
  }

  /** The sum over a set is the sum over a part and the sum over the rest. */
  lemma SumPart(w: Id -> int, s: set<Id>, part: set<Id>)
    requires part <= s
    ensures Sum(w, s) == Sum(w, part) + Sum(w, s - part)
  {
    SumUnion(w, part, s - part);
    assert part + (s - part) == s;
  }

  lemma {:induction false} SumNonNegative(w: Id -> int, s: set<Id>)
    requires forall x | x in s :: w(x) >= 0
    ensures Sum(w, s) >= 0
    decreases s
  {
    if s != {} {
      SumNonNegative(w, s - {Pick(s)});
    }
  }

  lemma {:induction false} SumScaled(w: Id -> int, v: Id -> int, k: int, s: set<Id>)
    requires forall x | x in s :: w(x) <= k * v(x)
    ensures Sum(w, s) <= k * Sum(v, s)
    decreases s
  {
    if s != {} {
      var x := Pick(s);
      SumScaled(w, v, k, s - {x});
      assert k * (v(x) + Sum(v, s - {x})) == k * v(x) + k * Sum(v, s - {x});
    }
  }

  // ------------------------------------------------------------ the mempool

  /**
   * size is the virtual size, bytes the serialized size; anc holds all
   * transactions that one depends on, without itself; the last two are the
   * totals over a transaction and its ancestors that the mempool caches.
   */
  datatype Pool = Pool(
    ids: set<Id>,
    size: Id -> int, weight: Id -> int, sigops: Id -> int, bytes: Id -> int, fee: Id -> int,
    parents: Id -> set<Id>, anc: Id -> set<Id>,
    sizeWithAnc: Id -> int, sigopsWithAnc: Id -> int)

  /** A transaction together with its ancestors. */
  function Family(p: Pool, x: Id): set<Id>
  {
    p.anc(x) + {x}
  }

  /** No transaction depends on itself, and dependence is transitive and comes from parents. */
  ghost predicate Dag(p: Pool)
  {
    && (forall x | x in p.ids :: p.anc(x) <= p.ids && x !in p.anc(x) && p.parents(x) <= p.anc(x))
    && (forall x, y | x in p.ids && y in p.anc(x) :: p.anc(y) <= p.anc(x))
    && (forall x, y | x in p.ids && y in p.anc(x) && y !in p.parents(x) ::
          exists z | z in p.parents(x) :: y in p.anc(z))
  }

  ghost predicate PoolOk(p: Pool) {
    && Dag(p)
    && (forall x | x in p.ids ::
          && 0 <= p.weight(x) <= 4 * p.size(x) && p.sigops(x) >= 0 && p.bytes(x) >= 0
          && p.sizeWithAnc(x) == Sum(p.size, Family(p, x))
          && p.sigopsWithAnc(x) == Sum(p.sigops, Family(p, x)))
  }

  // -------------------------------------------------------------- the block

  const MAX_BLOCK_SIGOPS_COST: nat := 80000
  const COINBASE_WEIGHT: nat := 4000
  const COINBASE_SIGOPS: nat := 400
  const COINBASE_SIZE: nat := 1000

  datatype Limits = Limits(maxWeight: nat, maxSize: nat)

  predicate LimitsOk(l: Limits) {
    l.maxWeight >= 4000 && l.maxSize >= 1000
  }

  /** vtx holds the block's transactions after the coinbase. */
  datatype Block = Block(vtx: seq<Id>, inBlock: set<Id>, weight: int, sigops: int, size: int, fees: int)

  const EMPTY_BLOCK := Block([], {}, COINBASE_WEIGHT, COINBASE_SIGOPS, COINBASE_SIZE, 0)

  /** AddToBlock; sized says whether serialized sizes are accounted for. */
  function AddToBlock(p: Pool, b: Block, x: Id, sized: bool): Block
  {
    Block(b.vtx + [x], b.inBlock + {x}, b.weight + p.weight(x), b.sigops + p.sigops(x),
          if sized then b.size + p.bytes(x) else b.size, b.fees + p.fee(x))
  }

  ghost predicate Closed(p: Pool, s: set<Id>)
  {
    s <= p.ids && forall x | x in s :: p.anc(x) <= s
  }

  /** Every ancestor of a transaction stands before it. */
  ghost predicate InOrder(p: Pool, v: seq<Id>)
  {
    forall i | 0 <= i < |v| :: v[i] in p.ids && forall y | y in p.anc(v[i]) :: y in v[..i]
  }

  predicate NoRepeats(v: seq<Id>) {
    forall i, j | 0 <= i < j < |v| :: v[i] != v[j]
  }

  /** Each transaction once, after all it depends on, and the totals exact. */
  ghost predicate Shaped(p: Pool, b: Block, sized: bool)
  {
    && b.inBlock == (set x | x in b.vtx) && NoRepeats(b.vtx)
    && InOrder(p, b.vtx) && Closed(p, b.inBlock)
    && b.weight == COINBASE_WEIGHT + Sum(p.weight, b.inBlock)
    && b.sigops == COINBASE_SIGOPS + Sum(p.sigops, b.inBlock)
    && b.fees == Sum(p.fee, b.inBlock)
    && (sized ==> b.size == COINBASE_SIZE + Sum(p.bytes, b.inBlock))
  }

  predicate WithinLimits(l: Limits, b: Block, sized: bool) {
    b.weight <= l.maxWeight && b.sigops < MAX_BLOCK_SIGOPS_COST && (sized ==> b.size <= l.maxSize)
  }

  /** What a block must be like at every moment of its assembly. */
  ghost predicate BlockOk(p: Pool, l: Limits, b: Block, sized: bool)
  {
    Shaped(p, b, sized) && WithinLimits(l, b, sized)
  }

  // ----------------------------------------------------- package selection

  /** CTxMemPoolModifiedEntry without its fee totals. */
  datatype Figures = Figures(size: int, sigops: int)

  function CachedFigures(p: Pool, x: Id): Figures
  {
    Figures(p.sizeWithAnc(x), p.sigopsWithAnc(x))
  }

  /** The totals over those of a transaction's family that are not in the block. */
  ghost function TrueFigures(p: Pool, x: Id, inBlock: set<Id>): Figures
  {
    Figures(Sum(p.size, Family(p, x) - inBlock), Sum(p.sigops, Family(p, x) - inBlock))
  }

  predicate AtLeast(f: Figures, g: Figures) {
    f.size >= g.size && f.sigops >= g.sigops
  }

  /** The entry of a descendant after the transactions of added were taken into the block. */
  ghost function Reduced(p: Pool, f: Figures, x: Id, added: set<Id>): Figures
  {
    Figures(f.size - Sum(p.size, p.anc(x) * added), f.sigops - Sum(p.sigops, p.anc(x) * added))
  }

  /** The transactions outside added that depend on one in added. */
  function Affected(p: Pool, added: set<Id>): set<Id>
  {
    set x | x in p.ids && x !in added && p.anc(x) * added != {}
  }

  /** UpdatePackagesForAdded */
  ghost function Update(p: Pool, m: map<Id, Figures>, added: set<Id>): map<Id, Figures>
  {
    map x | x in m.Keys + Affected(p, added) ::
      if x in Affected(p, added) then Reduced(p, if x in m then m[x] else CachedFigures(p, x), x, added) else m[x]
  }

  /** What the loop of addPackageTxs carries: rest is what is left of the mempool index. */
  datatype Loop = Loop(block: Block, modified: map<Id, Figures>, failed: set<Id>, rest: seq<Id>)

  predicate TestPackage(l: Limits, b: Block, f: Figures) {
    b.weight + 4 * f.size < l.maxWeight && b.sigops + f.sigops < MAX_BLOCK_SIGOPS_COST
  }

  function Package(p: Pool, b: Block, x: Id): set<Id>
  {
    (p.anc(x) - b.inBlock) + {x}
  }

  /** An order by number of ancestors; ties may be in any order. */
  ghost predicate IsSortOf(p: Pool, v: seq<Id>, s: set<Id>)
  {
    && s == (set x | x in v) && NoRepeats(v)
    && forall i, j | 0 <= i < j < |v| :: |p.anc(v[i])| <= |p.anc(v[j])|
  }

  function AddAll(p: Pool, b: Block, v: seq<Id>, sized: bool): Block
    decreases |v|
  {
    if v == [] then b else AddToBlock(p, AddAll(p, b, v[..|v| - 1], sized), v[|v| - 1], sized)
  }

  function Ids(v: seq<Id>): set<Id> {
    set x | x in v
  }

  lemma AddOneMore(p: Pool, b: Block, v: seq<Id>, i: nat, sized: bool)
    requires i < |v|
    ensures AddAll(p, b, v[..i + 1], sized) == AddToBlock(p, AddAll(p, b, v[..i], sized), v[i], sized)
    ensures Ids(v[..i + 1]) == Ids(v[..i]) + {v[i]}
  {
    assert v[..i + 1] == v[..i] + [v[i]] && v[..i + 1][..i] == v[..i];
  }

  /** A package in order: what stands before each transaction covers its missing ancestors. */
  lemma SortCovers(p: Pool, b: Block, x: Id, v: seq<Id>, i: nat)
    requires Dag(p) && x in p.ids && Package(p, b, x) <= p.ids
    requires IsSortOf(p, v, Package(p, b, x)) && i < |v|
    ensures v[i] in p.ids && forall y | y in p.anc(v[i]) :: y in b.inBlock || y in v[..i]
  {
    assert v[i] in Package(p, b, x);
    forall y | y in p.anc(v[i]) ensures y in b.inBlock || y in v[..i] {
      if y !in b.inBlock {
        assert y in Package(p, b, x);
        var j :| 0 <= j < |v| && v[j] == y;
        FewerAncestors(p, v[i], y);
        assert j < i;
      }
    }
  }

  lemma FewerAncestors(p: Pool, x: Id, y: Id)
    requires Dag(p) && x in p.ids && y in p.anc(x)
    ensures y in p.ids && |p.anc(y)| < |p.anc(x)|
  {
    assert p.anc(y) <= p.anc(x) && y !in p.anc(y);
    StrictSubset(p.anc(y), p.anc(x), y);
  }

  lemma StrictSubset(a: set<Id>, b: set<Id>, y: Id)
    requires a <= b && y in b && y !in a
    ensures |a| < |b|
  {
    assert |b| == |a| + |b - a| by { assert a + (b - a) == b; }
    assert y in b - a;
  }

  // ------------------------------------------------------ growing the block

  lemma AddKeepsShape(p: Pool, b: Block, x: Id, sized: bool)
    requires Dag(p) && Shaped(p, b, sized)
    requires x in p.ids && x !in b.inBlock && p.anc(x) <= b.inBlock
    ensures Shaped(p, AddToBlock(p, b, x, sized), sized)
  {
    var c := AddToBlock(p, b, x, sized);
    assert c.inBlock - {x} == b.inBlock;
    SumSplit(p.weight, c.inBlock, x);
    SumSplit(p.sigops, c.inBlock, x);
    SumSplit(p.fee, c.inBlock, x);
    SumSplit(p.bytes, c.inBlock, x);
    hide Sum;
    AppendInOrder(p, b, x);
    assert c.inBlock == (set y | y in c.vtx);
  }

  lemma AppendInOrder(p: Pool, b: Block, x: Id)
    requires InOrder(p, b.vtx) && NoRepeats(b.vtx) && b.inBlock == (set y | y in b.vtx)
    requires x in p.ids && x !in b.inBlock && p.anc(x) <= b.inBlock
    ensures InOrder(p, b.vtx + [x]) && NoRepeats(b.vtx + [x])
  {
    var v := b.vtx + [x];
    assert forall y | y in b.vtx :: y in b.inBlock;
    forall i | 0 <= i < |v| ensures v[i] in p.ids && forall y | y in p.anc(v[i]) :: y in v[..i] {
      if i < |b.vtx| {
        assert v[..i] == b.vtx[..i];
      } else {
        assert v[..i] == b.vtx;
      }
    }
  }

  /** A set of transactions in block order that fills the gaps in one closed set. */
  ghost predicate Extends(p: Pool, b: Block, v: seq<Id>)
  {
    && NoRepeats(v)
    && forall i | 0 <= i < |v| ::
         && v[i] in p.ids && v[i] !in b.inBlock
         && forall y | y in p.anc(v[i]) :: y in b.inBlock || y in v[..i]
  }

  lemma ExtendsPrefix(p: Pool, b: Block, v: seq<Id>)
    requires Extends(p, b, v) && v != []
    ensures Extends(p, b, v[..|v| - 1])
    ensures v[|v| - 1] in p.ids && v[|v| - 1] !in b.inBlock && v[|v| - 1] !in v[..|v| - 1]
    ensures forall y | y in p.anc(v[|v| - 1]) :: y in b.inBlock || y in v[..|v| - 1]
  {
    var w := v[..|v| - 1];
    forall i | 0 <= i < |w|
      ensures w[i] in p.ids && w[i] !in b.inBlock && forall y | y in p.anc(w[i]) :: y in b.inBlock || y in w[..i]
    {
      assert v[..i] == w[..i];
    }
  }

  lemma {:induction false} AddAllIn(p: Pool, b: Block, v: seq<Id>, sized: bool)
    ensures AddAll(p, b, v, sized).inBlock == b.inBlock + set x | x in v
    decreases |v|
  {
    if v != [] {
      var w, x := v[..|v| - 1], v[|v| - 1];
      assert v == w + [x];
      AddAllIn(p, b, w, sized);
      assert (set y | y in v) == (set y | y in w) + {x};
    }
  }

  lemma {:induction false} AddAllKeepsShape(p: Pool, b: Block, v: seq<Id>, sized: bool)
    requires Dag(p) && Shaped(p, b, sized) && Extends(p, b, v)
    ensures Shaped(p, AddAll(p, b, v, sized), sized)
    decreases |v|
  {
    if v != [] {
      var w, x := v[..|v| - 1], v[|v| - 1];
      ExtendsPrefix(p, b, v);
      AddAllKeepsShape(p, b, w, sized);
      hide Shaped, Extends, Dag;
      AddAllIn(p, b, w, sized);
      AddKeepsShape(p, AddAll(p, b, w, sized), x, sized);
    }
  }

  /** A sorted package extends the block. */
  lemma PackageExtends(p: Pool, b: Block, x: Id, v: seq<Id>)
    requires Dag(p) && x in p.ids && x !in b.inBlock
    requires Package(p, b, x) <= p.ids && IsSortOf(p, v, Package(p, b, x))
    ensures Extends(p, b, v)
  {
    forall i | 0 <= i < |v|
      ensures v[i] in p.ids && v[i] !in b.inBlock && forall y | y in p.anc(v[i]) :: y in b.inBlock || y in v[..i]
    {
      assert v[i] in Package(p, b, x);
      SortCovers(p, b, x, v, i);
    }
  }

  /** What a block weighs after a package was added. */
  lemma PackageTotals(p: Pool, b: Block, v: seq<Id>, s: set<Id>, sized: bool)
    requires Dag(p) && Shaped(p, b, sized) && Extends(p, b, v)
    requires s == (set x | x in v) && s <= p.ids
    ensures var c := AddAll(p, b, v, sized);
      && Shaped(p, c, sized) && c.inBlock == b.inBlock + s
      && c.weight == b.weight + Sum(p.weight, s) && c.sigops == b.sigops + Sum(p.sigops, s)
      && (sized ==> c.size == b.size + Sum(p.bytes, s))
  {
    AddAllKeepsShape(p, b, v, sized);
    AddAllIn(p, b, v, sized);
    assert s !! b.inBlock;
    hide Extends, Dag;
    SumUnion(p.weight, b.inBlock, s);
    SumUnion(p.sigops, b.inBlock, s);
    SumUnion(p.bytes, b.inBlock, s);
  }

  /** The test by figures that are not too low keeps the block within its limits. */
  lemma PackageFits(p: Pool, l: Limits, b: Block, x: Id, v: seq<Id>, f: Figures, sized: bool)
    requires PoolOk(p) && BlockOk(p, l, b, sized) && x in p.ids && x !in b.inBlock
    requires Package(p, b, x) <= p.ids && IsSortOf(p, v, Package(p, b, x))
    requires AtLeast(f, TrueFigures(p, x, b.inBlock)) && TestPackage(l, b, f)
    requires sized ==> b.size + Sum(p.bytes, Package(p, b, x)) < l.maxSize
    ensures BlockOk(p, l, AddAll(p, b, v, sized), sized)
    ensures AddAll(p, b, v, sized).inBlock == b.inBlock + Package(p, b, x)
  {
    hide Extends, Shaped, Sum, Dag, AddAll;
    var s := Package(p, b, x);
    WeightBound(p, s);
    PackageExtends(p, b, x, v);
    PackageTotals(p, b, v, s, sized);
    assert Family(p, x) - b.inBlock == s;
  }

  lemma WeightBound(p: Pool, s: set<Id>)
    requires PoolOk(p) && s <= p.ids
    ensures Sum(p.weight, s) <= 4 * Sum(p.size, s)
  {
    SumScaled(p.weight, p.size, 4, s);
  }

  // ------------------------------------------- figures of the modified set

  /**
   * Entries of the modified set are never too low, and exact unless they
   * failed before; whoever is in neither set still has all its ancestors to come.
   */
  ghost predicate FiguresOk(p: Pool, inBlock: set<Id>, m: map<Id, Figures>, failed: set<Id>)
  {
    && (forall x | x in m :: x in p.ids && x !in inBlock && AtLeast(m[x], TrueFigures(p, x, inBlock)))
    && (forall x | x in m && x !in failed :: m[x] == TrueFigures(p, x, inBlock))
    && (forall x | x in p.ids && x !in inBlock && x !in m && x !in failed :: p.anc(x) !! inBlock)
  }

  /** Taking some more of a family into the block lowers its true totals by theirs. */
  lemma TrueReduced(p: Pool, x: Id, inBlock: set<Id>, s: set<Id>)
    requires Dag(p) && x in p.ids && x !in s && s !! inBlock
    ensures TrueFigures(p, x, inBlock + s) == Reduced(p, TrueFigures(p, x, inBlock), x, s)
  {
    var was := Family(p, x) - inBlock;
    var part := p.anc(x) * s;
    assert Family(p, x) - (inBlock + s) == was - part;
    SumPart(p.size, was, part);
    SumPart(p.sigops, was, part);
  }

  lemma CachedNotTooLow(p: Pool, x: Id, inBlock: set<Id>)
    requires PoolOk(p) && x in p.ids
    ensures AtLeast(CachedFigures(p, x), TrueFigures(p, x, inBlock))
    ensures Family(p, x) !! inBlock ==> CachedFigures(p, x) == TrueFigures(p, x, inBlock)
  {
    var all := Family(p, x);
    var part := all * inBlock;
    assert all - part == all - inBlock;
    SumPart(p.size, all, part);
    SumPart(p.sigops, all, part);
    SumNonNegative(p.size, part);
    SumNonNegative(p.sigops, part);
  }

  /** One transaction's entry when the package s enters the block. */
  lemma UpdateOne(p: Pool, inBlock: set<Id>, m: map<Id, Figures>, failed: set<Id>, s: set<Id>, x: Id)
    requires PoolOk(p) && FiguresOk(p, inBlock, m, failed) && s <= p.ids && s !! inBlock
    requires x in p.ids && x !in inBlock + s && x in Update(p, m - s, s)
    ensures AtLeast(Update(p, m - s, s)[x], TrueFigures(p, x, inBlock + s))
    ensures x !in failed ==> Update(p, m - s, s)[x] == TrueFigures(p, x, inBlock + s)
  {
    hide Sum;
    TrueReduced(p, x, inBlock, s);
    CachedNotTooLow(p, x, inBlock);
    var f := if x in m then m[x] else CachedFigures(p, x);
    assert AtLeast(f, TrueFigures(p, x, inBlock)) && (x !in failed ==> f == TrueFigures(p, x, inBlock)) by {
      if x !in m && x !in failed {
        assert p.anc(x) !! inBlock;
        assert Family(p, x) !! inBlock;
      }
    }
    hide FiguresOk, PoolOk, Dag;
    if x !in Affected(p, s) {
      assert Family(p, x) - (inBlock + s) == Family(p, x) - inBlock;
    }
  }

  /** No transaction of a closed block depends on one outside it. */
  lemma AffectedOutside(p: Pool, inBlock: set<Id>, s: set<Id>)
    requires Closed(p, inBlock) && s !! inBlock
    ensures Affected(p, s) !! inBlock && Affected(p, s) !! s
  {
  }

  /** Taking a package into the block and updating its descendants keeps the figures sound. */
  lemma UpdateKeeps(p: Pool, inBlock: set<Id>, m: map<Id, Figures>, failed: set<Id>, s: set<Id>)
    requires PoolOk(p) && FiguresOk(p, inBlock, m, failed)
    requires Closed(p, inBlock) && s <= p.ids && s !! inBlock
    ensures FiguresOk(p, inBlock + s, Update(p, m - s, s), failed)
  {
    var u := Update(p, m - s, s);
    AffectedOutside(p, inBlock, s);
    forall x | x in u
      ensures x in p.ids && x !in inBlock + s && AtLeast(u[x], TrueFigures(p, x, inBlock + s))
      ensures x !in failed ==> u[x] == TrueFigures(p, x, inBlock + s)
    {
      assert x in m || x in Affected(p, s);
      UpdateOne(p, inBlock, m, failed, s, x);
    }
    forall x | x in p.ids && x !in inBlock + s && x !in u && x !in failed
      ensures p.anc(x) !! inBlock + s
    {
      assert x !in m && x !in Affected(p, s);
    }
  }

  // ---------------------------------------------------------------- the loop

  /** The invariant of addPackageTxs. */
  ghost predicate LoopOk(p: Pool, l: Limits, k: Loop, sized: bool)
  {
    && BlockOk(p, l, k.block, sized)
    && FiguresOk(p, k.block.inBlock, k.modified, k.failed)
    && forall x | x in k.rest :: x in p.ids
  }

  /** The state in which the loop starts, given what the priority phase chose. */
  ghost function LoopStart(p: Pool, b: Block, order: seq<Id>): Loop
  {
    Loop(b, Update(p, map[], b.inBlock), {}, order)
  }

  lemma LoopStartOk(p: Pool, l: Limits, b: Block, order: seq<Id>, sized: bool)
    requires PoolOk(p) && BlockOk(p, l, b, sized) && forall x | x in order :: x in p.ids
    ensures LoopOk(p, l, LoopStart(p, b, order), sized)
  {
    var none: map<Id, Figures> := map[];
    assert none - b.inBlock == none;
    assert {} + b.inBlock == b.inBlock;
    UpdateKeeps(p, {}, none, {}, b.inBlock);
  }

  /** What the comparisons by fee rate, the finality tests and the sort decide in one turn. */
  datatype Choice = Choice(preferModified: bool, best: Id, isFinal: bool, sorted: seq<Id>)

  predicate Running(k: Loop) {
    k.rest != [] || k.modified != map[]
  }

  /** SkipMapTxEntry */
  predicate Skips(k: Loop) {
    k.rest != [] && (k.rest[0] in k.modified || k.rest[0] in k.block.inBlock || k.rest[0] in k.failed)
  }

  predicate UsesModified(k: Loop, c: Choice) {
    k.rest == [] || (k.modified != map[] && c.preferModified)
  }

  /** The transaction that the turn evaluates. */
  function Candidate(k: Loop, c: Choice): Id
    requires Running(k)
  {
    if UsesModified(k, c) then c.best else k.rest[0]
  }

  /** The transaction that the comparisons prefer is there to be taken. */
  predicate Choosable(p: Pool, k: Loop, c: Choice)
    requires Running(k)
  {
    && (forall x | x in k.rest :: x in p.ids)
    && (UsesModified(k, c) ==> c.best in k.modified && c.best in p.ids)
  }

  /** The figures the package is tested with. */
  function Tested(p: Pool, k: Loop, c: Choice): Figures
    requires Running(k) && Choosable(p, k, c)
  {
    if UsesModified(k, c) then k.modified[c.best] else CachedFigures(p, k.rest[0])
  }

  /** The loop state when the candidate is turned away. */
  function TurnedAway(k: Loop, c: Choice): Loop
    requires Running(k)
  {
    if UsesModified(k, c) then k.(modified := k.modified - {c.best}, failed := k.failed + {c.best})
    else k.(rest := k.rest[1..])
  }

  ghost predicate Accepts(p: Pool, l: Limits, k: Loop, c: Choice, sized: bool)
    requires Running(k) && Choosable(p, k, c)
  {
    && TestPackage(l, k.block, Tested(p, k, c))
    && c.isFinal
    && (sized ==> k.block.size + Sum(p.bytes, Package(p, k.block, Candidate(k, c))) < l.maxSize)
  }

  /** An accepted package comes sorted. */
  ghost predicate ChoiceOk(p: Pool, l: Limits, k: Loop, c: Choice, sized: bool)
    requires Running(k)
  {
    && Choosable(p, k, c)
    && (!Skips(k) && Accepts(p, l, k, c, sized) ==> IsSortOf(p, c.sorted, Package(p, k.block, Candidate(k, c))))
  }

  /** One turn of the loop. */
  ghost function Turn(p: Pool, l: Limits, k: Loop, c: Choice, sized: bool): Loop
    requires Running(k) && ChoiceOk(p, l, k, c, sized)
  {
    if Skips(k) then k.(rest := k.rest[1..])
    else if !Accepts(p, l, k, c, sized) then TurnedAway(k, c)
    else
      var s := Package(p, k.block, Candidate(k, c));
      Loop(AddAll(p, k.block, c.sorted, sized), Update(p, k.modified - s, s), k.failed,
           if UsesModified(k, c) then k.rest else k.rest[1..])
  }

  /** The program's assertion that a candidate is not in the block, and what its figures mean. */
  lemma CandidateFigures(p: Pool, l: Limits, k: Loop, c: Choice, sized: bool)
    requires PoolOk(p) && LoopOk(p, l, k, sized) && Running(k) && !Skips(k) && Choosable(p, k, c)
    ensures Candidate(k, c) !in k.block.inBlock
    ensures AtLeast(Tested(p, k, c), TrueFigures(p, Candidate(k, c), k.block.inBlock))
    ensures Candidate(k, c) !in k.failed ==>
              Tested(p, k, c) == TrueFigures(p, Candidate(k, c), k.block.inBlock)
  {
    var x := Candidate(k, c);
    if !UsesModified(k, c) {
      CachedNotTooLow(p, x, k.block.inBlock);
    }
  }

  lemma TurnedAwayKeeps(p: Pool, l: Limits, k: Loop, c: Choice, sized: bool)
    requires PoolOk(p) && LoopOk(p, l, k, sized) && Running(k) && Choosable(p, k, c)
    ensures LoopOk(p, l, TurnedAway(k, c), sized)
  {
    hide Shaped, Sum;
  }

  /** Every turn keeps the invariant. */
  lemma TurnKeeps(p: Pool, l: Limits, k: Loop, c: Choice, sized: bool)
    requires PoolOk(p) && LoopOk(p, l, k, sized) && Running(k) && ChoiceOk(p, l, k, c, sized)
    ensures LoopOk(p, l, Turn(p, l, k, c, sized), sized)
  {
    hide Sum, AddAll, Update, FiguresOk;
    if !Skips(k) {
      CandidateFigures(p, l, k, c, sized);
      if Accepts(p, l, k, c, sized) {
        var x := Candidate(k, c);
        PackageFits(p, l, k.block, x, c.sorted, Tested(p, k, c), sized);
        UpdateKeeps(p, k.block.inBlock, k.modified, k.failed, Package(p, k.block, x));
      } else {
        TurnedAwayKeeps(p, l, k, c, sized);
      }
    }
  }

  /** Every turn lowers this lexicographic measure, so the loop ends. */
  ghost function Left(p: Pool, k: Loop): (nat, nat, nat) {
    (|p.ids - k.block.inBlock|, |k.rest|, |k.modified|)
  }

  ghost predicate Lower(a: (nat, nat, nat), b: (nat, nat, nat)) {
    a.0 < b.0 || (a.0 == b.0 && (a.1 < b.1 || (a.1 == b.1 && a.2 < b.2)))
  }

  lemma TurnEnds(p: Pool, l: Limits, k: Loop, c: Choice, sized: bool)
    requires PoolOk(p) && LoopOk(p, l, k, sized) && Running(k) && ChoiceOk(p, l, k, c, sized)
    ensures Lower(Left(p, Turn(p, l, k, c, sized)), Left(p, k))
  {
    hide Sum, Shaped, AddAll, Update, FiguresOk, Dag;
    if !Skips(k) {
      CandidateFigures(p, l, k, c, sized);
      if Accepts(p, l, k, c, sized) {
        AcceptGrows(p, k, c, sized);
      } else if UsesModified(k, c) {
        assert (k.modified - {c.best}).Keys == k.modified.Keys - {c.best};
      }
    }
  }

  lemma AcceptGrows(p: Pool, k: Loop, c: Choice, sized: bool)
    requires Dag(p) && Running(k) && Choosable(p, k, c)
    requires IsSortOf(p, c.sorted, Package(p, k.block, Candidate(k, c)))
    requires Candidate(k, c) !in k.block.inBlock
    ensures |p.ids - AddAll(p, k.block, c.sorted, sized).inBlock| < |p.ids - k.block.inBlock|
  {
    var x := Candidate(k, c);
    assert forall y | y in c.sorted :: y in Package(p, k.block, x);
    AddAllIn(p, k.block, c.sorted, sized);
    StrictSubset(p.ids - AddAll(p, k.block, c.sorted, sized).inBlock, p.ids - k.block.inBlock, x);
  }

  // ------------------------------------------------------------- whole runs

  ghost predicate RunsTo(p: Pool, l: Limits, k: Loop, cs: seq<Choice>, sized: bool, r: Loop)
    decreases |cs|
  {
    if cs == [] then r == k
    else
      && Running(k) && ChoiceOk(p, l, k, cs[0], sized)
      && RunsTo(p, l, Turn(p, l, k, cs[0], sized), cs[1..], sized, r)
  }

  /** In every state that package selection can reach, the block is in order, closed and within its limits. */
  lemma {:induction false} EveryRunOk(p: Pool, l: Limits, k: Loop, cs: seq<Choice>, sized: bool, r: Loop)
    requires PoolOk(p) && LoopOk(p, l, k, sized) && RunsTo(p, l, k, cs, sized, r)
    ensures LoopOk(p, l, r, sized)
    decreases |cs|
  {
    if cs != [] {
      TurnKeeps(p, l, k, cs[0], sized);
      EveryRunOk(p, l, Turn(p, l, k, cs[0], sized), cs[1..], sized, r);
    }
  }

  // ------------------------------------------------------ nothing is forgotten

  /** Whether x, with all it depends on that is not among v, would fit into a block that holds v. */
  ghost predicate FitsAfter(p: Pool, l: Limits, acceptable: set<Id>, sized: bool, v: seq<Id>, x: Id) {
    var done := set y | y in v;
    var missing := Family(p, x) - done;
    && COINBASE_WEIGHT + Sum(p.weight, done) + 4 * Sum(p.size, missing) < l.maxWeight
    && COINBASE_SIGOPS + Sum(p.sigops, done) + Sum(p.sigops, missing) < MAX_BLOCK_SIGOPS_COST
    && (sized ==> COINBASE_SIZE + Sum(p.bytes, done) + Sum(p.bytes, missing) < l.maxSize)
    && missing <= acceptable
  }

  /** At some moment while v was filled, x did not fit. */
  ghost predicate Refused(p: Pool, l: Limits, acceptable: set<Id>, sized: bool, v: seq<Id>, x: Id) {
    exists i | 0 <= i <= |v| :: !FitsAfter(p, l, acceptable, sized, v[..i], x)
  }

  /** Whether x alone would fit, by its own figures, into a block that holds v: the test of the priority phase. */
  ghost predicate FitsNext(p: Pool, l: Limits, final: set<Id>, v: seq<Id>, x: Id) {
    var done := set y | y in v;
    && COINBASE_WEIGHT + Sum(p.weight, done) + p.weight(x) < l.maxWeight
    && COINBASE_SIZE + Sum(p.bytes, done) + p.bytes(x) < l.maxSize
    && COINBASE_SIGOPS + Sum(p.sigops, done) + p.sigops(x) < MAX_BLOCK_SIGOPS_COST
    && x in final
  }

  ghost predicate RefusedNext(p: Pool, l: Limits, final: set<Id>, v: seq<Id>, x: Id) {
    exists i | 0 <= i <= |v| :: !FitsNext(p, l, final, v[..i], x)
  }

  lemma NextIsExact(p: Pool, l: Limits, final: set<Id>, b: Block, x: Id)
    requires Shaped(p, b, true)
    ensures FitsNext(p, l, final, b.vtx, x) <==>
              && b.weight + p.weight(x) < l.maxWeight && b.size + p.bytes(x) < l.maxSize
              && b.sigops + p.sigops(x) < MAX_BLOCK_SIGOPS_COST && x in final
    ensures !FitsNext(p, l, final, b.vtx, x) ==> RefusedNext(p, l, final, b.vtx, x)
  {
    var done := set y | y in b.vtx;
    assert done == b.inBlock;
    assert b.vtx[..|b.vtx|] == b.vtx;
    hide Sum, InOrder, Closed, NoRepeats, RefusedNext;
    assert Sum(p.weight, done) == b.weight - COINBASE_WEIGHT;
  }

  lemma RefusedNextStays(p: Pool, l: Limits, final: set<Id>, v: seq<Id>, w: seq<Id>, x: Id)
    requires RefusedNext(p, l, final, v, x) && v <= w
    ensures RefusedNext(p, l, final, w, x)
  {
    var i :| 0 <= i <= |v| && !FitsNext(p, l, final, v[..i], x);
    assert w[..i] == v[..i];
  }

  /** The priority loop: what is queued, and what waits for parents. */
  datatype Standing = Standing(pool: Pool, limits: Limits, final: set<Id>, witnessOk: set<Id>,
    vtx: seq<Id>, inBlock: set<Id>, queue: seq<Id>, waiting: set<Id>)

  /** Whoever waits misses a parent. */
  ghost predicate Stuck(s: Standing) {
    forall x | x in s.waiting :: !(s.pool.parents(x) <= s.inBlock)
  }

  ghost predicate RefusedBy(s: Standing, x: Id) {
    x !in s.witnessOk || RefusedNext(s.pool, s.limits, s.final, s.vtx, x)
  }

  /** Every transaction of the heap is queued, waiting, in the block, has a forbidden witness or did not fit. */
  ghost predicate Considered(s: Standing, heap: seq<Id>) {
    forall x | x in heap :: x in s.queue || x in s.waiting || x in s.inBlock || RefusedBy(s, x)
  }

  /** Whoever is not in the block has a forbidden witness, did not fit, or misses a parent. */
  ghost predicate PriorityComplete(s: Standing, heap: seq<Id>) {
    forall x | x in heap :: x in s.inBlock || RefusedBy(s, x) || !(s.pool.parents(x) <= s.inBlock)
  }

  lemma AllQueued(s: Standing)
    requires s.waiting == {}
    ensures Considered(s, s.queue) && Stuck(s)
  {
  }

  lemma QueueEmpty(s: Standing, heap: seq<Id>)
    requires Considered(s, heap) && Stuck(s) && s.queue == []
    ensures PriorityComplete(s.(waiting := {}), heap)
  {
    hide RefusedNext;
    assert forall x :: RefusedBy(s, x) ==> RefusedBy(s.(waiting := {}), x);
  }

  lemma PopConsidered(s: Standing, heap: seq<Id>, waiting: set<Id>, top: nat)
    requires Considered(s, heap) && Stuck(s) && top < |s.queue|
    requires (waiting == s.waiting && RefusedBy(s, s.queue[top]))
          || (waiting == s.waiting + {s.queue[top]} && !(s.pool.parents(s.queue[top]) <= s.inBlock))
    ensures var r := s.(queue := s.queue[..top] + s.queue[top + 1..], waiting := waiting);
      Considered(r, heap) && Stuck(r)
  {
    hide RefusedNext;
    assert forall x | x in s.queue :: x == s.queue[top] || x in s.queue[..top] + s.queue[top + 1..];
  }

  /** Once a transaction was added, its waiting children can be queued again; the others still miss a parent. */
  lemma AddedConsidered(s: Standing, heap: seq<Id>, top: nat, queue: seq<Id>, waiting: set<Id>)
    requires Considered(s, heap) && Stuck(s) && top < |s.queue|
    requires s.queue[..top] + s.queue[top + 1..] <= queue
    requires waiting == set x | x in s.waiting && s.queue[top] !in s.pool.parents(x)
    requires forall x | x in s.waiting :: x in waiting || x in queue
    ensures var x := s.queue[top];
      var r := s.(vtx := s.vtx + [x], inBlock := s.inBlock + {x}, queue := queue, waiting := waiting);
      Considered(r, heap) && Stuck(r)
  {
    var x := s.queue[top];
    var r := s.(vtx := s.vtx + [x], inBlock := s.inBlock + {x}, queue := queue, waiting := waiting);
    assert forall y | y in s.queue :: y == x || y in s.queue[..top] + s.queue[top + 1..];
    forall y | RefusedBy(s, y) ensures RefusedBy(r, y) {
      if y in s.witnessOk {
        RefusedNextStays(s.pool, s.limits, s.final, s.vtx, r.vtx, y);
      }
    }
    hide RefusedBy;
  }

  /** Every transaction of the order is still to come, in the block, or was refused. */
  ghost predicate Settled(p: Pool, l: Limits, acceptable: set<Id>, sized: bool, order: seq<Id>, k: Loop) {
    && (forall x | x in order ::
          x in k.rest || x in k.modified || x in k.block.inBlock || Refused(p, l, acceptable, sized, k.block.vtx, x))
    && (forall x | x in k.failed :: Refused(p, l, acceptable, sized, k.block.vtx, x))
  }

  lemma RefusedNow(p: Pool, l: Limits, acceptable: set<Id>, sized: bool, v: seq<Id>, x: Id)
    requires !FitsAfter(p, l, acceptable, sized, v, x)
    ensures Refused(p, l, acceptable, sized, v, x)
  {
    assert v[..|v|] == v;
  }

  lemma RefusedStays(p: Pool, l: Limits, acceptable: set<Id>, sized: bool, v: seq<Id>, w: seq<Id>, x: Id)
    requires Refused(p, l, acceptable, sized, v, x) && v <= w
    ensures Refused(p, l, acceptable, sized, w, x)
  {
    var i :| 0 <= i <= |v| && !FitsAfter(p, l, acceptable, sized, v[..i], x);
    assert w[..i] == v[..i];
  }

  /** With true figures the two tests of a package say whether it fits. */
  lemma TestsAreExact(p: Pool, l: Limits, acceptable: set<Id>, b: Block, x: Id, sized: bool)
    requires Shaped(p, b, sized) && x !in b.inBlock
    ensures FitsAfter(p, l, acceptable, sized, b.vtx, x) <==>
              && TestPackage(l, b, TrueFigures(p, x, b.inBlock)) && Package(p, b, x) <= acceptable
              && (sized ==> b.size + Sum(p.bytes, Package(p, b, x)) < l.maxSize)
  {
    var done := set y | y in b.vtx;
    assert done == b.inBlock;
    assert Family(p, x) - done == Package(p, b, x);
    hide Sum, InOrder, Closed, NoRepeats;
  }

  /** The turn takes the candidate exactly when it is acceptable as to finality and witnesses, as far as that goes. */
  ghost predicate Honest(p: Pool, acceptable: set<Id>, k: Loop, c: Choice)
    requires Running(k)
  {
    c.isFinal <==> Package(p, k.block, Candidate(k, c)) <= acceptable
  }

  /** A package that is accepted fits, and one that fits is accepted unless its figures are stale. */
  lemma AcceptsWhatFits(p: Pool, l: Limits, acceptable: set<Id>, sized: bool, k: Loop, c: Choice)
    requires PoolOk(p) && LoopOk(p, l, k, sized) && Running(k) && !Skips(k) && Choosable(p, k, c)
    requires Honest(p, acceptable, k, c)
    ensures Accepts(p, l, k, c, sized) ==> FitsAfter(p, l, acceptable, sized, k.block.vtx, Candidate(k, c))
    ensures Candidate(k, c) !in k.failed ==>
              (Accepts(p, l, k, c, sized) <==> FitsAfter(p, l, acceptable, sized, k.block.vtx, Candidate(k, c)))
  {
    CandidateFigures(p, l, k, c, sized);
    TestsAreExact(p, l, acceptable, k.block, Candidate(k, c), sized);
    hide Sum, FitsAfter, Shaped, FiguresOk;
  }

  /** A candidate that is turned away did not fit, now or before. */
  lemma TurnedAwayRefused(p: Pool, l: Limits, acceptable: set<Id>, sized: bool, order: seq<Id>, k: Loop, c: Choice)
    requires PoolOk(p) && LoopOk(p, l, k, sized) && Running(k) && !Skips(k) && Choosable(p, k, c)
    requires Honest(p, acceptable, k, c) && !Accepts(p, l, k, c, sized)
    requires Settled(p, l, acceptable, sized, order, k)
    ensures Refused(p, l, acceptable, sized, k.block.vtx, Candidate(k, c))
  {
    var x := Candidate(k, c);
    CandidateFigures(p, l, k, c, sized);
    if x !in k.failed {
      TestsAreExact(p, l, acceptable, k.block, x, sized);
      hide Sum, FitsAfter, Shaped;
      RefusedNow(p, l, acceptable, sized, k.block.vtx, x);
    }
  }

  lemma {:induction false} AddAllAppends(p: Pool, b: Block, v: seq<Id>, sized: bool)
    ensures AddAll(p, b, v, sized).vtx == b.vtx + v
    decreases |v|
  {
    if v != [] {
      AddAllAppends(p, b, v[..|v| - 1], sized);
      assert v == v[..|v| - 1] + [v[|v| - 1]];
    }
  }

  /** Every turn keeps this: an accepted candidate is in the block, and nobody drops out unseen. */
  lemma TurnSettles(p: Pool, l: Limits, acceptable: set<Id>, sized: bool, order: seq<Id>, k: Loop, c: Choice)
    requires PoolOk(p) && LoopOk(p, l, k, sized) && Running(k) && ChoiceOk(p, l, k, c, sized)
    requires Settled(p, l, acceptable, sized, order, k) && (!Skips(k) ==> Honest(p, acceptable, k, c))
    ensures Settled(p, l, acceptable, sized, order, Turn(p, l, k, c, sized))
    ensures !Skips(k) && Accepts(p, l, k, c, sized) ==> Candidate(k, c) in Turn(p, l, k, c, sized).block.inBlock
  {
    hide LoopOk, PoolOk, Refused, Accepts, Update, AddAll, IsSortOf, Honest, Settled;
    if Skips(k) {
      FirstOrRest(k.rest);
      SkippedSettled(p, l, acceptable, sized, order, k);
    } else if Accepts(p, l, k, c, sized) {
      AcceptSettles(p, l, acceptable, sized, order, k, c);
    } else {
      TurnedAwayRefused(p, l, acceptable, sized, order, k, c);
      TurnedAwaySettled(p, l, acceptable, sized, order, k, c);
    }
  }

  lemma FirstOrRest(s: seq<Id>)
    ensures forall x | x in s :: x == s[0] || x in s[1..]
  {
  }

  lemma SkippedSettled(p: Pool, l: Limits, acceptable: set<Id>, sized: bool, order: seq<Id>, k: Loop)
    requires Skips(k) && Settled(p, l, acceptable, sized, order, k)
    ensures Settled(p, l, acceptable, sized, order, k.(rest := k.rest[1..]))
  {
    hide Refused;
    FirstOrRest(k.rest);
  }

  lemma TurnedAwaySettled(p: Pool, l: Limits, acceptable: set<Id>, sized: bool, order: seq<Id>, k: Loop, c: Choice)
    requires Running(k) && Settled(p, l, acceptable, sized, order, k)
    requires Refused(p, l, acceptable, sized, k.block.vtx, Candidate(k, c))
    ensures Settled(p, l, acceptable, sized, order, TurnedAway(k, c))
  {
    hide Refused;
    FirstOrRest(k.rest);
    assert forall x | x in k.modified && x != c.best :: x in k.modified - {c.best};
  }

  lemma AcceptSettles(p: Pool, l: Limits, acceptable: set<Id>, sized: bool, order: seq<Id>, k: Loop, c: Choice)
    requires Running(k) && ChoiceOk(p, l, k, c, sized) && !Skips(k) && Accepts(p, l, k, c, sized)
    requires Settled(p, l, acceptable, sized, order, k)
    ensures Settled(p, l, acceptable, sized, order, Turn(p, l, k, c, sized))
    ensures Candidate(k, c) in Turn(p, l, k, c, sized).block.inBlock
  {
    var r, s := Turn(p, l, k, c, sized), Package(p, k.block, Candidate(k, c));
    AddAllAppends(p, k.block, c.sorted, sized);
    AddAllIn(p, k.block, c.sorted, sized);
    assert (set y | y in c.sorted) == s;
    hide Refused, AddAll, Accepts, IsSortOf, Sum;
    forall x | Refused(p, l, acceptable, sized, k.block.vtx, x)
      ensures Refused(p, l, acceptable, sized, r.block.vtx, x)
    {
      RefusedStays(p, l, acceptable, sized, k.block.vtx, r.block.vtx, x);
    }
    FirstOrRest(k.rest);
    assert forall x | x in k.modified :: x in r.modified || x in s;
  }

  /** At the start everything is still to come. */
  lemma StartSettled(p: Pool, l: Limits, acceptable: set<Id>, sized: bool, b: Block, order: seq<Id>)
    ensures Settled(p, l, acceptable, sized, order, LoopStart(p, b, order))
  {
    hide Update, Refused;
  }

  /** When nothing is left, every transaction is in the block or was refused. */
  ghost predicate Complete(p: Pool, l: Limits, acceptable: set<Id>, sized: bool, order: seq<Id>, b: Block) {
    forall x | x in order :: x in b.inBlock || Refused(p, l, acceptable, sized, b.vtx, x)
  }

  ghost predicate AllRefused(p: Pool, l: Limits, acceptable: set<Id>, sized: bool, v: seq<Id>, tried: seq<Id>) {
    forall x | x in tried :: Refused(p, l, acceptable, sized, v, x)
  }

  /** All that the loop keeps; tried are the candidates that failed in a row. */
  ghost predicate LoopKept(p: Pool, l: Limits, acceptable: set<Id>, sized: bool, order: seq<Id>, k: Loop,
                           tried: seq<Id>)
  {
    && PoolOk(p) && LoopOk(p, l, k, sized) && Settled(p, l, acceptable, sized, order, k)
    && AllRefused(p, l, acceptable, sized, k.block.vtx, tried)
  }

  lemma SkipKeeps(p: Pool, l: Limits, acceptable: set<Id>, sized: bool, order: seq<Id>, k: Loop, tried: seq<Id>)
    requires LoopKept(p, l, acceptable, sized, order, k, tried) && Skips(k)
    ensures LoopKept(p, l, acceptable, sized, order, k.(rest := k.rest[1..]), tried)
    ensures Lower(Left(p, k.(rest := k.rest[1..])), Left(p, k))
  {
    hide Settled, PoolOk, AllRefused, FiguresOk, Shaped;
    SkippedSettled(p, l, acceptable, sized, order, k);
  }

  /** A turn that evaluates a candidate lets the block grow or puts the candidate on the list of failures. */
  lemma EvaluatedKeeps(p: Pool, l: Limits, acceptable: set<Id>, sized: bool, order: seq<Id>, k: Loop, c: Choice,
                       tried: seq<Id>)
    requires LoopKept(p, l, acceptable, sized, order, k, tried) && Running(k) && !Skips(k)
    requires ChoiceOk(p, l, k, c, sized) && Honest(p, acceptable, k, c)
    ensures var r := Turn(p, l, k, c, sized);
      && Lower(Left(p, r), Left(p, k)) && k.block.vtx <= r.block.vtx
      && LoopKept(p, l, acceptable, sized, order, r, [])
      && (!Accepts(p, l, k, c, sized) ==>
            && LoopKept(p, l, acceptable, sized, order, r, tried)
            && LoopKept(p, l, acceptable, sized, order, r, tried + [Candidate(k, c)]))
  {
    hide Settled, PoolOk, Refused, LoopOk, Left, Lower, Honest;
    TurnKeeps(p, l, k, c, sized);
    TurnEnds(p, l, k, c, sized);
    TurnSettles(p, l, acceptable, sized, order, k, c);
    if Accepts(p, l, k, c, sized) {
      AddAllAppends(p, k.block, c.sorted, sized);
    } else {
      TurnedAwayRefused(p, l, acceptable, sized, order, k, c);
    }
  }

  lemma {:induction false} EveryRunSettles(p: Pool, l: Limits, acceptable: set<Id>, sized: bool, order: seq<Id>,
                                           k: Loop, cs: seq<Choice>, r: Loop)
    requires PoolOk(p) && LoopOk(p, l, k, sized) && Settled(p, l, acceptable, sized, order, k)
    requires RunsHonestly(p, l, acceptable, k, cs, sized, r)
    ensures Settled(p, l, acceptable, sized, order, r)
    ensures !Running(r) ==> Complete(p, l, acceptable, sized, order, r.block)
    decreases |cs|
  {
    hide LoopOk, PoolOk, Refused, Turn, ChoiceOk, Honest;
    if cs != [] {
      TurnKeeps(p, l, k, cs[0], sized);
      TurnSettles(p, l, acceptable, sized, order, k, cs[0]);
      EveryRunSettles(p, l, acceptable, sized, order, Turn(p, l, k, cs[0], sized), cs[1..], r);
    }
  }

  /** A run in which the tests of finality and witnesses are those of the transactions. */
  ghost predicate RunsHonestly(p: Pool, l: Limits, acceptable: set<Id>, k: Loop, cs: seq<Choice>, sized: bool, r: Loop)
    decreases |cs|
  {
    if cs == [] then r == k
    else
      && Running(k) && ChoiceOk(p, l, k, cs[0], sized) && (!Skips(k) ==> Honest(p, acceptable, k, cs[0]))
      && RunsHonestly(p, l, acceptable, Turn(p, l, k, cs[0], sized), cs[1..], sized, r)
  }
}
