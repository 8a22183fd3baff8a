/**
 * The rolling Bloom filter (CRollingBloomFilter in src/bloom.cpp): every cell is
 * two bits wide and holds the generation, 1 to 3, that last wrote it, or 0.
 */
module RollingBloom {
  import opened Common

  type Key = seq<Byte>
  const ALL: bv64 := 0xFFFF_FFFF_FFFF_FFFF

  // -------------------------------------------------------- bits and generations

  predicate BitAt(w: bv64, i: bv64)
    requires i < 64
  {
    (w >> i) & 1 == 1
  }

  /** The word with one bit replaced. */
  function Put(w: bv64, i: bv64, b: bool): bv64
    requires i < 64
  {
    (w & !(1 << i)) | ((if b then 1 else 0) << i)
  }

  lemma PutBit(w: bv64, i: bv64, b: bool, j: bv64)
    requires i < 64 && j < 64
    ensures BitAt(Put(w, i, b), j) == if j == i then b else BitAt(w, j)
  {
  }

  function Mask(b: bool): bv64 {
    if b then ALL else 0
  }

  /** The bits to keep of a pair of words: those where the pair differs from the wiped generation. */
  function Kept(p1: bv64, p2: bv64, low: bool, high: bool): bv64 {
    Or(Xor(p1, Mask(low)), Xor(p2, Mask(high)))
  }

  // The word operations have names, so that proofs can do without their bits.

  function And(a: bv64, b: bv64): bv64 {
    a & b
  }

  function Or(a: bv64, b: bv64): bv64 {
    a | b
  }

  function Xor(a: bv64, b: bv64): bv64 {
    a ^ b
  }

  lemma KeptBit(p1: bv64, p2: bv64, low: bool, high: bool, j: bv64)
    requires j < 64
    ensures BitAt(Kept(p1, p2, low, high), j) == (BitAt(p1, j) != low || BitAt(p2, j) != high)
  {
    hide BitAt, Mask, Or, Xor;
    EitherBit(Xor(p1, Mask(low)), Xor(p2, Mask(high)), j);
    XorBit(p1, low, j);
    XorBit(p2, high, j);
  }

  lemma AndBit(p1: bv64, p2: bv64, i: bv64)
    requires i < 64
    ensures BitAt(And(p1, p2), i) == (BitAt(p1, i) && BitAt(p2, i))
  {
  }

  lemma DeMorgan(p1: bv64, p2: bv64)
    ensures Or(p1, p2) == Xor(And(Xor(p1, Mask(true)), Xor(p2, Mask(true))), Mask(true))
  {
  }

  lemma EitherBit(p1: bv64, p2: bv64, i: bv64)
    requires i < 64
    ensures BitAt(Or(p1, p2), i) == (BitAt(p1, i) || BitAt(p2, i))
  {
    hide BitAt, Mask, And, Or, Xor;
    var q := And(Xor(p1, Mask(true)), Xor(p2, Mask(true)));
    DeMorgan(p1, p2);
    XorBit(p1, true, i);
    XorBit(p2, true, i);
    AndBit(Xor(p1, Mask(true)), Xor(p2, Mask(true)), i);
    XorBit(q, true, i);
  }

  lemma XorBit(p: bv64, b: bool, i: bv64)
    requires i < 64
    ensures BitAt(Xor(p, Mask(b)), i) == (BitAt(p, i) != b)
  {
  }

  /** The generation in cell i of a pair of words. */
  function PairGen(p1: bv64, p2: bv64, i: bv64): (g: nat)
    requires i < 64
    ensures g <= 3
  {
    (if BitAt(p1, i) then 1 else 0) + if BitAt(p2, i) then 2 else 0
  }

  function Gen(data: seq<bv64>, w: nat, i: bv64): (g: nat)
    requires 2 * w + 1 < |data| && i < 64
    ensures g <= 3
  {
    PairGen(data[2 * w], data[2 * w + 1], i)
  }

  /** Keeping the bits that differ from a generation empties its cells and no others. */
  lemma WipeCell(p1: bv64, p2: bv64, g: nat, i: bv64)
    requires i < 64 && 1 <= g <= 3
    ensures var k := Kept(p1, p2, Low(g), High(g));
            var was := PairGen(p1, p2, i);
            PairGen(And(p1, k), And(p2, k), i) == if was == g then 0 else was
  {
    hide BitAt, Kept, And;
    var k := Kept(p1, p2, Low(g), High(g));
    KeptBit(p1, p2, Low(g), High(g), i);
    AndBit(p1, k, i);
    AndBit(p2, k, i);
  }

  /** Word pair w without the cells of generation g. */
  ghost predicate WipedPair(was: seq<bv64>, now: seq<bv64>, w: nat, g: nat)
    requires 2 * w + 1 < |was| == |now|
  {
    forall i: bv64 | i < 64 :: Gen(now, w, i) == if Gen(was, w, i) == g then 0 else Gen(was, w, i)
  }

  function Low(g: nat): bool {
    g % 2 == 1
  }

  function High(g: nat): bool {
    g / 2 == 1
  }

  function Written(data: seq<bv64>, w: nat, i: bv64, g: nat): (r: seq<bv64>)
    requires 2 * w + 1 < |data| && i < 64
    ensures |r| == |data|
  {
    data[2 * w := Put(data[2 * w], i, Low(g))][2 * w + 1 := Put(data[2 * w + 1], i, High(g))]
  }

  /** Writing a cell changes that cell only. */
  lemma WrittenGen(data: seq<bv64>, w: nat, i: bv64, g: nat, w': nat, i': bv64)
    requires 2 * w + 1 < |data| && 2 * w' + 1 < |data| && i < 64 && i' < 64 && 1 <= g <= 3
    ensures Gen(Written(data, w, i, g), w', i') == if w' == w && i' == i then g else Gen(data, w', i')
  {
    hide BitAt, Put;
    if w' == w {
      PutBit(data[2 * w], i, Low(g), i');
      PutBit(data[2 * w + 1], i, High(g), i');
    }
  }

  /** How many generations ago g was current. */
  function Age(g: nat, current: nat): nat
    requires 1 <= g <= 3 && 1 <= current <= 3
  {
    (current - g + 3) % 3
  }

  function NextGeneration(g: nat): nat {
    if g == 3 then 1 else g + 1
  }

  /** A place in the filter: word pair and bit. */
  datatype Cell = Cell(w: nat, i: bv64)

  ghost predicate Inside(cells: seq<Cell>, words: nat) {
    forall n | 0 <= n < |cells| :: cells[n].w < words && cells[n].i < 64
  }

  /** Every one of the cells was written by a generation at most so old. */
  ghost predicate Marked(data: seq<bv64>, generation: nat, cells: seq<Cell>, age: nat)
    requires Inside(cells, |data| / 2) && 1 <= generation <= 3
  {
    forall n | 0 <= n < |cells| ::
      var g := Gen(data, cells[n].w, cells[n].i);
      g != 0 && Age(g, generation) <= age
  }

  ghost predicate Wiped(was: seq<bv64>, now: seq<bv64>, g: nat) {
    |was| == |now| && forall w: nat | 2 * w + 1 < |now| :: WipedPair(was, now, w, g)
  }

  /** Cells that survive a wipe are one generation older. */
  lemma MarkedOlder(was: seq<bv64>, now: seq<bv64>, generation: nat, cells: seq<Cell>, age: nat)
    requires 1 <= generation <= 3 && Wiped(was, now, NextGeneration(generation)) && age <= 1
    requires Inside(cells, |was| / 2) && Marked(was, generation, cells, age)
    ensures Marked(now, NextGeneration(generation), cells, age + 1)
  {
    hide PairGen;
    var next := NextGeneration(generation);
    forall n | 0 <= n < |cells|
      ensures var g := Gen(now, cells[n].w, cells[n].i); g != 0 && Age(g, next) <= age + 1
    {
      assert WipedPair(was, now, cells[n].w, next);
    }
  }

  /** Writing one more cell with the current generation only makes cells younger. */
  lemma MarkedStill(data: seq<bv64>, generation: nat, c: Cell, cells: seq<Cell>, age: nat)
    requires 1 <= generation <= 3 && 2 * c.w + 1 < |data| && c.i < 64
    requires Inside(cells, |data| / 2) && Marked(data, generation, cells, age)
    ensures Marked(Written(data, c.w, c.i, generation), generation, cells, age)
  {
    hide PairGen, Written;
    forall n | 0 <= n < |cells|
      ensures var g := Gen(Written(data, c.w, c.i, generation), cells[n].w, cells[n].i);
              g != 0 && Age(g, generation) <= age
    {
      WrittenGen(data, c.w, c.i, generation, cells[n].w, cells[n].i);
    }
  }

  /** Every cell that is set was set for a key of the generation it holds; s0, s1 and s2 are their cells by age. */
  ghost predicate Sourced(data: seq<bv64>, generation: nat, s0: set<Cell>, s1: set<Cell>, s2: set<Cell>)
    requires 1 <= generation <= 3
  {
    forall c: Cell | 2 * c.w + 1 < |data| && c.i < 64 :: SourcedAt(data, generation, s0, s1, s2, c)
  }

  ghost predicate SourcedAt(data: seq<bv64>, generation: nat, s0: set<Cell>, s1: set<Cell>, s2: set<Cell>, c: Cell)
    requires 1 <= generation <= 3 && 2 * c.w + 1 < |data| && c.i < 64
  {
    var g := Gen(data, c.w, c.i);
    g != 0 ==> match Age(g, generation) case 0 => c in s0 case 1 => c in s1 case _ => c in s2
  }

  /** A wipe leaves no cell without a key of the generations that are kept. */
  lemma SourcedOlder(was: seq<bv64>, now: seq<bv64>, generation: nat, s0: set<Cell>, s1: set<Cell>, s2: set<Cell>)
    requires 1 <= generation <= 3 && Wiped(was, now, NextGeneration(generation)) && Sourced(was, generation, s0, s1, s2)
    ensures Sourced(now, NextGeneration(generation), {}, s0, s1)
  {
    hide PairGen;
    var next := NextGeneration(generation);
    forall c: Cell | 2 * c.w + 1 < |now| && c.i < 64 ensures SourcedAt(now, next, {}, s0, s1, c) {
      assert WipedPair(was, now, c.w, next);
      assert SourcedAt(was, generation, s0, s1, s2, c);
    }
  }

  lemma SourcedStill(data: seq<bv64>, generation: nat, c: Cell, s0: set<Cell>, s1: set<Cell>, s2: set<Cell>)
    requires 1 <= generation <= 3 && 2 * c.w + 1 < |data| && c.i < 64 && Sourced(data, generation, s0, s1, s2)
    ensures Sourced(Written(data, c.w, c.i, generation), generation, s0 + {c}, s1, s2)
  {
    hide PairGen, Written;
    var next := Written(data, c.w, c.i, generation);
    forall d: Cell | 2 * d.w + 1 < |next| && d.i < 64 ensures SourcedAt(next, generation, s0 + {c}, s1, s2, d) {
      WrittenGen(data, c.w, c.i, generation, d.w, d.i);
      assert SourcedAt(data, generation, s0, s1, s2, d);
    }
  }

  // ----------------------------------------------------------------- the filter

  class Filter {
    const hashFuncs: nat
    const entriesPerGeneration: nat
    const words: nat
    /** The hash, selected by a number and a tweak. */
    const hash: (nat, nat, Key) -> bv32
    var data: seq<bv64>
    var entriesThisGeneration: nat
    var generation: nat
    var tweak: nat
    /** The keys since the last reset: of this generation, of the two before it, and older ones. */
    ghost var current: seq<Key>
    ghost var previous: seq<Key>
    ghost var oldest: seq<Key>
    ghost var gone: seq<Key>

    /** All keys inserted since the last reset, in order. */
    ghost function Log(): seq<Key>
      reads this
    {
      gone + oldest + previous + current
    }

    /** The cell of a key for one hash function. */
    function CellOf(n: nat, key: Key): (c: Cell)
      requires words > 0
      reads this`tweak
      ensures c.w < words && c.i < 64
    {
      Place(n, tweak, key)
    }

    function Place(n: nat, nTweak: nat, key: Key): (c: Cell)
      requires words > 0
      ensures c.w < words && c.i < 64
    {
      var h := hash(n, nTweak, key);
      Cell((h >> 6) as nat % (2 * words) / 2, (h & 0x3F) as bv64)
    }

    ghost function Cells(key: Key): (cells: seq<Cell>)
      requires words > 0
      reads this`tweak
      ensures |cells| == hashFuncs && Inside(cells, words)
      ensures forall n: nat | n < hashFuncs :: cells[n] == CellOf(n, key)
    {
      var t := tweak;
      seq(hashFuncs, n requires n >= 0 => Place(n, t, key))
    }

    ghost predicate Shaped()
      reads this`data, this`generation
    {
      words > 0 && |data| == 2 * words && 1 <= generation <= 3 && 1 <= entriesPerGeneration
    }

    ghost predicate AllMarked(keys: seq<Key>, age: nat)
      requires Shaped()
      reads this`data, this`generation, this`tweak
    {
      forall k | k in keys :: Marked(data, generation, Cells(k), age)
    }

    /** The cells of some keys. */
    ghost function Touched(keys: seq<Key>): set<Cell>
      requires words > 0
      reads this`tweak
    {
      set k, n | k in keys && 0 <= n < hashFuncs :: CellOf(n, k)
    }

    ghost predicate AllSourced()
      requires Shaped()
      reads this
    {
      Sourced(data, generation, Touched(current), Touched(previous), Touched(oldest))
    }

    /** The generations before the current one are full, unless nothing came before them. */
    ghost predicate Counted()
      reads this
    {
      && |current| == entriesThisGeneration <= entriesPerGeneration
      && (previous != [] || oldest != [] || gone != [] ==> current != [])
      && (oldest != [] || gone != [] ==> |previous| == entriesPerGeneration)
      && (gone != [] ==> |oldest| == entriesPerGeneration)
    }

    ghost predicate Valid()
      reads this
    {
      && Shaped() && Counted() && AllSourced()
      && AllMarked(current, 0) && AllMarked(previous, 1) && AllMarked(oldest, 2)
    }

    /** The numbers of words and of hash functions come out of floating-point formulas. */
    constructor (nElements: nat, nWords: nat, funcs: nat, h: (nat, nat, Key) -> bv32, nTweak: nat)
      requires nElements >= 1 && nWords >= 1 && 1 <= funcs <= 50
      ensures Valid() && Log() == [] && entriesPerGeneration == (nElements + 1) / 2
    {
      hashFuncs := funcs;
      entriesPerGeneration := (nElements + 1) / 2;
      words := nWords;
      hash := h;
      data := seq(2 * nWords, _ => 0);
      entriesThisGeneration, generation, tweak := 0, 1, nTweak;
      current, previous, oldest, gone := [], [], [], [];
    }

    method Reset(nTweak: nat)
      requires Valid()
      modifies this
      ensures Valid() && Log() == []
    {
      data := seq(|data|, _ => 0);
      entriesThisGeneration, generation, tweak := 0, 1, nTweak;
      current, previous, oldest, gone := [], [], [], [];
    }

    /** One of the last 2 * ceil(nElements / 2) + 1 keys. */
    ghost predicate Recent(key: Key)
      reads this
    {
      exists t: nat | t < |Log()| && |Log()| - t <= 2 * entriesPerGeneration + 1 :: Log()[t] == key
    }

    /** The keys of the last three generations are at least those. */
    lemma RecentIsMarked(key: Key)
      requires Valid() && Recent(key)
      ensures Marked(data, generation, Cells(key), 2)
    {
      hide Marked, Cells;
      var t: nat :| t < |Log()| && |Log()| - t <= 2 * entriesPerGeneration + 1 && Log()[t] == key;
      var n := t - |gone|;
      assert key in current || key in previous || key in oldest by {
        var window := oldest + previous + current;
        assert Log() == gone + window;
        assert n >= 0 && window[n] == key;
      }
      MarkedLonger(key, 0);
      MarkedLonger(key, 1);
    }

    lemma MarkedLonger(key: Key, age: nat)
      requires Shaped() && age <= 2
      ensures Marked(data, generation, Cells(key), age) ==> Marked(data, generation, Cells(key), 2)
    {
    }

    ghost predicate Holds(key: Key)
      requires Shaped()
      reads this
    {
      forall n: nat | n < hashFuncs :: var c := CellOf(n, key); Gen(data, c.w, c.i) != 0
    }

    /** The cells of all keys of the last three generations. */
    ghost function Window(): set<Cell>
      requires words > 0
      reads this
    {
      Touched(current) + Touched(previous) + Touched(oldest)
    }

    /** A cell is set exactly when a key of the last three generations has it. */
    lemma SetExactly(c: Cell)
      requires Valid() && c.w < words && c.i < 64
      ensures Gen(data, c.w, c.i) != 0 <==> c in Window()
    {
      hide Gen, CellOf, Counted;
      assert SourcedAt(data, generation, Touched(current), Touched(previous), Touched(oldest), c);
      if c in Window() {
        var k, n :| (k in current || k in previous || k in oldest) && 0 <= n < hashFuncs && CellOf(n, k) == c;
        assert Cells(k)[n] == c;
        assert k in current ==> Marked(data, generation, Cells(k), 0);
        assert k in previous ==> Marked(data, generation, Cells(k), 1);
        assert k in oldest ==> Marked(data, generation, Cells(k), 2);
      }
    }

    /**
     * Looks at all cells of a key. It never misses a recent key, and finds only keys
     * whose every cell is one of a key of the last three generations.
     */
    method Contains(key: Key) returns (found: bool)
      requires Valid()
      ensures found <==> forall n: nat | n < hashFuncs :: CellOf(n, key) in Window()
      ensures Recent(key) ==> found
    {
      hide CellOf, Gen, Window;
      forall n: nat | n < hashFuncs
        ensures var c := CellOf(n, key); Gen(data, c.w, c.i) != 0 <==> c in Window()
      {
        SetExactly(CellOf(n, key));
      }
      if Recent(key) {
        RecentIsMarked(key);
        forall n: nat | n < hashFuncs ensures var c := CellOf(n, key); Gen(data, c.w, c.i) != 0 {
          assert CellOf(n, key) == Cells(key)[n];
        }
      }
      found := LookUp(key);
    }

    method LookUp(key: Key) returns (found: bool)
      requires Shaped()
      ensures found <==> Holds(key)
    {
      hide BitAt, CellOf, Or;
      for n := 0 to hashFuncs
        invariant forall m: nat | m < n :: var c := CellOf(m, key); Gen(data, c.w, c.i) != 0
      {
        var c := CellOf(n, key);
        EitherBit(data[2 * c.w], data[2 * c.w + 1], c.i);
        if !BitAt(Or(data[2 * c.w], data[2 * c.w + 1]), c.i) {
          return false;
        }
      }
      found := true;
    }

    /** Wipes the cells of one generation and leaves all others. */
    method Wipe(g: nat)
      requires Shaped() && 1 <= g <= 3
      modifies this`data
      ensures Shaped() && Wiped(old(data), data, g)
    {
      hide BitAt, Kept, WipedPair, And, PairGen;
      var p := 0;
      while p < |data|
        invariant 0 <= p <= |data| == |old(data)| && p % 2 == 0
        invariant data[p..] == old(data)[p..]
        invariant forall w: nat | 2 * w < p :: WipedPair(old(data), data, w, g)
      {
        ghost var was := data;
        var p1, p2 := data[p], data[p + 1];
        var kept := Kept(p1, p2, Low(g), High(g));
        data := data[p := And(p1, kept)][p + 1 := And(p2, kept)];
        WipeStep(old(data), was, data, p / 2, g);
        p := p + 2;
      }
    }

    /** Starts the next generation, giving up the keys of three generations ago. */
    method Rotate()
      requires Valid() && entriesThisGeneration == entriesPerGeneration
      modifies this
      ensures Shaped() && entriesThisGeneration == 0
      ensures current == [] && previous == old(current) && oldest == old(previous) && gone == old(gone + oldest)
      ensures generation == NextGeneration(old(generation)) && Wiped(old(data), data, generation)
      ensures AllMarked(previous, 1) && AllMarked(oldest, 2) && AllSourced()
    {
      hide Marked, Wiped, CellOf, Sourced;
      entriesThisGeneration := 0;
      ghost var was := data;
      var next := NextGeneration(generation);
      Wipe(next);
      forall k | k in current ensures Marked(data, next, Cells(k), 1) {
        assert Marked(was, generation, Cells(k), 0);
        MarkedOlder(was, data, generation, Cells(k), 0);
      }
      forall k | k in previous ensures Marked(data, next, Cells(k), 2) {
        assert Marked(was, generation, Cells(k), 1);
        MarkedOlder(was, data, generation, Cells(k), 1);
      }
      SourcedOlder(was, data, generation, Touched(current), Touched(previous), Touched(oldest));
      assert Touched([]) == {};
      generation := next;
      gone, oldest, previous, current := gone + oldest, previous, current, [];
    }

    method Insert(key: Key)
      requires Valid()
      modifies this
      ensures Valid() && Log() == old(Log()) + [key]
    {
      hide Marked, CellOf, AllMarked, Sourced;
      if entriesThisGeneration == entriesPerGeneration {
        Rotate();
        NoneMarked();
      }
      entriesThisGeneration := entriesThisGeneration + 1;
      WriteKey(key);
      current := current + [key];
    }

    lemma NoneMarked()
      requires Shaped()
      ensures AllMarked([], 0)
    {
    }

    /** Writes all cells of a key with the current generation. */
    method WriteKey(key: Key)
      requires Shaped() && AllMarked(current, 0) && AllMarked(previous, 1) && AllMarked(oldest, 2) && AllSourced()
      modifies this`data
      ensures Shaped() && AllMarked(current + [key], 0) && AllMarked(previous, 1) && AllMarked(oldest, 2)
      ensures Sourced(data, generation, Touched(current + [key]), Touched(previous), Touched(oldest))
    {
      hide CellOf, Gen, Marked, Written, Sourced, Touched;
      ghost var cells := Cells(key);
      ghost var written: set<Cell> := {};
      NoCells(data, generation);
      assert Touched(current) + written == Touched(current);
      for n := 0 to hashFuncs
        invariant Shaped() && AllMarked(current, 0) && AllMarked(previous, 1) && AllMarked(oldest, 2)
        invariant Marked(data, generation, cells[..n], 0)
        invariant written == set c | c in cells[..n]
        invariant Sourced(data, generation, Touched(current) + written, Touched(previous), Touched(oldest))
      {
        var c := CellOf(n, key);
        ghost var was := data;
        data := Written(data, c.w, c.i, generation);
        AllStill(was, c);
        MarkedStill(was, generation, c, cells[..n], 0);
        MarkedNow(was, generation, c, cells[..n]);
        SourcedStill(was, generation, c, Touched(current) + written, Touched(previous), Touched(oldest));
        assert cells[..n + 1] == cells[..n] + [c];
        assert Touched(current) + written + {c} == Touched(current) + (written + {c});
        written := written + {c};
      }
      assert cells[..hashFuncs] == cells;
      TouchedMore(current, key);
    }

    lemma TouchedMore(keys: seq<Key>, key: Key)
      requires words > 0
      ensures Touched(keys + [key]) == Touched(keys) + set c | c in Cells(key)
    {
      hide CellOf;
      forall c ensures c in Touched(keys + [key]) <==> c in Touched(keys) || c in Cells(key) {
        if c in Cells(key) {
          var n :| 0 <= n < hashFuncs && Cells(key)[n] == c;
          assert key in keys + [key];
        }
      }
    }

    /** The marks of all recent keys survive the writing of one cell. */
    lemma AllStill(was: seq<bv64>, c: Cell)
      requires Shaped() && 2 * c.w + 1 < |was| == |data| && c.i < 64 && data == Written(was, c.w, c.i, generation)
      requires forall k | k in current :: Marked(was, generation, Cells(k), 0)
      requires forall k | k in previous :: Marked(was, generation, Cells(k), 1)
      requires forall k | k in oldest :: Marked(was, generation, Cells(k), 2)
      ensures AllMarked(current, 0) && AllMarked(previous, 1) && AllMarked(oldest, 2)
    {
      hide CellOf, Gen, Marked, Written;
      forall k | k in current ensures Marked(data, generation, Cells(k), 0) {
        MarkedStill(was, generation, c, Cells(k), 0);
      }
      forall k | k in previous ensures Marked(data, generation, Cells(k), 1) {
        MarkedStill(was, generation, c, Cells(k), 1);
      }
      forall k | k in oldest ensures Marked(data, generation, Cells(k), 2) {
        MarkedStill(was, generation, c, Cells(k), 2);
      }
    }
  }

  lemma NoCells(data: seq<bv64>, generation: nat)
    requires 1 <= generation <= 3
    ensures Marked(data, generation, [], 0)
  {
  }

  /** The cell just written holds the current generation. */
  lemma MarkedNow(was: seq<bv64>, generation: nat, c: Cell, cells: seq<Cell>)
    requires 1 <= generation <= 3 && 2 * c.w + 1 < |was| && c.i < 64 && Inside(cells, |was| / 2)
    requires Marked(Written(was, c.w, c.i, generation), generation, cells, 0)
    ensures Marked(Written(was, c.w, c.i, generation), generation, cells + [c], 0)
  {
    hide Gen, Written;
    WrittenGen(was, c.w, c.i, generation, c.w, c.i);
  }

  lemma WipeStep(was: seq<bv64>, before: seq<bv64>, now: seq<bv64>, w: nat, g: nat)
    requires 2 * w + 1 < |was| == |before| && 1 <= g <= 3 && before[2 * w..] == was[2 * w..]
    requires forall v: nat | v < w :: WipedPair(was, before, v, g)
    requires var k := Kept(was[2 * w], was[2 * w + 1], Low(g), High(g));
             now == before[2 * w := And(was[2 * w], k)][2 * w + 1 := And(was[2 * w + 1], k)]
    ensures forall v: nat | v <= w :: WipedPair(was, now, v, g)
  {
    hide BitAt, Kept, And, PairGen;
    forall v: nat | v <= w ensures WipedPair(was, now, v, g) {
      if v < w {
        assert WipedPair(was, before, v, g);
        assert forall i: bv64 | i < 64 :: Gen(now, v, i) == Gen(before, v, i);
      } else {
        forall i: bv64 | i < 64 ensures Gen(now, w, i) == if Gen(was, w, i) == g then 0 else Gen(was, w, i) {
          WipeCell(was[2 * w], was[2 * w + 1], g, i);
        }
      }
    }
  }
}
