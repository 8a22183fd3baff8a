/**
 * The cuckoo cache (src/cuckoocache.h): a table in which every element has eight
 * possible slots, garbage flags that let a slot be overwritten, and epochs that
 * age the elements.
 */
module Cuckoo {
  import opened Arithmetic
  import opened Common

  /** Elements are hashes; a fresh slot holds the default one. */
  type Element = nat
  const DEFAULT: Element := 0

  // ------------------------------------------------- what the arrays stand for

  /** The elements in slots that are not marked as garbage. */
  ghost function Live(table: seq<Element>, flags: seq<bool>): multiset<Element>
    requires |table| == |flags|
  {
    if table == [] then multiset{}
    else
      var n := |table| - 1;
      Live(table[..n], flags[..n]) + Unless(flags[n], table[n])
  }

  function Unless(garbage: bool, e: Element): multiset<Element> {
    if garbage then multiset{} else multiset{e}
  }

  /** The number of slots of the current epoch that are not marked as garbage. */
  function Recent(flags: seq<bool>, epochs: seq<bool>): nat
    requires |flags| == |epochs|
  {
    if flags == [] then 0
    else
      var n := |flags| - 1;
      Recent(flags[..n], epochs[..n]) + One(epochs[n] && !flags[n])
  }

  lemma SumsAgree(a: multiset<Element>, x: multiset<Element>, b: multiset<Element>, y: multiset<Element>,
                  last: multiset<Element>)
    requires a + x == b + y
    ensures (a + last) + x == (b + last) + y
  {
    SumsCommute(a, x, last);
    SumsCommute(b, y, last);
  }

  lemma SumsCommute(a: multiset<Element>, x: multiset<Element>, y: multiset<Element>)
    ensures (a + x) + y == (a + y) + x
  {
  }

  lemma LiveLast(table: seq<Element>, flags: seq<bool>, n: nat)
    requires |table| == |flags| == n + 1
    ensures Live(table, flags) == Live(table[..n], flags[..n]) + Unless(flags[n], table[n])
  {
  }

  /** Rewriting one slot takes its old element out and puts the new one in. */
  lemma {:induction false} LiveUpdate(table: seq<Element>, flags: seq<bool>, i: nat, e: Element, garbage: bool)
    requires |table| == |flags| && i < |table|
    ensures Live(table[i := e], flags[i := garbage]) + Unless(flags[i], table[i])
         == Live(table, flags) + Unless(garbage, e)
  {
    hide Live, Unless;
    var n := |table| - 1;
    LiveLast(table, flags, n);
    LiveLast(table[i := e], flags[i := garbage], n);
    if i < n {
      assert table[i := e][..n] == table[..n][i := e];
      assert flags[i := garbage][..n] == flags[..n][i := garbage];
      LiveUpdate(table[..n], flags[..n], i, e, garbage);
      SumsAgree(Live(table[..n][i := e], flags[..n][i := garbage]), Unless(flags[i], table[i]),
                Live(table[..n], flags[..n]), Unless(garbage, e), Unless(flags[n], table[n]));
    } else {
      assert table[i := e][..n] == table[..n];
      assert flags[i := garbage][..n] == flags[..n];
      SumsCommute(Live(table[..n], flags[..n]), Unless(garbage, e), Unless(flags[i], table[i]));
    }
  }

  lemma {:induction false} RecentUpdate(flags: seq<bool>, epochs: seq<bool>, i: nat, garbage: bool, epoch: bool)
    requires |flags| == |epochs| && i < |flags|
    ensures Recent(flags[i := garbage], epochs[i := epoch]) + One(epochs[i] && !flags[i])
         == Recent(flags, epochs) + One(epoch && !garbage)
  {
    var n := |flags| - 1;
    if i < n {
      RecentUpdate(flags[..n], epochs[..n], i, garbage, epoch);
      assert flags[i := garbage][..n] == flags[..n][i := garbage];
      assert epochs[i := epoch][..n] == epochs[..n][i := epoch];
    } else {
      assert flags[i := garbage][..n] == flags[..n];
      assert epochs[i := epoch][..n] == epochs[..n];
    }
  }

  lemma {:induction false} LiveHas(table: seq<Element>, flags: seq<bool>, i: nat)
    requires |table| == |flags| && i < |table| && !flags[i]
    ensures table[i] in Live(table, flags)
  {
    var n := |table| - 1;
    if i < n {
      LiveHas(table[..n], flags[..n], i);
    }
  }

  lemma Cancel(a: multiset<Element>, b: multiset<Element>, e: Element)
    ensures a + multiset{e} == b + multiset{e} ==> a == b
    ensures a + multiset{} == a
  {
    if a + multiset{e} == b + multiset{e} {
      assert a == a + multiset{e} - multiset{e} == b + multiset{e} - multiset{e} == b;
    }
  }

  /** A live element sits in some slot that is not garbage. */
  lemma {:induction false} LiveIsSomewhere(table: seq<Element>, flags: seq<bool>, e: Element) returns (i: nat)
    requires |table| == |flags| && e in Live(table, flags)
    ensures i < |table| && !flags[i] && table[i] == e
  {
    var n := |table| - 1;
    if !flags[n] && table[n] == e {
      i := n;
    } else {
      i := LiveIsSomewhere(table[..n], flags[..n], e);
    }
  }

  lemma {:induction false} NothingLive(table: seq<Element>, flags: seq<bool>, epochs: seq<bool>)
    requires |table| == |flags| == |epochs| && forall i | 0 <= i < |flags| :: flags[i]
    ensures Live(table, flags) == multiset{} && Recent(flags, epochs) == 0
  {
    if table != [] {
      var n := |table| - 1;
      NothingLive(table[..n], flags[..n], epochs[..n]);
    }
  }

  lemma {:induction false} NothingRecent(flags: seq<bool>, epochs: seq<bool>)
    requires |flags| == |epochs| && forall i | 0 <= i < |epochs| :: !epochs[i]
    ensures Recent(flags, epochs) == 0
  {
    if flags != [] {
      var n := |flags| - 1;
      NothingRecent(flags[..n], epochs[..n]);
    }
  }

  // ------------------------------------------------------------------ ageing

  /** An insert first ages the cache when its counter is used up and a whole epoch is live. */
  predicate Ages(counter: nat, epochSize: nat, flags: seq<bool>, epochs: seq<bool>)
    requires |flags| == |epochs|
  {
    counter == 0 && Recent(flags, epochs) >= epochSize
  }

  /** Ageing lets everything that is not of the current epoch be erased. */
  function Aged(flags: seq<bool>, epochs: seq<bool>): (r: seq<bool>)
    requires |flags| == |epochs|
    ensures |r| == |flags|
  {
    seq(|flags|, i requires 0 <= i < |flags| => flags[i] || !epochs[i])
  }

  function Counter(counter: nat, epochSize: nat, recent: nat): nat {
    if counter != 0 then counter - 1
    else if recent >= epochSize then epochSize
    else Max(1, Max(epochSize / 16, epochSize - recent))
  }

  /** How far the live part of an epoch can outgrow the epoch before the next scan. */
  ghost predicate EpochBounded(recent: nat, counter: nat, epochSize: nat) {
    recent + counter <= epochSize + Max(1, epochSize / 16)
  }

  /** The ageing check leaves room for the insert that follows it. */
  lemma CounterMakesRoom(recent: nat, counter: nat, epochSize: nat)
    requires EpochBounded(recent, counter, epochSize) && epochSize >= 1
    ensures var left := if counter == 0 && recent >= epochSize then 0 else recent;
            EpochBounded(left + 1, Counter(counter, epochSize, recent), epochSize)
  {
  }

  // --------------------------------------------------------------- the cache

  /**
   * The slot to evict from: the one after the slot just written, wrapping around.
   * Before the first eviction nothing was written and the search ends at 8, so
   * the second slot is taken.
   */
  function NextSlot(locs: seq<nat>, lastLoc: Option<nat>): (loc: nat)
    requires |locs| == 8
    ensures loc in locs
  {
    locs[(1 + IndexOf(locs, lastLoc)) % 8]
  }

  function IndexOf(locs: seq<nat>, x: Option<nat>): (k: nat)
    ensures k <= |locs|
    ensures k < |locs| ==> x == Some(locs[k])
    ensures forall j | 0 <= j < k :: x != Some(locs[j])
  {
    if locs == [] || x == Some(locs[0]) then 0 else 1 + IndexOf(locs[1..], x)
  }

  predicate FirstAt(locs: seq<nat>, x: nat, k: nat) {
    k < |locs| && locs[k] == x && forall j | 0 <= j < k :: locs[j] != x
  }

  /**
   * The first eviction takes the second slot. A later one takes the slot just
   * written again, and moves the element just put in, if and only if the slot
   * after its first occurrence is the same; so never where the slots differ.
   */
  lemma EvictionOrder(locs: seq<nat>, lastLoc: Option<nat>)
    requires |locs| == 8
    ensures lastLoc.None? ==> NextSlot(locs, lastLoc) == locs[1]
    ensures lastLoc.Some? && lastLoc.value in locs ==>
              (NextSlot(locs, lastLoc) == lastLoc.value <==>
               exists k | 0 <= k < 7 :: FirstAt(locs, lastLoc.value, k) && locs[k + 1] == lastLoc.value)
    ensures lastLoc.Some? && lastLoc.value in locs && (forall j, k | 0 <= j < k < 8 :: locs[j] != locs[k]) ==>
              NextSlot(locs, lastLoc) != lastLoc.value
  {
    if lastLoc.Some? && lastLoc.value in locs {
      var k := IndexOf(locs, lastLoc);
      hide IndexOf;
      assert k < 8 && FirstAt(locs, lastLoc.value, k);
      assert k == 7 ==> locs[0] != lastLoc.value;
      forall i | 0 <= i < 7 && FirstAt(locs, lastLoc.value, i) ensures i == k {
      }
    }
  }

  /** Slots may repeat: here the slot just written is taken again at once. */
  lemma EvictionRepeats()
    ensures NextSlot([5, 5, 1, 2, 3, 4, 6, 7], Some(5)) == 5
  {
  }

  /** An element on its way, and whether it is of the current epoch. */
  datatype Hand = Hand(elem: Element, epoch: bool)

  class Cache {
    const size: nat
    const epochSize: nat
    const depthLimit: nat
    /** The hash function, selected by its first argument. */
    const hash: (nat, Element) -> nat
    var table: seq<Element>
    var flags: seq<bool>
    var epochs: seq<bool>
    var counter: nat
    /** Every element that was ever given to Insert. */
    ghost var inserted: set<Element>

    /** The eight slots of an element. */
    function Homes(e: Element): (r: seq<nat>)
      requires size > 0
      ensures |r| == 8 && forall k | 0 <= k < 8 :: r[k] < size
    {
      seq(8, k requires 0 <= k < 8 => hash(k, e) % size)
    }

    /** An element that is not garbage is in one of its own slots. */
    ghost predicate Homed()
      requires size > 0 && |table| == |flags| == size
      reads this`table, this`flags
    {
      forall i | 0 <= i < size && !flags[i] :: i in Homes(table[i])
    }

    ghost predicate Known()
      reads this
    {
      forall i | 0 <= i < |table| :: table[i] == DEFAULT || table[i] in inserted
    }

    ghost predicate Shaped()
      reads this
    {
      size > 0 && epochSize >= 1 && depthLimit >= 1 && |table| == |flags| == |epochs| == size
    }

    ghost predicate Valid()
      reads this
    {
      Shaped() && Homed() && Known() && EpochBounded(Recent(flags, epochs), counter, epochSize)
    }

    /** Setup for a table of 2^depth slots. */
    constructor Setup(depth: nat, h: (nat, Element) -> nat)
      requires 1 <= depth < 32
      ensures Valid() && inserted == {} && size == Pow2(depth) && depthLimit == depth && hash == h
      ensures Live(table, flags) == multiset{}
    {
      var n := Pow2(depth);
      depthLimit := depth;
      size := n;
      hash := h;
      epochSize := Max(1, 45 * n % TWO_32 / 100);
      counter := Max(1, 45 * n % TWO_32 / 100);
      table := seq(n, _ => DEFAULT);
      flags := seq(n, _ => true);
      epochs := seq(n, _ => false);
      inserted := {};
      new;
      NothingLive(table, flags, epochs);
    }

    method AllowErase(i: nat)
      requires Valid() && i < size
      modifies this`flags
      ensures Valid() && flags == old(flags)[i := true]
      ensures Live(table, flags) + Unless(old(flags)[i], table[i]) == old(Live(table, flags))
    {
      hide Live, Recent;
      LiveUpdate(table, flags, i, table[i], true);
      RecentUpdate(flags, epochs, i, true, epochs[i]);
      assert table == table[i := table[i]] && epochs == epochs[i := epochs[i]];
      flags := flags[i := true];
    }

    /** Looks an element up and, if asked, lets it be erased; it stays there until it is overwritten. */
    method Contains(e: Element, erase: bool) returns (found: bool)
      requires Valid()
      modifies this`flags
      ensures Valid()
      ensures found <==> exists k | 0 <= k < 8 :: table[Homes(e)[k]] == e
      ensures old(e in Live(table, flags)) ==> found
      ensures found ==> e == DEFAULT || e in inserted
      ensures (if found && erase then
                 exists k | 0 <= k < 8 ::
                   && table[Homes(e)[k]] == e && (forall j | 0 <= j < k :: table[Homes(e)[j]] != e)
                   && flags == old(flags)[Homes(e)[k] := true]
               else flags == old(flags))
      ensures exists b :: Live(table, flags) + Unless(b, e) == old(Live(table, flags))
    {
      hide Live, Recent;
      var locs := Homes(e);
      var k := Find(e);
      found := k < 8;
      assert Live(table, flags) + Unless(true, e) == old(Live(table, flags));
      if found && erase {
        AllowErase(locs[k]);
      }
    }

    /** The first of an element's slots that holds it, or 8. */
    method Find(e: Element) returns (k: nat)
      requires Shaped()
      ensures k <= 8 && (k < 8 ==> table[Homes(e)[k]] == e)
      ensures forall j | 0 <= j < k :: table[Homes(e)[j]] != e
      ensures Homed() && e in Live(table, flags) ==> k < 8
    {
      var locs := Homes(e);
      k := 0;
      while k < 8 && table[locs[k]] != e
        invariant k <= 8 && forall j | 0 <= j < k :: table[locs[j]] != e
      {
        k := k + 1;
      }
      if Homed() && e in Live(table, flags) {
        var i := LiveIsSomewhere(table, flags, e);
        assert i in locs;
      }
    }

    // ------------------------------------------------------------ insertion

    /** Counts down, or scans and possibly ages; either way leaves room for one more insert. */
    method EpochCheck()
      requires Valid()
      modifies this`flags, this`epochs, this`counter
      ensures Shaped() && Homed() && Known()
      ensures EpochBounded(Recent(flags, epochs) + 1, counter, epochSize)
      ensures var ages := old(Ages(counter, epochSize, flags, epochs));
              && flags == old(if ages then Aged(flags, epochs) else flags)
              && (if ages then forall i | 0 <= i < size :: !epochs[i] else epochs == old(epochs))
      ensures counter == old(Counter(counter, epochSize, Recent(flags, epochs)))
      // What is of the current epoch is kept; the rest goes only when the counter ran out and a whole epoch is live.
      ensures forall i | 0 <= i < size && !old(flags)[i] ::
                flags[i] <==> !old(epochs)[i] && old(counter) == 0 && old(Recent(flags, epochs)) >= epochSize
      ensures forall i | 0 <= i < size && old(flags)[i] :: flags[i]
      ensures old(counter) == 0 && old(Recent(flags, epochs)) >= epochSize ==> counter == epochSize
    {
      hide Recent;
      CounterMakesRoom(Recent(flags, epochs), counter, epochSize);
      if counter != 0 {
        counter := counter - 1;
        return;
      }
      var unused := CountRecent();
      if unused >= epochSize {
        Age();
        NothingRecent(flags, epochs);
        counter := epochSize;
      } else {
        counter := Max(1, Max(epochSize / 16, epochSize - unused));
      }
    }

    method CountRecent() returns (n: nat)
      requires Shaped()
      ensures n == Recent(flags, epochs)
    {
      n := 0;
      for i := 0 to size
        invariant n == Recent(flags[..i], epochs[..i])
      {
        assert flags[..i + 1][..i] == flags[..i] && epochs[..i + 1][..i] == epochs[..i];
        if epochs[i] && !flags[i] {
          n := n + 1;
        }
      }
      assert flags[..size] == flags && epochs[..size] == epochs;
    }

    method Age()
      requires Shaped()
      modifies this`flags, this`epochs
      ensures Shaped() && flags == old(Aged(flags, epochs))
      ensures forall i | 0 <= i < size :: !epochs[i]
    {
      for i := 0 to size
        invariant Shaped()
        invariant forall j | 0 <= j < i :: !epochs[j] && flags[j] == (old(flags)[j] || !old(epochs)[j])
        invariant flags[i..] == old(flags)[i..] && epochs[i..] == old(epochs)[i..]
      {
        if epochs[i] {
          epochs := epochs[i := false];
        } else {
          flags := flags[i := true];
        }
      }
    }

    /** Puts an element into a slot and marks it to be kept. */
    method Store(loc: nat, e: Element, epoch: bool)
      requires Shaped() && Homed() && Known() && loc < size && loc in Homes(e)
      requires e == DEFAULT || e in inserted
      modifies this`table, this`flags, this`epochs
      ensures Shaped() && Homed() && Known()
      ensures table == old(table)[loc := e] && flags == old(flags)[loc := false]
           && epochs == old(epochs)[loc := epoch]
      ensures Live(table, flags) + Unless(old(flags)[loc], old(table)[loc]) == old(Live(table, flags)) + multiset{e}
      ensures Recent(flags, epochs) + One(old(epochs)[loc] && !old(flags)[loc])
           == old(Recent(flags, epochs)) + One(epoch)
    {
      hide Live, Recent, Homes;
      LiveUpdate(table, flags, loc, e, false);
      RecentUpdate(flags, epochs, loc, false, epoch);
      table := table[loc := e];
      flags := flags[loc := false];
      epochs := epochs[loc := epoch];
    }

    /** The first of an element's slots that may be overwritten, or 8. */
    method FindGarbage(e: Element) returns (k: nat)
      requires Shaped()
      ensures k <= 8 && (k < 8 ==> flags[Homes(e)[k]])
      ensures forall j | 0 <= j < k :: !flags[Homes(e)[j]]
    {
      var locs := Homes(e);
      k := 0;
      while k < 8 && !flags[locs[k]]
        invariant k <= 8 && forall j | 0 <= j < k :: !flags[locs[j]]
      {
        k := k + 1;
      }
    }

    /** The element is kept in some slot as one of the current epoch. */
    ghost predicate Current(e: Element)
      requires Shaped()
      reads this
    {
      exists i | 0 <= i < size :: CurrentAt(e, i)
    }

    ghost predicate CurrentAt(e: Element, i: nat)
      requires Shaped() && i < size
      reads this
    {
      table[i] == e && !flags[i] && epochs[i]
    }

    /** Stores an element; the one being inserted is still current, or it is what had to leave. */
    method Move(loc: nat, cur: Element, epoch: bool, ghost e: Element)
      requires Shaped() && Homed() && Known() && loc < size && loc in Homes(cur)
      requires cur == DEFAULT || cur in inserted
      requires (cur == e && epoch) || Current(e)
      modifies this`table, this`flags, this`epochs
      ensures Shaped() && Homed() && Known()
      ensures table == old(table)[loc := cur] && flags == old(flags)[loc := false]
           && epochs == old(epochs)[loc := epoch]
      ensures Live(table, flags) + Unless(old(flags)[loc], old(table)[loc]) == old(Live(table, flags)) + multiset{cur}
      ensures Recent(flags, epochs) + One(old(epochs)[loc] && !old(flags)[loc])
           == old(Recent(flags, epochs)) + One(epoch)
      ensures Current(e) || (old(table)[loc] == e && !old(flags)[loc] && old(epochs)[loc])
    {
      hide Live, Recent, Homed, Known, Homes;
      ghost var at := loc;
      if !(cur == e && epoch) {
        at :| 0 <= at < size && CurrentAt(e, at);
      }
      Store(loc, cur, epoch);
      assert (cur == e && epoch) ==> CurrentAt(e, loc);
      assert at != loc ==> CurrentAt(e, at);
    }

    /** The table once the first elements of a chain have taken their places. */
    ghost function Placed(start: seq<Element>, chain: seq<Hand>, locs: seq<nat>): (t: seq<Element>)
      ensures |t| == |start|
    {
      if locs == [] then start
      else
        var n := |locs| - 1;
        var before := Placed(start, chain, locs[..n]);
        if locs[n] < |start| && n < |chain| then before[locs[n] := chain[n].elem] else before
    }

    ghost function PlacedEpochs(start: seq<bool>, chain: seq<Hand>, locs: seq<nat>): (t: seq<bool>)
      ensures |t| == |start|
    {
      if locs == [] then start
      else
        var n := |locs| - 1;
        var before := PlacedEpochs(start, chain, locs[..n]);
        if locs[n] < |start| && n < |chain| then before[locs[n] := chain[n].epoch] else before
    }

    /** None of the eight slots of an element may be overwritten. */
    ghost predicate AllKept(flags: seq<bool>, e: Element)
      requires size > 0 && |flags| == size
    {
      forall k | 0 <= k < 8 :: !flags[Homes(e)[k]]
    }

    /** Turn i of a chain of evictions: the element in hand finds no garbage and changes places with the next one. */
    ghost predicate Eviction(table: seq<Element>, flags: seq<bool>, epochs: seq<bool>,
                             chain: seq<Hand>, locs: seq<nat>, i: nat)
      requires size > 0 && |table| == |flags| == |epochs| == size && i < |locs| < |chain|
    {
      && AllKept(flags, chain[i].elem)
      && locs[i] == NextSlot(Homes(chain[i].elem), if i == 0 then None else Some(locs[i - 1]))
      && locs[i] < size
      && chain[i + 1] == Hand(Placed(table, chain, locs[..i])[locs[i]], PlacedEpochs(epochs, chain, locs[..i])[locs[i]])
    }

    ghost predicate IsChain(table: seq<Element>, flags: seq<bool>, epochs: seq<bool>,
                            chain: seq<Hand>, locs: seq<nat>)
      requires size > 0 && |table| == |flags| == |epochs| == size
    {
      |chain| == |locs| + 1 && forall i | 0 <= i < |locs| :: Eviction(table, flags, epochs, chain, locs, i)
    }

    /** One more eviction. */
    lemma ChainGrows(table: seq<Element>, flags: seq<bool>, epochs: seq<bool>,
                     chain: seq<Hand>, locs: seq<nat>, next: Hand, loc: nat)
      requires size > 0 && |table| == |flags| == |epochs| == size && IsChain(table, flags, epochs, chain, locs)
      requires var n := |locs|;
        && AllKept(flags, chain[n].elem) && loc < size
        && loc == NextSlot(Homes(chain[n].elem), if n == 0 then None else Some(locs[n - 1]))
        && next == Hand(Placed(table, chain, locs)[loc], PlacedEpochs(epochs, chain, locs)[loc])
      ensures IsChain(table, flags, epochs, chain + [next], locs + [loc])
      ensures Placed(table, chain + [next], locs + [loc]) == Placed(table, chain, locs)[loc := chain[|locs|].elem]
      ensures PlacedEpochs(epochs, chain + [next], locs + [loc])
           == PlacedEpochs(epochs, chain, locs)[loc := chain[|locs|].epoch]
    {
      hide AllKept, NextSlot, Homes, Eviction, Placed, PlacedEpochs;
      var n, c, l := |locs|, chain + [next], locs + [loc];
      forall i | 0 <= i < |l| ensures Eviction(table, flags, epochs, c, l, i) {
        if i < n {
          EvictionStays(table, flags, epochs, chain, locs, next, loc, i);
        } else {
          EvictionLast(table, flags, epochs, chain, locs, next, loc);
        }
      }
      PlacedLast(table, epochs, chain, locs, next, loc);
    }

    lemma EvictionStays(table: seq<Element>, flags: seq<bool>, epochs: seq<bool>,
                        chain: seq<Hand>, locs: seq<nat>, next: Hand, loc: nat, i: nat)
      requires size > 0 && |table| == |flags| == |epochs| == size && i < |locs| < |chain|
      requires Eviction(table, flags, epochs, chain, locs, i)
      ensures Eviction(table, flags, epochs, chain + [next], locs + [loc], i)
    {
      hide AllKept, NextSlot, Homes, Placed, PlacedEpochs;
      assert (locs + [loc])[..i] == locs[..i];
      PlacedPrefix(table, epochs, chain, next, locs[..i]);
    }

    lemma EvictionLast(table: seq<Element>, flags: seq<bool>, epochs: seq<bool>,
                       chain: seq<Hand>, locs: seq<nat>, next: Hand, loc: nat)
      requires size > 0 && |table| == |flags| == |epochs| == size && |chain| == |locs| + 1
      requires var n := |locs|;
        && AllKept(flags, chain[n].elem) && loc < size
        && loc == NextSlot(Homes(chain[n].elem), if n == 0 then None else Some(locs[n - 1]))
        && next == Hand(Placed(table, chain, locs)[loc], PlacedEpochs(epochs, chain, locs)[loc])
      ensures Eviction(table, flags, epochs, chain + [next], locs + [loc], |locs|)
    {
      hide AllKept, NextSlot, Homes, Placed, PlacedEpochs;
      assert (locs + [loc])[..|locs|] == locs;
      PlacedPrefix(table, epochs, chain, next, locs);
    }

    lemma PlacedLast(table: seq<Element>, epochs: seq<bool>, chain: seq<Hand>, locs: seq<nat>, next: Hand, loc: nat)
      requires |chain| == |locs| + 1 && loc < |table| == |epochs|
      ensures Placed(table, chain + [next], locs + [loc]) == Placed(table, chain, locs)[loc := chain[|locs|].elem]
      ensures PlacedEpochs(epochs, chain + [next], locs + [loc])
           == PlacedEpochs(epochs, chain, locs)[loc := chain[|locs|].epoch]
    {
      assert (locs + [loc])[..|locs|] == locs;
      PlacedPrefix(table, epochs, chain, next, locs);
    }

    lemma {:induction false} PlacedPrefix(table: seq<Element>, epochs: seq<bool>, chain: seq<Hand>, next: Hand,
                                          locs: seq<nat>)
      requires |locs| <= |chain|
      ensures Placed(table, chain + [next], locs) == Placed(table, chain, locs)
      ensures PlacedEpochs(epochs, chain + [next], locs) == PlacedEpochs(epochs, chain, locs)
      decreases |locs|
    {
      if locs != [] {
        PlacedPrefix(table, epochs, chain, next, locs[..|locs| - 1]);
      }
    }

    /** The last element of a chain takes its first garbage slot. */
    ghost predicate Lands(table: seq<Element>, flags: seq<bool>, epochs: seq<bool>,
                          chain: seq<Hand>, locs: seq<nat>, k: nat,
                          table': seq<Element>, flags': seq<bool>, epochs': seq<bool>)
      requires size > 0 && |table| == |flags| == |epochs| == size && |chain| == |locs| + 1
    {
      var last := chain[|locs|];
      && k < 8 && flags[Homes(last.elem)[k]] && (forall j | 0 <= j < k :: !flags[Homes(last.elem)[j]])
      && table' == Placed(table, chain, locs)[Homes(last.elem)[k] := last.elem]
      && flags' == flags[Homes(last.elem)[k] := false]
      && epochs' == PlacedEpochs(epochs, chain, locs)[Homes(last.elem)[k] := last.epoch]
    }

    /** Moves elements along their slots until one lands on garbage or the depth runs out. */
    method Displace(e: Element)
      returns (ghost dropped: multiset<Element>, ghost chain: seq<Hand>, ghost locs: seq<nat>)
      requires Shaped() && Homed() && Known() && e in inserted
      modifies this`table, this`flags, this`epochs
      ensures IsChain(old(table), old(flags), old(epochs), chain, locs) && chain[0] == Hand(e, true)
      ensures (if dropped == multiset{} then
                 |locs| < depthLimit && exists k: nat :: Lands(old(table), old(flags), old(epochs), chain, locs, k,
                                                              table, flags, epochs)
               else
                 && |locs| == depthLimit && dropped == multiset{chain[depthLimit].elem}
                 && table == Placed(old(table), chain, locs) && flags == old(flags)
                 && epochs == PlacedEpochs(old(epochs), chain, locs))
      ensures Shaped() && Homed() && Known()
      ensures |dropped| <= 1 && Live(table, flags) + dropped == old(Live(table, flags)) + multiset{e}
      ensures old(Recent(flags, epochs)) + 1 - |dropped| <= Recent(flags, epochs) <= old(Recent(flags, epochs)) + 1
      ensures dropped == multiset{} ==> Current(e)
    {
      hide Live, Recent, Homed, Known, Homes, NextSlot, Placed, PlacedEpochs, Eviction;
      var cur, lastEpoch, lastLoc := e, true, None;
      chain, locs := [Hand(e, true)], [];
      PlacedNone(table, epochs, chain);
      for depth := 0 to depthLimit
        invariant |locs| == depth && IsChain(old(table), old(flags), old(epochs), chain, locs)
        invariant chain[0] == Hand(e, true) && chain[depth] == Hand(cur, lastEpoch)
        invariant lastLoc == if depth == 0 then None else Some(locs[depth - 1])
        invariant table == Placed(old(table), chain, locs) && flags == old(flags)
        invariant epochs == PlacedEpochs(old(epochs), chain, locs)
        invariant Shaped() && Homed() && Known() && (cur == DEFAULT || cur in inserted)
        invariant Live(table, flags) + multiset{cur} == old(Live(table, flags)) + multiset{e}
        invariant Recent(flags, epochs) + One(lastEpoch) == old(Recent(flags, epochs)) + 1
        invariant (cur == e && lastEpoch) || Current(e)
      {
        var homes := Homes(cur);
        var k := FindGarbage(cur);
        if k < 8 {
          Move(homes[k], cur, lastEpoch, e);
          dropped := multiset{};
          assert Lands(old(table), old(flags), old(epochs), chain, locs, k, table, flags, epochs);
          return;
        }
        var loc := NextSlot(homes, lastLoc);
        var t, epoch := table[loc], epochs[loc];
        KnownAt(loc);
        ChainGrows(old(table), old(flags), old(epochs), chain, locs, Hand(t, epoch), loc);
        Move(loc, cur, lastEpoch, e);
        cur, lastEpoch, lastLoc := t, epoch, Some(loc);
        chain, locs := chain + [Hand(t, epoch)], locs + [loc];
        assert flags == old(flags);
      }
      dropped := multiset{cur};
    }

    lemma PlacedNone(table: seq<Element>, epochs: seq<bool>, chain: seq<Hand>)
      ensures Placed(table, chain, []) == table && PlacedEpochs(epochs, chain, []) == epochs
    {
    }

    lemma KnownAt(i: nat)
      requires Known() && i < |table|
      ensures table[i] == DEFAULT || table[i] in inserted
    {
    }

    /**
     * Inserts an element. Counted with multiplicity, the live elements left by the
     * ageing check and the new one are all still live afterwards, save at most one.
     */
    method Insert(e: Element)
      returns (ghost dropped: multiset<Element>, ghost chain: seq<Hand>, ghost locs: seq<nat>)
      requires Valid()
      modifies this`table, this`flags, this`epochs, this`counter, this`inserted
      ensures Valid() && inserted == old(inserted) + {e}
      ensures |dropped| <= 1
      ensures var before := old(Live(table, if Ages(counter, epochSize, flags, epochs)
                                            then Aged(flags, epochs) else flags));
              || Live(table, flags) + dropped == before + multiset{e}
              || (e in before && dropped == multiset{} && Live(table, flags) == before)
      ensures counter == old(Counter(counter, epochSize, Recent(flags, epochs)))
      ensures dropped == multiset{} ==> Current(e)
      // An element that is there, or that finds garbage among its slots, is never turned away.
      ensures (var garbage := old(if Ages(counter, epochSize, flags, epochs) then Aged(flags, epochs) else flags);
               exists k | 0 <= k < 8 :: old(table)[Homes(e)[k]] == e || garbage[Homes(e)[k]])
              ==> dropped == multiset{} && Current(e)
      // Something is dropped only at the end of depthLimit evictions, none of which found garbage.
      ensures dropped != multiset{} ==>
                var ages := old(Ages(counter, epochSize, flags, epochs));
                var garbage := old(if ages then Aged(flags, epochs) else flags);
                exists recent: seq<bool> | |recent| == size && (!ages ==> recent == old(epochs))
                                           && (ages ==> forall i | 0 <= i < size :: !recent[i]) ::
                  && IsChain(old(table), garbage, recent, chain, locs) && chain[0] == Hand(e, true)
                  && |locs| == depthLimit && dropped == multiset{chain[depthLimit].elem}
                  && table == Placed(old(table), chain, locs) && flags == garbage
    {
      hide Live, Recent, Homed, Aged, IsChain, Placed, PlacedEpochs;
      EpochCheck();
      ghost var garbage, recent := flags, epochs;
      inserted := inserted + {e};
      var k := Find(e);
      if k < 8 {
        var loc := Homes(e)[k];
        ghost var before, garbage := Live(table, flags), flags[loc];
        if !garbage {
          LiveHas(table, flags, loc);
        }
        Store(loc, e, true);
        assert CurrentAt(e, loc);
        Cancel(Live(table, flags), before, e);
        dropped, chain, locs := multiset{}, [], [];
        return;
      }
      dropped, chain, locs := Displace(e);
      if dropped != multiset{} {
        FirstTurn(old(table), garbage, recent, chain, locs);
      }
    }

    lemma FirstTurn(table: seq<Element>, flags: seq<bool>, epochs: seq<bool>, chain: seq<Hand>, locs: seq<nat>)
      requires size > 0 && |table| == |flags| == |epochs| == size && IsChain(table, flags, epochs, chain, locs)
      requires locs != []
      ensures AllKept(flags, chain[0].elem)
    {
      assert Eviction(table, flags, epochs, chain, locs, 0);
    }

    /** Letting an element be erased does not make it disappear before the next insert. */
    method InsertEraseRecheck(e: Element) returns (r: bool)
      requires Valid()
      modifies this
      ensures Valid() && r
    {
      var _, _, _ := Insert(e);
      var found := Contains(e, true);
      if found {
        r := Contains(e, false);
      } else {
        r := true;
      }
    }
  }
}
