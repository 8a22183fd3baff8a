/**
 * The layered coin caches of src/coins.cpp as values: what each operation does
 * to a whole stack of write-back caches over a database, and the proof that
 * the stack shows what a stack of plain maps would show.
 */
module CoinsViews {
  import opened Common
  import opened CoinsData

  type Txid = Hash256

  datatype Entry = Entry(coins: Coins, isDirty: bool, isFresh: bool)

  /** A database, or a cache backed by another view. */
  datatype View =
    | Db(store: map<Txid, Coins>, best: Hash256)
    | Cache(entries: map<Txid, Entry>, best: Hash256, hasModifier: bool, base: View)

  // ---------------------------------------------------------------- reading

  /** The coins that GetCoins returns, pruned or not. */
  function Lookup(v: View, t: Txid): Option<Coins> {
    match v
    case Db(store, _) => if t in store then Some(store[t]) else None
    case Cache(entries, _, _, base) => if t in entries then Some(entries[t].coins) else Lookup(base, t)
  }

  /** Lookup, with pruned coins read as absent. */
  function Visible(v: View, t: Txid): Option<Coins> {
    match Lookup(v, t)
    case None => None
    case Some(c) => Normal(c)
  }

  /** FetchCoins: a read fills every cache on the way down. */
  function Fetch(v: View, t: Txid): View {
    match v
    case Db(_, _) => v
    case Cache(entries, best, m, base) =>
      if t in entries then v else
        match Lookup(base, t)
        case None => Cache(entries, best, m, Fetch(base, t))
        case Some(c) => Cache(entries[t := Entry(c, false, IsPruned(c))], best, m, Fetch(base, t))
  }

  /** The block a view stands at: the first non-null hash on the way down. */
  function BestBlock(v: View): Hash256 {
    match v
    case Db(_, best) => best
    case Cache(_, best, _, base) => if best == NULL_HASH then BestBlock(base) else best
  }

  /** GetBestBlock remembers its answer in every cache it passes. */
  function FetchBest(v: View): View {
    match v
    case Db(_, _) => v
    case Cache(entries, best, m, base) =>
      if best == NULL_HASH then Cache(entries, BestBlock(base), m, FetchBest(base)) else v
  }

  // ---------------------------------------------------------------- writing

  /** ModifyCoins: bring the entry into the cache and mark it isDirty. */
  function Open(v: View, t: Txid): View
    requires v.Cache? && !v.hasModifier
  {
    if t in v.entries then
      v.(entries := v.entries[t := v.entries[t].(isDirty := true)], hasModifier := true)
    else
      var e := match Lookup(v.base, t)
               case None => Entry(EMPTY, true, true)
               case Some(c) => Entry(c, true, IsPruned(c));
      Cache(v.entries[t := e], v.best, true, Fetch(v.base, t))
  }

  /** ModifyNewCoins: like Open, without asking the base. */
  function OpenNew(v: View, t: Txid, coinbase: bool): Outcome<View>
    requires v.Cache? && !v.hasModifier
  {
    var e := if t in v.entries then v.entries[t] else Entry(EMPTY, false, false);
    if !coinbase && !IsPruned(e.coins) then Throw
    else
      var isFresh := e.isFresh || (!coinbase && !e.isDirty);
      Ok(v.(entries := v.entries[t := Entry(EMPTY, true, isFresh)], hasModifier := true))
  }

  /** A write through an open modifier. */
  function Poke(v: View, t: Txid, c: Coins): View
    requires v.Cache? && t in v.entries
  {
    v.(entries := v.entries[t := v.entries[t].(coins := c)])
  }

  /** The destructor of CCoinsModifier. */
  function Close(v: View, t: Txid): View
    requires v.Cache? && t in v.entries
  {
    var e := v.entries[t].(coins := Cleanup(v.entries[t].coins));
    if e.isFresh && IsPruned(e.coins) then
      v.(entries := v.entries - {t}, hasModifier := false)
    else
      v.(entries := v.entries[t := e], hasModifier := false)
  }

  function Uncache(v: View, t: Txid): View
    requires v.Cache?
  {
    if t in v.entries && !v.entries[t].isDirty && !v.entries[t].isFresh then v.(entries := v.entries - {t}) else v
  }

  // --------------------------------------------------------------- flushing

  /** What one child entry leaves in the parent cache; None is no entry. */
  function Merge(ours: Option<Entry>, theirs: Entry): Option<Entry> {
    if !theirs.isDirty then ours
    else
      match ours
      case None =>
        if theirs.isFresh && IsPruned(theirs.coins) then None else Some(Entry(theirs.coins, true, theirs.isFresh))
      case Some(e) =>
        if e.isFresh && IsPruned(theirs.coins) then None else Some(Entry(theirs.coins, true, e.isFresh))
  }

  /** The parent's entry for t once the child's entries are merged in. */
  function MergedAt(ours: map<Txid, Entry>, theirs: map<Txid, Entry>, t: Txid): Option<Entry> {
    if t in theirs then Merge(Find(ours, t), theirs[t]) else Find(ours, t)
  }

  function Merged(ours: map<Txid, Entry>, theirs: map<Txid, Entry>): map<Txid, Entry> {
    map t | t in ours.Keys + theirs.Keys && MergedAt(ours, theirs, t).Some? :: MergedAt(ours, theirs, t).value
  }

  /** The condition of the "FRESH flag misapplied" exception for one entry. */
  predicate Misapplied(ours: map<Txid, Entry>, theirs: map<Txid, Entry>, t: Txid) {
    t in theirs && theirs[t].isDirty && theirs[t].isFresh && t in ours && !IsPruned(ours[t].coins)
  }

  /** The coins the database keeps for t once the child's entries are written. */
  function StoredAt(store: map<Txid, Coins>, theirs: map<Txid, Entry>, t: Txid): Option<Coins> {
    if t in theirs && theirs[t].isDirty then Normal(theirs[t].coins) else Find(store, t)
  }

  function Stored(store: map<Txid, Coins>, theirs: map<Txid, Entry>): map<Txid, Coins> {
    map t | t in store.Keys + theirs.Keys && StoredAt(store, theirs, t).Some? :: StoredAt(store, theirs, t).value
  }

  function BatchWrite(v: View, theirs: map<Txid, Entry>, hash: Hash256): Outcome<View>
    requires v.Cache? ==> !v.hasModifier
  {
    match v
    case Db(store, best) => Ok(Db(Stored(store, theirs), if hash == NULL_HASH then best else hash))
    case Cache(entries, _, m, base) =>
      if exists t | t in theirs :: Misapplied(entries, theirs, t) then Throw
      else Ok(Cache(Merged(entries, theirs), hash, m, base))
  }

  function Flush(v: View): Outcome<View>
    requires v.Cache?
    requires v.base.Cache? ==> !v.base.hasModifier
  {
    match BatchWrite(v.base, v.entries, v.best)
    case Throw => Throw
    case Ok(b) => Ok(v.(entries := map[], base := b))
  }

  // -------------------------------------------------------------- invariant

  /** What the two flags promise about the view below. */
  ghost predicate EntryOk(e: Entry, t: Txid, base: View) {
    && (!e.isDirty ==> Visible(base, t) == Normal(e.coins))
    && (e.isFresh ==> Visible(base, t) == None)
  }

  ghost predicate FlagsOk(v: View) {
    v.Cache? ==> FlagsOk(v.base) && forall t | t in v.entries :: EntryOk(v.entries[t], t, v.base)
  }

  /** No modifier is open anywhere in the stack. */
  predicate Idle(v: View)
    ensures Idle(v) && v.Cache? && v.base.Cache? ==> !v.base.hasModifier
  {
    v.Cache? ==> !v.hasModifier && Idle(v.base)
  }

  /** What a view shows, as one plain map. */
  ghost function Shown(v: View): imap<Txid, Coins> {
    imap t: Txid | Visible(v, t).Some? :: Visible(v, t).value
  }

  ghost function Levels(v: View): seq<imap<Txid, Coins>>
    ensures |Levels(v)| >= 1 && Levels(v)[0] == Shown(v)
    ensures |Levels(v)| >= 3 <==> v.Cache? && v.base.Cache?
  {
    [Shown(v)] + (if v.Cache? then Levels(v.base) else [])
  }

  lemma SameShown(v: View, w: View)
    requires forall t: Txid :: Visible(v, t) == Visible(w, t)
    ensures Shown(v) == Shown(w)
  {
  }

  lemma ShownFacts(v: View, t: Txid)
    ensures t in Shown(v) <==> Visible(v, t).Some?
    ensures t in Shown(v) ==> Visible(v, t) == Some(Shown(v)[t])
  {
  }

  /** Flags that hold over one view hold over any view that shows the same. */
  lemma FlagsCarry(v: View, entries: map<Txid, Entry>, b: View)
    requires v.Cache? && FlagsOk(b) && Shown(b) == Shown(v.base)
    requires forall t | t in entries :: EntryOk(entries[t], t, v.base)
    ensures forall t | t in entries :: EntryOk(entries[t], t, b)
  {
    forall t | t in entries ensures EntryOk(entries[t], t, b) {
      ShownFacts(b, t);
      ShownFacts(v.base, t);
    }
  }

  // ------------------------------------------------------- reads are silent

  lemma FetchFlags(v: View, t: Txid)
    requires v.Cache? && t !in v.entries && FlagsOk(v)
    requires FlagsOk(Fetch(v.base, t)) && Shown(Fetch(v.base, t)) == Shown(v.base)
    ensures FlagsOk(Fetch(v, t))
  {
    var w := Fetch(v, t);
    FlagsCarry(v, v.entries, w.base);
    ShownFacts(w.base, t);
    ShownFacts(v.base, t);
    hide IsPruned, Shown;
    assert t in w.entries ==> EntryOk(w.entries[t], t, w.base);
  }

  lemma FetchVisible(v: View, t: Txid, u: Txid)
    requires v.Cache? && t !in v.entries && Visible(Fetch(v.base, t), u) == Visible(v.base, u)
    ensures Visible(Fetch(v, t), u) == Visible(v, u)
  {
    hide IsPruned;
  }

  lemma {:induction false} FetchIsSilent(v: View, t: Txid)
    requires FlagsOk(v)
    ensures FlagsOk(Fetch(v, t)) && Levels(Fetch(v, t)) == Levels(v)
    ensures Idle(v) ==> Idle(Fetch(v, t))
    ensures Lookup(Fetch(v, t), t) == Lookup(v, t)
    ensures forall u: Txid :: Visible(Fetch(v, t), u) == Visible(v, u)
    ensures BestBlock(Fetch(v, t)) == BestBlock(v)
    ensures Fetch(v, t).Db? <==> v.Db?
  {
    hide IsPruned;
    if v.Cache? && t !in v.entries {
      FetchIsSilent(v.base, t);
      FetchFlags(v, t);
      hide Visible, FlagsOk;
      var w := Fetch(v, t);
      forall u: Txid ensures Visible(w, u) == Visible(v, u) {
        FetchVisible(v, t, u);
      }
      SameShown(w, v);
    }
  }

  lemma {:induction false} FetchBestIsSilent(v: View)
    requires FlagsOk(v)
    ensures FlagsOk(FetchBest(v)) && Levels(FetchBest(v)) == Levels(v)
    ensures Idle(v) ==> Idle(FetchBest(v))
    ensures forall u: Txid :: Visible(FetchBest(v), u) == Visible(v, u)
    ensures BestBlock(FetchBest(v)) == BestBlock(v)
    ensures FetchBest(v).Db? <==> v.Db?
  {
    hide IsPruned;
    if v.Cache? && v.best == NULL_HASH {
      FetchBestIsSilent(v.base);
      var w := FetchBest(v);
      FlagsCarry(v, v.entries, w.base);
      forall u: Txid ensures Visible(w, u) == Visible(v, u) {
        ShownFacts(w.base, u);
        ShownFacts(v.base, u);
      }
      SameShown(w, v);
    }
  }

  lemma UncacheIsSilent(v: View, t: Txid)
    requires FlagsOk(v) && v.Cache?
    ensures FlagsOk(Uncache(v, t)) && Levels(Uncache(v, t)) == Levels(v)
    ensures Idle(v) ==> Idle(Uncache(v, t))
    ensures BestBlock(Uncache(v, t)) == BestBlock(v)
  {
    SameShown(Uncache(v, t), v);
  }

  // -------------------------------------------------- what is left in a cache

  /** Only the entry of t differs. */
  ghost predicate OnlyAt(was: map<Txid, Entry>, now: map<Txid, Entry>, t: Txid, e: Option<Entry>) {
    Find(now, t) == e && forall u: Txid | u != t :: Find(now, u) == Find(was, u)
  }

  /** Whether a spent entry for t can simply be forgotten: nothing below shows t. */
  predicate ForgetsSpent(v: View, t: Txid)
    requires v.Cache?
  {
    if t in v.entries then v.entries[t].isFresh else Visible(v.base, t) == None
  }

  /** A read leaves a clean copy in the cache, so that the next one does not go further; the best block likewise. */
  lemma AccessLeaves(v: View, t: Txid)
    requires v.Cache?
    ensures OnlyAt(v.entries, Fetch(v, t).entries, t,
                   if t in v.entries then Some(v.entries[t])
                   else if Lookup(v, t).None? then None
                   else Some(Entry(Lookup(v, t).value, false, ForgetsSpent(v, t))))
    ensures FetchBest(v).best == BestBlock(v)
  {
  }

  /** A modification leaves a dirty entry, or none if it spent the last output of coins unknown below. */
  lemma ModifyLeaves(v: View, t: Txid, c: Coins)
    requires v.Cache? && !v.hasModifier
    ensures var w := Close(Poke(Open(v, t), t, c), t);
      OnlyAt(v.entries, w.entries, t, if ForgetsSpent(v, t) && IsPruned(c) then None
                                      else Some(Entry(Cleanup(c), true, ForgetsSpent(v, t))))
  {
    CleanupFacts(c);
    hide Cleanup, Fetch;
  }

  /** New coins over an entry that is not dirty count as unknown below, except those of a coinbase. */
  lemma ModifyNewLeaves(v: View, t: Txid, coinbase: bool, c: Coins)
    requires v.Cache? && !v.hasModifier
    ensures OpenNew(v, t, coinbase).Throw? <==> !coinbase && t in v.entries && !IsPruned(v.entries[t].coins)
    ensures OpenNew(v, t, coinbase).Ok? ==>
              var w := Close(Poke(OpenNew(v, t, coinbase).value, t, c), t);
              var forget := (t in v.entries && v.entries[t].isFresh)
                         || (!coinbase && !(t in v.entries && v.entries[t].isDirty));
              OnlyAt(v.entries, w.entries, t, if forget && IsPruned(c) then None
                                              else Some(Entry(Cleanup(c), true, forget)))
  {
    CleanupFacts(c);
    hide Cleanup;
  }

  /** An entry written from a child replaces ours and keeps our flag; spent coins unknown below leave no entry. */
  lemma WriteLeaves(v: View, theirs: map<Txid, Entry>, hash: Hash256, t: Txid)
    requires v.Cache? && !v.hasModifier && BatchWrite(v, theirs, hash).Ok?
    ensures var w := BatchWrite(v, theirs, hash).value;
      w.Cache? && Find(w.entries, t) ==
        if t !in theirs || !theirs[t].isDirty then Find(v.entries, t)
        else
          var forget := if t in v.entries then v.entries[t].isFresh else theirs[t].isFresh;
          if forget && IsPruned(theirs[t].coins) then None else Some(Entry(theirs[t].coins, true, forget))
  {
    hide IsPruned;
  }

  /** Uncaching drops an entry exactly if it is neither dirty nor fresh. */
  lemma UncacheLeaves(v: View, t: Txid)
    requires v.Cache?
    ensures OnlyAt(v.entries, Uncache(v, t).entries, t,
                   if t in v.entries && (v.entries[t].isDirty || v.entries[t].isFresh) then Some(v.entries[t])
                   else None)
  {
  }

  // ------------------------------------------------------ writes are visible

  /** A plain map after the coins of t were replaced by c. */
  ghost function Put(p: imap<Txid, Coins>, t: Txid, c: Coins): imap<Txid, Coins> {
    if IsPruned(c) then p - {t} else p[t := Cleanup(c)]
  }

  /** The whole life of a modifier from ModifyCoins. */
  function WriteCoins(v: View, t: Txid, c: Coins): View
    requires v.Cache? && !v.hasModifier
  {
    Close(Poke(Open(v, t), t, c), t)
  }

  /** The whole life of a modifier from ModifyNewCoins. */
  function WriteNewCoins(v: View, t: Txid, coinbase: bool, c: Coins): Outcome<View>
    requires v.Cache? && !v.hasModifier
  {
    match OpenNew(v, t, coinbase)
    case Throw => Throw
    case Ok(w) => Ok(Close(Poke(w, t, c), t))
  }

  /** An open modifier: its entry is isDirty, and every other entry is sound. */
  ghost predicate OpenAt(v: View, t: Txid) {
    v.Cache? && v.hasModifier && t in v.entries && v.entries[t].isDirty && FlagsOk(v) && Idle(v.base)
  }

  lemma OpenVisible(v: View, t: Txid, u: Txid)
    requires v.Cache? && !v.hasModifier && Visible(Fetch(v.base, t), u) == Visible(v.base, u)
    ensures Visible(Open(v, t), u) == Visible(v, u)
  {
    assert IsPruned(EMPTY);
    hide IsPruned, Fetch;
  }

  lemma OpenFlags(v: View, t: Txid)
    requires v.Cache? && !v.hasModifier && FlagsOk(v)
    requires FlagsOk(Fetch(v.base, t)) && Shown(Fetch(v.base, t)) == Shown(v.base)
    ensures FlagsOk(Open(v, t))
  {
    if t !in v.entries {
      var b := Fetch(v.base, t);
      FlagsCarry(v, v.entries, b);
      ShownFacts(b, t);
      ShownFacts(v.base, t);
      hide IsPruned, Fetch, Shown;
      assert EntryOk(Open(v, t).entries[t], t, b);
    }
  }

  lemma OpenIsSilent(v: View, t: Txid)
    requires v.Cache? && FlagsOk(v) && Idle(v)
    ensures OpenAt(Open(v, t), t)
    ensures Levels(Open(v, t)) == Levels(v)
    ensures Open(v, t).entries[t].coins == (match Lookup(v, t) case None => EMPTY case Some(c) => c)
  {
    var w := Open(v, t);
    FetchIsSilent(v.base, t);
    OpenFlags(v, t);
    hide IsPruned, FlagsOk, Visible, Fetch;
    forall u: Txid ensures Visible(w, u) == Visible(v, u) {
      OpenVisible(v, t, u);
    }
    SameShown(w, v);
  }

  lemma CloseShows(v: View, t: Txid, c: Coins)
    requires OpenAt(v, t)
    ensures var w := Close(Poke(v, t, c), t);
      && FlagsOk(w) && Idle(w) && w.Cache? && w.base == v.base
      && Shown(w) == Put(Shown(v), t, c)
  {
    var w := Close(Poke(v, t, c), t);
    CleanupFacts(c);
    forall u: Txid
      ensures Visible(w, u) == if u == t then Normal(Cleanup(c)) else Visible(v, u)
    {
    }
    assert Shown(w) == Put(Shown(v), t, c);
  }

  /** ModifyCoins, a write and the modifier's end amount to one map update. */
  lemma WriteRefines(v: View, t: Txid, c: Coins)
    requires v.Cache? && FlagsOk(v) && Idle(v)
    ensures var w := WriteCoins(v, t, c);
      && FlagsOk(w) && Idle(w) && w.Cache?
      && Levels(w) == [Put(Shown(v), t, c)] + Levels(v.base)
  {
    OpenIsSilent(v, t);
    CloseShows(Open(v, t), t, c);
    assert Levels(Open(v, t))[1..] == Levels(v)[1..];
    assert Levels(Open(v, t).base) == Levels(v.base);
  }

  lemma OpenNewSound(v: View, t: Txid, coinbase: bool)
    requires v.Cache? && FlagsOk(v) && Idle(v)
    requires !coinbase ==> Visible(v, t) == None
    ensures OpenNew(v, t, coinbase).Ok?
    ensures OpenAt(OpenNew(v, t, coinbase).value, t)
    ensures OpenNew(v, t, coinbase).value.base == v.base
    ensures forall u: Txid | u != t :: Visible(OpenNew(v, t, coinbase).value, u) == Visible(v, u)
  {
  }

  /** A write to t forgets what t showed before. */
  lemma PutForgets(o: View, v: View, t: Txid, c: Coins)
    requires forall u: Txid | u != t :: Visible(o, u) == Visible(v, u)
    ensures Put(Shown(o), t, c) == Put(Shown(v), t, c)
  {
    hide IsPruned, Visible, Cleanup;
  }

  lemma WriteNewRefines(v: View, t: Txid, coinbase: bool, c: Coins)
    requires v.Cache? && FlagsOk(v) && Idle(v)
    requires !coinbase ==> Visible(v, t) == None
    ensures WriteNewCoins(v, t, coinbase, c).Ok?
    ensures var w := WriteNewCoins(v, t, coinbase, c).value;
      && FlagsOk(w) && Idle(w) && w.Cache?
      && Levels(w) == [Put(Shown(v), t, c)] + Levels(v.base)
  {
    OpenNewSound(v, t, coinbase);
    var o := OpenNew(v, t, coinbase).value;
    CloseShows(o, t, c);
    PutForgets(o, v, t, c);
  }

  /**
   * The BIP 30 assumption is exact: for a non-coinbase, ModifyNewCoins runs
   * through and leaves sound flags if and only if the coins are not visible.
   */
  lemma NewCoinsNeedsBip30(v: View, t: Txid)
    requires v.Cache? && FlagsOk(v) && Idle(v)
    ensures (OpenNew(v, t, false).Ok? && FlagsOk(OpenNew(v, t, false).value)) <==> Visible(v, t) == None
    ensures OpenNew(v, t, false) == Throw <==> t in v.entries && Visible(v, t) != None
  {
    if Visible(v, t) == None {
      OpenNewSound(v, t, false);
    } else if t !in v.entries {
      var w := OpenNew(v, t, false).value;
      assert t in w.entries && w.entries[t].isFresh && w.base == v.base;
      assert !EntryOk(w.entries[t], t, w.base);
    }
  }

  // -------------------------------------------------------- flush is a copy

  lemma MergeSound(p: View, theirs: map<Txid, Entry>, t: Txid)
    requires p.Cache? && FlagsOk(p)
    requires t in theirs ==> EntryOk(theirs[t], t, p)
    ensures !Misapplied(p.entries, theirs, t)
    ensures match MergedAt(p.entries, theirs, t)
            case None => Visible(p.base, t) == if t in theirs then Normal(theirs[t].coins) else Visible(p, t)
            case Some(e) =>
              && EntryOk(e, t, p.base)
              && Normal(e.coins) == if t in theirs then Normal(theirs[t].coins) else Visible(p, t)
  {
  }

  lemma BatchWriteSound(b: View, theirs: map<Txid, Entry>, hash: Hash256)
    requires FlagsOk(b) && Idle(b)
    requires forall t | t in theirs :: EntryOk(theirs[t], t, b)
    ensures BatchWrite(b, theirs, hash).Ok?
    ensures var w := BatchWrite(b, theirs, hash).value;
      && FlagsOk(w) && Idle(w)
      && (forall t: Txid :: Visible(w, t) == if t in theirs then Normal(theirs[t].coins) else Visible(b, t))
      && (w.Db? <==> b.Db?) && (w.Cache? ==> w.base == b.base)
  {
    if b.Cache? {
      forall t: Txid
        ensures !Misapplied(b.entries, theirs, t)
      {
        MergeSound(b, theirs, t);
      }
      var w := BatchWrite(b, theirs, hash).value;
      forall t: Txid
        ensures Visible(w, t) == if t in theirs then Normal(theirs[t].coins) else Visible(b, t)
        ensures t in w.entries ==> EntryOk(w.entries[t], t, w.base)
      {
        MergeSound(b, theirs, t);
        assert t in w.entries <==> MergedAt(b.entries, theirs, t).Some?;
      }
    }
  }

  /** Flush never throws, and makes the level below show what the top shows. */
  lemma FlushRefines(v: View)
    requires v.Cache? && FlagsOk(v) && Idle(v)
    ensures Flush(v).Ok?
    ensures var w := Flush(v).value;
      && FlagsOk(w) && Idle(w) && w.Cache?
      && Levels(w) == [Shown(v), Shown(v)] + Levels(v)[2..]
  {
    BatchWriteSound(v.base, v.entries, v.best);
    var w := Flush(v).value;
    hide FlagsOk, Idle, BatchWrite, Levels, IsPruned;
    forall t: Txid
      ensures Visible(w.base, t) == Visible(v, t) && Visible(w, t) == Visible(v, t)
    {
    }
    hide Visible, Flush;
    SameShown(w, v);
    SameShown(w.base, v);
    FlushLevels(v, w);
  }

  lemma FlushLevels(v: View, w: View)
    requires v.Cache? && w.Cache? && (w.base.Cache? <==> v.base.Cache?)
    requires Shown(w) == Shown(v) && Shown(w.base) == Shown(v) && (w.base.Cache? ==> w.base.base == v.base.base)
    ensures Levels(w) == [Shown(v), Shown(v)] + Levels(v)[2..]
  {
    LevelsOf(v);
    LevelsOf(w);
    hide Shown, Levels;
    var rest := Lower(v);
    assert ([Shown(v), Shown(v.base)] + rest)[2..] == rest;
  }

  /** The levels below the first two. */
  ghost function Lower(v: View): seq<imap<Txid, Coins>> {
    if v.Cache? && v.base.Cache? then Levels(v.base.base) else []
  }

  lemma LevelsOf(v: View)
    requires v.Cache?
    ensures Levels(v) == [Shown(v), Shown(v.base)] + Lower(v)
  {
    hide Shown, Lookup, Visible;
    assert Levels(v.base) == [Shown(v.base)] + Lower(v);
  }

  /**
   * The best block survives a flush exactly when the flushed cache knows its
   * block, or the hash the flush erases was not hiding another one.
   */
  lemma FlushKeepsBestBlock(v: View)
    requires v.Cache? && FlagsOk(v) && Idle(v)
    ensures Flush(v).Ok?
    ensures BestBlock(Flush(v).value) == BestBlock(v) <==>
            (v.best != NULL_HASH || v.base.Db? || BestBlock(v.base) == BestBlock(v.base.base))
    ensures v.best != NULL_HASH ==> BestBlock(Flush(v).value.base) == BestBlock(v)
  {
    FlushRefines(v);
    BatchWriteSound(v.base, v.entries, v.best);
  }

  /** A flush that loses the best block: the top cache never asked for it. */
  lemma FlushLosesBestBlock()
    ensures var v := Cache(map[], NULL_HASH, false, Cache(map[], 7, false, Db(map[], 5)));
      && FlagsOk(v) && Idle(v)
      && BestBlock(v) == 7
      && Flush(v).Ok? && BestBlock(Flush(v).value) == 5
  {
    var v := Cache(map[], NULL_HASH, false, Cache(map[], 7, false, Db(map[], 5)));
    BatchWriteSound(v.base, v.entries, v.best);
    assert BestBlock(v.base) == 7;
    assert Flush(v).value.base == Cache(Merged(map[], map[]), NULL_HASH, false, Db(map[], 5));
    assert BestBlock(Db(map[], 5)) == 5;
  }

  // ------------------------------------------------------------- whole runs

  datatype Op =
    | GetCoins(t: Txid)
    | GetBestBlock
    | SetBestBlock(h: Hash256)
    | ModifyCoins(t: Txid, c: Coins)
    | ModifyNewCoins(t: Txid, coinbase: bool, c: Coins)
    | UncacheOp(t: Txid)
    | FlushOp
    | PushCache
    | DropCache

  function Step(v: View, op: Op): Outcome<View>
    requires v.Cache? && Idle(v)
    requires op.DropCache? ==> v.base.Cache?
  {
    match op
    case GetCoins(t) => Ok(Fetch(v, t))
    case GetBestBlock => Ok(FetchBest(v))
    case SetBestBlock(h) => Ok(Cache(v.entries, h, v.hasModifier, v.base))
    case ModifyCoins(t, c) => Ok(WriteCoins(v, t, c))
    case ModifyNewCoins(t, coinbase, c) => WriteNewCoins(v, t, coinbase, c)
    case UncacheOp(t) => Ok(Uncache(v, t))
    case FlushOp => Flush(v)
    case PushCache => Ok(Cache(map[], NULL_HASH, false, v))
    case DropCache => Ok(v.base)
  }

  /** The same operation on a stack of plain maps, top first. */
  ghost function PlainStep(s: seq<imap<Txid, Coins>>, op: Op): seq<imap<Txid, Coins>>
    requires |s| >= 2
  {
    match op
    case ModifyCoins(t, c) => [Put(s[0], t, c)] + s[1..]
    case ModifyNewCoins(t, _, c) => [Put(s[0], t, c)] + s[1..]
    case FlushOp => [s[0], s[0]] + s[2..]
    case PushCache => [s[0]] + s
    case DropCache => s[1..]
    case _ => s
  }

  /** What a caller must respect; it speaks of the plain maps only. */
  ghost predicate Legal(s: seq<imap<Txid, Coins>>, op: Op) {
    && |s| >= 2
    && (op.ModifyNewCoins? && !op.coinbase ==> op.t !in s[0])
    && (op.DropCache? ==> |s| >= 3)
  }

  lemma StepRefines(v: View, op: Op)
    requires v.Cache? && FlagsOk(v) && Idle(v) && Legal(Levels(v), op)
    ensures Step(v, op).Ok?
    ensures var w := Step(v, op).value;
      w.Cache? && FlagsOk(w) && Idle(w) && Levels(w) == PlainStep(Levels(v), op)
  {
    assert Levels(v) == [Shown(v)] + Levels(v.base);
    match op
    case GetCoins(t) => FetchIsSilent(v, t);
    case GetBestBlock => FetchBestIsSilent(v);
    case SetBestBlock(_) => SameShown(Step(v, op).value, v);
    case ModifyCoins(t, c) => WriteRefines(v, t, c);
    case ModifyNewCoins(t, coinbase, c) =>
      ShownFacts(v, t);
      WriteNewRefines(v, t, coinbase, c);
    case UncacheOp(t) => UncacheIsSilent(v, t);
    case FlushOp => FlushRefines(v);
    case PushCache => SameShown(Step(v, op).value, v);
    case DropCache =>
  }

  ghost predicate LegalRun(s: seq<imap<Txid, Coins>>, ops: seq<Op>)
    decreases |ops|
  {
    ops != [] ==> Legal(s, ops[0]) && LegalRun(PlainStep(s, ops[0]), ops[1..])
  }

  ghost function PlainRun(s: seq<imap<Txid, Coins>>, ops: seq<Op>): seq<imap<Txid, Coins>>
    requires LegalRun(s, ops)
    decreases |ops|
  {
    if ops == [] then s else PlainRun(PlainStep(s, ops[0]), ops[1..])
  }

  /** Ok(final view), or Throw as soon as a step throws or is not defined. */
  function Run(v: View, ops: seq<Op>): Outcome<View>
    decreases |ops|
  {
    if ops == [] then Ok(v)
    else if v.Cache? && Idle(v) && (ops[0].DropCache? ==> v.base.Cache?) then
      match Step(v, ops[0])
      case Throw => Throw
      case Ok(w) => Run(w, ops[1..])
    else Throw
  }

  /**
   * Over every legal run a stack of caches of any depth, on any database,
   * shows at every level what the stack of plain maps shows; no exception is
   * ever thrown.
   */
  lemma {:induction false} RunRefines(v: View, ops: seq<Op>)
    requires v.Cache? && FlagsOk(v) && Idle(v) && LegalRun(Levels(v), ops)
    ensures Run(v, ops).Ok?
    ensures FlagsOk(Run(v, ops).value)
    ensures Levels(Run(v, ops).value) == PlainRun(Levels(v), ops)
    decreases |ops|
  {
    if ops != [] {
      StepRefines(v, ops[0]);
      RunRefines(Step(v, ops[0]).value, ops[1..]);
    }
  }

  // ------------------------------------------------- best blocks over whole runs

  /** Where one level stands; told is whether it holds a hash of its own. */
  datatype Standing = Standing(block: Hash256, told: bool)

  function Standings(v: View): (s: seq<Standing>)
    ensures |s| >= 1 && (|s| >= 2 <==> v.Cache?) && (|s| >= 3 <==> v.Cache? && v.base.Cache?)
    ensures s[0] == Standing(BestBlock(v), v.best != NULL_HASH)
    ensures |s| >= 2 && !s[0].told ==> s[0].block == s[1].block
  {
    [Standing(BestBlock(v), v.best != NULL_HASH)] + if v.Cache? then Standings(v.base) else []
  }

  /** A question goes down to the first level that holds a hash, and each level above it keeps the answer. */
  function Asked(s: seq<Standing>): seq<Standing>
    requires s != []
  {
    if s[0].told || |s| == 1 then s else [Standing(s[0].block, s[0].block != NULL_HASH)] + Asked(s[1..])
  }

  function Told(s: seq<Standing>, h: Hash256): seq<Standing>
    requires |s| >= 2
  {
    [if h != NULL_HASH then Standing(h, true) else Standing(s[1].block, false)] + s[1..]
  }

  /** A flush copies the top hash, null or not, except that a database ignores a null one. */
  function Copied(s: seq<Standing>): seq<Standing>
    requires |s| >= 2
  {
    if s[0].told then [s[0], s[0]] + s[2..]
    else if |s| == 2 then s
    else [Standing(s[2].block, false), Standing(s[2].block, false)] + s[2..]
  }

  /** One operation on where the levels stand, top first. */
  function StandStep(s: seq<Standing>, op: Op): seq<Standing>
    requires |s| >= 2
  {
    match op
    case GetBestBlock => Asked(s)
    case SetBestBlock(h) => Told(s, h)
    case FlushOp => Copied(s)
    case PushCache => [Standing(s[0].block, false)] + s
    case DropCache => s[1..]
    case _ => s
  }

  lemma {:induction false} FetchStands(v: View, t: Txid)
    ensures Standings(Fetch(v, t)) == Standings(v)
  {
    if v.Cache? && t !in v.entries {
      FetchStands(v.base, t);
      assert Standings(v.base)[0] == Standings(Fetch(v.base, t))[0];
    }
  }

  lemma {:induction false} FetchBestStands(v: View)
    ensures Standings(FetchBest(v)) == Asked(Standings(v))
  {
    if v.Cache? && v.best == NULL_HASH {
      FetchBestStands(v.base);
      assert Standings(v)[1..] == Standings(v.base);
    }
  }

  lemma BatchWriteStands(b: View, theirs: map<Txid, Entry>, hash: Hash256)
    requires (b.Cache? ==> !b.hasModifier) && BatchWrite(b, theirs, hash).Ok?
    ensures var w := BatchWrite(b, theirs, hash).value;
      && (w.Cache? <==> b.Cache?) && (w.Cache? ==> w.base == b.base)
      && w.best == if b.Db? && hash == NULL_HASH then b.best else hash
  {
  }

  lemma StandingsOf(v: View)
    requires v.Cache?
    ensures Standings(v) == [Standings(v)[0]] + Standings(v.base)
    ensures Standings(v)[1..] == Standings(v.base)
  {
    hide BestBlock;
  }

  lemma FlushStands(v: View)
    requires v.Cache? && (v.base.Cache? ==> !v.base.hasModifier) && Flush(v).Ok?
    ensures Standings(Flush(v).value) == Copied(Standings(v))
  {
    BatchWriteStands(v.base, v.entries, v.best);
    var w := Flush(v).value;
    StandingsOf(v);
    StandingsOf(w);
    if v.base.Cache? {
      StandingsOf(v.base);
      StandingsOf(w.base);
    }
    hide BatchWrite, Standings, Flush;
  }

  /** A write leaves every hash alone. */
  lemma WriteStands(v: View, w: View)
    requires v.Cache? && w.Cache? && w.best == v.best && Standings(w.base) == Standings(v.base)
    ensures Standings(w) == Standings(v)
  {
    StandingsOf(v);
    StandingsOf(w);
    assert Standings(w.base)[0] == Standings(v.base)[0];
  }

  lemma {:induction false} StepStands(v: View, op: Op)
    requires v.Cache? && Idle(v) && (op.DropCache? ==> v.base.Cache?) && Step(v, op).Ok?
    ensures Standings(Step(v, op).value) == StandStep(Standings(v), op)
  {
    var w := Step(v, op).value;
    StandingsOf(v);
    hide Standings, Cleanup, IsPruned, Lookup, BatchWrite, FetchBest, Fetch;
    match op
    case GetCoins(t) => FetchStands(v, t);
    case GetBestBlock => FetchBestStands(v);
    case SetBestBlock(_) => StandingsOf(w);
    case ModifyCoins(t, c) =>
      FetchStands(v.base, t);
      WriteStands(v, w);
    case ModifyNewCoins(_, _, _) => WriteStands(v, w);
    case UncacheOp(_) => WriteStands(v, w);
    case FlushOp => FlushStands(v);
    case PushCache => StandingsOf(w);
    case DropCache =>
  }

  /** What a caller means by these operations: a told hash stays, and a flush copies it down. */
  function MeantStep(b: seq<Hash256>, op: Op): seq<Hash256>
    requires |b| >= 2
  {
    match op
    case SetBestBlock(h) => [h] + b[1..]
    case FlushOp => [b[0], b[0]] + b[2..]
    case PushCache => [b[0]] + b
    case DropCache => b[1..]
    case _ => b
  }

  function Blocks(s: seq<Standing>): (b: seq<Hash256>)
    ensures |b| == |s| && forall i | 0 <= i < |s| :: b[i] == s[i].block
  {
    if s == [] then [] else [s[0].block] + Blocks(s[1..])
  }

  /**
   * No null hash is set over a block, and no cache is flushed onto another one
   * that alone holds the block unless it was told, or asked for, the block.
   */
  predicate Careful(s: seq<Standing>, op: Op)
    requires |s| >= 2
  {
    && (op.SetBestBlock? && op.h == NULL_HASH ==> s[1].block == NULL_HASH)
    && (op.FlushOp? ==> s[0].told || |s| == 2 || s[1].block == s[2].block)
  }

  lemma {:induction false} AskedBlocks(s: seq<Standing>)
    requires s != []
    ensures Blocks(Asked(s)) == Blocks(s)
  {
    if !s[0].told && |s| > 1 {
      AskedBlocks(s[1..]);
    }
  }

  lemma ToldExactly(s: seq<Standing>, h: Hash256)
    requires |s| >= 2
    ensures Blocks(Told(s, h)) == [h] + Blocks(s)[1..] <==> (h == NULL_HASH ==> s[1].block == NULL_HASH)
  {
    assert Blocks(Told(s, h))[1..] == Blocks(s)[1..];
    hide Blocks;
    assert Blocks(Told(s, h)) == [Blocks(Told(s, h))[0]] + Blocks(s)[1..];
    assert ([h] + Blocks(s)[1..])[0] == h;
  }

  lemma BlocksOf(x: Standing, y: Standing, rest: seq<Standing>)
    ensures Blocks([x, y] + rest) == [x.block, y.block] + Blocks(rest)
  {
  }

  lemma FrontsDiffer(x: Hash256, y: Hash256, rest: seq<Hash256>)
    ensures [x, x] + rest == [y, y] + rest <==> x == y
  {
    assert ([x, x] + rest)[0] == x && ([y, y] + rest)[0] == y;
  }

  lemma CopiedExactly(s: seq<Standing>)
    requires |s| >= 2 && (s[0].told || s[0].block == s[1].block)
    ensures Blocks(Copied(s)) == [s[0].block, s[0].block] + Blocks(s)[2..] <==>
            (s[0].told || |s| == 2 || s[1].block == s[2].block)
  {
    var rest := s[2..];
    assert s == [s[0], s[1]] + rest;
    BlocksOf(s[0], s[1], rest);
    assert Blocks(s)[2..] == Blocks(rest);
    BlocksOf(s[0], s[0], rest);
    if |s| > 2 {
      BlocksOf(Standing(s[2].block, false), Standing(s[2].block, false), rest);
      FrontsDiffer(s[2].block, s[0].block, Blocks(rest));
    }
    hide Blocks;
  }

  /** One step does what the caller means exactly when it is careful. */
  lemma MeantExactly(v: View, op: Op)
    requires v.Cache? && Idle(v) && (op.DropCache? ==> v.base.Cache?) && Step(v, op).Ok?
    ensures Blocks(Standings(Step(v, op).value)) == MeantStep(Blocks(Standings(v)), op) <==> Careful(Standings(v), op)
  {
    var s := Standings(v);
    StepStands(v, op);
    hide Standings, Step, Asked, Told, Copied, BestBlock, Idle;
    match op
    case GetBestBlock => AskedBlocks(s);
    case SetBestBlock(h) => ToldExactly(s, h);
    case FlushOp => CopiedExactly(s);
    case PushCache => assert StandStep(s, op)[1..] == s;
    case DropCache =>
    case _ =>
  }

  /** Every step of the run is careful, as judged by the history of these calls alone. */
  predicate CarefulRun(s: seq<Standing>, ops: seq<Op>)
    decreases |ops|
  {
    ops != [] ==> |s| >= 2 && Careful(s, ops[0]) && CarefulRun(StandStep(s, ops[0]), ops[1..])
  }

  function MeantRun(b: seq<Hash256>, ops: seq<Op>): seq<Hash256>
    decreases |ops|
  {
    if ops == [] || |b| < 2 then b else MeantRun(MeantStep(b, ops[0]), ops[1..])
  }

  /**
   * Over every careful run that does not throw, on a stack of any depth, every
   * level stands at the block that was last set on it or flushed into it.
   */
  lemma {:induction false} RunKeepsBestBlocks(v: View, ops: seq<Op>)
    requires Run(v, ops).Ok? && CarefulRun(Standings(v), ops)
    ensures Blocks(Standings(Run(v, ops).value)) == MeantRun(Blocks(Standings(v)), ops)
    decreases |ops|
  {
    hide Standings, Step, Careful, StandStep, MeantStep, Blocks;
    if ops != [] {
      var w := Step(v, ops[0]).value;
      StepStands(v, ops[0]);
      MeantExactly(v, ops[0]);
      RunKeepsBestBlocks(w, ops[1..]);
    }
  }

  // ---------------------------------------------------- the shortcut of HaveCoins

  /** HaveCoins tests for an empty vout instead of asking whether all is spent. */
  predicate HaveCoins(v: View, t: Txid) {
    match Lookup(v, t)
    case None => false
    case Some(c) => c.vout != []
  }

  /** No stored coins end in a spent output. */
  ghost predicate AllClean(v: View) {
    match v
    case Db(store, _) => forall t | t in store :: IsClean(store[t])
    case Cache(entries, _, _, base) => AllClean(base) && forall t | t in entries :: IsClean(entries[t].coins)
  }

  lemma {:induction false} LookupClean(v: View, t: Txid)
    requires AllClean(v)
    ensures Lookup(v, t).Some? ==> IsClean(Lookup(v, t).value)
  {
    if v.Cache? && t !in v.entries {
      LookupClean(v.base, t);
    }
  }

  /** On clean coins the shortcut is exact. */
  lemma HaveCoinsExact(v: View, t: Txid)
    requires AllClean(v)
    ensures HaveCoins(v, t) <==> Visible(v, t).Some?
  {
    LookupClean(v, t);
    if Lookup(v, t).Some? {
      CleanupFacts(Lookup(v, t).value);
    }
  }

  lemma {:induction false} FetchKeepsClean(v: View, t: Txid)
    requires AllClean(v)
    ensures AllClean(Fetch(v, t))
  {
    if v.Cache? && t !in v.entries {
      FetchKeepsClean(v.base, t);
      LookupClean(v.base, t);
    }
  }

  lemma {:induction false} FetchBestKeepsClean(v: View)
    requires AllClean(v)
    ensures AllClean(FetchBest(v))
  {
    if v.Cache? && v.best == NULL_HASH {
      FetchBestKeepsClean(v.base);
    }
  }

  lemma BatchWriteKeepsClean(v: View, theirs: map<Txid, Entry>, hash: Hash256)
    requires AllClean(v) && (v.Cache? ==> !v.hasModifier)
    requires forall t | t in theirs :: IsClean(theirs[t].coins)
    ensures BatchWrite(v, theirs, hash).Ok? ==> AllClean(BatchWrite(v, theirs, hash).value)
  {
  }

  lemma CloseKeepsClean(v: View, t: Txid)
    requires v.Cache? && t in v.entries && AllClean(v.base)
    requires forall u | u in v.entries && u != t :: IsClean(v.entries[u].coins)
    ensures AllClean(Close(v, t))
  {
    CleanupFacts(v.entries[t].coins);
  }

  lemma StepKeepsClean(v: View, op: Op)
    requires v.Cache? && Idle(v) && AllClean(v)
    requires op.DropCache? ==> v.base.Cache?
    ensures Step(v, op).Ok? ==> AllClean(Step(v, op).value)
  {
    match op
    case GetCoins(t) => FetchKeepsClean(v, t);
    case GetBestBlock => FetchBestKeepsClean(v);
    case ModifyCoins(t, c) =>
      FetchKeepsClean(v.base, t);
      CloseKeepsClean(Poke(Open(v, t), t, c), t);
    case ModifyNewCoins(t, coinbase, c) =>
      if OpenNew(v, t, coinbase).Ok? {
        CloseKeepsClean(Poke(OpenNew(v, t, coinbase).value, t, c), t);
      }
    case FlushOp => BatchWriteKeepsClean(v.base, v.entries, v.best);
    case _ =>
  }

  /** Over every run that does not throw, HaveCoins answers for the plain map. */
  lemma {:induction false} RunKeepsHaveCoinsExact(v: View, ops: seq<Op>, t: Txid)
    requires AllClean(v) && Run(v, ops).Ok?
    ensures AllClean(Run(v, ops).value)
    ensures HaveCoins(Run(v, ops).value, t) <==> t in Shown(Run(v, ops).value)
    decreases |ops|
  {
    if ops == [] {
      HaveCoinsExact(v, t);
    } else {
      StepKeepsClean(v, ops[0]);
      RunKeepsHaveCoinsExact(Step(v, ops[0]).value, ops[1..], t);
    }
  }
}
