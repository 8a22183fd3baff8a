/**
 * The mutable coin caches of src/coins.cpp: linked objects whose methods are
 * proved against the value-level operations of module CoinsViews.
 */
module CoinsViewCache {
  import opened Common
  import opened CoinsData
  import V = CoinsViews

  type Txid = V.Txid

  /** The database at the bottom of a stack. */
  class CoinsViewDb {
    var store: map<Txid, Coins>
    var best: Hash256

    constructor (store: map<Txid, Coins>, best: Hash256)
      ensures this.store == store && this.best == best
    {
      this.store, this.best := store, best;
    }

    method BatchWrite(mapCoins: map<Txid, V.Entry>, hashBlock: Hash256)
      modifies this
      ensures store == V.Stored(old(store), mapCoins)
      ensures best == if hashBlock == NULL_HASH then old(best) else hashBlock
    {
      var rest := mapCoins.Keys;
      while rest != {}
        invariant rest <= mapCoins.Keys
        invariant StoredBut(store, old(store), mapCoins, rest)
        invariant best == old(best)
      {
        var t :| t in rest;
        ghost var before := store;
        assert Find(store, t) == Find(old(store), t);
        if mapCoins[t].isDirty {
          if IsPruned(mapCoins[t].coins) {
            store := store - {t};
          } else {
            store := store[t := mapCoins[t].coins];
          }
        }
        StoredButOneLess(before, store, old(store), mapCoins, rest, t);
        rest := rest - {t};
      }
      SameMap(store, V.Stored(old(store), mapCoins));
      if hashBlock != NULL_HASH {
        best := hashBlock;
      }
    }
  }

  /** All of the child's entries are written, except those still in rest. */
  ghost predicate StoredBut(now: map<Txid, Coins>, was: map<Txid, Coins>, theirs: map<Txid, V.Entry>, rest: set<Txid>) {
    forall t: Txid :: Find(now, t) == if t in rest then Find(was, t) else V.StoredAt(was, theirs, t)
  }

  lemma StoredButOneLess(now: map<Txid, Coins>, next: map<Txid, Coins>, was: map<Txid, Coins>,
                         theirs: map<Txid, V.Entry>, rest: set<Txid>, t: Txid)
    requires StoredBut(now, was, theirs, rest) && t in rest
    requires Find(next, t) == V.StoredAt(was, theirs, t)
    requires next - {t} == now - {t}
    ensures StoredBut(next, was, theirs, rest - {t})
  {
    forall u: Txid
      ensures Find(next, u) == if u in rest - {t} then Find(was, u) else V.StoredAt(was, theirs, u)
    {
      if u != t {
        assert u in next <==> u in next - {t};
        assert u in now <==> u in now - {t};
      }
    }
  }

  lemma SameMap<T>(m: map<Txid, T>, n: map<Txid, T>)
    requires forall t: Txid :: Find(m, t) == Find(n, t)
    ensures m == n
  {
    forall t: Txid ensures t in m <==> t in n {
      assert Find(m, t) == Find(n, t);
    }
    forall t | t in m ensures t in n && m[t] == n[t] {
      assert Find(m, t) == Find(n, t);
    }
  }

  /** All of the child's entries are merged, except those still in rest. */
  ghost predicate MergedBut(now: map<Txid, V.Entry>, was: map<Txid, V.Entry>,
                            theirs: map<Txid, V.Entry>, rest: set<Txid>)
  {
    forall t: Txid :: Find(now, t) == if t in rest then Find(was, t) else V.MergedAt(was, theirs, t)
  }

  lemma MergedButOneLess(now: map<Txid, V.Entry>, next: map<Txid, V.Entry>, was: map<Txid, V.Entry>,
                         theirs: map<Txid, V.Entry>, rest: set<Txid>, t: Txid)
    requires MergedBut(now, was, theirs, rest) && t in rest
    requires Find(next, t) == V.MergedAt(was, theirs, t)
    requires next - {t} == now - {t}
    ensures MergedBut(next, was, theirs, rest - {t})
  {
    forall u: Txid
      ensures Find(next, u) == if u in rest - {t} then Find(was, u) else V.MergedAt(was, theirs, u)
    {
      if u != t {
        assert u in next <==> u in next - {t};
        assert u in now <==> u in now - {t};
      }
    }
  }

  datatype Backend = OnDb(db: CoinsViewDb) | OnCache(cache: CoinsViewCache)

  class CoinsViewCache {
    var cacheCoins: map<Txid, V.Entry>
    var hashBlock: Hash256
    var hasModifier: bool
    const base: Backend
    ghost const Repr: set<object>

    /** The objects below are distinct from this one; nothing here can change. */
    ghost predicate Valid()
      decreases Repr
    {
      && this in Repr
      && match base
         case OnDb(db) => Repr == {this, db}
         case OnCache(c) => this !in c.Repr && Repr == {this} + c.Repr && c.Valid()
    }

    ghost function BaseView(): V.View
      requires Valid()
      reads Repr
      decreases Repr, 0
    {
      match base
      case OnDb(db) => V.Db(db.store, db.best)
      case OnCache(c) => c.Abs()
    }

    /** The value of the whole stack that ends in this cache. */
    ghost function Abs(): V.View
      requires Valid()
      reads Repr
      decreases Repr, 1
    {
      V.Cache(cacheCoins, hashBlock, hasModifier, BaseView())
    }

    constructor OverDb(db: CoinsViewDb)
      ensures Valid() && Repr == {this, db}
      ensures Abs() == V.Cache(map[], NULL_HASH, false, V.Db(db.store, db.best))
    {
      cacheCoins, hashBlock, hasModifier, base := map[], NULL_HASH, false, OnDb(db);
      Repr := {this, db};
    }

    constructor OverCache(c: CoinsViewCache)
      requires c.Valid()
      ensures Valid() && Repr == {this} + c.Repr
      ensures Abs() == V.Cache(map[], NULL_HASH, false, c.Abs())
    {
      cacheCoins, hashBlock, hasModifier, base := map[], NULL_HASH, false, OnCache(c);
      Repr := {this} + c.Repr;
    }

    /** base->GetCoins */
    method BaseGetCoins(t: Txid) returns (r: Option<Coins>)
      requires Valid()
      modifies Repr - {this}
      ensures BaseView() == V.Fetch(old(BaseView()), t)
      ensures r == V.Lookup(old(BaseView()), t)
      decreases Repr, 0
    {
      match base
      case OnDb(db) => r := if t in db.store then Some(db.store[t]) else None;
      case OnCache(c) => r := c.FetchCoins(t);
    }

    method FetchCoins(t: Txid) returns (r: Option<Coins>)
      requires Valid()
      modifies Repr
      ensures Abs() == V.Fetch(old(Abs()), t)
      ensures r == V.Lookup(old(Abs()), t)
      decreases Repr, 1
    {
      if t in cacheCoins {
        return Some(cacheCoins[t].coins);
      }
      r := BaseGetCoins(t);
      if r.Some? {
        cacheCoins := cacheCoins[t := V.Entry(r.value, false, IsPruned(r.value))];
      }
    }

    method HaveCoins(t: Txid) returns (have: bool)
      requires Valid()
      modifies Repr
      ensures Abs() == V.Fetch(old(Abs()), t)
      ensures have == V.HaveCoins(old(Abs()), t)
    {
      var r := FetchCoins(t);
      have := r.Some? && r.value.vout != [];
    }

    method GetBestBlock() returns (h: Hash256)
      requires Valid()
      modifies Repr
      ensures Abs() == V.FetchBest(old(Abs()))
      ensures h == V.BestBlock(old(Abs()))
      decreases Repr
    {
      if hashBlock == NULL_HASH {
        match base {
          case OnDb(db) => hashBlock := db.best;
          case OnCache(c) =>
            var b := c.GetBestBlock();
            hashBlock := b;
        }
      }
      h := hashBlock;
    }

    method SetBestBlock(hashBlockIn: Hash256)
      requires Valid()
      modifies this
      ensures Abs() == V.Cache(old(cacheCoins), hashBlockIn, old(hasModifier), old(BaseView()))
    {
      ghost var below := BaseView();
      hashBlock := hashBlockIn;
      assert BaseView() == below;
    }

    method ModifyCoins(t: Txid) returns (m: CoinsModifier)
      requires Valid() && !hasModifier
      modifies Repr
      ensures Abs() == V.Open(old(Abs()), t)
      ensures fresh(m) && m.cache == this && m.t == t && m.InUse()
    {
      if t !in cacheCoins {
        var r := BaseGetCoins(t);
        match r {
          case None => cacheCoins := cacheCoins[t := V.Entry(EMPTY, false, true)];
          case Some(c) => cacheCoins := cacheCoins[t := V.Entry(c, false, IsPruned(c))];
        }
      }
      cacheCoins := cacheCoins[t := cacheCoins[t].(isDirty := true)];
      m := new CoinsModifier(this, t);
    }

    /** None stands for the exception about pre-existing coins. */
    method ModifyNewCoins(t: Txid, coinbase: bool) returns (m: Option<CoinsModifier>)
      requires Valid() && !hasModifier
      modifies this
      ensures m.None? <==> V.OpenNew(old(Abs()), t, coinbase).Throw?
      ensures m.Some? ==> Abs() == V.OpenNew(old(Abs()), t, coinbase).value
      ensures m.Some? ==> fresh(m.value) && m.value.cache == this && m.value.t == t && m.value.InUse()
    {
      if t !in cacheCoins {
        cacheCoins := cacheCoins[t := V.Entry(EMPTY, false, false)];
      }
      var e := cacheCoins[t];
      if !coinbase {
        if !IsPruned(e.coins) {
          return None;
        }
        if !e.isDirty {
          e := e.(isFresh := true);
        }
      }
      cacheCoins := cacheCoins[t := e.(coins := EMPTY, isDirty := true)];
      var mod := new CoinsModifier(this, t);
      m := Some(mod);
    }

    method Uncache(t: Txid)
      requires Valid()
      modifies this
      ensures Abs() == V.Uncache(old(Abs()), t)
    {
      if t in cacheCoins && !cacheCoins[t].isDirty && !cacheCoins[t].isFresh {
        cacheCoins := cacheCoins - {t};
      }
    }

    /** One turn of BatchWrite's loop; false stands for the exception. */
    method TakeEntry(t: Txid, e: V.Entry) returns (ok: bool)
      modifies `cacheCoins
      ensures ok <==> !V.Misapplied(old(cacheCoins), map[t := e], t)
      ensures ok ==> Find(cacheCoins, t) == V.Merge(Find(old(cacheCoins), t), e)
      ensures cacheCoins - {t} == old(cacheCoins) - {t}
    {
      if !e.isDirty {
        return true;
      }
      if t !in cacheCoins {
        if !(e.isFresh && IsPruned(e.coins)) {
          cacheCoins := cacheCoins[t := V.Entry(e.coins, true, e.isFresh)];
        }
      } else {
        var us := cacheCoins[t];
        if e.isFresh && !IsPruned(us.coins) {
          return false;
        }
        if us.isFresh && IsPruned(e.coins) {
          cacheCoins := cacheCoins - {t};
        } else {
          cacheCoins := cacheCoins[t := us.(coins := e.coins, isDirty := true)];
        }
      }
      ok := true;
    }

    /** The loop of BatchWrite; it takes the child's entries in any order. */
    method TakeAll(mapCoins: map<Txid, V.Entry>) returns (ok: bool)
      modifies `cacheCoins
      ensures ok <==> forall t | t in mapCoins :: !V.Misapplied(old(cacheCoins), mapCoins, t)
      ensures ok ==> MergedBut(cacheCoins, old(cacheCoins), mapCoins, {})
    {
      var rest := mapCoins.Keys;
      while rest != {}
        invariant rest <= mapCoins.Keys
        invariant forall t | t in mapCoins.Keys - rest :: !V.Misapplied(old(cacheCoins), mapCoins, t)
        invariant MergedBut(cacheCoins, old(cacheCoins), mapCoins, rest)
      {
        var t :| t in rest;
        ghost var before := cacheCoins;
        assert Find(cacheCoins, t) == Find(old(cacheCoins), t);
        var taken := TakeEntry(t, mapCoins[t]);
        if !taken {
          assert V.Misapplied(old(cacheCoins), mapCoins, t);
          return false;
        }
        MergedButOneLess(before, cacheCoins, old(cacheCoins), mapCoins, rest, t);
        rest := rest - {t};
      }
      ok := true;
    }

    /** The result false stands for the exception about a misapplied flag. */
    method BatchWrite(mapCoins: map<Txid, V.Entry>, hashBlockIn: Hash256) returns (ok: bool)
      requires Valid() && !hasModifier
      modifies this
      ensures ok <==> V.BatchWrite(old(Abs()), mapCoins, hashBlockIn).Ok?
      ensures ok ==> Abs() == V.BatchWrite(old(Abs()), mapCoins, hashBlockIn).value
    {
      ok := TakeAll(mapCoins);
      if ok {
        SameMap(cacheCoins, V.Merged(old(cacheCoins), mapCoins));
        hashBlock := hashBlockIn;
      }
    }

    method Flush() returns (ok: bool)
      requires Valid()
      requires BaseView().Cache? ==> !BaseView().hasModifier
      modifies Repr
      ensures ok <==> V.Flush(old(Abs())).Ok?
      ensures ok ==> Abs() == V.Flush(old(Abs())).value
    {
      match base {
        case OnDb(db) =>
          db.BatchWrite(cacheCoins, hashBlock);
          ok := true;
        case OnCache(c) =>
          assert BaseView() == c.Abs();
          ok := c.BatchWrite(cacheCoins, hashBlock);
      }
      cacheCoins := map[];
    }
  }

  /** A handle on one cache entry; the program runs End when it is destroyed. */
  class CoinsModifier {
    const cache: CoinsViewCache
    const t: Txid

    ghost predicate InUse()
      reads cache
    {
      cache.hasModifier && t in cache.cacheCoins
    }

    constructor (cache: CoinsViewCache, t: Txid)
      requires !cache.hasModifier && t in cache.cacheCoins
      modifies cache
      ensures this.cache == cache && this.t == t && InUse()
      ensures cache.cacheCoins == old(cache.cacheCoins) && cache.hashBlock == old(cache.hashBlock)
    {
      this.cache, this.t := cache, t;
      new;
      cache.hasModifier := true;
    }

    /** Assignment through operator* or operator->. */
    method Set(c: Coins)
      requires cache.Valid() && InUse()
      modifies cache
      ensures cache.Abs() == V.Poke(old(cache.Abs()), t, c) && InUse()
    {
      cache.cacheCoins := cache.cacheCoins[t := cache.cacheCoins[t].(coins := c)];
    }

    method End()
      requires cache.Valid() && InUse()
      modifies cache
      ensures cache.Abs() == V.Close(old(cache.Abs()), t)
    {
      cache.hasModifier := false;
      var e := cache.cacheCoins[t];
      var c := CleanupLoop(e.coins);
      e := e.(coins := c);
      if e.isFresh && IsPruned(e.coins) {
        cache.cacheCoins := cache.cacheCoins - {t};
      } else {
        cache.cacheCoins := cache.cacheCoins[t := e];
      }
    }
  }
}
