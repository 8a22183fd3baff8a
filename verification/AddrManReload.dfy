/**
 * Loading what was saved gives the same address manager, with its entries
 * numbered anew.
 */
module AddrManReload {
  import opened AddrManState
  import opened AddrManInvariant
  import opened AddrManFile

  /** The number that an id gets, or -1. */
  ghost function Number(order: seq<int>, id: int): int {
    if id in order then Pos(order, id) else -1
  }

  /** How many of some slots hold an id. */
  function RefsIn(v: map<Slot, int>, slots: set<Slot>, id: int): nat {
    |slots * Own(v, id)|
  }

  function Own(v: map<Slot, int>, id: int): set<Slot> {
    set x | x in v && v[x] == id
  }

  /** What the file keeps of entry number i, with the references from some slots. */
  ghost function Copy(s: State, order: seq<int>, slots: set<Slot>, i: nat): Info
    requires i < |order| && order[i] in s.mapInfo
  {
    var info := s.mapInfo[order[i]];
    Load(Store(info)).(fInTried := info.fInTried, nRefCount := RefsIn(s.vvNew, slots, order[i]), nRandomPos := i)
  }

  ghost function Infos(s: State, order: seq<int>, n: nat, slots: set<Slot>): map<int, Info>
    requires Orders(s, order) && n <= |order|
  {
    map i | 0 <= i < n :: Copy(s, order, slots, i)
  }

  /** The part of an index that leads to the first n numbers. */
  ghost function Part<K>(v: map<K, int>, order: seq<int>, n: nat): map<K, int> {
    map x | x in v && 0 <= Number(order, v[x]) < n :: Number(order, v[x])
  }

  ghost function Places(v: map<Slot, int>, order: seq<int>, slots: set<Slot>): map<Slot, int> {
    map x | x in v && x in slots :: Number(order, v[x])
  }

  /** The manager when n entries and some places of the new table have been loaded. */
  ghost function Half(s: State, order: seq<int>, n: nat, slots: set<Slot>, nIdCount: int): State
    requires Orders(s, order) && n <= |order|
  {
    State(s.env, s.nKey, nIdCount, Infos(s, order, n, slots), Part(s.mapAddr, order, n), seq(n, i => i),
          s.nTried, Part(s.vvTried, order, n), s.nNew, Places(s.vvNew, order, slots), 1)
  }

  // ------------------------------------------------------------------- entries

  lemma NumberAt(order: seq<int>, i: nat, id: int)
    requires NoDup(order) && i < |order|
    ensures Number(order, id) == i <==> id == order[i]
  {
    PosAt(order, i);
  }

  lemma NextInfo(s: State, order: seq<int>, n: nat)
    requires Orders(s, order) && n < |order|
    ensures order[n] in s.mapInfo
    ensures var info := s.mapInfo[order[n]];
            Infos(s, order, n + 1, {})
              == Infos(s, order, n, {})[n := Load(Store(info)).(fInTried := info.fInTried, nRandomPos := n)]
  {
    NoSlots(s.vvNew, order[n]);
  }

  /** One more number, when one key leads to it. */
  lemma NextPart<K>(v: map<K, int>, order: seq<int>, n: nat, x: K)
    requires NoDup(order) && n < |order| && x in v && v[x] == order[n]
    requires forall y | y in v && v[y] == order[n] :: y == x
    ensures Part(v, order, n + 1) == Part(v, order, n)[x := n]
  {
    forall y | y in v ensures Number(order, v[y]) == n <==> y == x {
      NumberAt(order, n, v[y]);
    }
  }

  /** One more number, when no key leads to it. */
  lemma SamePart<K>(v: map<K, int>, order: seq<int>, n: nat)
    requires NoDup(order) && n < |order|
    requires forall y | y in v :: v[y] != order[n]
    ensures Part(v, order, n + 1) == Part(v, order, n)
  {
    forall y | y in v ensures Number(order, v[y]) != n {
      NumberAt(order, n, v[y]);
    }
  }

  lemma AddressOf(s: State, id: int)
    requires Inv(s) && id in s.mapInfo
    ensures var ip := s.mapInfo[id].addr.svc.ip;
            && ip in s.mapAddr && s.mapAddr[ip] == id
            && forall y | y in s.mapAddr && s.mapAddr[y] == id :: y == ip
  {
    assert Found(s.mapInfo, s.mapAddr, s.vRandom, id);
  }

  lemma AddNext(s: State, order: seq<int>, n: nat, c: int)
    requires Inv(s) && Orders(s, order) && n < |order|
    ensures var info := s.mapInfo[order[n]];
            var t := AddLoaded(Half(s, order, n, {}, c), n, Load(Store(info)).(fInTried := info.fInTried));
            t == Half(s, order, n + 1, {}, c).(vvTried := Part(s.vvTried, order, n))
  {
    hide Inv, Part, NoDup, NewFirst, Infos, Places;
    var id := order[n];
    var info := s.mapInfo[id];
    AddressOf(s, id);
    NextInfo(s, order, n);
    NextPart(s.mapAddr, order, n, info.addr.svc.ip);
    assert seq(n, i => i) + [n] == seq(n + 1, i => i);
  }

  lemma NoSlots(v: map<Slot, int>, id: int)
    ensures RefsIn(v, {}, id) == 0
  {
    assert {} * Own(v, id) == {};
  }

  /** The file can be used as it is. */
  lemma FileHead(s: State)
    requires s.nIdCount >= 0
    requires s.nNew == |NewList(s.mapInfo, s.nIdCount)| && s.nTried == |TriedList(s.mapInfo, s.nIdCount)|
    ensures var f := Serialized(s);
            && f.nKeySize == 32 && f.nKey == s.nKey && f.nNew == s.nNew && f.nTried == s.nTried
            && |f.news| == s.nNew && |f.trieds| == s.nTried
            && Grouped(f) && Usable(f)
  {
    hide NewList, TriedList, BucketList;
    assert Flip30(Flip30(NEW_BUCKET_COUNT)) == NEW_BUCKET_COUNT;
  }

  lemma FileItems(s: State)
    requires s.nIdCount >= 0
    ensures var f := Serialized(s);
            var news, trieds := NewList(s.mapInfo, s.nIdCount), TriedList(s.mapInfo, s.nIdCount);
            && |f.news| == |news| && |f.trieds| == |trieds|
            && (forall i | 0 <= i < |news| :: news[i] in s.mapInfo && f.news[i] == Store(s.mapInfo[news[i]]))
            && (forall i | 0 <= i < |trieds| :: trieds[i] in s.mapInfo && f.trieds[i] == Store(s.mapInfo[trieds[i]]))
  {
    ListsInside(s.mapInfo, s.nIdCount);
    hide NewList, TriedList, BucketList;
  }

  lemma FileFacts(s: State)
    requires Inv(s)
    ensures s.nIdCount >= 0 && Orders(s, Order(s))
    ensures var f := Serialized(s);
            && f.nKeySize == 32 && f.nKey == s.nKey && f.nNew == s.nNew && f.nTried == s.nTried
            && |f.news| == s.nNew && |f.trieds| == s.nTried && Grouped(f) && Usable(f)
  {
    assert s.nIdCount >= 0;
    OrderOrders(s);
    hide Inv, Serialized, NewList, TriedList, NoDup, NewFirst, Grouped, Usable;
    FileHead(s);
  }

  /** Item n of the file is the entry at n in the order. */
  lemma FileItem(s: State, n: nat)
    requires Inv(s) && n < s.nNew + s.nTried
    ensures s.nIdCount >= 0 && Orders(s, Order(s)) && IsItem(s, n)
    ensures var f := Serialized(s);
            && |f.news| == s.nNew && |f.trieds| == s.nTried
            && Store(s.mapInfo[Order(s)[n]]) == if n < s.nNew then f.news[n] else f.trieds[n - s.nNew]
  {
    hide Inv, Serialized, NewList, TriedList, NoDup, Grouped, Usable;
    FileFacts(s);
    OrderOrders(s);
    FileItems(s);
  }

  ghost predicate IsItem(s: State, n: nat)
    requires s.nIdCount >= 0
  {
    n < |Order(s)| && Order(s)[n] in s.mapInfo
  }

  lemma Counts(s: State)
    requires Inv(s)
    ensures s.nIdCount >= 0 && Orders(s, Order(s)) && |Order(s)| == s.nNew + s.nTried && 0 <= s.nNew && 0 <= s.nTried
    ensures |Serialized(s).news| == s.nNew && |Serialized(s).trieds| == s.nTried && Grouped(Serialized(s))
    ensures |Serialized(s).buckets| == NEW_BUCKET_COUNT
  {
    FileFacts(s);
    hide Inv, NewList, TriedList, NoDup;
  }

  lemma {:induction false} LoadNewsHalf(s: State, n: nat)
    requires Inv(s) && n <= s.nNew
    ensures s.nIdCount >= 0 && Orders(s, Order(s)) && |Serialized(s).news| == s.nNew
    ensures LoadNews(Begun(s.env, Serialized(s)), Serialized(s), n) == Half(s, Order(s), n, {}, 0)
  {
    hide Inv, Serialized, Order, Orders, Half, LoadNew, Grouped, Usable;
    FileFacts(s);
    if n == 0 {
      HalfNone(s, Order(s));
    } else {
      LoadNewsHalf(s, n - 1);
      LoadNewHalf(s, n - 1);
    }
  }

  lemma HalfNone(s: State, order: seq<int>)
    requires Orders(s, order)
    ensures Half(s, order, 0, {}, 0) == Empty(s.env, s.nKey).(nNew := s.nNew, nTried := s.nTried)
  {
    assert Infos(s, order, 0, {}) == map[];
    assert Places(s.vvNew, order, {}) == map[];
  }

  lemma LoadNewHalf(s: State, n: nat)
    requires Inv(s) && n < s.nNew
    ensures s.nIdCount >= 0 && Orders(s, Order(s)) && |Serialized(s).news| == s.nNew
    ensures LoadNew(Half(s, Order(s), n, {}, 0), Serialized(s), n) == Half(s, Order(s), n + 1, {}, 0)
  {
    FileFacts(s);
    FileItem(s, n);
    var order := Order(s);
    assert forall y | y in s.vvTried :: s.vvTried[y] != order[n] by {
      forall y | y in s.vvTried ensures s.vvTried[y] != order[n] {
        assert TriedSlotOk(s.env, s.nKey, s.mapInfo, y, s.vvTried[y]);
      }
    }
    hide Inv, Serialized, Order, Half, NoDup;
    SamePart(s.vvTried, order, n);
    AddNext(s, order, n, 0);
    assert Half(s, order, n + 1, {}, 0).vvTried == Part(s.vvTried, order, n + 1) by { HalfTried(s, order, n + 1); }
  }

  lemma HalfTried(s: State, order: seq<int>, n: nat)
    requires Orders(s, order) && n <= |order|
    ensures Half(s, order, n, {}, 0).vvTried == Part(s.vvTried, order, n)
  {
  }

  // ------------------------------------------------------------ the tried table

  lemma TriedPlace(s: State, id: int)
    requires Inv(s) && id in s.mapInfo && s.mapInfo[id].fInTried
    ensures var slot := TriedSlot(s.env, s.nKey, s.mapInfo[id].addr.svc);
            && slot in s.vvTried && s.vvTried[slot] == id
            && forall y | y in s.vvTried && s.vvTried[y] == id :: y == slot
  {
    assert EntryOk(s, id, s.mapInfo[id], {});
    forall y | y in s.vvTried && s.vvTried[y] == id
      ensures y == TriedSlot(s.env, s.nKey, s.mapInfo[id].addr.svc)
    {
      assert TriedSlotOk(s.env, s.nKey, s.mapInfo, y, s.vvTried[y]);
    }
  }

  /** The next entry gets a place of its own in the tried table. */
  lemma EnterNext(s: State, order: seq<int>, n: nat)
    requires Inv(s) && Orders(s, order) && s.nNew <= n < |order|
    ensures var t, info := Half(s, order, n, {}, n), s.mapInfo[order[n]];
            var slot := TriedSlot(s.env, s.nKey, info.addr.svc);
            && slot !in t.vvTried
            && AddLoaded(t, n, Load(Store(info)).(fInTried := true)).
                 (vvTried := t.vvTried[slot := n], nIdCount := n + 1)
                 == Half(s, order, n + 1, {}, n + 1)
  {
    hide Inv, NoDup, Infos, Places;
    var id := order[n];
    assert id in s.mapInfo && s.mapInfo[id].fInTried;
    TriedPlace(s, id);
    var slot := TriedSlot(s.env, s.nKey, s.mapInfo[id].addr.svc);
    NumberAt(order, n, id);
    assert slot !in Part(s.vvTried, order, n);
    hide Part, NewFirst;
    NextPart(s.vvTried, order, n, slot);
    AddNext(s, order, n, n);
  }

  lemma LoadTriedHalf(s: State, k: nat)
    requires Inv(s) && k < s.nTried
    ensures s.nIdCount >= 0 && Orders(s, Order(s)) && |Serialized(s).trieds| == s.nTried
    ensures var n := s.nNew + k;
            LoadTried(Half(s, Order(s), n, {}, n), Serialized(s), k) == Half(s, Order(s), n + 1, {}, n + 1)
  {
    hide Inv, Serialized, Order, Orders, Infos, Places, Part, AddLoaded, Grouped;
    Counts(s);
    FileItem(s, s.nNew + k);
    EnterNext(s, Order(s), s.nNew + k);
    assert Load(Serialized(s).trieds[k]) == Load(Store(s.mapInfo[Order(s)[s.nNew + k]]));
  }

  lemma {:induction false} LoadTriedsHalf(s: State, k: nat)
    requires Inv(s) && k <= s.nTried
    ensures s.nIdCount >= 0 && Orders(s, Order(s)) && |Serialized(s).trieds| == s.nTried
    ensures LoadTrieds(Half(s, Order(s), s.nNew, {}, s.nNew), Serialized(s), k)
         == Half(s, Order(s), s.nNew + k, {}, s.nNew + k)
  {
    hide Inv, Serialized, Order, Half, Orders, LoadTried, Grouped;
    Counts(s);
    if k > 0 {
      LoadTriedsHalf(s, k - 1);
      LoadTriedHalf(s, k - 1);
    }
  }

  // -------------------------------------------------------------- the new table

  lemma OneMoreSlot(v: map<Slot, int>, slots: set<Slot>, x: Slot, id: int)
    requires x in v && x !in slots
    ensures RefsIn(v, slots + {x}, id) == RefsIn(v, slots, id) + if v[x] == id then 1 else 0
    ensures v[x] == id ==> RefsIn(v, slots, id) < Refs(v, id)
  {
    var a, b, own := slots * Own(v, id), (slots + {x}) * Own(v, id), Own(v, id);
    assert b == if v[x] == id then a + {x} else a;
    if v[x] == id {
      assert a + {x} <= own;
      SubsetSize(a + {x}, own);
    }
  }

  lemma NewPlace(s: State, x: Slot)
    requires Inv(s) && x in s.vvNew
    ensures var id := s.vvNew[x];
            && id in s.mapInfo && !s.mapInfo[id].fInTried && x.bucket < NEW_BUCKET_COUNT && x.pos < BUCKET_SIZE
            && x == NewSlotIn(s.env, s.nKey, s.mapInfo[id].addr.svc, x.bucket)
            && Refs(s.vvNew, id) <= NEW_BUCKETS_PER_ADDRESS
  {
    assert NewSlotOk(s.env, s.nKey, s.mapInfo, x, s.vvNew[x]);
    assert EntryOk(s, s.vvNew[x], s.mapInfo[s.vvNew[x]], {});
  }

  lemma RefHalf(s: State, order: seq<int>, slots: set<Slot>, x: Slot, i: nat)
    requires Orders(s, order) && x in s.vvNew && x !in slots && i < |order| && order[i] == s.vvNew[x]
    ensures Ref(Half(s, order, |order|, slots, |order|), i, x) == Half(s, order, |order|, slots + {x}, |order|)
  {
    hide Part, RefsIn, Refs;
    NumberAt(order, i, s.vvNew[x]);
    var t, u := Ref(Half(s, order, |order|, slots, |order|), i, x), Half(s, order, |order|, slots + {x}, |order|);
    forall j | 0 <= j < |order| ensures t.mapInfo[j] == u.mapInfo[j] {
      OneMoreSlot(s.vvNew, slots, x, order[j]);
      NumberAt(order, j, s.vvNew[x]);
    }
    assert t.mapInfo == u.mapInfo;
    assert t.vvNew == u.vvNew;
  }

  lemma LoadPlaceHalf(s: State, slots: set<Slot>, x: Slot)
    requires Inv(s) && x in s.vvNew && x !in slots
    ensures s.nIdCount >= 0 && Orders(s, Order(s))
    ensures var order := Order(s);
            LoadPlace(Half(s, order, |order|, slots, |order|), Serialized(s), x.bucket, Unk(s.mapInfo, s.vvNew[x]))
              == Half(s, order, |order|, slots + {x}, |order|)
  {
    FileFacts(s);
    NewPlace(s, x);
    UnkIsPos(s, s.vvNew[x]);
    var order, i := Order(s), Unk(s.mapInfo, s.vvNew[x]);
    hide Inv, Serialized, Order, NoDup, RefsIn, Refs, Unk, Part;
    OneMoreSlot(s.vvNew, slots, x, s.vvNew[x]);
    RefHalf(s, order, slots, x, i);
  }

  /** The slots of the new table in the first k places of a bucket, and in the buckets before it. */
  function Filled(s: State, b: nat, k: nat): set<Slot> {
    set x | x in s.vvNew && (x.bucket < b || (x.bucket == b && x.pos < k))
  }

  lemma FilledNext(s: State, b: nat, k: nat)
    ensures var x := Slot(b, k);
            && x !in Filled(s, b, k)
            && Filled(s, b, k + 1) == if x in s.vvNew then Filled(s, b, k) + {x} else Filled(s, b, k)
  {
  }

  lemma {:induction false} LoadPlacesHalf(s: State, b: nat, k: nat)
    requires Inv(s)
    ensures s.nIdCount >= 0 && Orders(s, Order(s))
    ensures var order := Order(s);
            LoadPlaces(Half(s, order, |order|, Filled(s, b, 0), |order|), Serialized(s), b, BucketList(s, b, k))
              == Half(s, order, |order|, Filled(s, b, k), |order|)
  {
    hide Inv, Serialized, Order, Half, Filled, Orders, LoadPlace, Unk;
    FileFacts(s);
    if k > 0 {
      LoadPlacesHalf(s, b, k - 1);
      FilledNext(s, b, k - 1);
      var x, list := Slot(b, k - 1), BucketList(s, b, k - 1);
      if x in s.vvNew {
        LoadPlaceHalf(s, Filled(s, b, k - 1), x);
        var more := list + [Unk(s.mapInfo, s.vvNew[x])];
        assert BucketList(s, b, k) == more && more[..|list|] == list;
      } else {
        assert list + [] == list;
      }
    }
  }

  lemma FilledRow(s: State, b: nat)
    requires Inv(s)
    ensures Filled(s, b, BUCKET_SIZE) == Filled(s, b + 1, 0)
    ensures Filled(s, NEW_BUCKET_COUNT, 0) == s.vvNew.Keys && Filled(s, 0, 0) == {}
  {
    forall x | x in s.vvNew ensures x.bucket < NEW_BUCKET_COUNT && x.pos < BUCKET_SIZE {
      NewPlace(s, x);
    }
  }

  lemma {:induction false} LoadBucketsHalf(s: State, b: nat)
    requires Inv(s) && b <= NEW_BUCKET_COUNT
    ensures s.nIdCount >= 0 && Orders(s, Order(s)) && |Serialized(s).buckets| == NEW_BUCKET_COUNT
    ensures var order := Order(s);
            LoadBuckets(Half(s, order, |order|, {}, |order|), Serialized(s), b)
              == Half(s, order, |order|, Filled(s, b, 0), |order|)
  {
    hide Inv, Order, Half, Filled, Orders, LoadPlaces, BucketList, NewList, TriedList, Grouped, Usable;
    FileFacts(s);
    FilledRow(s, b);
    assert |Serialized(s).buckets| == NEW_BUCKET_COUNT;
    assert b > 0 ==> Serialized(s).buckets[b - 1] == BucketList(s, b - 1, BUCKET_SIZE);
    hide Serialized;
    if b > 0 {
      LoadBucketsHalf(s, b - 1);
      LoadPlacesHalf(s, b - 1, BUCKET_SIZE);
      FilledRow(s, b - 1);
    }
  }

  // ------------------------------------------------------------- the whole file

  /** The same manager with the entries numbered in the order of the file. */
  ghost function Reloaded(s: State): State
    requires Inv(s)
  {
    OrderOrders(s);
    Half(s, Order(s), |Order(s)|, s.vvNew.Keys, |Order(s)|)
  }

  lemma TablesReload(s: State)
    requires Inv(s)
    ensures s.nIdCount >= 0 && Grouped(Serialized(s)) && Tables(s.env, Serialized(s)) == Reloaded(s)
  {
    hide LoadNews, LoadTrieds, LoadBuckets, Inv, Serialized, Order, Orders, Filled, Begun, Half, Grouped;
    Counts(s);
    LoadNewsHalf(s, s.nNew);
    LoadTriedsHalf(s, s.nTried);
    LoadBucketsHalf(s, NEW_BUCKET_COUNT);
    FilledRow(s, 0);
    HalfCount(s, Order(s), s.nNew);
    assert Serialized(s).nNew == s.nNew by { FileFacts(s); }
  }

  lemma HalfCount(s: State, order: seq<int>, n: nat)
    requires Orders(s, order) && n <= |order|
    ensures Half(s, order, n, {}, 0).(nIdCount := n) == Half(s, order, n, {}, n)
  {
  }

  lemma NoneUnreferenced(s: State, i: int)
    requires Inv(s)
    ensures !IsUnreferenced(Reloaded(s), i)
  {
    OrderOrders(s);
    var order := Order(s);
    if 0 <= i < |order| {
      assert EntryOk(s, order[i], s.mapInfo[order[i]], {});
      AllSlots(s.vvNew, order[i]);
    }
  }

  lemma AllSlots(v: map<Slot, int>, id: int)
    ensures RefsIn(v, v.Keys, id) == Refs(v, id)
  {
    assert v.Keys * Own(v, id) == Own(v, id);
  }

  lemma {:induction false} PruneNothing(t: State, n: nat)
    requires forall id :: !IsUnreferenced(t, id)
    ensures Prune(t, n) == t
  {
    if n > 0 {
      PruneNothing(t, n - 1);
    }
  }

  /** Loading a saved manager loses nothing and only renumbers the entries. */
  lemma UnserializeSerialized(s: State)
    requires Inv(s)
    ensures s.nIdCount >= 0 && Grouped(Serialized(s)) && Unserialized(s.env, Serialized(s)) == Loaded(Reloaded(s))
  {
    FileFacts(s);
    TablesReload(s);
    WithinLimits(s);
    forall id ensures !IsUnreferenced(Reloaded(s), id) {
      NoneUnreferenced(s, id);
    }
    hide Inv, Serialized, Tables, Reloaded, IsUnreferenced;
    var t := Reloaded(s);
    PruneNothing(t, NonNegative(t.nIdCount));
  }

  // -------------------------------------------------------- what was kept

  /** Entry by entry: everything that is saved, and the places in the tables. */
  ghost predicate SameEntry(s: State, t: State, order: seq<int>, i: nat)
    requires i < |order|
  {
    && order[i] in s.mapInfo && i in t.mapInfo
    && Store(t.mapInfo[i]) == Store(s.mapInfo[order[i]])
    && t.mapInfo[i].fInTried == s.mapInfo[order[i]].fInTried
    && t.mapInfo[i].nRefCount == s.mapInfo[order[i]].nRefCount
    && t.mapInfo[i].nRandomPos == i && t.mapInfo[i].nLastTry == 0 && t.mapInfo[i].nLastCountAttempt == 0
  }

  /** One index leads to the numbers of the entries that the other leads to. */
  ghost predicate SameIndex<K(!new)>(v: map<K, int>, w: map<K, int>, order: seq<int>) {
    && v.Keys == w.Keys
    && forall x | x in w :: 0 <= w[x] < |order| && order[w[x]] == v[x]
  }

  ghost predicate Renumbered(s: State, t: State, order: seq<int>) {
    && NoDup(order) && (forall id :: id in order <==> id in s.mapInfo)
    && (forall i :: i in t.mapInfo <==> 0 <= i < |order|)
    && (forall i: nat | i < |order| :: SameEntry(s, t, order, i))
    && SameIndex(s.mapAddr, t.mapAddr, order) && SameIndex(s.vvNew, t.vvNew, order)
    && SameIndex(s.vvTried, t.vvTried, order)
    && t.env == s.env && t.nKey == s.nKey && t.nNew == s.nNew && t.nTried == s.nTried
    && t.nIdCount == |order| && t.vRandom == seq(|order|, i => i)
  }

  lemma ReloadedIsRenumbered(s: State)
    requires Inv(s)
    ensures s.nIdCount >= 0 && Renumbered(s, Reloaded(s), Order(s))
  {
    OrderOrders(s);
    HalfIsRenumbered(s, Order(s));
  }

  lemma HalfIsRenumbered(s: State, order: seq<int>)
    requires Inv(s) && Orders(s, order)
    ensures Renumbered(s, Half(s, order, |order|, s.vvNew.Keys, |order|), order)
  {
    hide Inv, NewFirst, NoDup, SameIndex, Part, Places, SameEntry, Copy;
    IndexesInside(s, order);
    EntriesSame(s, order);
    PartKeeps(s.mapAddr, order);
    PartKeeps(s.vvTried, order);
    PlacesKeep(s.vvNew, order);
  }

  lemma EntriesSame(s: State, order: seq<int>)
    requires Inv(s) && Orders(s, order)
    ensures var t := Half(s, order, |order|, s.vvNew.Keys, |order|);
            forall i: nat | i < |order| :: SameEntry(s, t, order, i)
  {
    hide Inv, NoDup, Part, Places;
    forall i: nat | i < |order|
      ensures SameEntry(s, Half(s, order, |order|, s.vvNew.Keys, |order|), order, i)
    {
      CopyKeeps(s, order, i);
    }
  }

  lemma AddressLeads(s: State, ip: Ip)
    requires Inv(s) && ip in s.mapAddr
    ensures s.mapAddr[ip] in s.mapInfo && s.mapInfo[s.mapAddr[ip]].addr.svc.ip == ip
  {
  }

  lemma IndexesInside(s: State, order: seq<int>)
    requires Inv(s) && Orders(s, order)
    ensures forall ip | ip in s.mapAddr :: s.mapAddr[ip] in order
    ensures forall x | x in s.vvTried :: s.vvTried[x] in order
    ensures forall x | x in s.vvNew :: s.vvNew[x] in order
  {
    forall ip | ip in s.mapAddr ensures s.mapAddr[ip] in order {
      AddressLeads(s, ip);
      var id := s.mapAddr[ip];
      assert id in order;
    }
    forall x | x in s.vvTried ensures s.vvTried[x] in order {
      assert TriedSlotOk(s.env, s.nKey, s.mapInfo, x, s.vvTried[x]);
    }
    forall x | x in s.vvNew ensures s.vvNew[x] in order {
      assert NewSlotOk(s.env, s.nKey, s.mapInfo, x, s.vvNew[x]);
    }
  }

  lemma CopyKeeps(s: State, order: seq<int>, i: nat)
    requires Inv(s) && i < |order| && order[i] in s.mapInfo
    ensures Copy(s, order, s.vvNew.Keys, i).nRefCount == s.mapInfo[order[i]].nRefCount
  {
    var id := order[i];
    AllSlots(s.vvNew, id);
    assert EntryOk(s, id, s.mapInfo[id], {});
    if s.mapInfo[id].fInTried {
      forall x | x in s.vvNew ensures s.vvNew[x] != id {
        assert NewSlotOk(s.env, s.nKey, s.mapInfo, x, s.vvNew[x]);
      }
      assert Own(s.vvNew, id) == {};
    }
  }

  lemma PartKeeps<K(!new)>(v: map<K, int>, order: seq<int>)
    requires forall x | x in v :: v[x] in order
    ensures SameIndex(v, Part(v, order, |order|), order)
  {
  }

  lemma PlacesKeep(v: map<Slot, int>, order: seq<int>)
    requires forall x | x in v :: v[x] in order
    ensures SameIndex(v, Places(v, order, v.Keys), order)
  {
  }

  // ----------------------------------------------------- the invariant again

  lemma RenumberedIndexed(s: State, t: State, order: seq<int>)
    requires Inv(s) && Renumbered(s, t, order)
    ensures Indexed(t)
  {
    hide Tabled, Counted;
    forall i | i in t.mapInfo
      ensures Found(t.mapInfo, t.mapAddr, t.vRandom, i)
           && 0 <= i < t.nIdCount && t.mapInfo[i].nLastTry >= 0 && t.mapInfo[i].nLastSuccess >= 0
    {
      RenumberedFound(s, t, order, i);
    }
    forall ip | ip in t.mapAddr ensures t.mapAddr[ip] in t.mapInfo && t.mapInfo[t.mapAddr[ip]].addr.svc.ip == ip {
      AddressLeads(s, ip);
      assert SameEntry(s, t, order, t.mapAddr[ip]);
    }
  }

  lemma RenumberedFound(s: State, t: State, order: seq<int>, i: nat)
    requires Inv(s) && Renumbered(s, t, order) && i < |order|
    ensures i in t.mapInfo && Found(t.mapInfo, t.mapAddr, t.vRandom, i)
    ensures t.mapInfo[i].nLastTry >= 0 && t.mapInfo[i].nLastSuccess >= 0
  {
    hide Tabled, Counted;
    assert SameEntry(s, t, order, i);
    assert Found(s.mapInfo, s.mapAddr, s.vRandom, order[i]);
    var ip := s.mapInfo[order[i]].addr.svc.ip;
    assert ip in t.mapAddr;
  }

  lemma SameRefs(v: map<Slot, int>, w: map<Slot, int>, order: seq<int>, i: nat)
    requires NoDup(order) && SameIndex(v, w, order) && i < |order|
    ensures Refs(w, i) == Refs(v, order[i])
  {
    forall x | x in v ensures v[x] == order[i] <==> w[x] == i {
      assert x in w;
    }
    assert (set x | x in w && w[x] == i) == (set x | x in v && v[x] == order[i]);
  }

  lemma RenumberedEntry(s: State, t: State, order: seq<int>, i: nat)
    requires Inv(s) && Renumbered(s, t, order) && i < |order|
    ensures i in t.mapInfo && EntryOk(t, i, t.mapInfo[i], {})
  {
    hide Indexed, Linked, Counted;
    assert SameEntry(s, t, order, i);
    var id := order[i];
    assert EntryOk(s, id, s.mapInfo[id], {});
    SameRefs(s.vvNew, t.vvNew, order, i);
    if s.mapInfo[id].fInTried {
      var slot := TriedSlot(s.env, s.nKey, s.mapInfo[id].addr.svc);
      assert slot in t.vvTried && order[t.vvTried[slot]] == id;
    }
  }

  lemma RenumberedTabled(s: State, t: State, order: seq<int>)
    requires Inv(s) && Renumbered(s, t, order)
    ensures Tabled(t, {})
  {
    forall i | i in t.mapInfo ensures EntryOk(t, i, t.mapInfo[i], {}) {
      RenumberedEntry(s, t, order, i);
    }
    hide EntryOk, Indexed, Renumbered, TriedSlotOk, NewSlotOk;
    forall x | x in t.vvTried ensures TriedSlotOk(t.env, t.nKey, t.mapInfo, x, t.vvTried[x]) {
      RenumberedTriedSlot(s, t, order, x);
    }
    forall x | x in t.vvNew ensures NewSlotOk(t.env, t.nKey, t.mapInfo, x, t.vvNew[x]) {
      RenumberedNewSlot(s, t, order, x);
    }
  }

  lemma RenumberedTriedSlot(s: State, t: State, order: seq<int>, x: Slot)
    requires Inv(s) && Renumbered(s, t, order) && x in t.vvTried
    ensures TriedSlotOk(t.env, t.nKey, t.mapInfo, x, t.vvTried[x])
  {
    hide Indexed, EntryOk, NoDup;
    assert TriedSlotOk(s.env, s.nKey, s.mapInfo, x, s.vvTried[x]);
    assert SameEntry(s, t, order, t.vvTried[x]);
  }

  lemma RenumberedNewSlot(s: State, t: State, order: seq<int>, x: Slot)
    requires Inv(s) && Renumbered(s, t, order) && x in t.vvNew
    ensures NewSlotOk(t.env, t.nKey, t.mapInfo, x, t.vvNew[x])
  {
    hide Indexed, EntryOk, NoDup;
    assert NewSlotOk(s.env, s.nKey, s.mapInfo, x, s.vvNew[x]);
    assert SameEntry(s, t, order, t.vvNew[x]);
  }

  function Range(a: int, b: int): (r: set<int>)
    requires a <= b
    ensures |r| == b - a && forall i :: i in r <==> a <= i < b
    decreases b - a
  {
    if a == b then {} else Range(a, b - 1) + {b - 1}
  }

  lemma RenumberedCounted(s: State, t: State, order: seq<int>)
    requires Renumbered(s, t, order) && Orders(s, order)
    ensures Counted(t, 0)
  {
    forall i | i in t.mapInfo ensures t.mapInfo[i].fInTried <==> i >= s.nNew {
      assert SameEntry(s, t, order, i);
    }
    assert TriedIds(t.mapInfo) == Range(s.nNew, |order|);
    assert NewIds(t.mapInfo) == Range(0, s.nNew);
  }

  /**
   * Saving and loading: the reader accepts the file, no entry is lost, everything that
   * is saved comes back under new numbers, and the result is consistent again.
   */
  lemma RoundTrip(s: State)
    requires Inv(s)
    ensures s.nIdCount >= 0 && Grouped(Serialized(s))
    ensures var r := Unserialized(s.env, Serialized(s));
            r.Loaded? && Renumbered(s, r.state, Order(s)) && |r.state.mapInfo| == |s.mapInfo| && Inv(r.state)
  {
    UnserializeSerialized(s);
    ReloadedIsRenumbered(s);
    OrderOrders(s);
    assert s.nKey != NULL_KEY;
    hide Inv, Serialized, Reloaded, Order, Renumbered, Orders;
    var t := Reloaded(s);
    RenumberedIndexed(s, t, Order(s));
    RenumberedTabled(s, t, Order(s));
    RenumberedCounted(s, t, Order(s));
    SameSize(s, t, Order(s));
    assert Inv(t) by { InvAgain(s, t, Order(s)); }
  }

  lemma InvAgain(s: State, t: State, order: seq<int>)
    requires Renumbered(s, t, order) && s.nKey != NULL_KEY && Indexed(t) && Tabled(t, {}) && Counted(t, 0)
    ensures Inv(t)
  {
    hide Indexed, Tabled, Counted;
  }

  lemma KeysAre(m: map<int, Info>, n: nat)
    requires forall i :: i in m <==> 0 <= i < n
    ensures m.Keys == Range(0, n)
  {
    forall i | i in m.Keys ensures i in Range(0, n) {
      assert i in m;
    }
    forall i | i in Range(0, n) ensures i in m.Keys {
      assert i in m;
    }
  }

  lemma SameSize(s: State, t: State, order: seq<int>)
    requires Renumbered(s, t, order)
    ensures |t.mapInfo| == |s.mapInfo|
  {
    DistinctCount(order);
    assert (set n | n in order) == s.mapInfo.Keys;
    KeysAre(t.mapInfo, |order|);
  }
}
