/**
 * The loops of CAddrMan::Serialize and Unserialize, and the safety of reading
 * any file whatever: the assertions on the way cannot fail.
 */
module AddrManStream {
  import opened AddrManState
  import opened AddrManInvariant
  import opened AddrManFile

  // ------------------------------------------------------- reading any file

  /** vRandom and the random positions are inverse to each other, whatever the addresses are. */
  ghost predicate Ranked(t: State) {
    && (forall n | n in t.mapInfo :: RankedAt(t, n))
    && (forall i | 0 <= i < |t.vRandom| :: t.vRandom[i] in t.mapInfo && t.mapInfo[t.vRandom[i]].nRandomPos == i)
  }

  predicate RankedAt(t: State, n: int)
    requires n in t.mapInfo
  {
    0 <= t.mapInfo[n].nRandomPos < |t.vRandom| && t.vRandom[t.mapInfo[n].nRandomPos] == n
  }

  ghost predicate Below(t: State, n: int) {
    forall id | id in t.mapInfo :: id < n
  }

  lemma AddRanked(t: State, id: int, info: Info)
    requires Ranked(t) && id !in t.mapInfo
    ensures Ranked(AddLoaded(t, id, info))
  {
    var u := AddLoaded(t, id, info);
    forall n | n in u.mapInfo ensures RankedAt(u, n) {
      assert n != id ==> RankedAt(t, n);
    }
  }

  lemma RefRanked(t: State, id: int, slot: Slot)
    requires Ranked(t) && id in t.mapInfo
    ensures Ranked(Ref(t, id, slot)) && Ref(t, id, slot).mapInfo.Keys == t.mapInfo.Keys
  {
    var u := Ref(t, id, slot);
    forall n | n in u.mapInfo ensures RankedAt(u, n) {
      assert RankedAt(t, n);
    }
  }

  lemma {:induction false} NewsRanked(t: State, f: File, n: nat)
    requires n <= |f.news| && t.mapInfo == map[] && t.vRandom == []
    ensures Ranked(LoadNews(t, f, n)) && Below(LoadNews(t, f, n), n)
  {
    hide Ranked, Usable;
    if n == 0 {
      NoneRanked(t);
    } else {
      NewsRanked(t, f, n - 1);
      var u := LoadNews(t, f, n - 1);
      var info := Load(f.news[n - 1]);
      AddRanked(u, n - 1, info);
      RefRanked(AddLoaded(u, n - 1, info), n - 1, NewSlot(u.env, u.nKey, info.addr.svc, info.source));
    }
  }

  lemma NoneRanked(t: State)
    requires t.mapInfo == map[] && t.vRandom == []
    ensures Ranked(t)
  {
  }

  lemma {:induction false} TriedsRanked(t: State, f: File, n: nat)
    requires n <= |f.trieds| && Ranked(t) && Below(t, t.nIdCount)
    ensures var u := LoadTrieds(t, f, n); Ranked(u) && Below(u, u.nIdCount)
  {
    hide Ranked;
    if n > 0 {
      TriedsRanked(t, f, n - 1);
      var u := LoadTrieds(t, f, n - 1);
      var info := Load(f.trieds[n - 1]);
      AddRanked(u, u.nIdCount, info.(fInTried := true));
      RankedSees(AddLoaded(u, u.nIdCount, info.(fInTried := true)), LoadTried(u, f, n - 1));
      RankedSees(u, u.(nTried := u.nTried - 1));
    }
  }

  lemma RankedSees(t: State, u: State)
    requires Ranked(t)
    ensures u.mapInfo == t.mapInfo && u.vRandom == t.vRandom ==> Ranked(u)
  {
    if u.mapInfo == t.mapInfo && u.vRandom == t.vRandom {
      forall n | n in u.mapInfo ensures RankedAt(u, n) {
        assert RankedAt(t, n);
      }
    }
  }

  lemma {:induction false} PlacesRanked(t: State, f: File, b: nat, ids: seq<int>)
    requires Ranked(t)
    ensures Ranked(LoadPlaces(t, f, b, ids))
  {
    hide Ranked, Usable, Ref;
    if ids != [] {
      var rest, id := ids[..|ids| - 1], ids[|ids| - 1];
      PlacesRanked(t, f, b, rest);
      var u := LoadPlaces(t, f, b, rest);
      if id in u.mapInfo {
        RefRanked(u, id, NewSlotIn(u.env, u.nKey, u.mapInfo[id].addr.svc, b));
      }
    }
  }

  lemma {:induction false} BucketsRanked(t: State, f: File, b: nat)
    requires Ranked(t) && b <= |f.buckets|
    ensures Ranked(LoadBuckets(t, f, b))
  {
    hide Ranked;
    if b > 0 {
      BucketsRanked(t, f, b - 1);
      PlacesRanked(LoadBuckets(t, f, b - 1), f, b - 1, f.buckets[b - 1]);
    }
  }

  lemma DeleteRanked(t: State, id: int)
    requires Ranked(t) && IsUnreferenced(t, id)
    ensures CanDelete(t, id) && Ranked(Delete(t, id))
  {
    assert RankedAt(t, id);
    var i, last := t.mapInfo[id].nRandomPos, |t.vRandom| - 1;
    assert t.vRandom[last] in t.mapInfo;
    var u := Delete(t, id);
    forall n | n in u.mapInfo ensures RankedAt(u, n) {
      assert RankedAt(t, n);
    }
  }

  lemma {:induction false} PruneRanked(t: State, n: nat)
    requires Ranked(t)
    ensures Ranked(Prune(t, n))
  {
    hide Ranked, CanDelete, IsUnreferenced;
    if n > 0 {
      PruneRanked(t, n - 1);
      var u := Prune(t, n - 1);
      if IsUnreferenced(u, n - 1) {
        DeleteRanked(u, n - 1);
      }
    }
  }

  /** Whatever file is read, the assertions of Delete hold when unreferenced entries are pruned. */
  lemma PruningIsSafe(env: Env, f: File, n: nat)
    requires Grouped(f)
    ensures var t := Prune(Tables(env, f), n);
            IsUnreferenced(t, n) ==> CanDelete(t, n)
  {
    hide Ranked, IsUnreferenced, CanDelete;
    var begun := Begun(env, f);
    NewsRanked(begun, f, |f.news|);
    var news := LoadNews(begun, f, |f.news|).(nIdCount := f.nNew);
    RankedSees(LoadNews(begun, f, |f.news|), news);
    TriedsRanked(news, f, |f.trieds|);
    BucketsRanked(LoadTrieds(news, f, |f.trieds|), f, |f.buckets|);
    PruneRanked(Tables(env, f), n);
    if IsUnreferenced(Prune(Tables(env, f), n), n) {
      DeleteRanked(Prune(Tables(env, f), n), n);
    }
  }

  // -------------------------------------------------------------------- loops

  /** The numbers that the writer has given out so far. */
  ghost predicate Numbers(unk: map<int, int>, m: map<int, Info>, n: int) {
    forall id | id in m && id < n :: id in unk && unk[id] == Unk(m, id)
  }

  ghost predicate Writes(news: seq<Stored>, m: map<int, Info>, list: seq<int>) {
    |news| == |list| && forall i | 0 <= i < |list| :: list[i] in m && news[i] == Store(m[list[i]])
  }

  lemma WritesAll(s: State, news: seq<Stored>, trieds: seq<Stored>)
    requires s.nIdCount >= 0
    ensures Writes(news, s.mapInfo, NewList(s.mapInfo, s.nIdCount)) ==> news == Serialized(s).news
    ensures Writes(trieds, s.mapInfo, TriedList(s.mapInfo, s.nIdCount)) ==> trieds == Serialized(s).trieds
  {
    ListsInside(s.mapInfo, s.nIdCount);
    hide NewList, TriedList, BucketList;
  }

  /** Going through mapInfo means going through the ids upwards. */
  method WriteNew(s: State) returns (news: seq<Stored>, unk: map<int, int>)
    requires Inv(s)
    ensures s.nIdCount >= 0 && news == Serialized(s).news && Numbers(unk, s.mapInfo, s.nIdCount)
  {
    var m := s.mapInfo;
    hide Inv, Serialized, Unk, Numbers, Writes, NewList, TriedList;
    NewCount(s);
    news, unk := [], map[];
    var nIds := 0;
    NothingWritten(s);
    for id := 0 to s.nIdCount
      invariant nIds == |news| && Writes(news, m, NewList(m, id))
      invariant Numbers(unk, m, id)
    {
      OneMoreWritten(news, m, id);
      OneMoreNumber(unk, m, id);
      if id in m {
        unk := unk[id := nIds];
        if m[id].nRefCount != 0 {
          UnkAt(m, s.nIdCount, id);
          assert nIds != s.nNew;
          news := news + [Store(m[id])];
          nIds := nIds + 1;
        }
      }
    }
    WritesAll(s, news, []);
  }

  lemma NothingWritten(s: State)
    requires Inv(s)
    ensures Writes([], s.mapInfo, NewList(s.mapInfo, 0)) && Numbers(map[], s.mapInfo, 0)
  {
    hide Tabled, Counted;
  }

  lemma OneMoreWritten(news: seq<Stored>, m: map<int, Info>, id: nat)
    requires Writes(news, m, NewList(m, id))
    ensures |news| == Unk(m, id)
    ensures Writes(if id in m && m[id].nRefCount != 0 then news + [Store(m[id])] else news, m, NewList(m, id + 1))
  {
  }

  lemma OneMoreNumber(unk: map<int, int>, m: map<int, Info>, id: nat)
    requires Numbers(unk, m, id)
    ensures Numbers(if id in m then unk[id := Unk(m, id)] else unk, m, id + 1)
  {
    hide Unk;
  }

  lemma NewCount(s: State)
    requires Inv(s)
    ensures s.nIdCount >= 0
    ensures |NewList(s.mapInfo, s.nIdCount)| == s.nNew && |TriedList(s.mapInfo, s.nIdCount)| == s.nTried
  {
    OrderOrders(s);
  }

  method WriteTried(s: State) returns (trieds: seq<Stored>)
    requires Inv(s)
    ensures s.nIdCount >= 0 && trieds == Serialized(s).trieds
  {
    var m := s.mapInfo;
    hide Inv, Serialized, NewList;
    NewCount(s);
    trieds := [];
    for id := 0 to s.nIdCount
      invariant |trieds| <= s.nTried && Writes(trieds, m, TriedList(m, id))
    {
      TriedGrows(m, id + 1, s.nIdCount);
      if id in m && m[id].fInTried {
        assert |trieds| != s.nTried;
        trieds := trieds + [Store(m[id])];
      }
    }
    WritesAll(s, [], trieds);
  }

  lemma {:induction false} TriedGrows(m: map<int, Info>, n: nat, k: nat)
    requires n <= k
    ensures |TriedList(m, n)| <= |TriedList(m, k)|
    decreases k
  {
    if n < k {
      TriedGrows(m, n, k - 1);
    }
  }

  method WriteBucket(s: State, unk: map<int, int>, b: nat) returns (list: seq<int>)
    requires forall x | x in s.vvNew :: s.vvNew[x] in s.mapInfo && s.vvNew[x] < s.nIdCount
    requires Numbers(unk, s.mapInfo, s.nIdCount)
    ensures list == BucketList(s, b, BUCKET_SIZE)
  {
    hide Unk;
    list := [];
    for i := 0 to BUCKET_SIZE
      invariant list == BucketList(s, b, i)
    {
      var x := Slot(b, i);
      if x in s.vvNew {
        assert s.vvNew[x] in s.mapInfo;
        list := list + [unk[s.vvNew[x]]];
      }
    }
  }

  lemma PlacesKnown(s: State)
    requires Inv(s)
    ensures s.nIdCount >= 0
    ensures forall x | x in s.vvNew :: s.vvNew[x] in s.mapInfo && s.vvNew[x] < s.nIdCount
  {
    forall x | x in s.vvNew ensures s.vvNew[x] in s.mapInfo && s.vvNew[x] < s.nIdCount {
      assert NewSlotOk(s.env, s.nKey, s.mapInfo, x, s.vvNew[x]);
    }
  }

  method Serialize(s: State) returns (f: File)
    requires Inv(s)
    ensures s.nIdCount >= 0 && f == Serialized(s)
  {
    hide Inv, Unk, NewList, TriedList, BucketList, Numbers;
    PlacesKnown(s);
    var news, unk := WriteNew(s);
    var trieds := WriteTried(s);
    var buckets := [];
    for b := 0 to NEW_BUCKET_COUNT
      invariant |buckets| == b && forall i | 0 <= i < b :: buckets[i] == BucketList(s, i, BUCKET_SIZE)
    {
      var list := WriteBucket(s, unk, b);
      buckets := buckets + [list];
    }
    f := File(1, 32, s.nKey, s.nNew, s.nTried, Flip30(NEW_BUCKET_COUNT), news, trieds, buckets);
    assert buckets == Serialized(s).buckets;
  }

  method ReadBucket(t0: State, f: File, b: nat, ids: seq<int>) returns (t: State)
    ensures t == LoadPlaces(t0, f, b, ids)
  {
    hide LoadPlace;
    t := t0;
    assert ids[..|ids|] == ids;
    for n := 0 to |ids|
      invariant t == LoadPlaces(t0, f, b, ids[..n])
    {
      assert ids[..n + 1][..n] == ids[..n];
      t := LoadPlace(t, f, b, ids[n]);
    }
  }

  method ReadTables(env: Env, f: File) returns (t: State)
    requires Grouped(f)
    ensures t == Tables(env, f)
  {
    hide LoadNew, LoadTried, LoadPlaces;
    t := Begun(env, f);
    for n := 0 to |f.news|
      invariant t == LoadNews(Begun(env, f), f, n)
    {
      t := LoadNew(t, f, n);
    }
    t := t.(nIdCount := f.nNew);
    ghost var news := t;
    for n := 0 to |f.trieds|
      invariant t == LoadTrieds(news, f, n)
    {
      t := LoadTried(t, f, n);
    }
    ghost var trieds := t;
    for b := 0 to |f.buckets|
      invariant t == LoadBuckets(trieds, f, b)
    {
      t := ReadBucket(t, f, b, f.buckets[b]);
    }
  }

  method Unserialize(env: Env, f: File) returns (r: Result)
    requires Grouped(f)
    ensures r == Unserialized(env, f)
  {
    hide Tables, CanDelete, Grouped;
    if f.nKeySize != 32 {
      return IncorrectKeySize;
    }
    if f.nNew > NEW_BUCKET_COUNT * BUCKET_SIZE {
      return TooManyNew;
    }
    if f.nTried > TRIED_BUCKET_COUNT * BUCKET_SIZE {
      return TooManyTried;
    }
    var t := ReadTables(env, f);
    ghost var tables := t;
    for id := 0 to NonNegative(t.nIdCount)
      invariant t == Prune(tables, id)
    {
      PruningIsSafe(env, f, id);
      if IsUnreferenced(t, id) {
        t := Delete(t, id);
      }
    }
    r := Loaded(t);
  }
}
