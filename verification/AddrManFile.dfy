/**
 * Saving the address manager and loading it again (CAddrMan::Serialize and
 * Unserialize in src/addrman.h). The file is modelled as the items that are
 * written and read, in groups.
 */
module AddrManFile {
  import opened AddrManState
  import opened AddrManInvariant

  // ------------------------------------------------------------------ the file

  /** What the file keeps of an entry. */
  datatype Stored = Stored(addr: Address, source: Ip, nLastSuccess: int, nAttempts: int)

  function Store(i: Info): Stored {
    Stored(i.addr, i.source, i.nLastSuccess, i.nAttempts)
  }

  function Load(d: Stored): Info {
    Info(d.addr, d.source, 0, 0, d.nLastSuccess, d.nAttempts, 0, false, -1)
  }

  datatype File = File(
    nVersion: nat, nKeySize: nat, nKey: Key, nNew: int, nTried: int, nUBuckets: int,
    news: seq<Stored>, trieds: seq<Stored>, buckets: seq<seq<int>>)

  const BIT_30 := 0x4000_0000

  /** Exclusive or with 2^30. */
  function Flip30(x: int): int {
    if x / BIT_30 % 2 == 1 then x - BIT_30 else x + BIT_30
  }

  /** The reader takes as many items as the counts before them say. */
  predicate Grouped(f: File) {
    && |f.news| == NonNegative(f.nNew) && |f.trieds| == NonNegative(f.nTried)
    && |f.buckets| == NonNegative(BucketCount(f))
  }

  function BucketCount(f: File): int {
    if f.nVersion != 0 then Flip30(f.nUBuckets) else f.nUBuckets
  }

  // ------------------------------------------------------------------- writing

  /** The ids below n of entries in the new table, in order. */
  function NewList(m: map<int, Info>, n: nat): seq<int> {
    if n == 0 then []
    else NewList(m, n - 1) + if n - 1 in m && m[n - 1].nRefCount != 0 then [n - 1] else []
  }

  function TriedList(m: map<int, Info>, n: nat): seq<int> {
    if n == 0 then []
    else TriedList(m, n - 1) + if n - 1 in m && m[n - 1].fInTried then [n - 1] else []
  }

  function StoredAll(m: map<int, Info>, ids: seq<int>): (r: seq<Stored>)
    requires forall i | 0 <= i < |ids| :: ids[i] in m
    ensures |r| == |ids| && forall i | 0 <= i < |ids| :: r[i] == Store(m[ids[i]])
  {
    seq(|ids|, i requires 0 <= i < |ids| => Store(m[ids[i]]))
  }

  /** The number given to an entry: how many of the new table come before it. */
  function Unk(m: map<int, Info>, id: int): nat {
    |NewList(m, NonNegative(id))|
  }

  /** The numbers of the entries in the first k places of a bucket. */
  function BucketList(s: State, b: nat, k: nat): seq<int> {
    if k == 0 then []
    else
      BucketList(s, b, k - 1)
      + if Slot(b, k - 1) in s.vvNew then [Unk(s.mapInfo, s.vvNew[Slot(b, k - 1)])] else []
  }

  lemma {:induction false} ListsInside(m: map<int, Info>, n: nat)
    ensures forall i | 0 <= i < |NewList(m, n)| :: NewList(m, n)[i] in m
    ensures forall i | 0 <= i < |TriedList(m, n)| :: TriedList(m, n)[i] in m
  {
    if n > 0 {
      ListsInside(m, n - 1);
    }
  }

  function Serialized(s: State): File
    requires s.nIdCount >= 0
  {
    ListsInside(s.mapInfo, s.nIdCount);
    File(1, 32, s.nKey, s.nNew, s.nTried, Flip30(NEW_BUCKET_COUNT),
         StoredAll(s.mapInfo, NewList(s.mapInfo, s.nIdCount)),
         StoredAll(s.mapInfo, TriedList(s.mapInfo, s.nIdCount)),
         seq(NEW_BUCKET_COUNT, b requires b >= 0 => BucketList(s, b, BUCKET_SIZE)))
  }

  // ------------------------------------------------------------------- reading

  function AddLoaded(t: State, id: int, info: Info): State {
    t.(mapInfo := t.mapInfo[id := info.(nRandomPos := |t.vRandom|)],
       mapAddr := t.mapAddr[info.addr.svc.ip := id],
       vRandom := t.vRandom + [id])
  }

  /** Whether the places in the new table can be taken over from the file. */
  predicate Usable(f: File) {
    f.nVersion == 1 && BucketCount(f) == NEW_BUCKET_COUNT
  }

  function LoadNew(t: State, f: File, n: nat): State
    requires n < |f.news|
  {
    var info := Load(f.news[n]);
    var u := AddLoaded(t, n, info);
    var slot := NewSlot(t.env, t.nKey, info.addr.svc, info.source);
    if !Usable(f) && slot !in u.vvNew then Ref(u, n, slot) else u
  }

  function LoadNews(t: State, f: File, n: nat): State
    requires n <= |f.news|
  {
    if n == 0 then t else LoadNew(LoadNews(t, f, n - 1), f, n - 1)
  }

  function LoadTried(t: State, f: File, n: nat): State
    requires n < |f.trieds|
  {
    var info := Load(f.trieds[n]);
    var slot := TriedSlot(t.env, t.nKey, info.addr.svc);
    if slot in t.vvTried then t.(nTried := t.nTried - 1)
    else
      AddLoaded(t, t.nIdCount, info.(fInTried := true)).
        (vvTried := t.vvTried[slot := t.nIdCount], nIdCount := t.nIdCount + 1)
  }

  function LoadTrieds(t: State, f: File, n: nat): State
    requires n <= |f.trieds|
  {
    if n == 0 then t else LoadTried(LoadTrieds(t, f, n - 1), f, n - 1)
  }

  function LoadPlace(t: State, f: File, b: nat, id: int): State {
    if !(0 <= id < f.nNew && id in t.mapInfo) then t
    else
      var slot := NewSlotIn(t.env, t.nKey, t.mapInfo[id].addr.svc, b);
      if Usable(f) && slot !in t.vvNew && t.mapInfo[id].nRefCount < NEW_BUCKETS_PER_ADDRESS then Ref(t, id, slot)
      else t
  }

  function LoadPlaces(t: State, f: File, b: nat, ids: seq<int>): State {
    if ids == [] then t else LoadPlace(LoadPlaces(t, f, b, ids[..|ids| - 1]), f, b, ids[|ids| - 1])
  }

  function LoadBuckets(t: State, f: File, b: nat): State
    requires b <= |f.buckets|
  {
    if b == 0 then t else LoadPlaces(LoadBuckets(t, f, b - 1), f, b - 1, f.buckets[b - 1])
  }

  predicate IsUnreferenced(t: State, id: int) {
    id in t.mapInfo && !t.mapInfo[id].fInTried && t.mapInfo[id].nRefCount == 0
  }

  function PruneOne(t: State, id: int): State {
    if IsUnreferenced(t, id) && CanDelete(t, id) then Delete(t, id) else t
  }

  /** Deletes the unreferenced entries among the first n ids. */
  function Prune(t: State, n: nat): State {
    if n == 0 then t else PruneOne(Prune(t, n - 1), n - 1)
  }

  function Begun(env: Env, f: File): State {
    Empty(env, f.nKey).(nNew := f.nNew, nTried := f.nTried)
  }

  function Tables(env: Env, f: File): State
    requires Grouped(f)
  {
    var t := LoadNews(Begun(env, f), f, |f.news|).(nIdCount := f.nNew);
    LoadBuckets(LoadTrieds(t, f, |f.trieds|), f, |f.buckets|)
  }

  datatype Result = Loaded(state: State) | IncorrectKeySize | TooManyNew | TooManyTried

  /** Reads a file into a manager that was just constructed. */
  function Unserialized(env: Env, f: File): Result
    requires Grouped(f)
  {
    if f.nKeySize != 32 then IncorrectKeySize
    else if f.nNew > NEW_BUCKET_COUNT * BUCKET_SIZE then TooManyNew
    else if f.nTried > TRIED_BUCKET_COUNT * BUCKET_SIZE then TooManyTried
    else
      var t := Tables(env, f);
      Loaded(Prune(t, NonNegative(t.nIdCount)))
  }

  // ----------------------------------------------------------- the size limits

  lemma {:induction false} ValuesAtMostKeys(v: map<Slot, int>)
    ensures |v.Values| <= |v.Keys|
    decreases |v.Keys|
  {
    if v.Keys == {} {
      assert v.Values == {};
    } else {
      var x :| x in v.Keys;
      var w := v - {x};
      ValuesAtMostKeys(w);
      assert v.Keys == w.Keys + {x};
      assert v.Values <= w.Values + {v[x]};
      SubsetSize(v.Values, w.Values + {v[x]});
    }
  }

  lemma {:induction false} SubsetSize<T>(a: set<T>, b: set<T>)
    requires a <= b
    ensures |a| <= |b|
    decreases |a|
  {
    if a != {} {
      var x :| x in a;
      SubsetSize(a - {x}, b - {x});
    }
  }

  function Row(b: nat, n: nat): set<Slot> {
    set p | 0 <= p < n :: Slot(b, p)
  }

  lemma {:induction false} RowSize(b: nat, n: nat)
    ensures |Row(b, n)| == n
  {
    if n > 0 {
      RowSize(b, n - 1);
      assert Row(b, n) == Row(b, n - 1) + {Slot(b, n - 1)};
    }
  }

  /** No more slots than places in the buckets. */
  lemma {:induction false} SlotsAtMost(slots: set<Slot>, n: nat)
    requires forall x | x in slots :: x.bucket < n && x.pos < BUCKET_SIZE
    ensures |slots| <= n * BUCKET_SIZE
    decreases n
  {
    if n == 0 {
      assert slots == {};
    } else {
      var rest := set x | x in slots && x.bucket < n - 1;
      SlotsAtMost(rest, n - 1);
      RowSize(n - 1, BUCKET_SIZE);
      assert slots <= rest + Row(n - 1, BUCKET_SIZE);
      SubsetSize(slots, rest + Row(n - 1, BUCKET_SIZE));
    }
  }

  /** A consistent manager passes both limits of the reader: every entry has a place of its own. */
  lemma WithinLimits(s: State)
    requires Inv(s)
    ensures s.nNew <= NEW_BUCKET_COUNT * BUCKET_SIZE && s.nTried <= TRIED_BUCKET_COUNT * BUCKET_SIZE
  {
    forall n | n in NewIds(s.mapInfo) ensures n in s.vvNew.Values {
      assert EntryOk(s, n, s.mapInfo[n], {});
      HasPlace(s.vvNew, n);
    }
    forall n | n in TriedIds(s.mapInfo) ensures n in s.vvTried.Values {
      assert EntryOk(s, n, s.mapInfo[n], {});
    }
    hide EntryOk, Indexed;
    forall x | x in s.vvNew.Keys ensures x.bucket < NEW_BUCKET_COUNT && x.pos < BUCKET_SIZE {
      assert NewSlotOk(s.env, s.nKey, s.mapInfo, x, s.vvNew[x]);
    }
    forall x | x in s.vvTried.Keys ensures x.bucket < TRIED_BUCKET_COUNT && x.pos < BUCKET_SIZE {
      assert TriedSlotOk(s.env, s.nKey, s.mapInfo, x, s.vvTried[x]);
    }
    SubsetSize(NewIds(s.mapInfo), s.vvNew.Values);
    SubsetSize(TriedIds(s.mapInfo), s.vvTried.Values);
    ValuesAtMostKeys(s.vvNew);
    ValuesAtMostKeys(s.vvTried);
    SlotsAtMost(s.vvNew.Keys, NEW_BUCKET_COUNT);
    SlotsAtMost(s.vvTried.Keys, TRIED_BUCKET_COUNT);
  }

  lemma HasPlace(v: map<Slot, int>, id: int)
    requires Refs(v, id) > 0
    ensures id in v.Values
  {
    var own := set y | y in v && v[y] == id;
    var y :| y in own;
    assert y in v && v[y] == id;
  }

  // -------------------------------------------------------------- the new order

  ghost predicate NoDup(order: seq<int>) {
    forall i, j | 0 <= i < j < |order| :: order[i] != order[j]
  }

  /** The list holds exactly the ids below n of a kind, each once and in order. */
  ghost predicate Lists(list: seq<int>, m: map<int, Info>, n: nat, tried: bool) {
    && NoDup(list)
    && (forall i | 0 <= i < |list| :: 0 <= list[i] < n && list[i] in m)
    && (forall id | id in m :: id in list <==> 0 <= id < n && if tried then m[id].fInTried else m[id].nRefCount != 0)
  }

  lemma {:induction false} NewListExactly(m: map<int, Info>, n: nat)
    ensures Lists(NewList(m, n), m, n, false)
  {
    hide Lists;
    if n == 0 {
      ListsNone(m, false);
    } else {
      NewListExactly(m, n - 1);
      ListsOneMore(NewList(m, n - 1), m, n - 1, false);
    }
  }

  lemma {:induction false} TriedListExactly(m: map<int, Info>, n: nat)
    ensures Lists(TriedList(m, n), m, n, true)
  {
    hide Lists;
    if n == 0 {
      ListsNone(m, true);
    } else {
      TriedListExactly(m, n - 1);
      ListsOneMore(TriedList(m, n - 1), m, n - 1, true);
    }
  }

  lemma ListsNone(m: map<int, Info>, tried: bool)
    ensures Lists([], m, 0, tried)
  {
  }

  lemma ListsOneMore(list: seq<int>, m: map<int, Info>, n: nat, tried: bool)
    requires Lists(list, m, n, tried)
    ensures var more := if n in m && (if tried then m[n].fInTried else m[n].nRefCount != 0) then [n] else [];
            Lists(list + more, m, n + 1, tried)
  {
    var more := if n in m && (if tried then m[n].fInTried else m[n].nRefCount != 0) then [n] else [];
    var all := list + more;
    forall id | id in m
      ensures id in all <==> 0 <= id < n + 1 && if tried then m[id].fInTried else m[id].nRefCount != 0
    {
      assert id in all <==> id in list || id in more;
    }
  }

  /** The ids in the order in which the file has them. */
  function Order(s: State): seq<int>
    requires s.nIdCount >= 0
  {
    NewList(s.mapInfo, s.nIdCount) + TriedList(s.mapInfo, s.nIdCount)
  }

  /** The place of an id in the order: its number after loading. */
  ghost function Pos(order: seq<int>, id: int): (i: nat)
    requires id in order
    ensures i < |order| && order[i] == id
  {
    var i :| 0 <= i < |order| && order[i] == id;
    i
  }

  lemma PosAt(order: seq<int>, i: nat)
    requires NoDup(order) && i < |order|
    ensures order[i] in order && Pos(order, order[i]) == i
  {
  }

  /** An order of the entries of a manager, those of the new table first. */
  ghost predicate Orders(s: State, order: seq<int>) {
    && NoDup(order)
    && (forall id :: id in order <==> id in s.mapInfo)
    && |order| == s.nNew + s.nTried && 0 <= s.nNew && 0 <= s.nTried
    && NewFirst(s.mapInfo, order, s.nNew)
  }

  ghost predicate NewFirst(m: map<int, Info>, order: seq<int>, k: int) {
    forall i | 0 <= i < |order| :: order[i] in m && (m[order[i]].fInTried <==> i >= k)
  }

  lemma OrderOrders(s: State)
    requires Inv(s)
    ensures Orders(s, Order(s)) && |NewList(s.mapInfo, s.nIdCount)| == s.nNew
  {
    hide Tabled, NewList, TriedList, NoDup, NewFirst;
    assert s.nIdCount >= 0;
    hide Indexed;
    var m, news, trieds := s.mapInfo, NewList(s.mapInfo, s.nIdCount), TriedList(s.mapInfo, s.nIdCount);
    ListsOf(s);
    ListCount(news, NewIds(m));
    ListCount(trieds, TriedIds(m));
    hide NewIds, TriedIds;
    TwoLists(m, news, trieds);
  }

  /** The two lists are the two tables. */
  lemma ListsOf(s: State)
    requires Inv(s)
    ensures var m, news, trieds := s.mapInfo, NewList(s.mapInfo, s.nIdCount), TriedList(s.mapInfo, s.nIdCount);
            && NoDup(news) && NoDup(trieds)
            && (forall id :: id in news <==> id in m && !m[id].fInTried)
            && (forall id :: id in trieds <==> id in m && m[id].fInTried)
  {
    var m, news, trieds := s.mapInfo, NewList(s.mapInfo, s.nIdCount), TriedList(s.mapInfo, s.nIdCount);
    NewListExactly(m, s.nIdCount);
    TriedListExactly(m, s.nIdCount);
    ListMembers(news, m, s.nIdCount, false);
    ListMembers(trieds, m, s.nIdCount, true);
    forall id | id in m ensures 0 <= id < s.nIdCount && (m[id].nRefCount != 0 <==> !m[id].fInTried) {
      assert EntryOk(s, id, m[id], {});
    }
  }

  lemma ListMembers(list: seq<int>, m: map<int, Info>, n: nat, tried: bool)
    requires Lists(list, m, n, tried)
    ensures forall id | id in list :: id in m
  {
  }

  lemma TwoLists(m: map<int, Info>, news: seq<int>, trieds: seq<int>)
    requires NoDup(news) && NoDup(trieds)
    requires forall id :: id in news <==> id in m && !m[id].fInTried
    requires forall id :: id in trieds <==> id in m && m[id].fInTried
    ensures var order := news + trieds;
            NoDup(order) && (forall id :: id in order <==> id in m) && NewFirst(m, order, |news|)
  {
    var order := news + trieds;
    forall i | 0 <= i < |order| ensures order[i] in m && (m[order[i]].fInTried <==> i >= |news|) {
      if i < |news| {
        assert order[i] == news[i] && news[i] in news;
      } else {
        var j := i - |news|;
        assert order[i] == trieds[j] && trieds[j] in trieds;
      }
    }
    forall i, j | 0 <= i < j < |order| ensures order[i] != order[j] {
      assert (m[order[i]].fInTried <==> i >= |news|) && (m[order[j]].fInTried <==> j >= |news|);
    }
  }

  lemma ListCount(list: seq<int>, ids: set<int>)
    requires NoDup(list) && forall id :: id in list <==> id in ids
    ensures |list| == |ids|
  {
    DistinctCount(list);
    assert (set n | n in list) == ids;
  }

  /** The number that the writer gives to an entry of the new table is its place in the order. */
  lemma UnkIsPos(s: State, id: int)
    requires Inv(s) && id in s.mapInfo && !s.mapInfo[id].fInTried
    ensures id in Order(s) && Pos(Order(s), id) == Unk(s.mapInfo, id) < s.nNew
  {
    OrderOrders(s);
    assert EntryOk(s, id, s.mapInfo[id], {});
    assert 0 <= id < s.nIdCount;
    UnkAt(s.mapInfo, s.nIdCount, id);
    hide Inv;
    var i := Unk(s.mapInfo, id);
    PosAt(Order(s), i);
  }

  lemma {:induction false} UnkAt(m: map<int, Info>, n: nat, id: int)
    requires 0 <= id < n && id in m && m[id].nRefCount != 0
    ensures Unk(m, id) < |NewList(m, n)| && NewList(m, n)[Unk(m, id)] == id
  {
    if id < n - 1 {
      UnkAt(m, n - 1, id);
    }
  }
}
