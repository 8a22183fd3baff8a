/**
 * The consistency of the address manager: the condition that the program's
 * own Check_ tests, strengthened until every operation keeps it.
 */
module AddrManInvariant {
  import opened AddrManState

  // --------------------------------------------------------------- invariant

  /** An entry is found under its address and at its random position. */
  predicate Found(m: map<int, Info>, addr: map<Ip, int>, v: seq<int>, n: int)
    requires n in m
  {
    && m[n].addr.svc.ip in addr && addr[m[n].addr.svc.ip] == n
    && 0 <= m[n].nRandomPos < |v| && v[m[n].nRandomPos] == n
  }

  /** mapInfo, mapAddr and vRandom are three views of one set of entries. */
  ghost predicate Linked(m: map<int, Info>, addr: map<Ip, int>, v: seq<int>) {
    && (forall n | n in m :: Found(m, addr, v, n))
    && (forall ip | ip in addr :: addr[ip] in m && m[addr[ip]].addr.svc.ip == ip)
    && (forall i | 0 <= i < |v| :: v[i] in m && m[v[i]].nRandomPos == i)
  }

  ghost predicate Indexed(s: State) {
    && s.nIdCount >= 0
    && Linked(s.mapInfo, s.mapAddr, s.vRandom)
    && forall n | n in s.mapInfo ::
         0 <= n < s.nIdCount && s.mapInfo[n].nLastTry >= 0 && s.mapInfo[n].nLastSuccess >= 0
  }

  /** An entry without its place in vRandom, about which the tables say nothing. */
  function Bare(info: Info): Info {
    info.(nRandomPos := 0)
  }

  function Bares(s: State): map<int, Info> {
    map n | n in s.mapInfo :: Bare(s.mapInfo[n])
  }

  /** How many places of the new table hold id. */
  function Refs(vvNew: map<Slot, int>, id: int): nat {
    |set x | x in vvNew && vvNew[x] == id|
  }

  /** What a slot of the new table may hold. */
  predicate NewSlotOk(env: Env, key: Key, m: map<int, Info>, x: Slot, id: int) {
    && id in m && !m[id].fInTried
    && x.bucket < NEW_BUCKET_COUNT && x == NewSlotIn(env, key, m[id].addr.svc, x.bucket)
  }

  predicate TriedSlotOk(env: Env, key: Key, m: map<int, Info>, x: Slot, id: int) {
    id in m && m[id].fInTried && x == TriedSlot(env, key, m[id].addr.svc)
  }

  /** What the tables say about one entry; only a loose entry may be in no table. */
  ghost predicate EntryOk(s: State, n: int, info: Info, loose: set<int>) {
    if info.fInTried then
      && info.nLastSuccess > 0 && info.nRefCount == 0
      && TriedSlot(s.env, s.nKey, info.addr.svc) in s.vvTried
      && s.vvTried[TriedSlot(s.env, s.nKey, info.addr.svc)] == n
    else
      && info.nRefCount == Refs(s.vvNew, n) <= NEW_BUCKETS_PER_ADDRESS
      && (n in loose <==> info.nRefCount == 0)
  }

  ghost predicate Tabled(s: State, loose: set<int>) {
    && (forall x | x in s.vvTried :: TriedSlotOk(s.env, s.nKey, s.mapInfo, x, s.vvTried[x]))
    && (forall x | x in s.vvNew :: NewSlotOk(s.env, s.nKey, s.mapInfo, x, s.vvNew[x]))
    && (forall n | n in s.mapInfo :: EntryOk(s, n, s.mapInfo[n], loose))
  }

  function TriedIds(m: map<int, Info>): set<int> {
    set n | n in m && m[n].fInTried
  }

  function NewIds(m: map<int, Info>): set<int> {
    set n | n in m && !m[n].fInTried
  }

  /** The two counters; d is what nNew is ahead by in the middle of an operation. */
  ghost predicate Counted(s: State, d: int) {
    s.nTried == |TriedIds(s.mapInfo)| && s.nNew == |NewIds(s.mapInfo)| + d
  }

  ghost predicate Inv(s: State) {
    Indexed(s) && Tabled(s, {}) && Counted(s, 0) && s.nKey != NULL_KEY
  }

  // ------------------------------------------------ the program's own check

  /** The conditions under which Check_ returns 0. */
  ghost predicate Check(s: State) {
    && |s.vRandom| == s.nTried + s.nNew
    && (forall n | n in s.mapInfo ::
          var info := s.mapInfo[n];
          && (info.fInTried ==> info.nLastSuccess != 0 && info.nRefCount == 0)
          && (!info.fInTried ==> 0 < info.nRefCount <= NEW_BUCKETS_PER_ADDRESS)
          && info.addr.svc.ip in s.mapAddr && s.mapAddr[info.addr.svc.ip] == n
          && 0 <= info.nRandomPos < |s.vRandom| && s.vRandom[info.nRandomPos] == n
          && info.nLastTry >= 0 && info.nLastSuccess >= 0)
    && |TriedIds(s.mapInfo)| == s.nTried
    && |NewIds(s.mapInfo)| == s.nNew
    && (forall x | x in s.vvTried :: TriedSlotOk(s.env, s.nKey, s.mapInfo, x, s.vvTried[x]))
    && (forall n | n in TriedIds(s.mapInfo) :: Refs(s.vvTried, n) == 1)
    && (forall x | x in s.vvNew ::
          s.vvNew[x] in NewIds(s.mapInfo) &&
          x.pos == BucketPosition(s.env, s.nKey, true, x.bucket, s.mapInfo[s.vvNew[x]].addr.svc))
    && (forall n | n in NewIds(s.mapInfo) :: Refs(s.vvNew, n) == s.mapInfo[n].nRefCount)
    && s.nKey != NULL_KEY
  }

  lemma {:induction false} DistinctCount(v: seq<int>)
    requires forall i, j | 0 <= i < j < |v| :: v[i] != v[j]
    ensures |set n | n in v| == |v|
    decreases |v|
  {
    if v != [] {
      var w, last := v[..|v| - 1], v[|v| - 1];
      assert v == w + [last];
      DistinctCount(w);
      assert (set n | n in v) == (set n | n in w) + {last};
    }
  }

  lemma RandomCount(s: State)
    requires Indexed(s)
    ensures |s.vRandom| == |s.mapInfo|
  {
    DistinctCount(s.vRandom);
    forall n | n in s.mapInfo.Keys ensures n in s.vRandom {
      assert Found(s.mapInfo, s.mapAddr, s.vRandom, n);
    }
    forall n | n in s.vRandom ensures n in s.mapInfo.Keys {
      var i :| 0 <= i < |s.vRandom| && s.vRandom[i] == n;
    }
    assert (set n | n in s.vRandom) == s.mapInfo.Keys;
  }

  lemma TriedOnce(s: State, n: int)
    requires Tabled(s, {}) && n in TriedIds(s.mapInfo)
    ensures Refs(s.vvTried, n) == 1
  {
    assert EntryOk(s, n, s.mapInfo[n], {});
    var x := TriedSlot(s.env, s.nKey, s.mapInfo[n].addr.svc);
    assert (set y | y in s.vvTried && s.vvTried[y] == n) == {x};
  }

  lemma InvPassesCheck(s: State)
    requires Inv(s)
    ensures Check(s)
  {
    RandomCount(s);
    assert TriedIds(s.mapInfo) + NewIds(s.mapInfo) == s.mapInfo.Keys;
    forall n | n in TriedIds(s.mapInfo) ensures Refs(s.vvTried, n) == 1 {
      TriedOnce(s, n);
    }
    forall n | n in s.mapInfo ensures Found(s.mapInfo, s.mapAddr, s.vRandom, n) && EntryOk(s, n, s.mapInfo[n], {}) {
    }
  }

  // ------------------------------------------------------- counting places

  lemma RefsAdd(v: map<Slot, int>, x: Slot, id: int, n: int)
    requires x !in v
    ensures Refs(v[x := id], n) == Refs(v, n) + if n == id then 1 else 0
  {
    var w := v[x := id];
    var before, after := set y | y in v && v[y] == n, set y | y in w && w[y] == n;
    assert after == if n == id then before + {x} else before;
  }

  lemma RefsDrop(v: map<Slot, int>, x: Slot, n: int)
    requires x in v
    ensures Refs(v, n) == Refs(v - {x}, n) + if n == v[x] then 1 else 0
  {
    var w := v - {x};
    assert v == w[x := v[x]];
    RefsAdd(w, x, v[x], n);
  }

  /** Without the places of one entry, the others have as many as before. */
  lemma RefsDropAll(v: map<Slot, int>, own: set<Slot>, id: int, n: int)
    requires forall x :: x in own <==> x in v && v[x] == id
    ensures Refs(v, id) == |own|
    ensures Refs(v - own, n) == if n == id then 0 else Refs(v, n)
  {
    assert (set y | y in v && v[y] == id) == own;
    var w := v - own;
    var before, after := set y | y in v && v[y] == n, set y | y in w && w[y] == n;
    assert after == if n == id then {} else before;
  }

  // ------------------------------------------------------- the order of ids

  lemma SwapKeeps(s: State, i: nat, j: nat)
    requires Indexed(s) && i < |s.vRandom| && j < |s.vRandom|
    ensures CanSwap(s, i, j)
    ensures Indexed(SwapRandom(s, i, j)) && Bares(SwapRandom(s, i, j)) == Bares(s)
    ensures SwapRandom(s, i, j).mapInfo[s.vRandom[i]].nRandomPos == j
  {
    assert s.vRandom[i] in s.mapInfo && s.vRandom[j] in s.mapInfo;
    SwapLinked(s, i, j);
    hide Linked;
    if i != j {
      var t := SwapRandom(s, i, j);
      forall n | n in s.mapInfo ensures Bare(t.mapInfo[n]) == Bare(s.mapInfo[n]) {
      }
    }
  }

  lemma SwapLinked(s: State, i: nat, j: nat)
    requires Linked(s.mapInfo, s.mapAddr, s.vRandom) && i < |s.vRandom| && j < |s.vRandom|
    ensures CanSwap(s, i, j)
    ensures var t := SwapRandom(s, i, j); Linked(t.mapInfo, t.mapAddr, t.vRandom)
    ensures SwapRandom(s, i, j).mapInfo[s.vRandom[i]].nRandomPos == j
  {
    if i != j {
      var t := SwapRandom(s, i, j);
      forall n | n in t.mapInfo ensures Found(t.mapInfo, t.mapAddr, t.vRandom, n) {
        assert Found(s.mapInfo, s.mapAddr, s.vRandom, n);
      }
    }
  }

  /** Tables and counters do not see the order of the ids. */
  lemma BaresDecide(s: State, t: State, loose: set<int>, d: int)
    requires Bares(t) == Bares(s) && t == s.(mapInfo := t.mapInfo, vRandom := t.vRandom)
    ensures Tabled(s, loose) ==> Tabled(t, loose)
    ensures Counted(s, d) ==> Counted(t, d)
  {
    SameBares(s, t);
    hide Bares, Refs, TriedSlot, NewSlotIn;
    if Tabled(s, loose) {
      forall n | n in t.mapInfo ensures EntryOk(t, n, t.mapInfo[n], loose) {
        assert EntryOk(s, n, s.mapInfo[n], loose);
      }
      forall x | x in t.vvTried ensures TriedSlotOk(t.env, t.nKey, t.mapInfo, x, t.vvTried[x]) {
        assert TriedSlotOk(s.env, s.nKey, s.mapInfo, x, s.vvTried[x]);
      }
      forall x | x in t.vvNew ensures NewSlotOk(t.env, t.nKey, t.mapInfo, x, t.vvNew[x]) {
        assert NewSlotOk(s.env, s.nKey, s.mapInfo, x, s.vvNew[x]);
      }
    }
    if Counted(s, d) {
      SetCounted(s, t, d);
    }
  }

  lemma SameBares(s: State, t: State)
    requires Bares(t) == Bares(s)
    ensures forall n | n in s.mapInfo :: n in t.mapInfo && Bare(t.mapInfo[n]) == Bare(s.mapInfo[n])
    ensures forall n | n in t.mapInfo :: n in s.mapInfo && Bare(t.mapInfo[n]) == Bare(s.mapInfo[n])
  {
    assert forall n | n in s.mapInfo :: n in Bares(s) && Bare(s.mapInfo[n]) == Bares(s)[n];
    assert forall n | n in t.mapInfo :: n in Bares(t) && Bare(t.mapInfo[n]) == Bares(t)[n];
  }

  lemma InvKeptBySwap(s: State, i: nat, j: nat)
    requires Inv(s) && i < |s.vRandom| && j < |s.vRandom|
    ensures CanSwap(s, i, j) && Inv(SwapRandom(s, i, j))
  {
    SwapKeeps(s, i, j);
    BaresDecide(s, SwapRandom(s, i, j), {}, 0);
  }

  // ------------------------------------------------------------ one entry

  /** Removing the entry that stands last. */
  lemma DropLast(m: map<int, Info>, addr: map<Ip, int>, v: seq<int>, id: int)
    requires Linked(m, addr, v) && id in m && m[id].nRandomPos == |v| - 1
    ensures Linked(m - {id}, addr - {m[id].addr.svc.ip}, v[..|v| - 1])
  {
    assert Found(m, addr, v, id);
    forall n | n in m && n != id
      ensures Found(m - {id}, addr - {m[id].addr.svc.ip}, v[..|v| - 1], n)
    {
      assert Found(m, addr, v, n);
    }
  }

  lemma DeleteIndexed(s: State, id: int)
    requires Indexed(s) && id in s.mapInfo && !s.mapInfo[id].fInTried && s.mapInfo[id].nRefCount == 0
    ensures CanDelete(s, id)
    ensures Indexed(Delete(s, id)) && Bares(Delete(s, id)) == Bares(s) - {id}
  {
    hide Linked;
    var last := |s.vRandom| - 1;
    IndexedAt(s, id);
    SwapKeeps(s, s.mapInfo[id].nRandomPos, last);
    var t := SwapRandom(s, s.mapInfo[id].nRandomPos, last);
    assert Bare(t.mapInfo[id]) == Bares(t)[id];
    DropLast(t.mapInfo, t.mapAddr, t.vRandom, id);
    assert t.mapInfo.Keys == Bares(t).Keys == s.mapInfo.Keys;
    forall n | n in t.mapInfo ensures Bare(t.mapInfo[n]) == Bare(s.mapInfo[n]) {
      assert Bares(t)[n] == Bares(s)[n];
    }
  }

  lemma IndexedAt(s: State, id: int)
    requires Indexed(s) && id in s.mapInfo
    ensures Found(s.mapInfo, s.mapAddr, s.vRandom, id)
    ensures s.mapInfo[id].nLastTry >= 0 && s.mapInfo[id].nLastSuccess >= 0
  {
  }

  /** An entry without references is in no place of the new table. */
  lemma NoRefs(v: map<Slot, int>, id: int)
    requires Refs(v, id) == 0
    ensures forall x | x in v :: v[x] != id
  {
    var own := set y | y in v && v[y] == id;
    assert own == {};
    forall x | x in v ensures v[x] != id {
      assert x !in own;
    }
  }

  lemma DropLooseTabled(s: State, id: int, loose: set<int>)
    requires Tabled(s, loose) && id in s.mapInfo && id in loose && !s.mapInfo[id].fInTried
    ensures Tabled(s.(mapInfo := s.mapInfo - {id}), loose - {id})
  {
    assert EntryOk(s, id, s.mapInfo[id], loose);
    NoRefs(s.vvNew, id);
    var u := s.(mapInfo := s.mapInfo - {id});
    forall n | n in u.mapInfo ensures EntryOk(u, n, u.mapInfo[n], loose - {id}) {
      assert EntryOk(s, n, s.mapInfo[n], loose);
    }
  }

  /** Deleting a loose entry. */
  lemma DeleteKeeps(s: State, id: int, loose: set<int>, d: int)
    requires Indexed(s) && Tabled(s, loose) && Counted(s, d)
    requires id in s.mapInfo && id in loose && !s.mapInfo[id].fInTried
    ensures CanDelete(s, id)
    ensures Indexed(Delete(s, id)) && Tabled(Delete(s, id), loose - {id}) && Counted(Delete(s, id), d)
    ensures Bares(Delete(s, id)) == Bares(s) - {id}
  {
    hide Indexed, Tabled, CanDelete, Counted, Delete;
    LooseFree(s, id, loose);
    DeleteIndexed(s, id);
    DropLooseTabled(s, id, loose);
    DeleteSees(s, id);
    var t := Delete(s, id);
    var u := s.(mapInfo := s.mapInfo - {id}, nNew := s.nNew - 1, mapAddr := t.mapAddr);
    TabledSees(s.(mapInfo := s.mapInfo - {id}), u, loose - {id});
    DropCounted(s, u, id, d);
    BaresWithout(s, u, id);
    hide Bares;
    BaresDecide(u, t, loose - {id}, d);
  }

  lemma LooseFree(s: State, id: int, loose: set<int>)
    requires Tabled(s, loose) && id in s.mapInfo && id in loose && !s.mapInfo[id].fInTried
    ensures s.mapInfo[id].nRefCount == 0
  {
    assert EntryOk(s, id, s.mapInfo[id], loose);
  }

  /** What Delete leaves alone. */
  lemma DeleteSees(s: State, id: int)
    requires CanDelete(s, id)
    ensures var t := Delete(s, id);
      t == s.(mapInfo := t.mapInfo, vRandom := t.vRandom, mapAddr := t.mapAddr, nNew := s.nNew - 1)
  {
  }

  lemma BaresWithout(s: State, u: State, id: int)
    requires u.mapInfo == s.mapInfo - {id}
    ensures Bares(u) == Bares(s) - {id}
  {
  }

  lemma DropCounted(s: State, u: State, id: int, d: int)
    requires Counted(s, d) && id in s.mapInfo && !s.mapInfo[id].fInTried
    requires u.mapInfo == s.mapInfo - {id} && u.nNew == s.nNew - 1 && u.nTried == s.nTried
    ensures Counted(u, d)
  {
    forall n ensures n in NewIds(s.mapInfo) <==> n in NewIds(u.mapInfo) || n == id {}
    forall n ensures n in TriedIds(s.mapInfo) <==> n in TriedIds(u.mapInfo) {}
    hide NewIds, TriedIds;
    assert NewIds(s.mapInfo) == NewIds(u.mapInfo) + {id};
    assert TriedIds(s.mapInfo) == TriedIds(u.mapInfo);
    assert id !in NewIds(u.mapInfo) by { DroppedId(s, u, id); }
  }

  lemma DroppedId(s: State, u: State, id: int)
    requires u.mapInfo == s.mapInfo - {id}
    ensures id !in NewIds(u.mapInfo)
  {
  }

  /** What the tables are tied to. */
  lemma TabledSees(s: State, t: State, loose: set<int>)
    requires Tabled(s, loose)
    requires t.env == s.env && t.nKey == s.nKey && t.mapInfo == s.mapInfo
    requires t.vvNew == s.vvNew && t.vvTried == s.vvTried
    ensures Tabled(t, loose)
  {
    forall n | n in t.mapInfo ensures EntryOk(t, n, t.mapInfo[n], loose) {
      assert EntryOk(s, n, s.mapInfo[n], loose);
    }
  }

  /** Entries may change in what neither their address nor their position depends on. */
  lemma SetIndexed(s: State, id: int, info: Info)
    requires Indexed(s) && id in s.mapInfo
    requires info.addr.svc.ip == s.mapInfo[id].addr.svc.ip && info.nRandomPos == s.mapInfo[id].nRandomPos
    requires info.nLastTry >= 0 && info.nLastSuccess >= 0
    ensures Indexed(SetInfo(s, id, info))
  {
    var t := SetInfo(s, id, info);
    forall n | n in t.mapInfo ensures Found(t.mapInfo, t.mapAddr, t.vRandom, n) {
      assert Found(s.mapInfo, s.mapAddr, s.vRandom, n);
    }
  }

  lemma IndexedSees(s: State, t: State)
    requires Indexed(s)
    requires t.mapInfo == s.mapInfo && t.mapAddr == s.mapAddr && t.vRandom == s.vRandom && t.nIdCount == s.nIdCount
    ensures Indexed(t)
  {
  }

  /** Statistics do not matter to the tables. */
  lemma TouchKeeps(s: State, id: int, info: Info)
    requires Inv(s) && id in s.mapInfo
    requires info.addr.svc == s.mapInfo[id].addr.svc && info.nRandomPos == s.mapInfo[id].nRandomPos
    requires info.nRefCount == s.mapInfo[id].nRefCount && info.fInTried == s.mapInfo[id].fInTried
    requires info.nLastTry >= 0 && (info.nLastSuccess >= s.mapInfo[id].nLastSuccess || info.nLastSuccess > 0)
    ensures Inv(SetInfo(s, id, info))
  {
    assert s.mapInfo[id].nLastSuccess >= 0;
    SetIndexed(s, id, info);
    TouchTabled(s, id, info);
    hide Indexed, Counted, Tabled;
    SetCounted(s, SetInfo(s, id, info), 0);
  }

  lemma TouchTabled(s: State, id: int, info: Info)
    requires Tabled(s, {}) && id in s.mapInfo
    requires info.addr.svc == s.mapInfo[id].addr.svc
    requires info.nRefCount == s.mapInfo[id].nRefCount && info.fInTried == s.mapInfo[id].fInTried
    requires info.nLastSuccess >= s.mapInfo[id].nLastSuccess || info.nLastSuccess > 0
    ensures Tabled(SetInfo(s, id, info), {})
  {
    var t := SetInfo(s, id, info);
    hide Refs, TriedSlot, NewSlotIn;
    forall n | n in t.mapInfo ensures EntryOk(t, n, t.mapInfo[n], {}) {
      assert EntryOk(s, n, s.mapInfo[n], {});
    }
    forall y | y in t.vvTried ensures TriedSlotOk(t.env, t.nKey, t.mapInfo, y, t.vvTried[y]) {
      assert TriedSlotOk(s.env, s.nKey, s.mapInfo, y, s.vvTried[y]);
    }
    forall y | y in t.vvNew ensures NewSlotOk(t.env, t.nKey, t.mapInfo, y, t.vvNew[y]) {
      assert NewSlotOk(s.env, s.nKey, s.mapInfo, y, s.vvNew[y]);
    }
  }

  // -------------------------------------------------- places of the new table

  lemma UnrefTabled(s: State, x: Slot, loose: set<int>)
    requires Tabled(s, loose) && x in s.vvNew
    ensures s.vvNew[x] in s.mapInfo && s.mapInfo[s.vvNew[x]].nRefCount > 0 && s.vvNew[x] !in loose
    ensures Tabled(Unref(s, x), if s.mapInfo[s.vvNew[x]].nRefCount == 1 then loose + {s.vvNew[x]} else loose)
  {
    var id := s.vvNew[x];
    assert NewSlotOk(s.env, s.nKey, s.mapInfo, x, id);
    assert EntryOk(s, id, s.mapInfo[id], loose);
    RefsDrop(s.vvNew, x, id);
    var t := Unref(s, x);
    var l := if s.mapInfo[id].nRefCount == 1 then loose + {id} else loose;
    forall n | n in t.mapInfo ensures EntryOk(t, n, t.mapInfo[n], l) {
      assert EntryOk(s, n, s.mapInfo[n], loose);
      RefsDrop(s.vvNew, x, n);
    }
    forall y | y in t.vvNew ensures NewSlotOk(t.env, t.nKey, t.mapInfo, y, t.vvNew[y]) {
      assert NewSlotOk(s.env, s.nKey, s.mapInfo, y, s.vvNew[y]);
    }
    forall y | y in t.vvTried ensures TriedSlotOk(t.env, t.nKey, t.mapInfo, y, t.vvTried[y]) {
      assert TriedSlotOk(s.env, s.nKey, s.mapInfo, y, s.vvTried[y]);
    }
  }

  lemma SetCounted(s: State, t: State, d: int)
    requires Counted(s, d) && t.nNew == s.nNew && t.nTried == s.nTried
    requires forall n | n in s.mapInfo :: n in t.mapInfo && t.mapInfo[n].fInTried == s.mapInfo[n].fInTried
    requires forall n | n in t.mapInfo :: n in s.mapInfo
    ensures Counted(t, d)
  {
    forall n ensures n in TriedIds(t.mapInfo) <==> n in TriedIds(s.mapInfo) {}
    forall n ensures n in NewIds(t.mapInfo) <==> n in NewIds(s.mapInfo) {}
    assert TriedIds(t.mapInfo) == TriedIds(s.mapInfo);
    assert NewIds(t.mapInfo) == NewIds(s.mapInfo);
  }

  lemma UnrefKeeps(s: State, x: Slot, loose: set<int>, d: int)
    requires Indexed(s) && Tabled(s, loose) && Counted(s, d) && x in s.vvNew
    ensures s.vvNew[x] in s.mapInfo && s.mapInfo[s.vvNew[x]].nRefCount > 0 && s.vvNew[x] !in loose
    ensures Indexed(Unref(s, x)) && Counted(Unref(s, x), d)
    ensures Tabled(Unref(s, x), if s.mapInfo[s.vvNew[x]].nRefCount == 1 then loose + {s.vvNew[x]} else loose)
  {
    hide Tabled, Counted, Indexed;
    UnrefTabled(s, x, loose);
    var id := s.vvNew[x];
    IndexedAt(s, id);
    SetIndexed(s, id, s.mapInfo[id].(nRefCount := s.mapInfo[id].nRefCount - 1));
    IndexedSees(AddRefs(s, id, -1), Unref(s, x));
    SetCounted(s, Unref(s, x), d);
  }

  /** What ClearNew leaves of the other entries. */
  ghost predicate OthersSame(s: State, t: State, x: Slot) {
    && t.vvNew == s.vvNew - {x} && t.vvTried == s.vvTried && t.env == s.env && t.nKey == s.nKey
    && forall n | n in s.mapInfo && (x in s.vvNew ==> s.vvNew[x] != n) :: Kept(s, t, n)
  }

  predicate Kept(s: State, t: State, n: int) {
    n in s.mapInfo && n in t.mapInfo && Bare(t.mapInfo[n]) == Bare(s.mapInfo[n])
  }

  lemma ClearKeeps(s: State, x: Slot, loose: set<int>, d: int)
    requires Indexed(s) && Tabled(s, loose) && Counted(s, d)
    ensures CanClear(s, x)
    ensures var t := ClearNew(s, x);
      Indexed(t) && Tabled(t, loose) && Counted(t, d) && OthersSame(s, t, x)
  {
    hide Indexed, Tabled, Counted, OthersSame, Delete, CanDelete, Bares;
    if x in s.vvNew {
      UnrefKeeps(s, x, loose, d);
      var id := s.vvNew[x];
      var t := Unref(s, x);
      UnrefSame(s, x);
      if s.mapInfo[id].nRefCount == 1 {
        UnrefFree(s, x, loose);
        DeleteKeeps(t, id, loose + {id}, d);
        assert loose + {id} - {id} == loose;
        DeleteSame(s, t, id, x);
      }
    } else {
      NothingCleared(s, x);
    }
  }

  lemma NothingCleared(s: State, x: Slot)
    requires x !in s.vvNew
    ensures OthersSame(s, s, x)
  {
    assert s.vvNew - {x} == s.vvNew;
  }

  lemma UnrefSame(s: State, x: Slot)
    requires x in s.vvNew && s.vvNew[x] in s.mapInfo
    ensures OthersSame(s, Unref(s, x), x)
  {
  }

  lemma DeleteSame(s: State, t: State, id: int, x: Slot)
    requires CanDelete(t, id) && Bares(Delete(t, id)) == Bares(t) - {id}
    requires OthersSame(s, t, x) && x in s.vvNew && s.vvNew[x] == id
    ensures OthersSame(s, Delete(t, id), x)
  {
    hide CanDelete;
    var u := Delete(t, id);
    BaresApart(t, u, id);
    hide Bares;
    forall n | n in s.mapInfo && n != id ensures Kept(s, u, n) {
      assert Kept(s, t, n);
      assert Kept(t, u, n);
    }
  }

  lemma BaresApart(s: State, t: State, id: int)
    requires Bares(t) == Bares(s) - {id}
    ensures forall n | n in s.mapInfo && n != id :: Kept(s, t, n)
  {
    forall n | n in s.mapInfo && n != id ensures Kept(s, t, n) {
      assert n in Bares(t) && Bares(t)[n] == Bares(s)[n];
    }
  }

  lemma UnrefFree(s: State, x: Slot, loose: set<int>)
    requires Tabled(s, loose) && x in s.vvNew
    ensures s.vvNew[x] in s.mapInfo && !s.mapInfo[s.vvNew[x]].fInTried
  {
    assert NewSlotOk(s.env, s.nKey, s.mapInfo, x, s.vvNew[x]);
  }

  lemma RefTabled(s: State, id: int, x: Slot, loose: set<int>)
    requires Tabled(s, loose) && x !in s.vvNew && NewSlotOk(s.env, s.nKey, s.mapInfo, x, id)
    requires s.mapInfo[id].nRefCount < NEW_BUCKETS_PER_ADDRESS
    ensures Tabled(Ref(s, id, x), loose - {id})
  {
    var t := Ref(s, id, x);
    forall n | n in t.mapInfo ensures EntryOk(t, n, t.mapInfo[n], loose - {id}) {
      assert EntryOk(s, n, s.mapInfo[n], loose);
      RefsAdd(s.vvNew, x, id, n);
    }
    forall y | y in t.vvNew ensures NewSlotOk(t.env, t.nKey, t.mapInfo, y, t.vvNew[y]) {
      assert y != x ==> NewSlotOk(s.env, s.nKey, s.mapInfo, y, s.vvNew[y]);
    }
    forall y | y in t.vvTried ensures TriedSlotOk(t.env, t.nKey, t.mapInfo, y, t.vvTried[y]) {
      assert TriedSlotOk(s.env, s.nKey, s.mapInfo, y, s.vvTried[y]);
    }
  }

  lemma RefKeeps(s: State, id: int, x: Slot, loose: set<int>, d: int)
    requires Indexed(s) && Tabled(s, loose) && Counted(s, d)
    requires x !in s.vvNew && NewSlotOk(s.env, s.nKey, s.mapInfo, x, id)
    requires s.mapInfo[id].nRefCount < NEW_BUCKETS_PER_ADDRESS
    ensures Indexed(Ref(s, id, x)) && Tabled(Ref(s, id, x), loose - {id}) && Counted(Ref(s, id, x), d)
  {
    hide Tabled, Counted, Indexed;
    RefTabled(s, id, x, loose);
    IndexedAt(s, id);
    SetIndexed(s, id, s.mapInfo[id].(nRefCount := s.mapInfo[id].nRefCount + 1));
    IndexedSees(AddRefs(s, id, 1), Ref(s, id, x));
    SetCounted(s, Ref(s, id, x), d);
  }
}
