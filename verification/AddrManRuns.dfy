/**
 * Every operation of the address manager keeps its invariant, so every run
 * from a new manager does; none of the program's assertions can fail.
 */
module AddrManRuns {
  import opened AddrManState
  import opened AddrManInvariant

  // ------------------------------------------------------- moving to tried

  /** An entry's own slots are all the places that hold it. */
  lemma OwnSlotsAll(s: State, id: int, loose: set<int>)
    requires Tabled(s, loose) && id in s.mapInfo
    ensures forall x :: x in OwnSlots(s, id, NEW_BUCKET_COUNT) <==> x in s.vvNew && s.vvNew[x] == id
  {
    forall x ensures x in OwnSlots(s, id, NEW_BUCKET_COUNT) <==> x in s.vvNew && s.vvNew[x] == id {
      if x in s.vvNew && s.vvNew[x] == id {
        assert NewSlotOk(s.env, s.nKey, s.mapInfo, x, id);
        assert Holds(s, id, x.bucket);
      }
    }
  }

  lemma LeaveNewTabled(s: State, id: int)
    requires Tabled(s, {}) && id in s.mapInfo && !s.mapInfo[id].fInTried
    ensures LeaveNew(s, id).mapInfo[id].nRefCount == 0
    ensures Tabled(LeaveNew(s, id), {id})
  {
    var t := LeaveNew(s, id);
    var own := OwnSlots(s, id, NEW_BUCKET_COUNT);
    OwnSlotsAll(s, id, {});
    RefsDropAll(s.vvNew, own, id, id);
    assert EntryOk(s, id, s.mapInfo[id], {});
    hide OwnSlots, Holds;
    forall n | n in t.mapInfo ensures EntryOk(t, n, t.mapInfo[n], {id}) {
      RefsDropAll(s.vvNew, own, id, n);
      assert EntryOk(s, n, s.mapInfo[n], {});
    }
  }

  lemma LeaveNewKeeps(s: State, id: int)
    requires Indexed(s) && Tabled(s, {}) && Counted(s, 0) && id in s.mapInfo && !s.mapInfo[id].fInTried
    ensures LeaveNew(s, id).mapInfo[id].nRefCount == 0
    ensures Indexed(LeaveNew(s, id)) && Tabled(LeaveNew(s, id), {id}) && Counted(LeaveNew(s, id), -1)
  {
    hide Indexed, Tabled, OwnSlots, Counted;
    LeaveNewTabled(s, id);
    IndexedAt(s, id);
    var own := |OwnSlots(s, id, NEW_BUCKET_COUNT)|;
    SetIndexed(s, id, s.mapInfo[id].(nRefCount := s.mapInfo[id].nRefCount - own));
    var u := AddRefs(s, id, -own);
    IndexedSees(u, LeaveNew(s, id));
    SetCounted(s, u, 0);
    CountedShift(u, LeaveNew(s, id), -1);
  }

  lemma CountedShift(s: State, t: State, e: int)
    requires Counted(s, 0) && t.mapInfo == s.mapInfo && t.nTried == s.nTried && t.nNew == s.nNew + e
    ensures Counted(t, e)
  {
  }

  lemma LeaveTriedTabled(s: State, x: Slot, loose: set<int>)
    requires Tabled(s, loose) && x in s.vvTried
    ensures s.vvTried[x] in s.mapInfo && s.mapInfo[s.vvTried[x]].fInTried
    ensures Tabled(LeaveTried(s, x), loose + {s.vvTried[x]})
  {
    var id := s.vvTried[x];
    assert TriedSlotOk(s.env, s.nKey, s.mapInfo, x, id);
    assert EntryOk(s, id, s.mapInfo[id], loose);
    var t := LeaveTried(s, x);
    forall y | y in s.vvNew ensures s.vvNew[y] != id {
      assert NewSlotOk(s.env, s.nKey, s.mapInfo, y, s.vvNew[y]);
    }
    assert (set y | y in s.vvNew && s.vvNew[y] == id) == {};
    forall n | n in t.mapInfo ensures EntryOk(t, n, t.mapInfo[n], loose + {id}) {
      assert EntryOk(s, n, s.mapInfo[n], loose);
    }
    forall y | y in t.vvTried ensures TriedSlotOk(t.env, t.nKey, t.mapInfo, y, t.vvTried[y]) {
      assert TriedSlotOk(s.env, s.nKey, s.mapInfo, y, s.vvTried[y]);
    }
    forall y | y in t.vvNew ensures NewSlotOk(t.env, t.nKey, t.mapInfo, y, t.vvNew[y]) {
      assert NewSlotOk(s.env, s.nKey, s.mapInfo, y, s.vvNew[y]);
    }
  }

  lemma LeaveTriedKeeps(s: State, x: Slot, loose: set<int>, d: int)
    requires Indexed(s) && Tabled(s, loose) && Counted(s, d) && x in s.vvTried
    ensures s.vvTried[x] in s.mapInfo
    ensures var t := LeaveTried(s, x);
      Indexed(t) && Tabled(t, loose + {s.vvTried[x]}) && Counted(t, d - 1)
  {
    hide Indexed, Tabled;
    LeaveTriedTabled(s, x, loose);
    var id := s.vvTried[x];
    IndexedAt(s, id);
    var info := s.mapInfo[id].(fInTried := false);
    SetIndexed(s, id, info);
    var t := LeaveTried(s, x);
    IndexedSees(SetInfo(s, id, info), t);
    assert TriedIds(s.mapInfo) == TriedIds(t.mapInfo) + {id};
    assert NewIds(t.mapInfo) == NewIds(s.mapInfo) + {id};
  }

  lemma EnterTriedTabled(s: State, id: int, x: Slot, loose: set<int>)
    requires Tabled(s, loose) && id in s.mapInfo && !s.mapInfo[id].fInTried && s.mapInfo[id].nRefCount == 0
    requires s.mapInfo[id].nLastSuccess > 0 && x == TriedSlot(s.env, s.nKey, s.mapInfo[id].addr.svc) && x !in s.vvTried
    ensures Tabled(EnterTried(s, id, x), loose - {id})
  {
    assert EntryOk(s, id, s.mapInfo[id], loose);
    NoRefs(s.vvNew, id);
    var t := EnterTried(s, id, x);
    forall n | n in t.mapInfo ensures EntryOk(t, n, t.mapInfo[n], loose - {id}) {
      assert EntryOk(s, n, s.mapInfo[n], loose);
    }
    forall y | y in t.vvTried ensures TriedSlotOk(t.env, t.nKey, t.mapInfo, y, t.vvTried[y]) {
      assert y != x ==> TriedSlotOk(s.env, s.nKey, s.mapInfo, y, s.vvTried[y]);
    }
    forall y | y in t.vvNew ensures NewSlotOk(t.env, t.nKey, t.mapInfo, y, t.vvNew[y]) {
      assert NewSlotOk(s.env, s.nKey, s.mapInfo, y, s.vvNew[y]);
    }
  }

  lemma EnterTriedKeeps(s: State, id: int, x: Slot, loose: set<int>, d: int)
    requires Indexed(s) && Tabled(s, loose) && Counted(s, d)
    requires id in s.mapInfo && !s.mapInfo[id].fInTried && s.mapInfo[id].nRefCount == 0
    requires s.mapInfo[id].nLastSuccess > 0 && x == TriedSlot(s.env, s.nKey, s.mapInfo[id].addr.svc) && x !in s.vvTried
    ensures var t := EnterTried(s, id, x);
      Indexed(t) && Tabled(t, loose - {id}) && Counted(t, d + 1)
  {
    hide Indexed, Tabled;
    EnterTriedTabled(s, id, x, loose);
    IndexedAt(s, id);
    var info := s.mapInfo[id].(fInTried := true);
    SetIndexed(s, id, info);
    var t := EnterTried(s, id, x);
    IndexedSees(SetInfo(s, id, info), t);
    assert TriedIds(t.mapInfo) == TriedIds(s.mapInfo) + {id};
    assert NewIds(s.mapInfo) == NewIds(t.mapInfo) + {id};
  }

  /** An entry that is in no place of the new table is not what ClearNew removes. */
  lemma LooseSurvives(s: State, x: Slot, id: int, loose: set<int>)
    requires Tabled(s, loose) && id in s.mapInfo && id in loose && !s.mapInfo[id].fInTried
    requires CanClear(s, x) && OthersSame(s, ClearNew(s, x), x)
    ensures Kept(s, ClearNew(s, x), id) && s.mapInfo[id].nRefCount == 0
  {
    hide CanClear, ClearNew;
    assert EntryOk(s, id, s.mapInfo[id], loose);
    NoRefs(s.vvNew, id);
  }

  /** The eviction up to the point where the evicted entry is in no table. */
  lemma EvictClears(s: State, x: Slot, id: int)
    requires Indexed(s) && Tabled(s, {id}) && Counted(s, -1) && x in s.vvTried
    requires id in s.mapInfo && !s.mapInfo[id].fInTried
    ensures CanEvict(s, x) && s.vvTried[x] != id
    ensures var e := s.vvTried[x];
      var t := LeaveTried(s, x);
      var u := ClearNew(t, HomeSlot(t, e));
      && Indexed(u) && Tabled(u, {id, e}) && Counted(u, -2)
      && Kept(t, u, e) && Kept(t, u, id) && HomeSlot(t, e) !in u.vvNew
      && u.vvTried == t.vvTried && u.env == s.env && u.nKey == s.nKey
  {
    LeaveTriedKeeps(s, x, {id}, -1);
    LeaveTriedTabled(s, x, {id});
    hide Indexed, Tabled, Counted, OthersSame, ClearNew, CanClear;
    var e := s.vvTried[x];
    var t := LeaveTried(s, x);
    var h := HomeSlot(t, e);
    assert {id} + {e} == {id, e};
    ClearKeeps(t, h, {id, e}, -2);
    LooseSurvives(t, h, e, {id, e});
    LooseSurvives(t, h, id, {id, e});
    ClearFrees(t, ClearNew(t, h), h);
  }

  /** The eviction of the tried entry at x while id is between the tables. */
  lemma EvictKeeps(s: State, x: Slot, id: int)
    requires Indexed(s) && Tabled(s, {id}) && Counted(s, -1) && x in s.vvTried
    requires id in s.mapInfo && !s.mapInfo[id].fInTried
    ensures CanEvict(s, x)
    ensures var t := Evict(s, x);
      && Indexed(t) && Tabled(t, {id}) && Counted(t, -1)
      && Kept(s, t, id) && t.vvTried == s.vvTried - {x} && t.env == s.env && t.nKey == s.nKey
  {
    hide Indexed, Tabled, Counted, ClearNew, CanClear;
    EvictClears(s, x, id);
    var e := s.vvTried[x];
    var t := LeaveTried(s, x);
    var h := HomeSlot(t, e);
    var u := ClearNew(t, h);
    assert NewSlotOk(u.env, u.nKey, u.mapInfo, h, e);
    RefKeeps(u, e, h, {id, e}, -2);
    assert {id, e} - {e} == {id};
    var v := Ref(u, e, h);
    NextIn(v, Evict(s, x));
    TabledSees(v, Evict(s, x), {id});
    IndexedSees(v, Evict(s, x));
  }

  lemma ClearFrees(s: State, t: State, x: Slot)
    requires OthersSame(s, t, x)
    ensures x !in t.vvNew && t.vvTried == s.vvTried && t.env == s.env && t.nKey == s.nKey
  {
  }

  lemma NextIn(s: State, t: State)
    requires Counted(s, -2) && t.mapInfo == s.mapInfo && t.nTried == s.nTried && t.nNew == s.nNew + 1
    ensures Counted(t, -1)
  {
  }

  lemma MakeTriedKeeps(s: State, id: int)
    requires Inv(s) && id in s.mapInfo && !s.mapInfo[id].fInTried && s.mapInfo[id].nLastSuccess > 0
    ensures CanMakeTried(s, id)
    ensures Inv(MakeTried(s, id))
  {
    LeaveNewKeeps(s, id);
    var t := LeaveNew(s, id);
    var x := TriedSlot(s.env, s.nKey, s.mapInfo[id].addr.svc);
    hide Indexed, Tabled, Counted, Evict, CanEvict, OwnSlots;
    if x in t.vvTried {
      EvictKeeps(t, x, id);
      EnterTriedKeeps(Evict(t, x), id, x, {id}, -1);
    } else {
      EnterTriedKeeps(t, id, x, {id}, -1);
    }
    assert {id} - {id} == {};
  }

  lemma InvAnyTime(s: State, time: int)
    requires Inv(s)
    ensures Inv(s.(nLastGood := time))
  {
    TabledSees(s, s.(nLastGood := time), {});
  }

  lemma GoodKeeps(s: State, svc: Service, time: int)
    requires Inv(s) && time > 0
    ensures CanGood(s, svc, time) && Inv(Good(s, svc, time))
  {
    var t := s.(nLastGood := time);
    InvAnyTime(s, time);
    hide Inv, Holds;
    var id := Known(t, svc);
    if id in t.mapInfo {
      TouchKeeps(t, id, t.mapInfo[id].(nLastSuccess := time, nLastTry := time, nAttempts := 0));
      if !t.mapInfo[id].fInTried {
        MakeTriedKeeps(MarkGood(t, id, time), id);
      }
    }
  }

  /** Good_ never takes its "no bucket is found" exit. */
  lemma GoodFindsBucket(s: State, svc: Service)
    requires Inv(s) && WantsMove(s, svc)
    ensures FindsBucket(s, svc)
  {
    var id := Known(s, svc);
    assert EntryOk(s, id, s.mapInfo[id], {});
    var own := set y | y in s.vvNew && s.vvNew[y] == id;
    assert own != {};
    var x :| x in own;
    assert NewSlotOk(s.env, s.nKey, s.mapInfo, x, id);
    assert Holds(s, id, x.bucket);
  }

  // ---------------------------------------------------------------- adding

  lemma CreatedIndexed(s: State, addr: Address, source: Ip, penalty: int)
    requires Indexed(s) && addr.svc.ip !in s.mapAddr
    ensures Indexed(Created(s, addr, source, penalty))
  {
    var t := Created(s, addr, source, penalty);
    forall n | n in t.mapInfo ensures Found(t.mapInfo, t.mapAddr, t.vRandom, n) {
      if n != s.nIdCount {
        assert Found(s.mapInfo, s.mapAddr, s.vRandom, n);
      }
    }
    forall i | 0 <= i < |t.vRandom|
      ensures t.vRandom[i] in t.mapInfo && t.mapInfo[t.vRandom[i]].nRandomPos == i
    {
      if i < |s.vRandom| {
        assert s.vRandom[i] in s.mapInfo;
      }
    }
  }

  lemma CreatedTabled(s: State, addr: Address, source: Ip, penalty: int)
    requires Tabled(s, {}) && s.nIdCount !in s.mapInfo
    ensures Tabled(Created(s, addr, source, penalty), {s.nIdCount})
  {
    var t := Created(s, addr, source, penalty);
    var id := s.nIdCount;
    forall y | y in s.vvNew ensures s.vvNew[y] != id {
      assert NewSlotOk(s.env, s.nKey, s.mapInfo, y, s.vvNew[y]);
    }
    assert (set y | y in s.vvNew && s.vvNew[y] == id) == {};
    forall n | n in t.mapInfo ensures EntryOk(t, n, t.mapInfo[n], {id}) {
      if n != id {
        assert EntryOk(s, n, s.mapInfo[n], {});
      }
    }
    forall y | y in t.vvTried ensures TriedSlotOk(t.env, t.nKey, t.mapInfo, y, t.vvTried[y]) {
      assert TriedSlotOk(s.env, s.nKey, s.mapInfo, y, s.vvTried[y]);
    }
    forall y | y in t.vvNew ensures NewSlotOk(t.env, t.nKey, t.mapInfo, y, t.vvNew[y]) {
      assert NewSlotOk(s.env, s.nKey, s.mapInfo, y, s.vvNew[y]);
    }
  }

  lemma CreatedKeeps(s: State, addr: Address, source: Ip, penalty: int)
    requires Inv(s) && Find(s, addr.svc.ip) !in s.mapInfo
    ensures var t := Created(s, addr, source, penalty);
      Indexed(t) && Tabled(t, {s.nIdCount}) && Counted(t, 0)
  {
    assert s.nIdCount !in s.mapInfo && addr.svc.ip !in s.mapAddr;
    hide Indexed, Tabled, Counted;
    CreatedIndexed(s, addr, source, penalty);
    CreatedTabled(s, addr, source, penalty);
    CreatedCounted(s, addr, source, penalty);
  }

  lemma CreatedCounted(s: State, addr: Address, source: Ip, penalty: int)
    requires Counted(s, 0) && s.nIdCount !in s.mapInfo
    ensures Counted(Created(s, addr, source, penalty), 0)
  {
    var t := Created(s, addr, source, penalty);
    assert TriedIds(t.mapInfo) == TriedIds(s.mapInfo);
    assert NewIds(t.mapInfo) == NewIds(s.mapInfo) + {s.nIdCount};
  }

  lemma EntryTabled(s: State, id: int, loose: set<int>)
    requires Tabled(s, loose) && id in s.mapInfo
    ensures EntryOk(s, id, s.mapInfo[id], loose)
  {
  }

  lemma SlotTabled(s: State, x: Slot, loose: set<int>)
    requires Tabled(s, loose) && x in s.vvNew
    ensures NewSlotOk(s.env, s.nKey, s.mapInfo, x, s.vvNew[x])
  {
  }

  /** Placing an entry that is either fully tabled, or new and in no table yet. */
  lemma PlaceKeeps(s: State, id: int, source: Ip, now: int, loose: set<int>)
    requires Indexed(s) && Tabled(s, loose) && Counted(s, 0) && s.nKey != NULL_KEY && loose <= {id}
    requires id in s.mapInfo && !s.mapInfo[id].fInTried && s.mapInfo[id].nRefCount < NEW_BUCKETS_PER_ADDRESS
    ensures CanPlace(s, id, source, now)
    ensures Inv(Place(s, id, source, now))
  {
    hide Indexed, Tabled, Counted, OthersSame, ClearNew, CanClear, CanDelete, Delete, IsTerrible, Refs;
    var x := NewSlot(s.env, s.nKey, s.mapInfo[id].addr.svc, source);
    EntryTabled(s, id, loose);
    assert loose == {} || loose == {id};
    if x in s.vvNew {
      SlotTabled(s, x, loose);
    }
    if x in s.vvNew && s.vvNew[x] == id {
      HasRefs(s.vvNew, x, id);
      assert loose == {};
    } else if Wins(s, id, x, now) {
      ClearKeeps(s, x, loose, 0);
      var t := ClearNew(s, x);
      ClearFrees(s, t, x);
      ClearSpares(s, t, x, id);
      RefKeeps(t, id, x, loose, 0);
      assert loose - {id} == {};
    } else if s.mapInfo[id].nRefCount == 0 {
      DeleteKeeps(s, id, loose, 0);
      DeleteSees(s, id);
      assert loose - {id} == {};
    } else {
      assert loose == {};
    }
  }

  lemma HasRefs(v: map<Slot, int>, x: Slot, id: int)
    requires x in v && v[x] == id
    ensures Refs(v, id) > 0
  {
    RefsDrop(v, x, id);
  }

  lemma ClearSpares(s: State, t: State, x: Slot, id: int)
    requires OthersSame(s, t, x) && id in s.mapInfo && (x in s.vvNew ==> s.vvNew[x] != id)
    ensures Kept(s, t, id)
  {
  }

  lemma RefreshKeeps(s: State, id: int, addr: Address, penalty: int, now: int)
    requires Inv(s) && id in s.mapInfo
    ensures Inv(SetInfo(s, id, Refresh(s.mapInfo[id], addr, penalty, now)))
  {
    assert s.mapInfo[id].nLastTry >= 0;
    TouchKeeps(s, id, Refresh(s.mapInfo[id], addr, penalty, now));
  }

  lemma AddKeeps(s: State, addr: Address, source: Ip, penalty: int, now: int, rnd: nat)
    requires Inv(s)
    ensures CanAdd(s, addr, source, penalty, now, rnd)
    ensures Inv(Add(s, addr, source, penalty, now, rnd).0)
  {
    if s.env.routable(addr) {
      var id := Find(s, addr.svc.ip);
      var p := Penalty(addr, source, penalty);
      if id in s.mapInfo {
        RefreshKeeps(s, id, addr, p, now);
        var info := Refresh(s.mapInfo[id], addr, p, now);
        if MayRepeat(info, addr, rnd) {
          assert EntryOk(s, id, s.mapInfo[id], {});
          hide Indexed, Tabled, Counted;
          PlaceKeeps(SetInfo(s, id, info), id, source, now, {});
        }
      } else {
        CreatedKeeps(s, addr, source, p);
        hide Indexed, Tabled, Counted;
        PlaceKeeps(Created(s, addr, source, p), s.nIdCount, source, now, {s.nIdCount});
      }
    }
  }

  // ------------------------------------------------------ the other updates

  lemma AttemptKeeps(s: State, svc: Service, countFailure: bool, time: int)
    requires Inv(s) && time > 0
    ensures Inv(Attempt(s, svc, countFailure, time))
  {
    var id := Known(s, svc);
    if id in s.mapInfo {
      TouchKeeps(s, id, Attempt(s, svc, countFailure, time).mapInfo[id]);
    }
  }

  lemma ConnectedKeeps(s: State, svc: Service, time: nat)
    requires Inv(s)
    ensures Inv(Connected(s, svc, time))
  {
    var id := Known(s, svc);
    if id in s.mapInfo {
      IndexedAt(s, id);
      TouchKeeps(s, id, s.mapInfo[id].(addr := s.mapInfo[id].addr.(nTime := time)));
    }
  }

  lemma SetServicesKeeps(s: State, svc: Service, services: bv64)
    requires Inv(s)
    ensures Inv(SetServices(s, svc, services))
  {
    var id := Known(s, svc);
    if id in s.mapInfo {
      IndexedAt(s, id);
      TouchKeeps(s, id, s.mapInfo[id].(addr := s.mapInfo[id].addr.(nServices := services)));
    }
  }

  // -------------------------------------------------------------- sampling

  /** The addresses of the entries at the first n random positions that are not terrible. */
  function Chosen(s: State, n: nat, now: int): seq<Address>
    requires n <= |s.vRandom| && forall i | 0 <= i < n :: s.vRandom[i] in s.mapInfo
  {
    if n == 0 then []
    else
      var info := s.mapInfo[s.vRandom[n - 1]];
      Chosen(s, n - 1, now) + if IsTerrible(info, now) then [] else [info.addr]
  }

  /** Every random position holds an entry, and no two the same. */
  lemma RandomKnown(s: State)
    requires Inv(s)
    ensures forall k | 0 <= k < |s.vRandom| :: s.vRandom[k] in s.mapInfo
    ensures forall k, l | 0 <= k < l < |s.vRandom| :: s.vRandom[k] != s.vRandom[l]
  {
  }

  /** What is chosen depends only on the first n positions and their entries. */
  lemma {:induction false} ChosenDepends(s: State, t: State, n: nat, now: int)
    requires n <= |s.vRandom| && n <= |t.vRandom|
    requires forall k | 0 <= k < n ::
               && s.vRandom[k] in s.mapInfo && t.vRandom[k] == s.vRandom[k]
               && s.vRandom[k] in t.mapInfo && t.mapInfo[s.vRandom[k]] == s.mapInfo[s.vRandom[k]]
    ensures Chosen(t, n, now) == Chosen(s, n, now)
    decreases n
  {
    hide IsTerrible;
    if n > 0 {
      ChosenDepends(s, t, n - 1, now);
    }
  }

  lemma SwapSees(s: State, i: nat, j: nat, k: nat)
    requires CanSwap(s, i, j) && k < |s.vRandom| && k != i && k != j && s.vRandom[k] in s.mapInfo
    requires i < |s.vRandom| && j < |s.vRandom| && s.vRandom[k] != s.vRandom[i] && s.vRandom[k] != s.vRandom[j]
    ensures var t := SwapRandom(s, i, j);
      && |t.vRandom| == |s.vRandom| && t.vRandom[k] == s.vRandom[k]
      && s.vRandom[k] in t.mapInfo && t.mapInfo[s.vRandom[k]] == s.mapInfo[s.vRandom[k]]
  {
  }

  /** Exchanging later positions does not change what was chosen before them. */
  lemma ChosenStable(s: State, i: nat, j: nat, n: nat, now: int)
    requires Inv(s) && n <= i < |s.vRandom| && i <= j < |s.vRandom|
    ensures CanSwap(s, i, j) && Inv(SwapRandom(s, i, j)) && |SwapRandom(s, i, j).vRandom| == |s.vRandom|
    ensures Chosen(SwapRandom(s, i, j), n, now) == Chosen(s, n, now)
  {
    hide Inv, Chosen;
    RandomKnown(s);
    InvKeptBySwap(s, i, j);
    RandomKnown(SwapRandom(s, i, j));
    assert |SwapRandom(s, i, j).vRandom| == |s.vRandom|;
    hide SwapRandom;
    forall k | 0 <= k < n
      ensures var t := SwapRandom(s, i, j);
        && t.vRandom[k] == s.vRandom[k]
        && s.vRandom[k] in t.mapInfo && t.mapInfo[s.vRandom[k]] == s.mapInfo[s.vRandom[k]]
    {
      SwapSees(s, i, j, k);
    }
    ChosenDepends(s, SwapRandom(s, i, j), n, now);
  }

  /** What GetAddr_ may return is bounded by a share of the table and by a constant. */
  function MaxSample(s: State): nat {
    var share := GETADDR_MAX_PCT * |s.vRandom| / 100;
    if share > GETADDR_MAX then GETADDR_MAX else share
  }

  predicate DistinctIps(v: seq<Address>) {
    forall i, j | 0 <= i < j < |v| :: v[i].svc.ip != v[j].svc.ip
  }

  /** Chosen addresses belong to entries of the manager, no two to the same. */
  lemma {:induction false} ChosenDistinct(s: State, n: nat, now: int)
    requires Inv(s) && n <= |s.vRandom|
    ensures DistinctIps(Chosen(s, n, now))
    ensures forall k | 0 <= k < |Chosen(s, n, now)| :: ComesFrom(s, n, Chosen(s, n, now)[k], now)
    decreases n
  {
    hide Inv, IsTerrible;
    RandomKnown(s);
    if n > 0 {
      ChosenDistinct(s, n - 1, now);
      var id := s.vRandom[n - 1];
      var prev := Chosen(s, n - 1, now);
      forall k | 0 <= k < |prev|
        ensures ComesFrom(s, n, prev[k], now) && prev[k].svc.ip != s.mapInfo[id].addr.svc.ip
      {
        var i :| 0 <= i < n - 1 && s.mapInfo[s.vRandom[i]].addr == prev[k] && !IsTerrible(s.mapInfo[s.vRandom[i]], now);
        IpsDiffer(s, i, n - 1);
      }
      assert !IsTerrible(s.mapInfo[id], now) ==> ComesFrom(s, n, s.mapInfo[id].addr, now);
      hide ComesFrom;
    }
  }

  lemma IpsDiffer(s: State, i: nat, j: nat)
    requires Inv(s) && i < j < |s.vRandom|
    ensures s.vRandom[i] in s.mapInfo && s.vRandom[j] in s.mapInfo
    ensures s.mapInfo[s.vRandom[i]].addr.svc.ip != s.mapInfo[s.vRandom[j]].addr.svc.ip
  {
    assert Found(s.mapInfo, s.mapAddr, s.vRandom, s.vRandom[i]);
    assert Found(s.mapInfo, s.mapAddr, s.vRandom, s.vRandom[j]);
  }

  predicate ComesFrom(s: State, n: nat, a: Address, now: int)
    requires n <= |s.vRandom| && forall i | 0 <= i < n :: s.vRandom[i] in s.mapInfo
  {
    exists i | 0 <= i < n :: s.mapInfo[s.vRandom[i]].addr == a && !IsTerrible(s.mapInfo[s.vRandom[i]], now)
  }

  // ------------------------------------------------------------- whole runs

  datatype Event =
    | AddEvent(addr: Address, source: Ip, penalty: int, now: int, rnd: nat)
    | GoodEvent(svc: Service, time: int)
    | AttemptEvent(svc: Service, countFailure: bool, time: int)
    | ConnectedEvent(svc: Service, seen: nat)
    | ServicesEvent(svc: Service, services: bv64)
    | SwapEvent(i: nat, j: nat)  // one turn of GetAddr_

  /** Clock readings are positive, and GetAddr_ draws positions in range. */
  predicate Sensible(s: State, e: Event) {
    && (e.GoodEvent? || e.AttemptEvent? ==> e.time > 0)
    && (e.SwapEvent? ==> e.i < |s.vRandom| && e.j < |s.vRandom|)
  }

  /** Whether every assertion that the program evaluates in this step holds. */
  predicate AssertsHold(s: State, e: Event) {
    match e
    case AddEvent(addr, source, penalty, now, rnd) => CanAdd(s, addr, source, penalty, now, rnd)
    case GoodEvent(svc, time) => CanGood(s, svc, time)
    case SwapEvent(i, j) => CanSwap(s, i, j)
    case _ => true
  }

  function Step(s: State, e: Event): State
    requires AssertsHold(s, e)
  {
    match e
    case AddEvent(addr, source, penalty, now, rnd) => Add(s, addr, source, penalty, now, rnd).0
    case GoodEvent(svc, time) => Good(s, svc, time)
    case AttemptEvent(svc, countFailure, time) => Attempt(s, svc, countFailure, time)
    case ConnectedEvent(svc, seen) => Connected(s, svc, seen)
    case ServicesEvent(svc, services) => SetServices(s, svc, services)
    case SwapEvent(i, j) => SwapRandom(s, i, j)
  }

  lemma StepKeeps(s: State, e: Event)
    requires Inv(s) && Sensible(s, e)
    ensures AssertsHold(s, e) && Inv(Step(s, e))
  {
    hide Inv;
    match e
    case AddEvent(addr, source, penalty, now, rnd) => AddKeeps(s, addr, source, penalty, now, rnd);
    case GoodEvent(svc, time) => GoodKeeps(s, svc, time);
    case AttemptEvent(svc, countFailure, time) => AttemptKeeps(s, svc, countFailure, time);
    case ConnectedEvent(svc, seen) => ConnectedKeeps(s, svc, seen);
    case ServicesEvent(svc, services) => SetServicesKeeps(s, svc, services);
    case SwapEvent(i, j) => InvKeptBySwap(s, i, j);
  }

  /** t is reached from s by the events, each sensible where it happens. */
  ghost predicate Reaches(s: State, es: seq<Event>, t: State)
    decreases |es|
  {
    if es == [] then s == t
    else Sensible(s, es[0]) && (AssertsHold(s, es[0]) ==> Reaches(Step(s, es[0]), es[1..], t))
  }

  lemma {:induction false} RunKeeps(s: State, es: seq<Event>, t: State)
    requires Inv(s) && Reaches(s, es, t)
    ensures Inv(t)
    decreases |es|
  {
    if es != [] {
      StepKeeps(s, es[0]);
      RunKeeps(Step(s, es[0]), es[1..], t);
    }
  }

  lemma EmptyInv(env: Env, key: Key)
    requires key != NULL_KEY
    ensures Inv(Empty(env, key))
  {
    assert TriedIds(map[]) == {} && NewIds(map[]) == {};
  }

  /** Every state that a new manager can reach passes the program's own consistency check. */
  lemma EveryRunPassesCheck(env: Env, key: Key, es: seq<Event>, t: State)
    requires key != NULL_KEY && Reaches(Empty(env, key), es, t)
    ensures Check(t)
  {
    EmptyInv(env, key);
    RunKeeps(Empty(env, key), es, t);
    InvPassesCheck(t);
  }

  /** In such a state no event can make an assertion fail, and Good_ finds the entry it moves. */
  lemma EveryRunIsSafe(env: Env, key: Key, es: seq<Event>, t: State, e: Event)
    requires key != NULL_KEY && Reaches(Empty(env, key), es, t) && Sensible(t, e)
    ensures AssertsHold(t, e)
    ensures e.GoodEvent? && WantsMove(t, e.svc) ==> FindsBucket(t, e.svc)
  {
    EmptyInv(env, key);
    RunKeeps(Empty(env, key), es, t);
    StepKeeps(t, e);
    if e.GoodEvent? && WantsMove(t, e.svc) {
      GoodFindsBucket(t, e.svc);
    }
  }
}
