/**
 * What the operations of the address manager do, said of the fields before
 * and after: where an announced address is stored, what an entry that proved
 * good moves to, and what happens to the entries they push out.
 */
module AddrManEffects {
  import opened Arithmetic
  import opened Common
  import opened AddrManState
  import opened AddrManInvariant
  import opened AddrManRuns

  // ------------------------------------------------------- losing one place

  /** The entry at place x of the new table is one place shorter, or gone if that was its last one. */
  ghost predicate LosesPlace(s: State, t: State, x: Slot) {
    x in s.vvNew && s.vvNew[x] in s.mapInfo ==>
      var o := s.vvNew[x];
      if s.mapInfo[o].nRefCount > 1
      then o in t.mapInfo && Bare(t.mapInfo[o]) == Bare(s.mapInfo[o]).(nRefCount := s.mapInfo[o].nRefCount - 1)
      else o !in t.mapInfo
  }

  lemma ClearLoses(s: State, x: Slot, loose: set<int>, d: int)
    requires Indexed(s) && Tabled(s, loose) && Counted(s, d)
    ensures CanClear(s, x) && OthersSame(s, ClearNew(s, x), x) && LosesPlace(s, ClearNew(s, x), x)
    ensures forall n | n in ClearNew(s, x).mapInfo :: n in s.mapInfo
  {
    hide Indexed, Tabled, Counted, OthersSame, Delete, CanDelete, Bares;
    ClearKeeps(s, x, loose, d);
    if x in s.vvNew {
      UnrefKeeps(s, x, loose, d);
      UnrefFree(s, x, loose);
      var id, u := s.vvNew[x], Unref(s, x);
      if s.mapInfo[id].nRefCount == 1 {
        DeleteKeeps(u, id, loose + {id}, d);
        DeletedIsGone(u, id);
      }
    }
  }

  lemma DeletedIsGone(s: State, id: int)
    requires CanDelete(s, id) && Bares(Delete(s, id)) == Bares(s) - {id}
    ensures id !in Delete(s, id).mapInfo
    ensures forall n | n in Delete(s, id).mapInfo :: n in s.mapInfo
  {
    var t := Delete(s, id);
    hide Delete, CanDelete;
    forall n | n in t.mapInfo ensures n in s.mapInfo && n != id {
      assert n in Bares(t);
    }
  }

  // ------------------------------------------------------------------ adding

  /** Whether an entry without places may take place x: it is free, or its holder is terrible or has others. */
  predicate GivesWay(s: State, x: Slot, now: int) {
    x in s.vvNew && s.vvNew[x] in s.mapInfo ==>
      IsTerrible(s.mapInfo[s.vvNew[x]], now) || s.mapInfo[s.vvNew[x]].nRefCount > 1
  }

  /** An announced time, lowered by the penalty unless the address announces itself. */
  function Lowered(addr: Address, source: Ip, penalty: int): nat {
    Max(0, addr.nTime - if addr.svc.ip == source then 0 else penalty)
  }

  /** What becomes of an address that the manager does not know. */
  ghost predicate StoresNew(s: State, t: State, addr: Address, source: Ip, penalty: int, now: int) {
    var x := NewSlot(s.env, s.nKey, addr.svc, source);
    && t.vvTried == s.vvTried && t.nTried == s.nTried && t.nLastGood == s.nLastGood
    && (forall n | n in s.mapInfo && (x in s.vvNew ==> s.vvNew[x] != n) :: Kept(s, t, n))
    && if GivesWay(s, x, now) then
         && addr.svc.ip in t.mapAddr && IsStored(s, t, t.mapAddr[addr.svc.ip], addr, source, penalty)
         && t.vvNew == s.vvNew[x := t.mapAddr[addr.svc.ip]] && LosesPlace(s, t, x)
       else
         Bares(t) == Bares(s) && t.vvNew == s.vvNew && t.mapAddr == s.mapAddr
  }

  /** A new entry for the address, in one place. */
  ghost predicate IsStored(s: State, t: State, id: int, addr: Address, source: Ip, penalty: int) {
    && id !in s.mapInfo && id in t.mapInfo
    && Bare(t.mapInfo[id]) == Info(addr.(nTime := Lowered(addr, source, penalty)), source, 0, 0, 0, 0, 1, false, 0)
  }

  /** An entry without places wins its place. */
  lemma PlaceWins(c: State, id: int, source: Ip, now: int)
    requires Indexed(c) && Tabled(c, {id}) && Counted(c, 0) && c.nKey != NULL_KEY
    requires id in c.mapInfo && !c.mapInfo[id].fInTried
    requires GivesWay(c, NewSlot(c.env, c.nKey, c.mapInfo[id].addr.svc, source), now)
    ensures CanPlace(c, id, source, now)
    ensures var t, x := Place(c, id, source, now), NewSlot(c.env, c.nKey, c.mapInfo[id].addr.svc, source);
      && t.vvTried == c.vvTried && t.nTried == c.nTried && t.nLastGood == c.nLastGood
      && (forall n | n in c.mapInfo && n != id && (x in c.vvNew ==> c.vvNew[x] != n) :: Kept(c, t, n))
      && id in t.mapInfo && Bare(t.mapInfo[id]) == Bare(c.mapInfo[id]).(nRefCount := 1)
      && t.vvNew == c.vvNew[x := id] && LosesPlace(c, t, x)
  {
    hide Indexed, Tabled, Counted, OthersSame, ClearNew, CanClear, IsTerrible, Refs, NewSlot, LosesPlace;
    var x := NewSlot(c.env, c.nKey, c.mapInfo[id].addr.svc, source);
    LooseFree(c, id, {id});
    LooseNowhere(c, id, {id});
    if x in c.vvNew {
      SlotTabled(c, x, {id});
    }
    ClearLoses(c, x, {id}, 0);
    var u := ClearNew(c, x);
    ClearStays(c, x);
    ClearSpares(c, u, x, id);
    RefAfterClear(c, u, id, x);
  }

  lemma ClearStays(s: State, x: Slot)
    requires CanClear(s, x)
    ensures var t := ClearNew(s, x); t.nTried == s.nTried && t.nLastGood == s.nLastGood && t.nKey == s.nKey
  {
  }

  lemma LooseNowhere(s: State, id: int, loose: set<int>)
    requires Tabled(s, loose) && id in loose && id in s.mapInfo && !s.mapInfo[id].fInTried
    ensures forall y | y in s.vvNew :: s.vvNew[y] != id
  {
    assert EntryOk(s, id, s.mapInfo[id], loose);
    NoRefs(s.vvNew, id);
  }

  lemma RefAfterClear(c: State, u: State, id: int, x: Slot)
    requires OthersSame(c, u, x) && LosesPlace(c, u, x) && Kept(c, u, id) && (x in c.vvNew ==> c.vvNew[x] != id)
    ensures var t := Ref(u, id, x);
      && (forall n | n in c.mapInfo && n != id && (x in c.vvNew ==> c.vvNew[x] != n) :: Kept(c, t, n))
      && id in t.mapInfo
      && Bare(t.mapInfo[id]) == Bare(c.mapInfo[id]).(nRefCount := c.mapInfo[id].nRefCount + 1)
      && t.vvNew == c.vvNew[x := id] && t.vvTried == c.vvTried && LosesPlace(c, t, x)
  {
    assert (c.vvNew - {x})[x := id] == c.vvNew[x := id];
  }

  /** An entry without places that does not win is deleted again. */
  lemma PlaceLoses(c: State, id: int, source: Ip, now: int)
    requires Indexed(c) && Tabled(c, {id}) && Counted(c, 0) && c.nKey != NULL_KEY
    requires id in c.mapInfo && !c.mapInfo[id].fInTried
    requires !GivesWay(c, NewSlot(c.env, c.nKey, c.mapInfo[id].addr.svc, source), now)
    ensures CanPlace(c, id, source, now)
    ensures var t := Place(c, id, source, now);
      && t.vvTried == c.vvTried && t.nTried == c.nTried && t.nLastGood == c.nLastGood && t.vvNew == c.vvNew
      && Bares(t) == Bares(c) - {id} && t.mapAddr == c.mapAddr - {c.mapInfo[id].addr.svc.ip}
  {
    hide Indexed, Tabled, Counted, CanDelete, Delete, IsTerrible, Refs, NewSlot, Bares;
    var x := NewSlot(c.env, c.nKey, c.mapInfo[id].addr.svc, source);
    LooseFree(c, id, {id});
    LooseNowhere(c, id, {id});
    SlotTabled(c, x, {id});
    DeleteKeeps(c, id, {id}, 0);
    DeleteSees(c, id);
    DeleteAddress(c, id);
  }

  lemma DeleteAddress(s: State, id: int)
    requires CanDelete(s, id)
    ensures Delete(s, id).mapAddr == s.mapAddr - {s.mapInfo[id].addr.svc.ip}
  {
  }

  /** Add_ of an address that leads to no entry. */
  lemma AddStores(s: State, addr: Address, source: Ip, penalty: int, now: int, rnd: nat)
    requires Inv(s) && s.env.routable(addr) && addr.svc.ip !in s.mapAddr
    ensures CanAdd(s, addr, source, penalty, now, rnd)
    ensures var (t, fNew) := Add(s, addr, source, penalty, now, rnd);
      fNew && StoresNew(s, t, addr, source, penalty, now)
  {
    hide Inv, Indexed, Tabled, Counted, Created, Place, CanPlace, CanAdd, Add, NewSlot, IsTerrible, Bares;
    AddKeeps(s, addr, source, penalty, now, rnd);
    NewAndKnown(s);
    var p := Penalty(addr, source, penalty);
    CreatedKeeps(s, addr, source, p);
    AddIsPlace(s, addr, source, penalty, now, rnd);
    var c, id, t := Created(s, addr, source, p), s.nIdCount, Add(s, addr, source, penalty, now, rnd).0;
    CreatedSees(s, addr, source, p);
    var x := NewSlot(s.env, s.nKey, addr.svc, source);
    SameWay(s, c, x, now);
    if GivesWay(s, x, now) {
      PlaceWins(c, id, source, now);
      AddedWins(s, c, t, id, x, addr, source, penalty, now);
    } else {
      PlaceLoses(c, id, source, now);
      AddedLoses(s, c, t, id, addr);
    }
  }

  lemma SameWay(s: State, c: State, x: Slot, now: int)
    requires c.vvNew == s.vvNew && (x in s.vvNew ==> s.vvNew[x] in s.mapInfo)
    requires forall n | n in s.mapInfo :: n in c.mapInfo.Keys && c.mapInfo[n] == s.mapInfo[n]
    ensures GivesWay(c, x, now) <==> GivesWay(s, x, now)
  {
    hide IsTerrible;
    if x in s.vvNew {
      var o := s.vvNew[x];
      assert o in c.mapInfo.Keys && c.mapInfo[o] == s.mapInfo[o];
    }
  }

  lemma AddIsPlace(s: State, addr: Address, source: Ip, penalty: int, now: int, rnd: nat)
    requires s.env.routable(addr) && addr.svc.ip !in s.mapAddr && -1 !in s.mapInfo
    requires CanAdd(s, addr, source, penalty, now, rnd)
    ensures var c := Created(s, addr, source, Penalty(addr, source, penalty));
      && CanPlace(c, s.nIdCount, source, now)
      && Add(s, addr, source, penalty, now, rnd) == (Place(c, s.nIdCount, source, now), true)
  {
    hide CanPlace, Place, Created, MayRepeat, Refresh;
  }

  lemma NewAndKnown(s: State)
    requires Inv(s)
    ensures -1 !in s.mapInfo && s.nKey != NULL_KEY
    ensures s.nIdCount !in s.mapInfo && (forall x | x in s.vvNew :: s.vvNew[x] in s.mapInfo)
  {
    forall x | x in s.vvNew ensures s.vvNew[x] in s.mapInfo {
      assert NewSlotOk(s.env, s.nKey, s.mapInfo, x, s.vvNew[x]);
    }
  }

  lemma CreatedSees(s: State, addr: Address, source: Ip, p: int)
    requires s.nIdCount !in s.mapInfo
    ensures var c, id := Created(s, addr, source, p), s.nIdCount;
      && c.env == s.env && c.nKey == s.nKey && c.vvNew == s.vvNew && c.vvTried == s.vvTried
      && c.nTried == s.nTried && c.nLastGood == s.nLastGood && c.mapAddr == s.mapAddr[addr.svc.ip := id]
      && c.mapInfo.Keys == s.mapInfo.Keys + {id} && (forall n | n in s.mapInfo :: c.mapInfo[n] == s.mapInfo[n])
      && Bare(c.mapInfo[id]) == Info(addr.(nTime := NonNegative(addr.nTime - p)), source, 0, 0, 0, 0, 0, false, 0)
  {
  }

  lemma AddedWins(s: State, c: State, t: State, id: int, x: Slot, addr: Address, source: Ip, penalty: int, now: int)
    requires Inv(t) && id !in s.mapInfo && x == NewSlot(s.env, s.nKey, addr.svc, source) && GivesWay(s, x, now)
    requires c.vvNew == s.vvNew && c.mapInfo.Keys == s.mapInfo.Keys + {id}
    requires forall n | n in s.mapInfo :: c.mapInfo[n] == s.mapInfo[n]
    requires forall y | y in s.vvNew :: s.vvNew[y] in s.mapInfo
    requires Bare(c.mapInfo[id]) ==
             Info(addr.(nTime := Lowered(addr, source, penalty)), source, 0, 0, 0, 0, 0, false, 0)
    requires t.vvTried == s.vvTried && t.nTried == s.nTried && t.nLastGood == s.nLastGood
    requires forall n | n in c.mapInfo && n != id && (x in c.vvNew ==> c.vvNew[x] != n) :: Kept(c, t, n)
    requires id in t.mapInfo && Bare(t.mapInfo[id]) == Bare(c.mapInfo[id]).(nRefCount := 1)
    requires t.vvNew == c.vvNew[x := id] && LosesPlace(c, t, x)
    ensures StoresNew(s, t, addr, source, penalty, now)
  {
    assert Found(t.mapInfo, t.mapAddr, t.vRandom, id);
    hide Inv, NewSlot, IsTerrible;
    forall n | n in s.mapInfo && (x in s.vvNew ==> s.vvNew[x] != n) ensures Kept(s, t, n) {
      assert Kept(c, t, n);
    }
  }

  lemma AddedLoses(s: State, c: State, t: State, id: int, addr: Address)
    requires id !in s.mapInfo && addr.svc.ip !in s.mapAddr && c.mapInfo.Keys == s.mapInfo.Keys + {id}
    requires forall n | n in s.mapInfo :: c.mapInfo[n] == s.mapInfo[n]
    requires c.mapAddr == s.mapAddr[addr.svc.ip := id]
    requires Bares(t) == Bares(c) - {id} && t.mapAddr == c.mapAddr - {addr.svc.ip}
    ensures Bares(t) == Bares(s) && t.mapAddr == s.mapAddr && forall n | n in s.mapInfo :: Kept(s, t, n)
  {
    forall n | n in s.mapInfo ensures n in Bares(c) && Bares(c)[n] == Bares(s)[n] {
      assert n in c.mapInfo.Keys;
    }
    forall n | n in Bares(c) && n != id ensures n in Bares(s) {
      assert n in c.mapInfo.Keys;
    }
    assert Bares(t) == Bares(s);
    forall n | n in s.mapInfo ensures Kept(s, t, n) {
      assert n in Bares(t) && Bares(t)[n] == Bares(s)[n];
    }
  }

  // --------------------------------------------------- adding a known address

  /** The time of a known entry after it was announced again. */
  function Renewed(was: nat, announced: nat, penalty: int, now: int): nat {
    var interval := if now - announced < 24 * 60 * 60 then 60 * 60 else 24 * 60 * 60;
    if announced != 0 && (was == 0 || was < announced - interval - penalty)
    then Max(0, announced - penalty) else was
  }

  function RenewedInfo(e: Info, addr: Address, penalty: int, now: int): Info {
    e.(addr := e.addr.(nTime := Renewed(e.addr.nTime, addr.nTime, penalty, now),
                       nServices := e.addr.nServices | addr.nServices))
  }

  /** Whether a known entry gets one more place at x. */
  predicate GetsPlace(s: State, id: int, addr: Address, penalty: int, now: int, rnd: nat, x: Slot)
    requires id in s.mapInfo
  {
    var e := s.mapInfo[id];
    && addr.nTime > Renewed(e.addr.nTime, addr.nTime, penalty, now)
    && !e.fInTried && 0 <= e.nRefCount < NEW_BUCKETS_PER_ADDRESS && rnd % Pow2(e.nRefCount) == 0
    && (x in s.vvNew ==>
          s.vvNew[x] != id && s.vvNew[x] in s.mapInfo && IsTerrible(s.mapInfo[s.vvNew[x]], now))
  }

  /** What becomes of an address that the manager knows already. */
  ghost predicate RenewsKnown(s: State, t: State, addr: Address, source: Ip, penalty: int, now: int, rnd: nat)
    requires addr.svc.ip in s.mapAddr && s.mapAddr[addr.svc.ip] in s.mapInfo
  {
    var id := s.mapAddr[addr.svc.ip];
    var p := if addr.svc.ip == source then 0 else penalty;
    var e, x := s.mapInfo[id], NewSlot(s.env, s.nKey, s.mapInfo[id].addr.svc, source);
    && t.vvTried == s.vvTried && id in t.mapInfo
    && if GetsPlace(s, id, addr, p, now, rnd, x) then
         && Bare(t.mapInfo[id]) == Bare(RenewedInfo(e, addr, p, now)).(nRefCount := e.nRefCount + 1)
         && t.vvNew == s.vvNew[x := id] && LosesPlace(s, t, x)
         && (forall n | n in s.mapInfo && n != id && (x in s.vvNew ==> s.vvNew[x] != n) :: Kept(s, t, n))
       else
         && t.mapInfo == s.mapInfo[id := RenewedInfo(e, addr, p, now)]
         && t.vvNew == s.vvNew && t.mapAddr == s.mapAddr && t.vRandom == s.vRandom
  }

  /** Add_ of an address that leads to an entry. */
  lemma AddRenews(s: State, addr: Address, source: Ip, penalty: int, now: int, rnd: nat)
    requires Inv(s) && s.env.routable(addr) && addr.svc.ip in s.mapAddr
    ensures CanAdd(s, addr, source, penalty, now, rnd) && s.mapAddr[addr.svc.ip] in s.mapInfo
    ensures var (t, fNew) := Add(s, addr, source, penalty, now, rnd);
      !fNew && RenewsKnown(s, t, addr, source, penalty, now, rnd)
  {
    hide Inv, CanAdd, Add, Place, CanPlace, NewSlot, IsTerrible, MayRepeat, Refresh, LosesPlace, RenewsKnown;
    AddKeeps(s, addr, source, penalty, now, rnd);
    KnownAddress(s, addr.svc.ip);
    var id, p := s.mapAddr[addr.svc.ip], Penalty(addr, source, penalty);
    RefreshKeeps(s, id, addr, p, now);
    var info := Refresh(s.mapInfo[id], addr, p, now);
    var c := SetInfo(s, id, info);
    AddOfKnown(s, id, addr, source, penalty, now, rnd);
    var x := NewSlot(s.env, s.nKey, s.mapInfo[id].addr.svc, source);
    RefreshIs(s, id, addr, p, now);
    KnownRefs(s, id);
    if MayRepeat(info, addr, rnd) {
      RepeatsNew(info, addr, rnd);
      KnownPlaced(c, id, source, now);
    }
    RenewsEither(s, c, id, addr, source, penalty, now, rnd, x);
  }

  lemma KnownAddress(s: State, ip: Ip)
    requires Inv(s) && ip in s.mapAddr
    ensures s.mapAddr[ip] in s.mapInfo && s.mapAddr[ip] != -1
    ensures forall x | x in s.vvNew :: s.vvNew[x] in s.mapInfo
  {
    NewAndKnown(s);
  }

  /** A known entry of the new table has a place. */
  lemma KnownRefs(s: State, id: int)
    requires Inv(s) && id in s.mapInfo
    ensures !s.mapInfo[id].fInTried ==> 1 <= s.mapInfo[id].nRefCount <= NEW_BUCKETS_PER_ADDRESS
  {
    assert EntryOk(s, id, s.mapInfo[id], {});
  }

  lemma RepeatsNew(info: Info, addr: Address, rnd: nat)
    requires MayRepeat(info, addr, rnd)
    ensures !info.fInTried
  {
  }

  lemma AddOfKnown(s: State, id: int, addr: Address, source: Ip, penalty: int, now: int, rnd: nat)
    requires s.env.routable(addr) && addr.svc.ip in s.mapAddr && id == s.mapAddr[addr.svc.ip] && id in s.mapInfo
    requires CanAdd(s, addr, source, penalty, now, rnd)
    ensures var info := Refresh(s.mapInfo[id], addr, Penalty(addr, source, penalty), now);
      var c := SetInfo(s, id, info);
      && (MayRepeat(info, addr, rnd) ==> CanPlace(c, id, source, now))
      && Add(s, addr, source, penalty, now, rnd) ==
         (if MayRepeat(info, addr, rnd) then Place(c, id, source, now) else c, false)
  {
    hide CanPlace, Place, MayRepeat, Refresh;
  }

  lemma RefreshIs(s: State, id: int, addr: Address, p: int, now: int)
    requires id in s.mapInfo
    ensures Refresh(s.mapInfo[id], addr, p, now) == RenewedInfo(s.mapInfo[id], addr, p, now)
  {
  }

  /** Placing an entry that has places already. */
  lemma KnownPlaced(c: State, id: int, source: Ip, now: int)
    requires Inv(c) && id in c.mapInfo && !c.mapInfo[id].fInTried && c.mapInfo[id].nRefCount >= 1
    requires CanPlace(c, id, source, now)
    ensures var t, x := Place(c, id, source, now), NewSlot(c.env, c.nKey, c.mapInfo[id].addr.svc, source);
      if x in c.vvNew && (c.vvNew[x] == id || c.vvNew[x] !in c.mapInfo || !IsTerrible(c.mapInfo[c.vvNew[x]], now))
      then t == c
      else
        && t.vvTried == c.vvTried && id in t.mapInfo
        && Bare(t.mapInfo[id]) == Bare(c.mapInfo[id]).(nRefCount := c.mapInfo[id].nRefCount + 1)
        && t.vvNew == c.vvNew[x := id] && LosesPlace(c, t, x)
        && (forall n | n in c.mapInfo && n != id && (x in c.vvNew ==> c.vvNew[x] != n) :: Kept(c, t, n))
  {
    hide Indexed, Tabled, Counted, OthersSame, ClearNew, CanClear, IsTerrible, NewSlot, LosesPlace;
    var x := NewSlot(c.env, c.nKey, c.mapInfo[id].addr.svc, source);
    if x in c.vvNew {
      SlotTabled(c, x, {});
    }
    if !(x in c.vvNew && c.vvNew[x] == id) && Wins(c, id, x, now) {
      ClearLoses(c, x, {}, 0);
      ClearSpares(c, ClearNew(c, x), x, id);
      RefAfterClear(c, ClearNew(c, x), id, x);
    }
  }

  lemma RenewsEither(s: State, c: State, id: int, addr: Address, source: Ip, penalty: int, now: int, rnd: nat, x: Slot)
    requires addr.svc.ip in s.mapAddr && id == s.mapAddr[addr.svc.ip] && id in s.mapInfo
    requires x == NewSlot(s.env, s.nKey, s.mapInfo[id].addr.svc, source)
    requires forall y | y in s.vvNew :: s.vvNew[y] in s.mapInfo
    requires !s.mapInfo[id].fInTried ==> 1 <= s.mapInfo[id].nRefCount <= NEW_BUCKETS_PER_ADDRESS
    requires c == SetInfo(s, id, RenewedInfo(s.mapInfo[id], addr, Penalty(addr, source, penalty), now))
    requires MayRepeat(c.mapInfo[id], addr, rnd) ==> CanPlace(c, id, source, now)
    requires MayRepeat(c.mapInfo[id], addr, rnd) ==>
      var t := Place(c, id, source, now);
      if x in c.vvNew && (c.vvNew[x] == id || c.vvNew[x] !in c.mapInfo || !IsTerrible(c.mapInfo[c.vvNew[x]], now))
      then t == c
      else
        && t.vvTried == c.vvTried && id in t.mapInfo
        && Bare(t.mapInfo[id]) == Bare(c.mapInfo[id]).(nRefCount := c.mapInfo[id].nRefCount + 1)
        && t.vvNew == c.vvNew[x := id] && LosesPlace(c, t, x)
        && (forall n | n in c.mapInfo && n != id && (x in c.vvNew ==> c.vvNew[x] != n) :: Kept(c, t, n))
    ensures RenewsKnown(s, if MayRepeat(c.mapInfo[id], addr, rnd) then Place(c, id, source, now) else c,
                        addr, source, penalty, now, rnd)
  {
    hide Place, CanPlace, NewSlot, IsTerrible, Pow2;
    if MayRepeat(c.mapInfo[id], addr, rnd) && GetsPlace(s, id, addr, Penalty(addr, source, penalty), now, rnd, x) {
      var t := Place(c, id, source, now);
      forall n | n in s.mapInfo && n != id && (x in s.vvNew ==> s.vvNew[x] != n) ensures Kept(s, t, n) {
        assert Kept(c, t, n);
      }
    }
  }

  // ------------------------------------------------------------ a good address

  /** Address and port lead to an entry. */
  predicate Knows(s: State, svc: Service) {
    svc.ip in s.mapAddr && s.mapAddr[svc.ip] in s.mapInfo && s.mapInfo[s.mapAddr[svc.ip]].addr.svc == svc
  }

  /** The statistics of an entry that a connection was made to. */
  function Successful(e: Info, time: int): Info {
    e.(nLastSuccess := time, nLastTry := time, nAttempts := 0)
  }

  /** An entry of the new table is in its tried place and in no other; what held that place went back home. */
  ghost predicate MovesToTried(s: State, t: State, id: int, time: int)
    requires id in s.mapInfo
  {
    var e, x := s.mapInfo[id], TriedSlot(s.env, s.nKey, s.mapInfo[id].addr.svc);
    && t.vvTried == s.vvTried[x := id] && id in t.mapInfo
    && Bare(t.mapInfo[id]) == Bare(Successful(e, time)).(fInTried := true, nRefCount := 0)
    && if x in s.vvTried && s.vvTried[x] in s.mapInfo then GoesHome(s, t, id, s.vvTried[x])
       else t.vvNew == Without(s.vvNew, id) && forall n | n in s.mapInfo && n != id :: Kept(s, t, n)
  }

  /** The new table without the places of one entry. */
  function Without(v: map<Slot, int>, id: int): map<Slot, int> {
    map y | y in v && v[y] != id :: v[y]
  }

  /** The entry o, pushed out by id, is in the place where its own source sends it. */
  ghost predicate GoesHome(s: State, t: State, id: int, o: int)
    requires id in s.mapInfo && o in s.mapInfo
  {
    var home := NewSlot(s.env, s.nKey, s.mapInfo[o].addr.svc, s.mapInfo[o].source);
    var lost := home in s.vvNew && s.vvNew[home] != id;
    && o in t.mapInfo && Bare(t.mapInfo[o]) == Bare(s.mapInfo[o]).(fInTried := false, nRefCount := 1)
    && t.vvNew == Without(s.vvNew, id)[home := o]
    && (lost ==> LosesPlace(s, t, home))
    && (forall n | n in s.mapInfo && n != id && n != o && (lost ==> s.vvNew[home] != n) :: Kept(s, t, n))
  }

  /** Leaving the new table, with the statistics set. */
  ghost predicate Left(s: State, t: State, id: int, time: int)
    requires id in s.mapInfo
  {
    && t.env == s.env && t.nKey == s.nKey && t.vvTried == s.vvTried && id in t.mapInfo
    && Bare(t.mapInfo[id]) == Bare(Successful(s.mapInfo[id], time)).(nRefCount := 0)
    && t.vvNew == Without(s.vvNew, id) && forall n | n in s.mapInfo && n != id :: Kept(s, t, n)
  }

  lemma LeaveNewLeft(s: State, id: int, time: int)
    requires Inv(s) && id in s.mapInfo && !s.mapInfo[id].fInTried && time > 0
    ensures var m := MarkGood(s.(nLastGood := time), id, time);
      && Inv(m) && Left(s, LeaveNew(m, id), id, time)
      && Indexed(LeaveNew(m, id)) && Tabled(LeaveNew(m, id), {id}) && Counted(LeaveNew(m, id), -1)
  {
    hide Indexed, Tabled, Counted, LeaveNew, Left;
    var g := s.(nLastGood := time);
    InvAnyTime(s, time);
    TouchKeeps(g, id, Successful(s.mapInfo[id], time));
    var m := MarkGood(g, id, time);
    OwnSlotsAll(m, id, {});
    LeaveNewKeeps(m, id);
    LeaveNewIsLeft(s, m, id, time);
  }

  lemma LeaveNewIsLeft(s: State, m: State, id: int, time: int)
    requires id in s.mapInfo && m == MarkGood(s.(nLastGood := time), id, time)
    requires LeaveNew(m, id).mapInfo[id].nRefCount == 0
    requires forall x :: x in OwnSlots(m, id, NEW_BUCKET_COUNT) <==> x in m.vvNew && m.vvNew[x] == id
    ensures Left(s, LeaveNew(m, id), id, time)
  {
    hide OwnSlots;
    assert m.vvNew - OwnSlots(m, id, NEW_BUCKET_COUNT) == Without(s.vvNew, id);
  }

  lemma EvictGoesHome(s: State, t: State, id: int, x: Slot, time: int)
    requires id in s.mapInfo && !s.mapInfo[id].fInTried && Left(s, t, id, time)
    requires Indexed(t) && Tabled(t, {id}) && Counted(t, -1)
    requires x in s.vvTried && s.vvTried[x] in s.mapInfo && s.vvTried[x] != id
    requires forall y | y in s.vvNew :: s.vvNew[y] in s.mapInfo
    ensures CanEvict(t, x) && id in Evict(t, x).mapInfo
    ensures var u := EnterTried(Evict(t, x), id, x);
      && GoesHome(s, u, id, s.vvTried[x]) && u.vvTried == s.vvTried[x := id] && id in u.mapInfo
      && Bare(u.mapInfo[id]) == Bare(Successful(s.mapInfo[id], time)).(fInTried := true, nRefCount := 0)
  {
    hide Indexed, Tabled, Counted, OthersSame, ClearNew, CanClear, LosesPlace, NewSlot, Left;
    LeftFacts(s, t, id, s.vvTried[x], time);
    EvictClears(t, x, id);
    LeaveTriedKeeps(t, x, {id}, -1);
    var o, l := t.vvTried[x], LeaveTried(t, x);
    var h := HomeSlot(l, o);
    assert {id} + {o} == {id, o};
    ClearLoses(l, h, {id, o}, -2);
    LooseNowhere(l, o, {id, o});
    assert Evict(t, x) == Ref(ClearNew(l, h), o, h).(nNew := ClearNew(l, h).nNew + 1);
    HomeAgain(s, t, l, ClearNew(l, h), id, o, h, x, time);
    EnterSees(Ref(ClearNew(l, h), o, h), Evict(t, x), s, id, o, x);
  }

  lemma LeftFacts(s: State, t: State, id: int, n: int, time: int)
    requires id in s.mapInfo && Left(s, t, id, time) && n in s.mapInfo && n != id
    ensures t.vvTried == s.vvTried && Kept(s, t, n) && t.env == s.env && t.nKey == s.nKey
    ensures id in t.mapInfo && t.mapInfo[id].fInTried == s.mapInfo[id].fInTried
  {
  }

  lemma EnterSees(v: State, w: State, s: State, id: int, o: int, x: Slot)
    requires w == v.(nNew := w.nNew) && id in v.mapInfo && id in s.mapInfo && o in s.mapInfo
    ensures var a, b := EnterTried(v, id, x), EnterTried(w, id, x);
      && a.mapInfo == b.mapInfo && a.vvTried == b.vvTried && a.vvNew == b.vvNew
      && (GoesHome(s, a, id, o) <==> GoesHome(s, b, id, o))
  {
    hide NewSlot;
  }

  lemma HomeAgain(s: State, t: State, l: State, u: State, id: int, o: int, h: Slot, x: Slot, time: int)
    requires id in s.mapInfo && o in s.mapInfo && o != id && Left(s, t, id, time)
    requires x in t.vvTried && t.vvTried[x] == o && o in t.mapInfo && l == LeaveTried(t, x)
    requires OthersSame(l, u, h) && LosesPlace(l, u, h) && Kept(l, u, o) && Kept(l, u, id)
    requires u.mapInfo[o].nRefCount == 0
    requires (forall y | y in l.vvNew :: l.vvNew[y] != o) && forall y | y in s.vvNew :: s.vvNew[y] in s.mapInfo
    requires h == NewSlot(s.env, s.nKey, s.mapInfo[o].addr.svc, s.mapInfo[o].source)
    ensures var w := EnterTried(Ref(u, o, h), id, x);
      && GoesHome(s, w, id, o) && w.vvTried == s.vvTried[x := id] && id in w.mapInfo
      && Bare(w.mapInfo[id]) == Bare(Successful(s.mapInfo[id], time)).(fInTried := true, nRefCount := 0)
  {
    hide NewSlot;
    var w := EnterTried(Ref(u, o, h), id, x);
    assert Kept(s, t, o);
    assert (Without(s.vvNew, id) - {h})[h := o] == Without(s.vvNew, id)[h := o];
    assert (s.vvTried - {x})[x := id] == s.vvTried[x := id];
    var lost := h in s.vvNew && s.vvNew[h] != id;
    assert lost <==> h in l.vvNew;
    if lost {
      assert Kept(s, t, s.vvNew[h]);
    }
    forall n | n in s.mapInfo && n != id && n != o && (lost ==> s.vvNew[h] != n) ensures Kept(s, w, n) {
      assert Kept(s, t, n);
      assert Kept(l, u, n);
    }
  }

  /** Good_ of an entry that is in the new table. */
  lemma GoodMoves(s: State, svc: Service, time: int)
    requires Inv(s) && time > 0 && Knows(s, svc) && !s.mapInfo[s.mapAddr[svc.ip]].fInTried
    ensures CanGood(s, svc, time) && MovesToTried(s, Good(s, svc, time), s.mapAddr[svc.ip], time)
    ensures Good(s, svc, time).nLastGood == time
  {
    hide Inv, Indexed, Tabled, Counted, MakeTried, CanMakeTried, Left, Holds, GoesHome, TriedSlot, FindsBucket;
    GoodKeeps(s, svc, time);
    KnownAddress(s, svc.ip);
    var id, g := s.mapAddr[svc.ip], s.(nLastGood := time);
    InvAnyTime(s, time);
    GoodFindsBucket(g, svc);
    var m := MarkGood(g, id, time);
    LeaveNewLeft(s, id, time);
    var t, x := LeaveNew(m, id), TriedSlot(s.env, s.nKey, s.mapInfo[id].addr.svc);
    TriedHolders(s);
    MakeTriedIs(m, id, x);
    if x in s.vvTried {
      EvictGoesHome(s, t, id, x, time);
    } else {
      EnterFree(s, t, id, x, time);
    }
  }

  lemma TriedHolders(s: State)
    requires Inv(s)
    ensures forall x | x in s.vvTried :: s.vvTried[x] in s.mapInfo && s.mapInfo[s.vvTried[x]].fInTried
  {
    forall x | x in s.vvTried ensures s.vvTried[x] in s.mapInfo && s.mapInfo[s.vvTried[x]].fInTried {
      assert TriedSlotOk(s.env, s.nKey, s.mapInfo, x, s.vvTried[x]);
    }
  }

  lemma MakeTriedIs(m: State, id: int, x: Slot)
    requires id in m.mapInfo && x == TriedSlot(m.env, m.nKey, m.mapInfo[id].addr.svc) && CanMakeTried(m, id)
    ensures var t := LeaveNew(m, id);
      && (x in t.vvTried ==> CanEvict(t, x) && id in Evict(t, x).mapInfo) && id in t.mapInfo
      && t.vvTried == m.vvTried
      && MakeTried(m, id) == EnterTried(if x in t.vvTried then Evict(t, x) else t, id, x)
  {
    hide OwnSlots, Evict, CanEvict, TriedSlot;
  }

  lemma EnterFree(s: State, t: State, id: int, x: Slot, time: int)
    requires id in s.mapInfo && Left(s, t, id, time) && x !in t.vvTried
    ensures var u := EnterTried(t, id, x);
      && u.vvTried == s.vvTried[x := id] && u.vvNew == Without(s.vvNew, id) && id in u.mapInfo
      && Bare(u.mapInfo[id]) == Bare(Successful(s.mapInfo[id], time)).(fInTried := true, nRefCount := 0)
      && (forall n | n in s.mapInfo && n != id :: Kept(s, u, n)) && t.vvTried == s.vvTried
  {
    var u := EnterTried(t, id, x);
    forall n | n in s.mapInfo && n != id ensures Kept(s, u, n) {
      assert Kept(s, t, n);
    }
  }

  /** Good_ of any other address: only statistics, or nothing but the time of the last success. */
  lemma GoodElse(s: State, svc: Service, time: int)
    requires Inv(s) && time > 0
    ensures CanGood(s, svc, time)
    ensures (!Knows(s, svc) ==> Good(s, svc, time) == s.(nLastGood := time))
      && (Knows(s, svc) && s.mapInfo[s.mapAddr[svc.ip]].fInTried ==>
            var id := s.mapAddr[svc.ip];
            Good(s, svc, time) == s.(nLastGood := time, mapInfo := s.mapInfo[id := Successful(s.mapInfo[id], time)]))
  {
    GoodKeeps(s, svc, time);
    NewAndKnown(s);
    hide Inv, MakeTried, CanMakeTried, FindsBucket;
  }

  // ---------------------------------------------------------- other statistics

  lemma KnownIs(s: State, svc: Service)
    requires Inv(s)
    ensures Known(s, svc) == if Knows(s, svc) then s.mapAddr[svc.ip] else -1
    ensures -1 !in s.mapInfo
  {
    NewAndKnown(s);
    hide Inv;
  }

  lemma AttemptExactly(s: State, svc: Service, count: bool, time: int)
    requires Inv(s)
    ensures !Knows(s, svc) ==> Attempt(s, svc, count, time) == s
    ensures Knows(s, svc) ==>
              var e := s.mapInfo[s.mapAddr[svc.ip]];
              Attempt(s, svc, count, time) == s.(mapInfo := s.mapInfo[s.mapAddr[svc.ip] :=
                if count && e.nLastCountAttempt < s.nLastGood
                then e.(nLastTry := time, nLastCountAttempt := time, nAttempts := e.nAttempts + 1)
                else e.(nLastTry := time)])
  {
    hide Inv, Known;
    KnownIs(s, svc);
  }

  lemma ConnectedExactly(s: State, svc: Service, seen: nat)
    requires Inv(s)
    ensures !Knows(s, svc) ==> Connected(s, svc, seen) == s
    ensures Knows(s, svc) ==>
              var e := s.mapInfo[s.mapAddr[svc.ip]];
              Connected(s, svc, seen) ==
                if seen > e.addr.nTime + 20 * 60
                then s.(mapInfo := s.mapInfo[s.mapAddr[svc.ip] := e.(addr := e.addr.(nTime := seen))]) else s
  {
    hide Inv, Known;
    KnownIs(s, svc);
  }

  lemma SetServicesExactly(s: State, svc: Service, services: bv64)
    requires Inv(s)
    ensures !Knows(s, svc) ==> SetServices(s, svc, services) == s
    ensures Knows(s, svc) ==>
              var e := s.mapInfo[s.mapAddr[svc.ip]];
              SetServices(s, svc, services) ==
                s.(mapInfo := s.mapInfo[s.mapAddr[svc.ip] := e.(addr := e.addr.(nServices := services))])
  {
    hide Inv, Known;
    KnownIs(s, svc);
  }
}
