/**
 * The class CAddrMan of src/addrman.cpp: methods that update the indexes in
 * place, proved against the operations of module AddrManState. Random numbers
 * and clock readings are parameters.
 */
module AddrMan {
  import opened Arithmetic
  import opened AddrManState
  import Inv = AddrManInvariant
  import Runs = AddrManRuns
  import Effects = AddrManEffects

  /** One more bucket adds the entry's slot in it, if the entry is there. */
  lemma OwnSlotsStep(s: State, id: int, n: nat)
    requires id in s.mapInfo
    ensures OwnSlots(s, id, n + 1) ==
            OwnSlots(s, id, n) +
            if Holds(s, id, n) then {NewSlotIn(s.env, s.nKey, s.mapInfo[id].addr.svc, n)} else {}
    ensures |OwnSlots(s, id, n + 1)| == |OwnSlots(s, id, n)| + if Holds(s, id, n) then 1 else 0
    ensures NewSlotIn(s.env, s.nKey, s.mapInfo[id].addr.svc, n) !in OwnSlots(s, id, n)
  {
    var x := NewSlotIn(s.env, s.nKey, s.mapInfo[id].addr.svc, n);
    forall y ensures y in OwnSlots(s, id, n + 1) <==> y in OwnSlots(s, id, n) || (y == x && Holds(s, id, n)) {
      if y == x && Holds(s, id, n) {
        assert y in OwnSlots(s, id, n + 1);
      }
    }
  }

  /** The bucket that the search from start looks at in turn n. */
  function Turn(n: nat, start: nat): nat {
    (n + start) % NEW_BUCKET_COUNT
  }

  /** The manager without some places of one entry. */
  function Without(s: State, id: int, own: set<Slot>): State
    requires id in s.mapInfo
  {
    AddRefs(s, id, -|own|).(vvNew := s.vvNew - own)
  }

  lemma WithoutOneMore(s: State, id: int, own: set<Slot>, x: Slot)
    requires id in s.mapInfo && x !in own
    ensures var t := Without(s, id, own);
      Without(s, id, own + {x}) == AddRefs(t, id, -1).(vvNew := t.vvNew - {x})
  {
    var t := Without(s, id, own);
    assert s.vvNew - (own + {x}) == t.vvNew - {x};
    assert |own + {x}| == |own| + 1;
    assert Without(s, id, own + {x}).mapInfo == AddRefs(t, id, -1).mapInfo;
  }

  /** The manager when the loop of MakeTried has passed n buckets. */
  function Leaving(s: State, id: int, n: nat): State
    requires id in s.mapInfo
  {
    Without(s, id, OwnSlots(s, id, n))
  }

  lemma LeavingStep(s: State, id: int, n: nat)
    requires id in s.mapInfo
    ensures var t := Leaving(s, id, n);
      var slot := NewSlotIn(s.env, s.nKey, s.mapInfo[id].addr.svc, n);
      Leaving(s, id, n + 1) ==
        if slot in t.vvNew && t.vvNew[slot] == id then AddRefs(t, id, -1).(vvNew := t.vvNew - {slot}) else t
  {
    OwnSlotsStep(s, id, n);
    var slot := NewSlotIn(s.env, s.nKey, s.mapInfo[id].addr.svc, n);
    hide OwnSlots, AddRefs;
    if Holds(s, id, n) {
      WithoutOneMore(s, id, OwnSlots(s, id, n), slot);
    } else {
      assert OwnSlots(s, id, n) + {} == OwnSlots(s, id, n);
    }
  }

  lemma LeavingNone(s: State, id: int)
    requires id in s.mapInfo
    ensures Leaving(s, id, 0) == s
  {
    assert OwnSlots(s, id, 0) == {};
    assert s.vvNew - {} == s.vvNew;
    assert s.mapInfo[id := s.mapInfo[id]] == s.mapInfo;
  }

  lemma LeavingAll(s: State, id: int)
    requires id in s.mapInfo
    ensures LeaveNew(s, id) == Leaving(s, id, NEW_BUCKET_COUNT).(nNew := s.nNew - 1)
    ensures Leaving(s, id, NEW_BUCKET_COUNT).nNew == s.nNew
  {
  }

  class CAddrMan {
    const env: Env
    var nKey: Key
    var nIdCount: int
    var mapInfo: map<int, Info>
    var mapAddr: map<Ip, int>
    var vRandom: seq<int>
    var nTried: int
    var vvTried: map<Slot, int>
    var nNew: int
    var vvNew: map<Slot, int>
    var nLastGood: int

    ghost function Abs(): State
      reads this
    {
      State(env, nKey, nIdCount, mapInfo, mapAddr, vRandom, nTried, vvTried, nNew, vvNew, nLastGood)
    }

    constructor (env: Env, key: Key)
      ensures Abs() == Empty(env, key)
    {
      this.env, nKey, nIdCount, mapInfo, mapAddr, vRandom := env, key, 0, map[], map[], [];
      nTried, vvTried, nNew, vvNew, nLastGood := 0, map[], 0, map[], 1;
    }

    method Find(ip: Ip) returns (id: int)
      ensures id == AddrManState.Find(Abs(), ip)
    {
      id := -1;
      if ip in mapAddr && mapAddr[ip] in mapInfo {
        id := mapAddr[ip];
      }
    }

    method Create(addr: Address, source: Ip) returns (id: int)
      modifies this
      ensures id == old(nIdCount) && Abs() == AddrManState.Create(old(Abs()), addr, source)
    {
      id := nIdCount;
      nIdCount := nIdCount + 1;
      mapInfo := mapInfo[id := NewInfo(addr, source)];
      mapAddr := mapAddr[addr.svc.ip := id];
      mapInfo := mapInfo[id := mapInfo[id].(nRandomPos := |vRandom|)];
      vRandom := vRandom + [id];
    }

    method SwapRandom(i: nat, j: nat)
      requires CanSwap(Abs(), i, j)
      modifies this
      ensures Abs() == AddrManState.SwapRandom(old(Abs()), i, j)
    {
      if i == j {
        return;
      }
      var id1, id2 := vRandom[i], vRandom[j];
      mapInfo := mapInfo[id1 := mapInfo[id1].(nRandomPos := j)];
      mapInfo := mapInfo[id2 := mapInfo[id2].(nRandomPos := i)];
      vRandom := vRandom[i := id2];
      vRandom := vRandom[j := id1];
    }

    method Delete(id: int)
      requires CanDelete(Abs(), id)
      modifies this
      ensures Abs() == AddrManState.Delete(old(Abs()), id)
    {
      var ip := mapInfo[id].addr.svc.ip;
      SwapRandom(mapInfo[id].nRandomPos, |vRandom| - 1);
      vRandom := vRandom[..|vRandom| - 1];
      mapAddr := mapAddr - {ip};
      mapInfo := mapInfo - {id};
      nNew := nNew - 1;
    }

    method ClearNew(slot: Slot)
      requires CanClear(Abs(), slot)
      modifies this
      ensures Abs() == AddrManState.ClearNew(old(Abs()), slot)
    {
      if slot in vvNew {
        var id := vvNew[slot];
        mapInfo := mapInfo[id := mapInfo[id].(nRefCount := mapInfo[id].nRefCount - 1)];
        vvNew := vvNew - {slot};
        if mapInfo[id].nRefCount == 0 {
          assert Abs() == Unref(old(Abs()), slot);
          Delete(id);
        }
      }
    }

    /** The loop of MakeTried over all new buckets, and the counter after it. */
    method LeaveNew(id: int)
      requires id in mapInfo
      modifies this
      ensures Abs() == AddrManState.LeaveNew(old(Abs()), id)
    {
      ghost var s := Abs();
      var svc := mapInfo[id].addr.svc;
      LeavingNone(s, id);
      hide Leaving;
      for bucket := 0 to NEW_BUCKET_COUNT
        invariant id in mapInfo && Abs() == Leaving(s, id, bucket)
      {
        LeavingStep(s, id, bucket);
        var slot := NewSlotIn(env, nKey, svc, bucket);
        if slot in vvNew && vvNew[slot] == id {
          vvNew := vvNew - {slot};
          mapInfo := mapInfo[id := mapInfo[id].(nRefCount := mapInfo[id].nRefCount - 1)];
        }
      }
      LeavingAll(s, id);
      nNew := nNew - 1;
    }

    method MakeTried(id: int)
      requires CanMakeTried(Abs(), id)
      modifies this
      ensures Abs() == AddrManState.MakeTried(old(Abs()), id)
    {
      hide OwnSlots;
      var svc := mapInfo[id].addr.svc;
      LeaveNew(id);
      assert mapInfo[id].nRefCount == 0;
      var slot := TriedSlot(env, nKey, svc);
      if slot in vvTried {
        Evict(slot);
      }
      assert slot !in vvTried;
      vvTried := vvTried[slot := id];
      nTried := nTried + 1;
      mapInfo := mapInfo[id := mapInfo[id].(fInTried := true)];
    }

    /** The tried entry at slot makes room and is entered into the new set again. */
    method Evict(slot: Slot)
      requires CanEvict(Abs(), slot)
      modifies this
      ensures Abs() == AddrManState.Evict(old(Abs()), slot) && slot !in vvTried
    {
      var id := vvTried[slot];
      mapInfo := mapInfo[id := mapInfo[id].(fInTried := false)];
      vvTried := vvTried - {slot};
      nTried := nTried - 1;
      ghost var t := Abs();
      var home := NewSlot(env, nKey, mapInfo[id].addr.svc, mapInfo[id].source);
      ClearNew(home);
      TriedUntouched(t, home);
      mapInfo := mapInfo[id := mapInfo[id].(nRefCount := 1)];
      vvNew := vvNew[home := id];
      nNew := nNew + 1;
    }

    method Good_(svc: Service, time: int, nRnd: nat)
      requires Inv.Inv(Abs()) && time > 0 && nRnd < NEW_BUCKET_COUNT
      modifies this
      ensures CanGood(old(Abs()), svc, time) && Abs() == Good(old(Abs()), svc, time)
      ensures Inv.Inv(Abs()) && nLastGood == time
      ensures Effects.Knows(old(Abs()), svc) && !old(mapInfo)[old(mapAddr)[svc.ip]].fInTried ==>
                Effects.MovesToTried(old(Abs()), Abs(), old(mapAddr)[svc.ip], time)
    {
      hide Inv.Inv, CanMakeTried, AddrManState.MakeTried, Holds, Effects.MovesToTried;
      if Effects.Knows(Abs(), svc) && !mapInfo[mapAddr[svc.ip]].fInTried {
        Effects.GoodMoves(Abs(), svc, time);
      } else {
        Effects.GoodElse(Abs(), svc, time);
      }
      Runs.GoodKeeps(Abs(), svc, time);
      NoSuchId(Abs());
      nLastGood := time;
      var id := Find(svc.ip);
      if id == -1 || mapInfo[id].addr.svc != svc {
        return;
      }
      ghost var t := Abs();
      mapInfo := mapInfo[id := mapInfo[id].(nLastSuccess := time, nLastTry := time, nAttempts := 0)];
      assert Abs() == MarkGood(t, id, time);
      if mapInfo[id].fInTried {
        return;
      }
      var found := SearchBuckets(id, nRnd);
      SameHolds(t, id, time);
      if found {
        MakeTried(id);
      }
    }

    /** The search for a bucket that holds the entry, from a random start. */
    method SearchBuckets(id: int, nRnd: nat) returns (found: bool)
      requires id in mapInfo && nRnd < NEW_BUCKET_COUNT
      ensures found <==> exists b: nat | b < NEW_BUCKET_COUNT :: Holds(Abs(), id, b)
    {
      var n := 0;
      while n < NEW_BUCKET_COUNT
        invariant n <= NEW_BUCKET_COUNT
        invariant forall k: nat | k < n :: !Holds(Abs(), id, Turn(k, nRnd))
      {
        var nB := Turn(n, nRnd);
        var slot := NewSlotIn(env, nKey, mapInfo[id].addr.svc, nB);
        if slot in vvNew && vvNew[slot] == id {
          assert Holds(Abs(), id, nB);
          return true;
        }
        n := n + 1;
      }
      forall b: nat | b < NEW_BUCKET_COUNT ensures !Holds(Abs(), id, b) {
        var k := if b >= nRnd then b - nRnd else b + NEW_BUCKET_COUNT - nRnd;
        assert Turn(k, nRnd) == b;
      }
      found := false;
    }

    method Add_(addr: Address, source: Ip, nTimePenalty: int, now: int, rnd: nat) returns (fNew: bool)
      requires Inv.Inv(Abs())
      modifies this
      ensures CanAdd(old(Abs()), addr, source, nTimePenalty, now, rnd)
      ensures (Abs(), fNew) == Add(old(Abs()), addr, source, nTimePenalty, now, rnd)
      ensures Inv.Inv(Abs())
      ensures !env.routable(addr) ==> !fNew && Abs() == old(Abs())
      ensures env.routable(addr) && addr.svc.ip !in old(mapAddr) ==>
                fNew && Effects.StoresNew(old(Abs()), Abs(), addr, source, nTimePenalty, now)
      ensures env.routable(addr) && addr.svc.ip in old(mapAddr) ==>
                && !fNew && old(mapAddr)[addr.svc.ip] in old(mapInfo)
                && Effects.RenewsKnown(old(Abs()), Abs(), addr, source, nTimePenalty, now, rnd)
    {
      hide Inv.Inv, CanPlace, AddrManState.Place, Refresh, MayRepeat, NewSlot, Effects.StoresNew, Effects.RenewsKnown;
      Runs.AddKeeps(Abs(), addr, source, nTimePenalty, now, rnd);
      NoSuchId(Abs());
      if env.routable(addr) && addr.svc.ip in mapAddr {
        Effects.AddRenews(Abs(), addr, source, nTimePenalty, now, rnd);
      } else if env.routable(addr) {
        Effects.AddStores(Abs(), addr, source, nTimePenalty, now, rnd);
      }
      if !env.routable(addr) {
        return false;
      }
      var penalty := nTimePenalty;
      var id := Find(addr.svc.ip);
      if addr.svc.ip == source {
        penalty := 0;
      }
      assert penalty == Penalty(addr, source, nTimePenalty);
      if id != -1 {
        AddKnown(id, addr, source, penalty, now, rnd);
        fNew := false;
      } else {
        AddUnknown(addr, source, penalty, now);
        fNew := true;
      }
    }

    method AddKnown(id: int, addr: Address, source: Ip, penalty: int, now: int, rnd: nat)
      requires id in mapInfo
      requires MayRepeat(Refresh(mapInfo[id], addr, penalty, now), addr, rnd) ==>
                 CanPlace(SetInfo(Abs(), id, Refresh(mapInfo[id], addr, penalty, now)), id, source, now)
      modifies this
      ensures var info := Refresh(old(mapInfo[id]), addr, penalty, now);
        var t := SetInfo(old(Abs()), id, info);
        Abs() == if MayRepeat(info, addr, rnd) then AddrManState.Place(t, id, source, now) else t
    {
      hide CanPlace, AddrManState.Place, Refresh, MayRepeat;
      mapInfo := mapInfo[id := Refresh(mapInfo[id], addr, penalty, now)];
      var may := MayRepeatLoop(mapInfo[id], addr, rnd);
      if may {
        Place(id, source, now);
      }
    }

    method AddUnknown(addr: Address, source: Ip, penalty: int, now: int)
      requires CanPlace(Created(Abs(), addr, source, penalty), nIdCount, source, now)
      modifies this
      ensures Abs() == AddrManState.Place(Created(old(Abs()), addr, source, penalty), old(nIdCount), source, now)
    {
      hide CanPlace, AddrManState.Place;
      ghost var s := Abs();
      var id := Create(addr, source);
      mapInfo := mapInfo[id := mapInfo[id].(addr := mapInfo[id].addr.
        (nTime := NonNegative(mapInfo[id].addr.nTime - penalty)))];
      nNew := nNew + 1;
      assert Abs() == Created(s, addr, source, penalty);
      Place(id, source, now);
    }

    /** The tests that can turn a repeated address away, with the loop that doubles the odds. */
    static method MayRepeatLoop(info: Info, addr: Address, rnd: nat) returns (may: bool)
      ensures may == MayRepeat(info, addr, rnd)
    {
      if addr.nTime == 0 || (info.addr.nTime != 0 && addr.nTime <= info.addr.nTime) {
        return false;
      }
      if info.fInTried || info.nRefCount == NEW_BUCKETS_PER_ADDRESS {
        return false;
      }
      var nFactor: nat := 1;
      var n := 0;
      while n < info.nRefCount
        invariant 0 <= n && (n <= info.nRefCount || n == 0)
        invariant nFactor == Pow2(n)
      {
        nFactor := nFactor * 2;
        n := n + 1;
      }
      assert info.nRefCount >= 1 ==> nFactor == 2 * Pow2(info.nRefCount - 1);
      may := !(nFactor > 1 && rnd % nFactor != 0);
    }

    method Place(id: int, source: Ip, now: int)
      requires CanPlace(Abs(), id, source, now)
      modifies this
      ensures Abs() == AddrManState.Place(old(Abs()), id, source, now)
    {
      var slot := NewSlot(env, nKey, mapInfo[id].addr.svc, source);
      if !(slot in vvNew && vvNew[slot] == id) {
        var fInsert := slot !in vvNew;
        if !fInsert {
          var other := mapInfo[vvNew[slot]];
          if IsTerrible(other, now) || (other.nRefCount > 1 && mapInfo[id].nRefCount == 0) {
            fInsert := true;
          }
        }
        if fInsert {
          ClearNew(slot);
          mapInfo := mapInfo[id := mapInfo[id].(nRefCount := mapInfo[id].nRefCount + 1)];
          vvNew := vvNew[slot := id];
        } else if mapInfo[id].nRefCount == 0 {
          Delete(id);
        }
      }
    }

    method Attempt_(svc: Service, fCountFailure: bool, time: int)
      requires Inv.Inv(Abs()) && time > 0
      modifies this
      ensures Abs() == Attempt(old(Abs()), svc, fCountFailure, time) && Inv.Inv(Abs())
      ensures Effects.Knows(old(Abs()), svc) ==>
                var id := old(mapAddr)[svc.ip]; id in mapInfo && mapInfo[id].nLastTry == time
    {
      hide Inv.Inv;
      Effects.AttemptExactly(Abs(), svc, fCountFailure, time);
      Runs.AttemptKeeps(Abs(), svc, fCountFailure, time);
      NoSuchId(Abs());
      var id := Find(svc.ip);
      if id == -1 || mapInfo[id].addr.svc != svc {
        return;
      }
      var info := mapInfo[id].(nLastTry := time);
      if fCountFailure && info.nLastCountAttempt < nLastGood {
        info := info.(nLastCountAttempt := time, nAttempts := info.nAttempts + 1);
      }
      mapInfo := mapInfo[id := info];
    }

    /** The loop of GetAddr_ after n turns: v is chosen, and of the entries was only positions have changed. */
    ghost predicate Sampled(n: nat, now: int, v: seq<Address>, size: nat, was: map<int, Info>)
      reads this
    {
      && Inv.Inv(Abs()) && Inv.Bares(Abs()) == was && n <= |vRandom| == size
      && v == (Runs.RandomKnown(Abs()); Runs.Chosen(Abs(), n, now))
    }

    /** One turn of GetAddr_'s loop. */
    method SampleOne(n: nat, nRndPos: nat, now: int, chosen: seq<Address>, ghost was: map<int, Info>)
      returns (vAddr: seq<Address>)
      requires n <= nRndPos < |vRandom| && Sampled(n, now, chosen, |vRandom|, was)
      modifies this
      ensures Sampled(n + 1, now, vAddr, old(|vRandom|), was) && |vAddr| <= |chosen| + 1
      ensures vRandom == Swapped(old(vRandom), n, nRndPos)
    {
      hide Inv.Inv, Inv.Bares, IsTerrible;
      Runs.ChosenStable(Abs(), n, nRndPos, n, now);
      BaresKept(Abs(), n, nRndPos);
      SwapRandom(n, nRndPos);
      Runs.RandomKnown(Abs());
      vAddr := chosen;
      if !IsTerrible(mapInfo[vRandom[n]], now) {
        vAddr := vAddr + [mapInfo[vRandom[n]].addr];
      }
    }

    lemma SampledFacts(n: nat, now: int, v: seq<Address>, size: nat, was: map<int, Info>)
      requires Sampled(n, now, v, size, was)
      ensures Inv.Inv(Abs()) && Inv.Bares(Abs()) == was && n <= |vRandom| == size
      ensures (forall k | 0 <= k < n :: vRandom[k] in mapInfo) && v == Runs.Chosen(Abs(), n, now)
      ensures Runs.DistinctIps(v)
    {
      hide Inv.Inv;
      Runs.RandomKnown(Abs());
      Runs.ChosenDistinct(Abs(), n, now);
    }

    /** draw(k) is the random number drawn in turn k. */
    method GetAddr_(draw: nat -> nat, now: int) returns (vAddr: seq<Address>)
      requires Inv.Inv(Abs())
      modifies this
      ensures Inv.Inv(Abs()) && Inv.Bares(Abs()) == old(Inv.Bares(Abs()))
      ensures |vAddr| <= Runs.MaxSample(Abs()) && Runs.DistinctIps(vAddr)
      ensures |vRandom| == old(|vRandom|)
      ensures exists n: nat | n <= |vRandom| ::
                && vAddr == Runs.Chosen(Abs(), n, now) && vRandom == Shuffled(old(vRandom), draw, n)
                && (n < |vRandom| ==> |vAddr| == Runs.MaxSample(Abs()))
    {
      var nNodes := GETADDR_MAX_PCT * |vRandom| / 100;
      if nNodes > GETADDR_MAX {
        nNodes := GETADDR_MAX;
      }
      vAddr := [];
      var n := 0;
      ghost var size, was := |vRandom|, Inv.Bares(Abs());
      hide Inv.Inv, Inv.Bares, Runs.DistinctIps, Drawn;
      assert Sampled(0, now, [], size, was);
      hide Sampled, Runs.Chosen;
      while n < |vRandom|
        invariant n <= |vRandom| == size && |vAddr| <= nNodes && Sampled(n, now, vAddr, size, was)
        invariant vRandom == Shuffled(old(vRandom), draw, n)
      {
        if |vAddr| >= nNodes {
          break;
        }
        vAddr := SampleOne(n, Drawn(draw(n), n, |vRandom|), now, vAddr, was);
        n := n + 1;
        SampledFacts(n, now, vAddr, size, was);
      }
      SampledFacts(n, now, vAddr, size, was);
    }
  }

  /** Ids are not negative, so -1 is free to mean that there is none. */
  lemma NoSuchId(s: State)
    requires Inv.Inv(s)
    ensures -1 !in s.mapInfo
  {
  }

  function Swapped(v: seq<int>, i: nat, j: nat): seq<int>
    requires i < |v| && j < |v|
  {
    v[i := v[j]][j := v[i]]
  }

  /** v after n turns of a shuffle that puts at each position, from the first on, one drawn from the rest. */
  ghost function Shuffled(v: seq<int>, draw: nat -> nat, n: nat): (r: seq<int>)
    requires n <= |v|
    ensures |r| == |v|
  {
    if n == 0 then v else Swapped(Shuffled(v, draw, n - 1), n - 1, Drawn(draw(n - 1), n - 1, |v|))
  }

  /** A random number cut to a position from n on. */
  function Drawn(r: nat, n: nat, size: nat): (p: nat)
    requires n < size
    ensures n <= p < size
  {
    r % (size - n) + n
  }

  lemma BaresKept(s: State, i: nat, j: nat)
    requires Inv.Inv(s) && i < |s.vRandom| && j < |s.vRandom|
    ensures CanSwap(s, i, j) && Inv.Bares(AddrManState.SwapRandom(s, i, j)) == Inv.Bares(s)
  {
    Inv.SwapKeeps(s, i, j);
  }

  /** The statistics that Good_ writes do not change where the entry is found. */
  lemma SameHolds(s: State, id: int, time: int)
    requires id in s.mapInfo
    ensures forall b: nat :: Holds(MarkGood(s, id, time), id, b) == Holds(s, id, b)
  {
  }

  lemma TriedUntouched(s: State, slot: Slot)
    requires CanClear(s, slot)
    ensures AddrManState.ClearNew(s, slot).vvTried == s.vvTried
  {
  }
}
