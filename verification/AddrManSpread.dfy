/**
 * What the two-level bucket hashes of src/addrman.cpp are for: over every run,
 * the addresses of one group stay within few tried buckets, and what the
 * sources of one group announce stays within few new buckets.
 */
module AddrManSpread {
  import opened AddrManState
  import opened AddrManInvariant
  import opened AddrManRuns

  // ------------------------------------------------------------ the buckets

  /** The tried buckets with an entry of an address group. */
  function TriedBuckets(s: State, g: Group): set<nat> {
    set x | x in s.vvTried && s.vvTried[x] in s.mapInfo && s.env.group(s.mapInfo[s.vvTried[x]].addr.svc.ip) == g ::
      x.bucket
  }

  /** The new buckets with an entry that a source of the group put there; from says who put what. */
  function NewBuckets(s: State, from: map<Slot, Ip>, g: Group): set<nat> {
    set x | x in s.vvNew && x in from && s.env.group(from[x]) == g :: x.bucket
  }

  /** The images of the first n numbers. */
  function Images(f: nat -> nat, n: nat): set<nat> {
    if n == 0 then {} else Images(f, n - 1) + {f(n - 1)}
  }

  lemma {:induction false} ImagesFew(f: nat -> nat, n: nat)
    ensures |Images(f, n)| <= n
    ensures forall i: nat | i < n :: f(i) in Images(f, n)
  {
    if n > 0 {
      ImagesFew(f, n - 1);
    }
  }

  lemma {:induction false} FewBuckets(buckets: set<nat>, f: nat -> nat, n: nat)
    requires forall b | b in buckets :: exists i: nat | i < n :: b == f(i)
    ensures |buckets| <= n
  {
    ImagesFew(f, n);
    forall b | b in buckets ensures b in Images(f, n) {
      var i: nat :| i < n && b == f(i);
    }
    Larger(buckets, Images(f, n));
  }

  lemma {:induction false} Larger(a: set<nat>, b: set<nat>)
    requires a <= b
    ensures |a| <= |b|
  {
    assert b == a + (b - a);
  }

  // ------------------------------------------------------------- tried side

  lemma TriedSpread(s: State, g: Group)
    requires Inv(s)
    ensures |TriedBuckets(s, g)| <= TRIED_BUCKETS_PER_GROUP
  {
    var f := (i: nat) => TriedBucketOf(s.env, s.nKey, g, i);
    forall b | b in TriedBuckets(s, g) ensures exists i: nat | i < TRIED_BUCKETS_PER_GROUP :: b == f(i) {
      var x :| x in s.vvTried && s.vvTried[x] in s.mapInfo && x.bucket == b
            && s.env.group(s.mapInfo[s.vvTried[x]].addr.svc.ip) == g;
      TriedPlace(s, x);
      var i := TriedIndex(s.env, s.nKey, s.mapInfo[s.vvTried[x]].addr.svc);
      assert b == f(i);
    }
    hide Inv, TriedBuckets;
    FewBuckets(TriedBuckets(s, g), f, TRIED_BUCKETS_PER_GROUP);
  }

  lemma TriedPlace(s: State, x: Slot)
    requires Inv(s) && x in s.vvTried && s.vvTried[x] in s.mapInfo
    ensures x == TriedSlot(s.env, s.nKey, s.mapInfo[s.vvTried[x]].addr.svc)
  {
    assert TriedSlotOk(s.env, s.nKey, s.mapInfo, x, s.vvTried[x]);
  }

  /** Which of its group's buckets an address belongs to. */
  lemma TriedIndex(env: Env, key: Key, svc: Service) returns (i: nat)
    ensures i < TRIED_BUCKETS_PER_GROUP
    ensures TriedSlot(env, key, svc).bucket == TriedBucketOf(env, key, env.group(svc.ip), i)
  {
    i := env.triedHash1(key, svc) % TRIED_BUCKETS_PER_GROUP;
    assert i % TRIED_BUCKETS_PER_GROUP == i;
  }

  // --------------------------------------------------------------- new side

  /** Each place of the new table is where the source that put its entry there sends it. */
  ghost predicate Traced(s: State, from: map<Slot, Ip>) {
    && from.Keys == s.vvNew.Keys
    && forall x | x in s.vvNew ::
         && s.vvNew[x] in s.mapInfo
         && x == NewSlot(s.env, s.nKey, s.mapInfo[s.vvNew[x]].addr.svc, from[x])
  }

  lemma NewSpread(s: State, from: map<Slot, Ip>, g: Group)
    requires Traced(s, from)
    ensures |NewBuckets(s, from, g)| <= NEW_BUCKETS_PER_SOURCE_GROUP
  {
    var f := (i: nat) => NewBucketOf(s.env, s.nKey, g, i);
    forall b | b in NewBuckets(s, from, g) ensures exists i: nat | i < NEW_BUCKETS_PER_SOURCE_GROUP :: b == f(i) {
      var x :| x in s.vvNew && s.env.group(from[x]) == g && x.bucket == b;
      var i := NewIndex(s.env, s.nKey, s.mapInfo[s.vvNew[x]].addr.svc, from[x]);
      assert b == f(i);
    }
    hide Traced, NewBuckets;
    FewBuckets(NewBuckets(s, from, g), f, NEW_BUCKETS_PER_SOURCE_GROUP);
  }

  /** Which of its source group's buckets an address belongs to. */
  lemma NewIndex(env: Env, key: Key, svc: Service, source: Ip) returns (i: nat)
    ensures i < NEW_BUCKETS_PER_SOURCE_GROUP
    ensures NewSlot(env, key, svc, source).bucket == NewBucketOf(env, key, env.group(source), i)
  {
    i := env.newHash1(key, env.group(svc.ip), env.group(source)) % NEW_BUCKETS_PER_SOURCE_GROUP;
    assert i % NEW_BUCKETS_PER_SOURCE_GROUP == i;
  }

  /** The source behind what an event writes: who announced, or who announced the entry that is evicted. */
  function Writer(s: State, e: Event): Ip {
    match e
    case AddEvent(_, source, _, _, _) => source
    case GoodEvent(svc, _) => if Evicts(s, svc) then s.mapInfo[s.vvTried[TriedSlot(s.env, s.nKey, svc)]].source else 0
    case _ => 0
  }

  /** Whether the tried place of an address is taken. */
  predicate Evicts(s: State, svc: Service) {
    var x := TriedSlot(s.env, s.nKey, svc);
    x in s.vvTried && s.vvTried[x] in s.mapInfo
  }

  /** Who put what, after an event: places that kept their entry kept their source. */
  function Trace(s: State, from: map<Slot, Ip>, e: Event, t: State): map<Slot, Ip> {
    map x | x in t.vvNew ::
      if x in s.vvNew && x in from && s.vvNew[x] == t.vvNew[x] then from[x] else Writer(s, e)
  }

  predicate SameOrigin(a: Info, b: Info) {
    a.addr.svc == b.addr.svc && a.source == b.source
  }

  /** Entries keep their address and source, and new ones come from src. */
  ghost predicate Origins(m: map<int, Info>, m': map<int, Info>, src: Ip) {
    forall n | n in m' :: if n in m then SameOrigin(m'[n], m[n]) else m'[n].source == src
  }

  /** A place has kept its entry, or src sends its entry there. */
  ghost predicate PlaceOk(v: map<Slot, int>, t: State, x: Slot, src: Ip)
    requires x in t.vvNew
  {
    || (x in v && v[x] == t.vvNew[x])
    || (t.vvNew[x] in t.mapInfo && x == NewSlot(t.env, t.nKey, t.mapInfo[t.vvNew[x]].addr.svc, src))
  }

  ghost predicate Writes(s: State, t: State, src: Ip) {
    && t.env == s.env && t.nKey == s.nKey && Origins(s.mapInfo, t.mapInfo, src)
    && forall x | x in t.vvNew :: PlaceOk(s.vvNew, t, x, src)
  }

  lemma WritesTrace(s: State, from: map<Slot, Ip>, e: Event, t: State)
    requires Traced(s, from) && Inv(t) && Writes(s, t, Writer(s, e))
    ensures Traced(t, Trace(s, from, e, t))
  {
    hide NewSlot, Writer, Inv, PlaceOk;
    NewKnown(t);
    var to := Trace(s, from, e, t);
    forall x | x in t.vvNew
      ensures x in to && x == NewSlot(t.env, t.nKey, t.mapInfo[t.vvNew[x]].addr.svc, to[x])
    {
      var n := t.vvNew[x];
      if x in s.vvNew && s.vvNew[x] == n {
        assert n in s.mapInfo && SameOrigin(t.mapInfo[n], s.mapInfo[n]);
      } else {
        PlaceSent(s.vvNew, t, x, Writer(s, e));
      }
    }
  }

  lemma PlaceSent(v: map<Slot, int>, t: State, x: Slot, src: Ip)
    requires x in t.vvNew && PlaceOk(v, t, x, src) && !(x in v && v[x] == t.vvNew[x])
    ensures t.vvNew[x] in t.mapInfo && x == NewSlot(t.env, t.nKey, t.mapInfo[t.vvNew[x]].addr.svc, src)
  {
  }

  lemma NewKnown(s: State)
    requires Inv(s)
    ensures forall x | x in s.vvNew :: s.vvNew[x] in s.mapInfo
  {
    forall x | x in s.vvNew ensures s.vvNew[x] in s.mapInfo {
      assert NewSlotOk(s.env, s.nKey, s.mapInfo, x, s.vvNew[x]);
    }
  }

  // ---------------------------------------------------- what one event writes

  /** Nothing is written: places are only given up, and entries keep their addresses. */
  ghost predicate Quiet(s: State, t: State) {
    && t.env == s.env && t.nKey == s.nKey
    && (forall n | n in t.mapInfo :: n in s.mapInfo && SameOrigin(t.mapInfo[n], s.mapInfo[n]))
    && (forall x | x in t.vvNew :: x in s.vvNew && s.vvNew[x] == t.vvNew[x])
  }

  lemma QuietTwice(s: State, t: State, u: State)
    requires Quiet(s, t) && Quiet(t, u)
    ensures Quiet(s, u)
  {
  }

  lemma QuietWrites(s: State, t: State, src: Ip)
    requires Quiet(s, t)
    ensures Writes(s, t, src)
  {
    hide NewSlot;
  }

  lemma SwapQuiet(s: State, i: nat, j: nat)
    requires CanSwap(s, i, j)
    ensures Quiet(s, SwapRandom(s, i, j))
  {
  }

  lemma DeleteQuiet(s: State, id: int)
    requires CanDelete(s, id)
    ensures Quiet(s, Delete(s, id))
  {
    var i, j: nat := s.mapInfo[id].nRandomPos, |s.vRandom| - 1;
    SwapQuiet(s, i, j);
    hide SwapRandom;
  }

  lemma ClearQuiet(s: State, x: Slot)
    requires CanClear(s, x)
    ensures Quiet(s, ClearNew(s, x))
  {
    if x in s.vvNew {
      var t, id := Unref(s, x), s.vvNew[x];
      assert Quiet(s, t);
      hide Quiet, Delete, CanDelete, Unref;
      if s.mapInfo[id].nRefCount == 1 {
        DeleteQuiet(t, id);
        QuietTwice(s, t, Delete(t, id));
      }
    }
  }

  /** A place is taken after quiet changes. */
  lemma RefWrites(s: State, t: State, id: int, x: Slot, src: Ip)
    requires Quiet(s, t) && id in t.mapInfo && x == NewSlot(t.env, t.nKey, t.mapInfo[id].addr.svc, src)
    ensures Writes(s, Ref(t, id, x), src)
  {
    hide NewSlot;
  }

  lemma PlaceWrites(s: State, id: int, source: Ip, now: int)
    requires CanPlace(s, id, source, now)
    ensures Writes(s, Place(s, id, source, now), source)
  {
    hide Quiet, Writes, Delete, CanDelete, ClearNew, CanClear, IsTerrible, NewSlot;
    var x := NewSlot(s.env, s.nKey, s.mapInfo[id].addr.svc, source);
    if x in s.vvNew && s.vvNew[x] == id {
      QuietSelf(s);
      QuietWrites(s, s, source);
    } else if Wins(s, id, x, now) {
      ClearQuiet(s, x);
      KeepsAddress(s, ClearNew(s, x), id);
      RefWrites(s, ClearNew(s, x), id, x, source);
    } else if s.mapInfo[id].nRefCount == 0 {
      DeleteQuiet(s, id);
      QuietWrites(s, Delete(s, id), source);
    } else {
      QuietSelf(s);
      QuietWrites(s, s, source);
    }
  }

  lemma QuietSelf(s: State)
    ensures Quiet(s, s)
  {
  }

  lemma KeepsAddress(s: State, t: State, id: int)
    requires Quiet(s, t) && id in t.mapInfo
    ensures id in s.mapInfo && t.env == s.env && t.nKey == s.nKey
    ensures SameOrigin(t.mapInfo[id], s.mapInfo[id])
  {
  }

  lemma WritesAfter(s: State, t: State, u: State, src: Ip)
    requires t.env == s.env && t.nKey == s.nKey && t.vvNew == s.vvNew && Writes(t, u, src)
    requires (forall n | n in s.mapInfo :: n in t.mapInfo) && Origins(s.mapInfo, t.mapInfo, src)
    ensures Writes(s, u, src)
  {
    hide NewSlot;
    assert forall x | x in u.vvNew :: PlaceOk(t.vvNew, u, x, src);
  }

  lemma AddWrites(s: State, addr: Address, source: Ip, penalty: int, now: int, rnd: nat)
    requires Inv(s) && CanAdd(s, addr, source, penalty, now, rnd)
    ensures Writes(s, Add(s, addr, source, penalty, now, rnd).0, source)
  {
    NewIdFree(s);
    hide Inv, Writes, Quiet, Place, CanPlace, MayRepeat, Refresh, Created, SetInfo, Find;
    QuietSelf(s);
    QuietWrites(s, s, source);
    if s.env.routable(addr) {
      var id, p := Find(s, addr.svc.ip), Penalty(addr, source, penalty);
      if id in s.mapInfo {
        var info := Refresh(s.mapInfo[id], addr, p, now);
        var t := SetInfo(s, id, info);
        RefreshOrigin(s, id, addr, p, now, source);
        QuietWrites(s, t, source);
        if MayRepeat(info, addr, rnd) {
          PlaceWrites(t, id, source, now);
          WritesAfter(s, t, Place(t, id, source, now), source);
        }
      } else {
        var t := Created(s, addr, source, p);
        CreatedOrigin(s, addr, source, p);
        PlaceWrites(t, s.nIdCount, source, now);
        WritesAfter(s, t, Place(t, s.nIdCount, source, now), source);
      }
    }
  }

  lemma RefreshOrigin(s: State, id: int, addr: Address, penalty: int, now: int, src: Ip)
    requires id in s.mapInfo
    ensures var t := SetInfo(s, id, Refresh(s.mapInfo[id], addr, penalty, now));
      && Quiet(s, t) && t.env == s.env && t.nKey == s.nKey && t.vvNew == s.vvNew
      && (forall n | n in s.mapInfo :: n in t.mapInfo) && Origins(s.mapInfo, t.mapInfo, src)
  {
  }

  lemma CreatedOrigin(s: State, addr: Address, source: Ip, penalty: int)
    requires s.nIdCount !in s.mapInfo
    ensures var t := Created(s, addr, source, penalty);
      && t.env == s.env && t.nKey == s.nKey && t.vvNew == s.vvNew
      && (forall n | n in s.mapInfo :: n in t.mapInfo) && Origins(s.mapInfo, t.mapInfo, source)
  {
  }

  lemma NewIdFree(s: State)
    requires Inv(s)
    ensures s.nIdCount !in s.mapInfo
  {
  }

  lemma EvictWrites(s: State, x: Slot)
    requires CanEvict(s, x)
    ensures Writes(s, Evict(s, x), s.mapInfo[s.vvTried[x]].source)
  {
    var id := s.vvTried[x];
    var t := LeaveTried(s, x);
    assert Quiet(s, t);
    hide Quiet, Writes, ClearNew, CanClear, NewSlot, LeaveTried;
    var h := HomeSlot(t, id);
    KeepsAddress(s, t, id);
    ClearQuiet(t, h);
    var u := ClearNew(t, h);
    QuietTwice(s, t, u);
    KeepsAddress(s, u, id);
    RefWrites(s, u, id, h, s.mapInfo[id].source);
    CounterSees(s, Ref(u, id, h), Evict(s, x), s.mapInfo[id].source);
  }

  lemma CounterSees(s: State, t: State, u: State, src: Ip)
    requires Writes(s, t, src) && u.env == t.env && u.nKey == t.nKey && u.vvNew == t.vvNew
    requires u.mapInfo.Keys == t.mapInfo.Keys
    requires forall n | n in t.mapInfo :: SameOrigin(u.mapInfo[n], t.mapInfo[n])
    ensures Writes(s, u, src)
  {
    hide NewSlot;
    forall n | n in u.mapInfo
      ensures if n in s.mapInfo then SameOrigin(u.mapInfo[n], s.mapInfo[n]) else u.mapInfo[n].source == src
    {
      assert n in t.mapInfo;
    }
    forall x | x in u.vvNew ensures PlaceOk(s.vvNew, u, x, src) {
      var n := t.vvNew[x];
      assert PlaceOk(s.vvNew, t, x, src);
      assert n in t.mapInfo.Keys ==> n in u.mapInfo.Keys && SameOrigin(u.mapInfo[n], t.mapInfo[n]);
    }
  }

  lemma MakeTriedWrites(s: State, id: int, src: Ip)
    requires CanMakeTried(s, id)
    requires var x := TriedSlot(s.env, s.nKey, s.mapInfo[id].addr.svc);
             x in s.vvTried && s.vvTried[x] in s.mapInfo ==> src == s.mapInfo[s.vvTried[x]].source
    ensures Writes(s, MakeTried(s, id), src)
    ensures TriedSlot(s.env, s.nKey, s.mapInfo[id].addr.svc) !in s.vvTried ==> Quiet(s, MakeTried(s, id))
  {
    var x := TriedSlot(s.env, s.nKey, s.mapInfo[id].addr.svc);
    var t := LeaveNew(s, id);
    assert Quiet(s, t);
    QuietWrites(s, t, src);
    hide Writes, Evict, CanEvict, OwnSlots, TriedSlot;
    if x in t.vvTried {
      EvictedIsKnown(t, x);
      hide Quiet;
      EvictWrites(t, x);
      LeftThenWrites(s, t, Evict(t, x), src);
      CounterSees(s, Evict(t, x), MakeTried(s, id), src);
    } else {
      CounterSees(s, t, MakeTried(s, id), src);
    }
  }

  lemma EvictedIsKnown(s: State, x: Slot)
    requires CanEvict(s, x)
    ensures x in s.vvTried && s.vvTried[x] in s.mapInfo
  {
  }

  lemma LeftThenWrites(s: State, t: State, u: State, src: Ip)
    requires Quiet(s, t) && t.mapInfo.Keys == s.mapInfo.Keys && Writes(t, u, src)
    ensures Writes(s, u, src)
  {
    hide NewSlot;
    forall n | n in u.mapInfo
      ensures if n in s.mapInfo then SameOrigin(u.mapInfo[n], s.mapInfo[n]) else u.mapInfo[n].source == src
    {
      assert n in t.mapInfo.Keys <==> n in s.mapInfo.Keys;
    }
    forall x | x in u.vvNew ensures PlaceOk(s.vvNew, u, x, src) {
      assert PlaceOk(t.vvNew, u, x, src);
    }
  }

  lemma GoodWrites(s: State, svc: Service, time: int)
    requires Inv(s) && CanGood(s, svc, time)
    ensures Writes(s, Good(s, svc, time), Writer(s, GoodEvent(svc, time)))
    ensures Evicts(s, svc) || Quiet(s, Good(s, svc, time))
  {
    hide Inv, TriedSlot, Quiet, Writes, Origins, MakeTried, CanMakeTried, FindsBucket;
    TriedKnown(s);
    var t := s.(nLastGood := time);
    var id, src := Known(t, svc), Writer(s, GoodEvent(svc, time));
    TimeQuiet(s, time);
    QuietWrites(s, t, src);
    if id in t.mapInfo {
      var u := MarkGood(t, id, time);
      MarkQuiet(s, id, time, src);
      QuietWrites(s, u, src);
      assert u.mapInfo[id].addr.svc == svc && u.vvTried == s.vvTried;
      if WantsMove(t, svc) && FindsBucket(t, svc) {
        MakeTriedWrites(u, id, src);
        WritesAfter(s, u, MakeTried(u, id), src);
        if !Evicts(s, svc) {
          QuietTwice(s, u, MakeTried(u, id));
        }
      }
    }
  }

  lemma TimeQuiet(s: State, time: int)
    ensures Quiet(s, s.(nLastGood := time))
  {
  }

  lemma MarkQuiet(s: State, id: int, time: int, src: Ip)
    requires id in s.mapInfo
    ensures var u := MarkGood(s.(nLastGood := time), id, time);
      && Quiet(s, u) && (forall n | n in s.mapInfo :: n in u.mapInfo) && Origins(s.mapInfo, u.mapInfo, src)
      && forall n | n in s.mapInfo :: u.mapInfo[n].source == s.mapInfo[n].source
  {
  }

  lemma TriedKnown(s: State)
    requires Inv(s)
    ensures -1 !in s.mapInfo && forall x | x in s.vvTried :: s.vvTried[x] in s.mapInfo
  {
    forall x | x in s.vvTried ensures s.vvTried[x] in s.mapInfo {
      assert TriedSlotOk(s.env, s.nKey, s.mapInfo, x, s.vvTried[x]);
    }
  }

  lemma StepWrites(s: State, e: Event)
    requires Inv(s) && AssertsHold(s, e)
    ensures Writes(s, Step(s, e), Writer(s, e))
    ensures e.AddEvent? || (e.GoodEvent? && Evicts(s, e.svc)) || Quiet(s, Step(s, e))
  {
    hide Inv, Writes, Quiet, Add, CanAdd, Good, CanGood, Writer;
    if e.AddEvent? {
      AddWrites(s, e.addr, e.source, e.penalty, e.now, e.rnd);
      assert Writer(s, e) == e.source by { AddWriter(s, e); }
    } else if e.GoodEvent? {
      GoodWrites(s, e.svc, e.time);
    } else {
      StatisticsQuiet(s, e);
      QuietWrites(s, Step(s, e), Writer(s, e));
    }
  }

  lemma AddWriter(s: State, e: Event)
    requires e.AddEvent?
    ensures Writer(s, e) == e.source
  {
  }

  lemma StatisticsQuiet(s: State, e: Event)
    requires AssertsHold(s, e) && !e.AddEvent? && !e.GoodEvent?
    ensures Quiet(s, Step(s, e))
  {
    hide Find;
    match e
    case SwapEvent(i, j) => SwapQuiet(s, i, j);
    case AttemptEvent(svc, _, _) => TouchedQuiet(s, Known(s, svc), Step(s, e));
    case ConnectedEvent(svc, _) => TouchedQuiet(s, Known(s, svc), Step(s, e));
    case ServicesEvent(svc, _) => TouchedQuiet(s, Known(s, svc), Step(s, e));
  }

  lemma TouchedQuiet(s: State, id: int, t: State)
    requires t == s || (id in s.mapInfo && id in t.mapInfo && t == SetInfo(s, id, t.mapInfo[id])
                        && SameOrigin(t.mapInfo[id], s.mapInfo[id]))
    ensures Quiet(s, t)
  {
  }

  /** Everything that is in the new table, and every entry, was announced by sources of one group. */
  ghost predicate Announced(s: State, from: map<Slot, Ip>, g: Group) {
    && (forall x | x in from :: s.env.group(from[x]) == g)
    && (forall n | n in s.mapInfo :: s.env.group(s.mapInfo[n].source) == g)
  }

  lemma StepAnnounced(s: State, from: map<Slot, Ip>, e: Event, g: Group)
    requires Inv(s) && AssertsHold(s, e) && Traced(s, from) && Announced(s, from, g)
    requires e.AddEvent? ==> s.env.group(e.source) == g
    ensures Announced(Step(s, e), Trace(s, from, e, Step(s, e)), g)
  {
    hide Inv, AssertsHold, Step, Trace, Quiet, Writer, Writes, Announced, Traced;
    StepWrites(s, e);
    var t := Step(s, e);
    if Quiet(s, t) {
      QuietAnnounced(s, from, e, t, g);
    } else {
      WriterAnnounced(s, from, e, g);
      WritesAnnounced(s, from, e, t, g);
    }
  }

  lemma WriterAnnounced(s: State, from: map<Slot, Ip>, e: Event, g: Group)
    requires Announced(s, from, g) && (e.AddEvent? || (e.GoodEvent? && Evicts(s, e.svc)))
    requires e.AddEvent? ==> s.env.group(e.source) == g
    ensures s.env.group(Writer(s, e)) == g
  {
    hide TriedSlot;
    if e.AddEvent? {
      assert Writer(s, e) == e.source;
    } else {
      var n := s.vvTried[TriedSlot(s.env, s.nKey, e.svc)];
      assert n in s.mapInfo && Writer(s, e) == s.mapInfo[n].source;
    }
  }

  lemma QuietAnnounced(s: State, from: map<Slot, Ip>, e: Event, t: State, g: Group)
    requires Traced(s, from) && Announced(s, from, g) && Quiet(s, t)
    ensures Announced(t, Trace(s, from, e, t), g)
  {
    hide NewSlot, Writer;
    forall n | n in t.mapInfo ensures t.env.group(t.mapInfo[n].source) == g {
      assert SameOrigin(t.mapInfo[n], s.mapInfo[n]);
    }
  }

  lemma WritesAnnounced(s: State, from: map<Slot, Ip>, e: Event, t: State, g: Group)
    requires Announced(s, from, g) && Writes(s, t, Writer(s, e)) && s.env.group(Writer(s, e)) == g
    ensures Announced(t, Trace(s, from, e, t), g)
  {
    hide NewSlot, Writer, PlaceOk;
    forall n | n in t.mapInfo ensures t.env.group(t.mapInfo[n].source) == g {
      assert n in s.mapInfo ==> SameOrigin(t.mapInfo[n], s.mapInfo[n]);
    }
  }

  // ------------------------------------------------------------- whole runs

  /** t is reached from s by the events, and to says who put what there. */
  ghost predicate ReachesTraced(s: State, from: map<Slot, Ip>, es: seq<Event>, t: State, to: map<Slot, Ip>)
    decreases |es|
  {
    if es == [] then s == t && from == to
    else
      && Sensible(s, es[0])
      && (AssertsHold(s, es[0]) ==>
            ReachesTraced(Step(s, es[0]), Trace(s, from, es[0], Step(s, es[0])), es[1..], t, to))
  }

  lemma {:induction false} RunTraced(s: State, from: map<Slot, Ip>, es: seq<Event>, t: State, to: map<Slot, Ip>)
    requires Inv(s) && Traced(s, from) && ReachesTraced(s, from, es, t, to)
    ensures Inv(t) && Traced(t, to)
    decreases |es|
  {
    hide Inv, Traced, AssertsHold, Step, Trace, Writes, Writer, Sensible;
    if es != [] {
      StepKeeps(s, es[0]);
      StepWrites(s, es[0]);
      WritesTrace(s, from, es[0], Step(s, es[0]));
      RunTraced(Step(s, es[0]), Trace(s, from, es[0], Step(s, es[0])), es[1..], t, to);
    }
  }

  /** Every run has a trace. */
  lemma {:induction false} RunHasTrace(s: State, from: map<Slot, Ip>, es: seq<Event>, t: State, g: Group)
    returns (to: map<Slot, Ip>)
    requires Inv(s) && Traced(s, from) && Reaches(s, es, t) && Announced(s, from, g)
    requires forall e | e in es && e.AddEvent? :: s.env.group(e.source) == g
    ensures ReachesTraced(s, from, es, t, to) && Announced(t, to, g) && t.env == s.env
    decreases |es|
  {
    to := from;
    if es != [] {
      var e := es[0];
      StepKeeps(s, e);
      StepWrites(s, e);
      var u := Step(s, e);
      assert u.env == s.env;
      hide Inv, Traced, AssertsHold, Step, Trace, Writes, Writer, Sensible, Announced, Quiet;
      WritesTrace(s, from, e, u);
      StepAnnounced(s, from, e, g);
      to := RunHasTrace(u, Trace(s, from, e, u), es[1..], t, g);
    }
  }

  /** If the sources of all announcements are of one group, the whole new table is in at most 64 buckets. */
  lemma OneGroupIsConfined(env: Env, key: Key, es: seq<Event>, t: State, g: Group)
    requires key != NULL_KEY && Reaches(Empty(env, key), es, t)
    requires forall e | e in es && e.AddEvent? :: env.group(e.source) == g
    ensures |set x | x in t.vvNew :: x.bucket| <= NEW_BUCKETS_PER_SOURCE_GROUP
  {
    hide Inv, Reaches, ReachesTraced, NewSlot;
    EmptyInv(env, key);
    var from := RunHasTrace(Empty(env, key), map[], es, t, g);
    RunTraced(Empty(env, key), map[], es, t, from);
    NewSpread(t, from, g);
    assert (set x | x in t.vvNew :: x.bucket) == NewBuckets(t, from, g);
  }

  /**
   * On every run of a new manager, the entries of one address group are in at
   * most 8 tried buckets, and what the sources of one group put into the new
   * table is in at most 64 new buckets.
   */
  lemma EveryRunIsSpread(env: Env, key: Key, es: seq<Event>, t: State, from: map<Slot, Ip>, g: Group)
    requires key != NULL_KEY && ReachesTraced(Empty(env, key), map[], es, t, from)
    ensures |TriedBuckets(t, g)| <= TRIED_BUCKETS_PER_GROUP
    ensures from.Keys == t.vvNew.Keys && |NewBuckets(t, from, g)| <= NEW_BUCKETS_PER_SOURCE_GROUP
  {
    hide Inv, TriedBuckets, NewBuckets;
    EmptyInv(env, key);
    RunTraced(Empty(env, key), map[], es, t, from);
    TriedSpread(t, g);
    NewSpread(t, from, g);
  }
}
