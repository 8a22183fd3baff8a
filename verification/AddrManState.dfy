/**
 * The address manager of src/addrman.cpp as a value: its five redundant
 * indexes, what each operation does to them, and the invariant that every
 * operation keeps.
 */
module AddrManState {
  import opened Arithmetic

  const TRIED_BUCKET_COUNT: nat := 256
  const NEW_BUCKET_COUNT: nat := 1024
  const BUCKET_SIZE: nat := 64
  const TRIED_BUCKETS_PER_GROUP: nat := 8
  const NEW_BUCKETS_PER_SOURCE_GROUP: nat := 64
  const NEW_BUCKETS_PER_ADDRESS: nat := 8
  const HORIZON_SECONDS: nat := 30 * 24 * 60 * 60
  const RETRIES: nat := 3
  const MAX_FAILURES: nat := 10
  const MIN_FAIL_SECONDS: nat := 7 * 24 * 60 * 60
  const GETADDR_MAX_PCT: nat := 23
  const GETADDR_MAX: nat := 2500

  // -------------------------------------------------------------- data model

  type Ip = nat
  type Group = nat
  type Key = nat
  const NULL_KEY: Key := 0

  /** CService: address and port */
  datatype Service = Service(ip: Ip, port: nat)

  datatype Address = Address(svc: Service, nTime: nat, nServices: bv64)

  datatype Info = Info(addr: Address, source: Ip, nLastTry: int, nLastCountAttempt: int, nLastSuccess: int,
                       nAttempts: int, nRefCount: int, fInTried: bool, nRandomPos: int)

  datatype Slot = Slot(bucket: nat, pos: nat)

  /** GetGroup, the keyed hashes behind the bucket functions, and the routability test. */
  datatype Env = Env(
    group: Ip -> Group,
    triedHash1: (Key, Service) -> nat,
    triedHash2: (Key, Group, nat) -> nat,
    newHash1: (Key, Group, Group) -> nat,
    newHash2: (Key, Group, nat) -> nat,
    posHash: (Key, bool, nat, Service) -> nat,
    routable: Address -> bool)

  /** A table slot that holds -1 is a slot that is not in the table's map. */
  datatype State = State(
    env: Env, nKey: Key, nIdCount: int,
    mapInfo: map<int, Info>, mapAddr: map<Ip, int>, vRandom: seq<int>,
    nTried: int, vvTried: map<Slot, int>, nNew: int, vvNew: map<Slot, int>, nLastGood: int)

  function NewInfo(addr: Address, source: Ip): Info {
    Info(addr, source, 0, 0, 0, 0, 0, false, -1)
  }

  /** CAddrMan::CAddrMan */
  function Empty(env: Env, nKey: Key): State {
    State(env, nKey, 0, map[], map[], [], 0, map[], 0, map[], 1)
  }

  function BucketPosition(env: Env, key: Key, isNew: bool, bucket: nat, svc: Service): nat {
    env.posHash(key, isNew, bucket, svc) % BUCKET_SIZE
  }

  /** The bucket of an address group that the first hash selects. */
  function TriedBucketOf(env: Env, key: Key, g: Group, hash1: nat): nat {
    env.triedHash2(key, g, hash1 % TRIED_BUCKETS_PER_GROUP) % TRIED_BUCKET_COUNT
  }

  /** The bucket of a source group that the first hash selects. */
  function NewBucketOf(env: Env, key: Key, sourceGroup: Group, hash1: nat): nat {
    env.newHash2(key, sourceGroup, hash1 % NEW_BUCKETS_PER_SOURCE_GROUP) % NEW_BUCKET_COUNT
  }

  function TriedSlot(env: Env, key: Key, svc: Service): Slot {
    var b := TriedBucketOf(env, key, env.group(svc.ip), env.triedHash1(key, svc));
    Slot(b, BucketPosition(env, key, false, b, svc))
  }

  /** The place of an address in one of the new buckets. */
  function NewSlotIn(env: Env, key: Key, svc: Service, bucket: nat): Slot {
    Slot(bucket, BucketPosition(env, key, true, bucket, svc))
  }

  function NewSlot(env: Env, key: Key, svc: Service, source: Ip): Slot {
    var g := env.group(source);
    NewSlotIn(env, key, svc, NewBucketOf(env, key, g, env.newHash1(key, env.group(svc.ip), g)))
  }

  predicate IsTerrible(info: Info, now: int) {
    if info.nLastTry != 0 && info.nLastTry >= now - 60 then false
    else
      || info.addr.nTime > now + 10 * 60
      || info.addr.nTime == 0 || now - info.addr.nTime > HORIZON_SECONDS
      || (info.nLastSuccess == 0 && info.nAttempts >= RETRIES)
      || (now - info.nLastSuccess > MIN_FAIL_SECONDS && info.nAttempts >= MAX_FAILURES)
  }

  // -------------------------------------------------------------- operations

  function Find(s: State, ip: Ip): int {
    if ip in s.mapAddr && s.mapAddr[ip] in s.mapInfo then s.mapAddr[ip] else -1
  }

  function Create(s: State, addr: Address, source: Ip): State {
    var id := s.nIdCount;
    s.(nIdCount := id + 1,
       mapInfo := s.mapInfo[id := NewInfo(addr, source).(nRandomPos := |s.vRandom|)],
       mapAddr := s.mapAddr[addr.svc.ip := id],
       vRandom := s.vRandom + [id])
  }

  /** The assertions of SwapRandom. */
  predicate CanSwap(s: State, i: nat, j: nat) {
    i != j ==> i < |s.vRandom| && j < |s.vRandom| && s.vRandom[i] in s.mapInfo && s.vRandom[j] in s.mapInfo
  }

  function SwapRandom(s: State, i: nat, j: nat): State
    requires CanSwap(s, i, j)
  {
    if i == j then s
    else
      var id1, id2 := s.vRandom[i], s.vRandom[j];
      var m := s.mapInfo[id1 := s.mapInfo[id1].(nRandomPos := j)];
      s.(mapInfo := m[id2 := m[id2].(nRandomPos := i)], vRandom := s.vRandom[i := id2][j := id1])
  }

  /** The assertions of Delete. */
  predicate CanDelete(s: State, id: int) {
    && id in s.mapInfo && !s.mapInfo[id].fInTried && s.mapInfo[id].nRefCount == 0
    && |s.vRandom| > 0 && s.mapInfo[id].nRandomPos >= 0
    && CanSwap(s, s.mapInfo[id].nRandomPos, |s.vRandom| - 1)
  }

  function Delete(s: State, id: int): State
    requires CanDelete(s, id)
  {
    var t := SwapRandom(s, s.mapInfo[id].nRandomPos, |s.vRandom| - 1);
    t.(vRandom := t.vRandom[..|t.vRandom| - 1],
       mapAddr := t.mapAddr - {s.mapInfo[id].addr.svc.ip},
       mapInfo := t.mapInfo - {id},
       nNew := t.nNew - 1)
  }

  function SetInfo(s: State, id: int, info: Info): State {
    s.(mapInfo := s.mapInfo[id := info])
  }

  function AddRefs(s: State, id: int, d: int): State
    requires id in s.mapInfo
  {
    SetInfo(s, id, s.mapInfo[id].(nRefCount := s.mapInfo[id].nRefCount + d))
  }

  /** The slot emptied and its entry's count lowered, before a Delete. */
  function Unref(s: State, slot: Slot): State
    requires slot in s.vvNew && s.vvNew[slot] in s.mapInfo
  {
    AddRefs(s, s.vvNew[slot], -1).(vvNew := s.vvNew - {slot})
  }

  /** The assertions of ClearNew. */
  predicate CanClear(s: State, slot: Slot) {
    slot in s.vvNew ==>
      && s.vvNew[slot] in s.mapInfo && s.mapInfo[s.vvNew[slot]].nRefCount > 0
      && (s.mapInfo[s.vvNew[slot]].nRefCount == 1 ==> CanDelete(Unref(s, slot), s.vvNew[slot]))
  }

  function ClearNew(s: State, slot: Slot): State
    requires CanClear(s, slot)
  {
    if slot !in s.vvNew then s
    else
      var id := s.vvNew[slot];
      if s.mapInfo[id].nRefCount == 1 then Delete(Unref(s, slot), id) else Unref(s, slot)
  }

  /** An entry put into one more place of the new table. */
  function Ref(s: State, id: int, slot: Slot): State
    requires id in s.mapInfo
  {
    AddRefs(s, id, 1).(vvNew := s.vvNew[slot := id])
  }

  /** The slots among the first n new buckets in which id is found where its hash puts it. */
  function OwnSlots(s: State, id: int, n: nat): set<Slot>
    requires id in s.mapInfo
  {
    set b | 0 <= b < n && Holds(s, id, b) :: NewSlotIn(s.env, s.nKey, s.mapInfo[id].addr.svc, b)
  }

  predicate Holds(s: State, id: int, b: nat)
    requires id in s.mapInfo
  {
    var slot := NewSlotIn(s.env, s.nKey, s.mapInfo[id].addr.svc, b);
    slot in s.vvNew && s.vvNew[slot] == id
  }

  /** The first loop of MakeTried: the entry leaves every new bucket. */
  function LeaveNew(s: State, id: int): State
    requires id in s.mapInfo
  {
    var own := OwnSlots(s, id, NEW_BUCKET_COUNT);
    AddRefs(s, id, -|own|).(vvNew := s.vvNew - own, nNew := s.nNew - 1)
  }

  /** The tried entry at slot loses its place there. */
  function LeaveTried(s: State, slot: Slot): State
    requires slot in s.vvTried && s.vvTried[slot] in s.mapInfo
  {
    var id := s.vvTried[slot];
    SetInfo(s, id, s.mapInfo[id].(fInTried := false)).(vvTried := s.vvTried - {slot}, nTried := s.nTried - 1)
  }

  function EnterTried(s: State, id: int, slot: Slot): State
    requires id in s.mapInfo
  {
    SetInfo(s, id, s.mapInfo[id].(fInTried := true)).(vvTried := s.vvTried[slot := id], nTried := s.nTried + 1)
  }

  function HomeSlot(s: State, id: int): Slot
    requires id in s.mapInfo
  {
    NewSlot(s.env, s.nKey, s.mapInfo[id].addr.svc, s.mapInfo[id].source)
  }

  predicate CanEvict(s: State, slot: Slot) {
    && slot in s.vvTried && s.vvTried[slot] in s.mapInfo
    && var id := s.vvTried[slot];
       var t := LeaveTried(s, slot);
       && CanClear(t, HomeSlot(t, id))
       && id in ClearNew(t, HomeSlot(t, id)).mapInfo
       && ClearNew(t, HomeSlot(t, id)).mapInfo[id].nRefCount == 0
  }

  /** The tried entry at slot moves back to the new table, pushing out what is there. */
  function Evict(s: State, slot: Slot): State
    requires CanEvict(s, slot)
  {
    var id := s.vvTried[slot];
    var t := LeaveTried(s, slot);
    var u := ClearNew(t, HomeSlot(t, id));
    Ref(u, id, HomeSlot(t, id)).(nNew := u.nNew + 1)
  }

  /** The assertions of MakeTried. */
  predicate CanMakeTried(s: State, id: int) {
    && id in s.mapInfo
    && var t := LeaveNew(s, id);
       var slot := TriedSlot(s.env, s.nKey, s.mapInfo[id].addr.svc);
       && t.mapInfo[id].nRefCount == 0
       && (slot in t.vvTried ==> CanEvict(t, slot) && id in Evict(t, slot).mapInfo)
  }

  function MakeTried(s: State, id: int): State
    requires CanMakeTried(s, id)
  {
    var t := LeaveNew(s, id);
    var slot := TriedSlot(s.env, s.nKey, s.mapInfo[id].addr.svc);
    EnterTried(if slot in t.vvTried then Evict(t, slot) else t, id, slot)
  }

  /** The entry that Good_, Attempt_, Connected_ and SetServices_ act on, or -1. */
  function Known(s: State, svc: Service): int {
    var id := Find(s, svc.ip);
    if id != -1 && id in s.mapInfo && s.mapInfo[id].addr.svc == svc then id else -1
  }

  /** Good_ up to the search for a bucket. */
  function MarkGood(s: State, id: int, time: int): State
    requires id in s.mapInfo
  {
    SetInfo(s, id, s.mapInfo[id].(nLastSuccess := time, nLastTry := time, nAttempts := 0))
  }

  /** Whether Good_ goes on to look for the entry's bucket. */
  predicate WantsMove(s: State, svc: Service) {
    var id := Known(s, svc);
    id in s.mapInfo && !s.mapInfo[id].fInTried
  }

  /** Whether Good_ finds a bucket that holds the entry. */
  predicate FindsBucket(s: State, svc: Service) {
    var id := Known(s, svc);
    id in s.mapInfo && exists b: nat | b < NEW_BUCKET_COUNT :: Holds(s, id, b)
  }

  predicate CanGood(s: State, svc: Service, time: int) {
    var t := s.(nLastGood := time);
    WantsMove(t, svc) && FindsBucket(t, svc) ==>
      CanMakeTried(MarkGood(t, Known(t, svc), time), Known(t, svc))
  }

  function Good(s: State, svc: Service, time: int): State
    requires CanGood(s, svc, time)
  {
    var t := s.(nLastGood := time);
    var id := Known(t, svc);
    if id !in t.mapInfo then t
    else if WantsMove(t, svc) && FindsBucket(t, svc) then MakeTried(MarkGood(t, id, time), id)
    else MarkGood(t, id, time)
  }

  function Attempt(s: State, svc: Service, countFailure: bool, time: int): State {
    var id := Known(s, svc);
    if id !in s.mapInfo then s
    else
      var info := s.mapInfo[id].(nLastTry := time);
      SetInfo(s, id, if countFailure && info.nLastCountAttempt < s.nLastGood
                     then info.(nLastCountAttempt := time, nAttempts := info.nAttempts + 1) else info)
  }

  function Connected(s: State, svc: Service, time: nat): State {
    var id := Known(s, svc);
    if id !in s.mapInfo then s
    else
      var info := s.mapInfo[id];
      if time - info.addr.nTime > 20 * 60 then SetInfo(s, id, info.(addr := info.addr.(nTime := time))) else s
  }

  function SetServices(s: State, svc: Service, services: bv64): State {
    var id := Known(s, svc);
    if id !in s.mapInfo then s
    else SetInfo(s, id, s.mapInfo[id].(addr := s.mapInfo[id].addr.(nServices := services)))
  }

  // ------------------------------------------------------------ adding

  function NonNegative(x: int): nat {
    if x < 0 then 0 else x
  }

  /** What Add_ writes into an entry that it already has. */
  function Refresh(info: Info, addr: Address, penalty: int, now: int): Info {
    var interval := if now - addr.nTime < 24 * 60 * 60 then 60 * 60 else 24 * 60 * 60;
    var time :=
      if addr.nTime != 0 && (info.addr.nTime == 0 || info.addr.nTime < addr.nTime - interval - penalty)
      then NonNegative(addr.nTime - penalty) else info.addr.nTime;
    info.(addr := info.addr.(nTime := time, nServices := info.addr.nServices | addr.nServices))
  }

  /** Whether a known entry may get one more place; rnd is the random number drawn. */
  predicate MayRepeat(info: Info, addr: Address, rnd: nat) {
    && !(addr.nTime == 0 || (info.addr.nTime != 0 && addr.nTime <= info.addr.nTime))
    && !info.fInTried
    && info.nRefCount != NEW_BUCKETS_PER_ADDRESS
    && (info.nRefCount >= 1 ==> rnd % Pow2(info.nRefCount) == 0)
  }

  /** Whether the entry may take a slot; an occupant gives way if it is terrible or has other places. */
  predicate Wins(s: State, id: int, slot: Slot, now: int)
    requires id in s.mapInfo && (slot in s.vvNew ==> s.vvNew[slot] in s.mapInfo)
  {
    slot in s.vvNew ==>
      var other := s.mapInfo[s.vvNew[slot]];
      IsTerrible(other, now) || (other.nRefCount > 1 && s.mapInfo[id].nRefCount == 0)
  }

  predicate CanPlace(s: State, id: int, source: Ip, now: int) {
    && id in s.mapInfo
    && var slot := NewSlot(s.env, s.nKey, s.mapInfo[id].addr.svc, source);
       && (slot in s.vvNew ==> s.vvNew[slot] in s.mapInfo)
       && (!(slot in s.vvNew && s.vvNew[slot] == id) ==>
             if Wins(s, id, slot, now) then CanClear(s, slot) && id in ClearNew(s, slot).mapInfo
             else s.mapInfo[id].nRefCount == 0 ==> CanDelete(s, id))
  }

  /** The second half of Add_. */
  function Place(s: State, id: int, source: Ip, now: int): State
    requires CanPlace(s, id, source, now)
  {
    var slot := NewSlot(s.env, s.nKey, s.mapInfo[id].addr.svc, source);
    if slot in s.vvNew && s.vvNew[slot] == id then s
    else if Wins(s, id, slot, now) then Ref(ClearNew(s, slot), id, slot)
    else if s.mapInfo[id].nRefCount == 0 then Delete(s, id)
    else s
  }

  /** The entry that Add_ creates, with its time lowered by the penalty. */
  function Created(s: State, addr: Address, source: Ip, penalty: int): State {
    var t := Create(s, addr, source);
    var info := t.mapInfo[s.nIdCount];
    SetInfo(t, s.nIdCount, info.(addr := info.addr.(nTime := NonNegative(info.addr.nTime - penalty)))).
      (nNew := t.nNew + 1)
  }

  function Penalty(addr: Address, source: Ip, penalty: int): int {
    if addr.svc.ip == source then 0 else penalty
  }

  predicate CanAdd(s: State, addr: Address, source: Ip, penalty: int, now: int, rnd: nat) {
    s.env.routable(addr) ==>
      var id := Find(s, addr.svc.ip);
      var p := Penalty(addr, source, penalty);
      if id in s.mapInfo then
        var info := Refresh(s.mapInfo[id], addr, p, now);
        MayRepeat(info, addr, rnd) ==> CanPlace(SetInfo(s, id, info), id, source, now)
      else
        CanPlace(Created(s, addr, source, p), s.nIdCount, source, now)
  }

  /** Add_: the new state, and whether the address was new to the manager. */
  function Add(s: State, addr: Address, source: Ip, penalty: int, now: int, rnd: nat): (State, bool)
    requires CanAdd(s, addr, source, penalty, now, rnd)
  {
    var id := Find(s, addr.svc.ip);
    var p := Penalty(addr, source, penalty);
    if !s.env.routable(addr) then (s, false)
    else if id in s.mapInfo then
      var info := Refresh(s.mapInfo[id], addr, p, now);
      var t := SetInfo(s, id, info);
      if MayRepeat(info, addr, rnd) then (Place(t, id, source, now), false) else (t, false)
    else
      (Place(Created(s, addr, source, p), s.nIdCount, source, now), true)
  }
}
