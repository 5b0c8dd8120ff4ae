/** The indexes of the address manager as one value, the steps operations are made of, and the invariant. */
module AddrTables {
  import opened Wrappers

  type Key = nat
  type Ip = nat

  const NEW_BUCKET_COUNT: nat := 1024
  const TRIED_BUCKET_COUNT: nat := 256
  const BUCKET_SIZE: nat := 64
  const NEW_BUCKETS_PER_ADDRESS: nat := 8
  const HORIZON_DAYS := 30
  const RETRIES := 3
  const MAX_FAILURES := 10
  const MIN_FAIL_DAYS := 7
  const GETADDR_MAX_PCT := 23
  const GETADDR_MAX := 2500

  type NewBucket = b: nat | b < NEW_BUCKET_COUNT
  type TriedBucket = b: nat | b < TRIED_BUCKET_COUNT
  type Position = p: nat | p < BUCKET_SIZE

  /** The keyed hashes that say where an address may sit, and which addresses are routable. */
  datatype Env = Env(
    triedBucket: (Key, Service) -> TriedBucket,
    newBucket: (Key, Ip, Ip) -> NewBucket,
    position: (Key, bool, nat, Service) -> Position,
    routable: Ip -> bool)

  /** An endpoint: what CService compares. */
  datatype Service = Service(ip: Ip, port: nat)

  /** An endpoint with the service bits that are set and the time it was last heard of. */
  datatype Address = Address(service: Service, services: set<nat>, time: int)

  datatype Info = Info(address: Address, source: Ip, lastTry: int, lastSuccess: int, attempts: int,
                       refCount: int, inTried: bool, randomPos: int) {
    function Ip(): Ip { address.service.ip }

    /** Bad enough to be thrown away. */
    predicate IsTerrible(now: int) {
      if lastTry != 0 && lastTry >= now - 60 then false
      else if address.time > now + 10 * 60 then true
      else if address.time == 0 || now - address.time > HORIZON_DAYS * 24 * 60 * 60 then true
      else if lastSuccess == 0 && attempts >= RETRIES then true
      else now - lastSuccess > MIN_FAIL_DAYS * 24 * 60 * 60 && attempts >= MAX_FAILURES
    }
  }

  datatype Slot = Slot(bucket: nat, pos: nat)

  /** The tables hold only their occupied slots; the original writes -1 into the others. */
  datatype State = State(
    key: Key,
    idCount: nat,
    info: map<nat, Info>,
    addrs: map<Ip, nat>,
    random: seq<nat>,
    nTried: int,
    tried: map<Slot, nat>,
    nNew: int,
    news: map<Slot, nat>)

  function Empty(key: Key): State {
    State(key, 0, map[], map[], [], 0, map[], 0, map[])
  }

  function TriedSlot(e: Env, key: Key, a: Service): Slot {
    var b := e.triedBucket(key, a);
    Slot(b, e.position(key, false, b, a))
  }

  function NewSlot(e: Env, key: Key, a: Service, source: Ip): Slot {
    var b := e.newBucket(key, a.ip, source);
    Slot(b, e.position(key, true, b, a))
  }

  // ---------- the invariant ----------

  // Each clause is a predicate of one id, address, position or slot, so that a proof can say
  // which instances it needs.

  ghost predicate IdNamed(s: State, id: nat) {
    id in s.info ==> id < s.idCount && s.info[id].Ip() in s.addrs && s.addrs[s.info[id].Ip()] == id
  }

  ghost predicate NameKnown(s: State, a: Ip) {
    a in s.addrs ==> s.addrs[a] in s.info && s.info[s.addrs[a]].Ip() == a
  }

  ghost predicate IdPlaced(s: State, id: nat) {
    id in s.info ==> 0 <= s.info[id].randomPos < |s.random| && s.random[s.info[id].randomPos] == id
  }

  ghost predicate PlaceKnown(s: State, k: nat) {
    k < |s.random| ==> s.random[k] in s.info && s.info[s.random[k]].randomPos == k
  }

  ghost predicate NewSlotOk(e: Env, s: State, slot: Slot) {
    slot in s.news ==>
      && slot.bucket < NEW_BUCKET_COUNT
      && s.news[slot] in s.info && !s.info[s.news[slot]].inTried
      && slot.pos == e.position(s.key, true, slot.bucket, s.info[s.news[slot]].address.service)
  }

  ghost predicate TriedSlotOk(e: Env, s: State, slot: Slot) {
    slot in s.tried ==>
      && s.tried[slot] in s.info && s.info[s.tried[slot]].inTried
      && slot == TriedSlot(e, s.key, s.info[s.tried[slot]].address.service)
  }

  ghost predicate TriedIdOk(e: Env, s: State, id: nat) {
    id in s.info && s.info[id].inTried ==>
      var slot := TriedSlot(e, s.key, s.info[id].address.service);
      slot in s.tried && s.tried[slot] == id
  }

  function Refs(news: map<Slot, nat>, id: nat): set<Slot> {
    set slot | slot in news && news[slot] == id
  }

  ghost predicate RefOk(s: State, detached: set<nat>, id: nat) {
    id in s.info ==>
      && s.info[id].refCount == |Refs(s.news, id)| <= NEW_BUCKETS_PER_ADDRESS
      && (s.info[id].inTried || id in detached <==> s.info[id].refCount == 0)
  }

  /** The name index and the records are mutual inverses. */
  ghost predicate AddrsOk(s: State) {
    (forall id :: IdNamed(s, id)) && (forall a :: NameKnown(s, a))
  }

  /** The random vector and the positions remembered in the records are mutual inverses. */
  ghost predicate RandomOk(s: State) {
    (forall id :: IdPlaced(s, id)) && (forall k :: PlaceKnown(s, k))
  }

  /** Every occupied "new" slot is one its occupant hashes to. */
  ghost predicate NewsOk(e: Env, s: State) {
    forall slot :: NewSlotOk(e, s, slot)
  }

  /** An id is tried exactly if it occupies the one "tried" slot it hashes to. */
  ghost predicate TriedOk(e: Env, s: State) {
    (forall slot :: TriedSlotOk(e, s, slot)) && (forall id :: TriedIdOk(e, s, id))
  }

  /** Reference counts are exact, at most 8, and 0 for tried and detached ids only. */
  ghost predicate RefsOk(s: State, detached: set<nat>) {
    forall id :: RefOk(s, detached, id)
  }

  function NewIds(s: State): set<nat> {
    set id | id in s.info && !s.info[id].inTried
  }

  function TriedIds(s: State): set<nat> {
    set id | id in s.info && s.info[id].inTried
  }

  /** `nTried` counts the tried ids; `nNew` counts the others, but only `extra` of the detached ones. */
  ghost predicate Counted(s: State, detached: set<nat>, extra: int) {
    && detached <= NewIds(s)
    && s.nNew == |NewIds(s) - detached| + extra
    && s.nTried == |TriedIds(s)|
  }

  /** Everything but the name index is in order, but the ids in `detached` are in neither table yet. */
  ghost predicate Indexed(e: Env, s: State, detached: set<nat>, extra: int) {
    RandomOk(s) && NewsOk(e, s) && TriedOk(e, s) && RefsOk(s, detached) && Counted(s, detached, extra)
  }

  /** The invariant in the middle of an operation. */
  ghost predicate Loose(e: Env, s: State, detached: set<nat>, extra: int) {
    AddrsOk(s) && Indexed(e, s, detached, extra)
  }

  ghost predicate Inv(e: Env, s: State) {
    Loose(e, s, {}, 0)
  }

  // ---------- steps ----------

  function Find(s: State, a: Ip): Option<nat> {
    if a in s.addrs then Some(s.addrs[a]) else None
  }

  function FreshInfo(a: Address, source: Ip, randomPos: int): Info {
    Info(a, source, 0, 0, 0, 0, false, randomPos)
  }

  function Create(s: State, a: Address, source: Ip): State {
    s.(idCount := s.idCount + 1,
       info := s.info[s.idCount := FreshInfo(a, source, |s.random|)],
       addrs := s.addrs[a.service.ip := s.idCount],
       random := s.random + [s.idCount])
  }

  function SwapRandom(s: State, i: nat, j: nat): State
    requires i < |s.random| && j < |s.random|
    requires s.random[i] in s.info && s.random[j] in s.info
  {
    if i == j then s else
      var a, b := s.random[i], s.random[j];
      var moved := s.info[a := s.info[a].(randomPos := j)];
      s.(info := moved[b := moved[b].(randomPos := i)],
         random := s.random[i := b][j := a])
  }

  predicate CanDelete(s: State, id: nat) {
    && id in s.info && !s.info[id].inTried && s.info[id].refCount == 0
    && 0 <= s.info[id].randomPos < |s.random| && s.random[s.info[id].randomPos] in s.info
    && s.random[|s.random| - 1] in s.info
  }

  function Delete(s: State, id: nat): State
    requires CanDelete(s, id)
  {
    var s1 := SwapRandom(s, s.info[id].randomPos, |s.random| - 1);
    s1.(random := s1.random[..|s1.random| - 1],
        addrs := s1.addrs - {s.info[id].Ip()},
        info := s1.info - {id},
        nNew := s1.nNew - 1)
  }

  predicate CanClearNew(s: State, slot: Slot) {
    slot in s.news ==>
      var id := s.news[slot];
      && id in s.info && s.info[id].refCount > 0
      && (s.info[id].refCount == 1 ==> CanDelete(DropRef(s, slot), id))
  }

  function DropRef(s: State, slot: Slot): State
    requires slot in s.news && s.news[slot] in s.info
  {
    var id := s.news[slot];
    s.(info := s.info[id := s.info[id].(refCount := s.info[id].refCount - 1)], news := s.news - {slot})
  }

  function ClearNew(s: State, slot: Slot): State
    requires CanClearNew(s, slot)
  {
    if slot !in s.news then s else
      var s1 := DropRef(s, slot);
      if s1.info[s.news[slot]].refCount == 0 then Delete(s1, s.news[slot]) else s1
  }

  /** Taking an id out of every "new" bucket, the first half of MakeTried. */
  function Detach(s: State, id: nat): State
    requires id in s.info
  {
    s.(info := s.info[id := s.info[id].(refCount := s.info[id].refCount - |Refs(s.news, id)|)],
       news := s.news - Refs(s.news, id),
       nNew := s.nNew - 1)
  }

  /** The occupant of a "tried" slot loses it, before it gets a "new" slot instead. */
  function Evict(s: State, slot: Slot): State
    requires slot in s.tried && s.tried[slot] in s.info
  {
    var id := s.tried[slot];
    s.(info := s.info[id := s.info[id].(inTried := false)], tried := s.tried - {slot}, nTried := s.nTried - 1)
  }

  /** An id takes a free "new" slot. */
  function TakeNew(s: State, id: nat, slot: Slot, refCount: int): State
    requires id in s.info
  {
    s.(info := s.info[id := s.info[id].(refCount := refCount)], news := s.news[slot := id])
  }

  function TakeTried(s: State, id: nat, slot: Slot): State
    requires id in s.info
  {
    s.(info := s.info[id := s.info[id].(inTried := true)], tried := s.tried[slot := id], nTried := s.nTried + 1)
  }

  // ---------- what each step keeps ----------

  lemma SwapRandomAt(s: State, i: nat, j: nat, id: nat)
    requires RandomOk(s) && i < |s.random| && j < |s.random| && id in s.info
    ensures PlaceKnown(s, i) && PlaceKnown(s, j)
    ensures id in SwapRandom(s, i, j).info
    ensures SwapRandom(s, i, j).info[id] == s.info[id].(randomPos :=
              if id == s.random[i] then j else if id == s.random[j] then i else s.info[id].randomPos)
  {
    assert PlaceKnown(s, i) && PlaceKnown(s, j);
  }

  lemma SwapRandomKeeps(s: State, i: nat, j: nat)
    requires RandomOk(s) && i < |s.random| && j < |s.random|
    ensures PlaceKnown(s, i) && PlaceKnown(s, j)
    ensures RandomOk(SwapRandom(s, i, j))
  {
    assert PlaceKnown(s, i) && PlaceKnown(s, j);
    var s' := SwapRandom(s, i, j);
    forall id ensures IdPlaced(s', id) {
      assert IdPlaced(s, id);
    }
    forall k ensures PlaceKnown(s', k) {
      assert PlaceKnown(s, k);
    }
  }

  lemma CreateNames(s: State, a: Address, source: Ip)
    requires AddrsOk(s) && a.service.ip !in s.addrs
    ensures s.idCount !in s.info
    ensures AddrsOk(Create(s, a, source))
  {
    var s' := Create(s, a, source);
    assert IdNamed(s, s.idCount);
    forall id ensures IdNamed(s', id) {
      assert IdNamed(s, id);
    }
    forall a ensures NameKnown(s', a) {
      assert NameKnown(s, a);
    }
  }

  lemma CreatePlaces(s: State, a: Address, source: Ip)
    requires RandomOk(s) && s.idCount !in s.info
    ensures RandomOk(Create(s, a, source))
  {
    var s' := Create(s, a, source);
    forall id ensures IdPlaced(s', id) {
      assert IdPlaced(s, id);
    }
    forall k ensures PlaceKnown(s', k) {
      assert PlaceKnown(s, k);
    }
  }

  lemma UnknownIsUnlisted(e: Env, s: State, id: nat)
    requires NewsOk(e, s) && id !in s.info
    ensures Refs(s.news, id) == {}
  {
    forall slot ensures slot !in Refs(s.news, id) {
      assert NewSlotOk(e, s, slot);
    }
  }

  lemma CreateTables(e: Env, s: State, a: Address, source: Ip, detached: set<nat>)
    requires NewsOk(e, s) && TriedOk(e, s) && RefsOk(s, detached) && s.idCount !in s.info
    ensures var s' := Create(s, a, source); NewsOk(e, s') && TriedOk(e, s') && RefsOk(s', detached + {s.idCount})
  {
    var s' := Create(s, a, source);
    forall slot ensures NewSlotOk(e, s', slot) && TriedSlotOk(e, s', slot) {
      assert NewSlotOk(e, s, slot) && TriedSlotOk(e, s, slot);
    }
    forall id ensures TriedIdOk(e, s', id) && RefOk(s', detached + {s.idCount}, id) {
      assert TriedIdOk(e, s, id) && RefOk(s, detached, id);
      if id == s.idCount {
        UnknownIsUnlisted(e, s, id);
      }
    }
  }

  lemma CreateCounts(s: State, a: Address, source: Ip, detached: set<nat>, extra: int)
    requires Counted(s, detached, extra) && s.idCount !in s.info
    ensures Counted(Create(s, a, source), detached + {s.idCount}, extra)
  {
    var n, s' := s.idCount, Create(s, a, source);
    CreatedIds(s, a, source);
    hide Create, NewIds, TriedIds;
    assert NewIds(s') - (detached + {n}) == NewIds(s) - detached;
  }

  lemma CreatedIds(s: State, a: Address, source: Ip)
    requires s.idCount !in s.info
    ensures var s' := Create(s, a, source);
            && s.idCount !in NewIds(s) && NewIds(s') == NewIds(s) + {s.idCount} && TriedIds(s') == TriedIds(s)
            && s'.nNew == s.nNew && s'.nTried == s.nTried
  {
  }

  lemma SubsetSize<T>(a: set<T>, b: set<T>)
    requires a <= b
    ensures |a| <= |b|
  {
    assert b == a + (b - a);
  }

  lemma BothSides(s: State)
    ensures |s.info| == |NewIds(s)| + |TriedIds(s)| && NewIds(s) - {} == NewIds(s)
  {
    assert s.info.Keys == NewIds(s) + TriedIds(s);
  }

  /** Which ids are tried and which are not depends on nothing else. */
  lemma SameSides(s: State, s': State)
    requires s'.info.Keys == s.info.Keys && forall id | id in s.info :: s'.info[id].inTried == s.info[id].inTried
    ensures NewIds(s') == NewIds(s) && TriedIds(s') == TriedIds(s)
  {
  }

  lemma CreateIndexes(e: Env, s: State, a: Address, source: Ip, detached: set<nat>, extra: int)
    requires Indexed(e, s, detached, extra) && s.idCount !in s.info
    ensures Indexed(e, Create(s, a, source), detached + {s.idCount}, extra)
  {
    hide RandomOk, NewsOk, TriedOk, RefsOk, Counted, Create;
    CreatePlaces(s, a, source);
    CreateTables(e, s, a, source, detached);
    CreateCounts(s, a, source, detached, extra);
  }

  lemma CreateKeeps(e: Env, s: State, a: Address, source: Ip, detached: set<nat>, extra: int)
    requires Loose(e, s, detached, extra) && a.service.ip !in s.addrs
    ensures s.idCount !in s.info
    ensures Loose(e, Create(s, a, source), detached + {s.idCount}, extra)
  {
    hide AddrsOk, Indexed, Create;
    CreateNames(s, a, source);
    CreateIndexes(e, s, a, source, detached, extra);
  }

  // ----- Delete -----

  /** The record is the same except for its place in the random vector. */
  ghost predicate Kept(s: State, s': State, id: nat) {
    id in s.info ==> id in s'.info && s'.info[id] == s.info[id].(randomPos := s'.info[id].randomPos)
  }

  lemma DeleteIsPossible(s: State, id: nat)
    requires RandomOk(s) && id in s.info && !s.info[id].inTried && s.info[id].refCount == 0
    ensures CanDelete(s, id)
  {
    assert IdPlaced(s, id) && PlaceKnown(s, |s.random| - 1);
  }

  lemma DeleteLeavesOthers(s: State, id: nat)
    requires RandomOk(s) && CanDelete(s, id)
    ensures Delete(s, id).info.Keys == s.info.Keys - {id}
    ensures forall i | i != id :: Kept(s, Delete(s, id), i)
    ensures var s' := Delete(s, id); s'.news == s.news && s'.tried == s.tried && s'.key == s.key
  {
    forall i ensures i != id ==> Kept(s, Delete(s, id), i)
    {
      if i in s.info {
        SwapRandomAt(s, s.info[id].randomPos, |s.random| - 1, i);
      }
    }
    SwapRandomAt(s, s.info[id].randomPos, |s.random| - 1, id);
  }

  lemma DeleteNames(s: State, id: nat)
    requires AddrsOk(s) && RandomOk(s) && CanDelete(s, id)
    ensures AddrsOk(Delete(s, id))
  {
    var s' := Delete(s, id);
    DeleteLeavesOthers(s, id);
    forall i ensures IdNamed(s', i) {
      assert IdNamed(s, i) && IdNamed(s, id);
      assert i in s'.info ==> i != id && i in s.info && Kept(s, s', i);
    }
    forall a ensures NameKnown(s', a) {
      assert NameKnown(s, a);
      assert a in s'.addrs ==> Kept(s, s', s.addrs[a]);
    }
  }

  lemma DeletePlaces(s: State, id: nat)
    requires RandomOk(s) && CanDelete(s, id)
    ensures RandomOk(Delete(s, id))
  {
    var p, last := s.info[id].randomPos, |s.random| - 1;
    var s1, s' := SwapRandom(s, p, last), Delete(s, id);
    SwapRandomKeeps(s, p, last);
    assert IdPlaced(s, id);
    forall i ensures IdPlaced(s', i) {
      assert IdPlaced(s1, i);
    }
    forall k ensures PlaceKnown(s', k) {
      assert PlaceKnown(s1, k) && PlaceKnown(s1, last);
    }
  }

  lemma DeleteTables(e: Env, s: State, id: nat, detached: set<nat>)
    requires NewsOk(e, s) && TriedOk(e, s) && RefsOk(s, detached) && RandomOk(s) && CanDelete(s, id)
    ensures var s' := Delete(s, id); NewsOk(e, s') && TriedOk(e, s') && RefsOk(s', detached - {id})
  {
    var s' := Delete(s, id);
    DeleteLeavesOthers(s, id);
    assert RefOk(s, detached, id);
    forall slot ensures NewSlotOk(e, s', slot) && TriedSlotOk(e, s', slot) {
      assert NewSlotOk(e, s, slot) && TriedSlotOk(e, s, slot);
      if slot in s.news {
        assert s.news[slot] == id ==> slot in Refs(s.news, id);
        assert Kept(s, s', s.news[slot]);
      }
      if slot in s.tried {
        assert Kept(s, s', s.tried[slot]);
      }
    }
    forall i ensures TriedIdOk(e, s', i) && RefOk(s', detached - {id}, i) {
      assert TriedIdOk(e, s, i) && RefOk(s, detached, i);
      assert i in s'.info ==> i != id && Kept(s, s', i);
    }
  }

  lemma DeleteCounts(s: State, id: nat, detached: set<nat>, extra: int)
    requires Counted(s, detached, extra) && id in detached && RandomOk(s) && CanDelete(s, id)
    ensures Counted(Delete(s, id), detached - {id}, extra - 1)
  {
    var s' := Delete(s, id);
    DeleteLeavesOthers(s, id);
    forall i ensures i in NewIds(s') <==> i in NewIds(s) && i != id
             ensures i in TriedIds(s') <==> i in TriedIds(s)
    {
      assert i != id ==> Kept(s, s', i);
    }
    assert NewIds(s') - (detached - {id}) == NewIds(s) - detached;
    assert TriedIds(s') == TriedIds(s);
  }

  lemma DeleteIndexes(e: Env, s: State, id: nat, detached: set<nat>, extra: int)
    requires Indexed(e, s, detached, extra) && id in detached
    ensures CanDelete(s, id)
    ensures Indexed(e, Delete(s, id), detached - {id}, extra - 1)
  {
    assert RefOk(s, detached, id);
    DeleteIsPossible(s, id);
    hide RandomOk, NewsOk, TriedOk, RefsOk, Counted, Delete, CanDelete;
    DeletePlaces(s, id);
    DeleteTables(e, s, id, detached);
    DeleteCounts(s, id, detached, extra);
  }

  lemma DeleteKeeps(e: Env, s: State, id: nat, detached: set<nat>, extra: int)
    requires Loose(e, s, detached, extra) && id in detached
    ensures CanDelete(s, id)
    ensures Loose(e, Delete(s, id), detached - {id}, extra - 1)
  {
    hide RandomOk, NewsOk, TriedOk, RefsOk, Counted, AddrsOk, Delete, CanDelete;
    DeleteIndexes(e, s, id, detached, extra);
    DeleteNames(s, id);
  }

  // ----- steps that edit one record and the tables -----

  /** Ids, names and places are untouched. */
  ghost predicate SameIdentity(s: State, s': State) {
    && s'.info.Keys == s.info.Keys && s'.addrs == s.addrs && s'.idCount == s.idCount && s'.random == s.random
    && (forall id | id in s.info :: s'.info[id].Ip() == s.info[id].Ip() && s'.info[id].randomPos == s.info[id].randomPos)
  }

  lemma PlacesKept(s: State, s': State)
    requires RandomOk(s) && SameIdentity(s, s')
    ensures RandomOk(s')
  {
    forall id ensures IdPlaced(s', id) {
      assert IdPlaced(s, id);
    }
    forall k ensures PlaceKnown(s', k) {
      assert PlaceKnown(s, k);
    }
  }

  lemma NamesKept(s: State, s': State)
    requires AddrsOk(s) && SameIdentity(s, s')
    ensures AddrsOk(s')
  {
    forall id ensures IdNamed(s', id) {
      assert IdNamed(s, id);
    }
    forall a ensures NameKnown(s', a) {
      assert NameKnown(s, a);
    }
  }

  lemma IdentityKept(s: State, s': State)
    requires AddrsOk(s) && RandomOk(s) && SameIdentity(s, s')
    ensures AddrsOk(s') && RandomOk(s')
  {
    NamesKept(s, s');
    PlacesKept(s, s');
  }

  lemma DropRefTables(e: Env, s: State, slot: Slot, detached: set<nat>)
    requires NewsOk(e, s) && TriedOk(e, s) && RefsOk(s, detached)
    requires slot in s.news && s.news[slot] in s.info
    ensures var id, s' := s.news[slot], DropRef(s, slot);
            NewsOk(e, s') && TriedOk(e, s') && RefsOk(s', if s'.info[id].refCount == 0 then detached + {id} else detached)
  {
    var id, s' := s.news[slot], DropRef(s, slot);
    var d := if s'.info[id].refCount == 0 then detached + {id} else detached;
    forall sl ensures NewSlotOk(e, s', sl) && TriedSlotOk(e, s', sl) {
      assert NewSlotOk(e, s, sl) && TriedSlotOk(e, s, sl);
    }
    assert NewSlotOk(e, s, slot);
    forall i ensures TriedIdOk(e, s', i) && RefOk(s', d, i) {
      assert TriedIdOk(e, s, i) && RefOk(s, detached, i);
      assert slot in Refs(s.news, id);
      assert Refs(s'.news, i) == Refs(s.news, i) - {slot};
    }
  }

  lemma DropRefCounts(s: State, slot: Slot, detached: set<nat>, extra: int)
    requires Counted(s, detached, extra)
    requires slot in s.news && s.news[slot] in s.info && !s.info[s.news[slot]].inTried && s.news[slot] !in detached
    ensures Counted(DropRef(s, slot), detached, extra)
    ensures Counted(DropRef(s, slot), detached + {s.news[slot]}, extra + 1)
  {
    var id, s' := s.news[slot], DropRef(s, slot);
    assert NewIds(s') == NewIds(s) && TriedIds(s') == TriedIds(s);
    assert NewIds(s) - detached == (NewIds(s) - (detached + {id})) + {id};
  }

  lemma ClearNewIsPossible(e: Env, s: State, slot: Slot, detached: set<nat>, extra: int)
    requires Loose(e, s, detached, extra)
    ensures CanClearNew(s, slot)
    ensures slot in s.news ==> s.news[slot] in s.info && !s.info[s.news[slot]].inTried && s.news[slot] !in detached
  {
    if slot in s.news {
      var id := s.news[slot];
      assert NewSlotOk(e, s, slot) && RefOk(s, detached, id);
      assert slot in Refs(s.news, id);
      IdentityKept(s, DropRef(s, slot));
      if s.info[id].refCount == 1 {
        DeleteIsPossible(DropRef(s, slot), id);
      }
    }
  }

  lemma ClearNewKeeps(e: Env, s: State, slot: Slot, detached: set<nat>, extra: int)
    requires Loose(e, s, detached, extra)
    ensures CanClearNew(s, slot)
    ensures Loose(e, ClearNew(s, slot), detached, extra)
  {
    ClearNewIsPossible(e, s, slot, detached, extra);
    if slot in s.news {
      var id, s1 := s.news[slot], DropRef(s, slot);
      IdentityKept(s, s1);
      DropRefTables(e, s, slot, detached);
      DropRefCounts(s, slot, detached, extra);
      if s1.info[id].refCount == 0 {
        DeleteKeeps(e, s1, id, detached + {id}, extra + 1);
        assert detached + {id} - {id} == detached;
      }
    }
  }

  /** Clearing a slot frees it and touches no record but its occupant's. */
  lemma ClearNewFrame(s: State, slot: Slot)
    requires AddrsOk(s) && RandomOk(s) && CanClearNew(s, slot)
    ensures ClearNew(s, slot).news == s.news - {slot}
    ensures ClearNew(s, slot).tried == s.tried && ClearNew(s, slot).key == s.key
    ensures forall i | slot !in s.news || i != s.news[slot] :: Kept(s, ClearNew(s, slot), i)
  {
    if slot in s.news {
      var id, s1 := s.news[slot], DropRef(s, slot);
      IdentityKept(s, s1);
      if s1.info[id].refCount == 0 {
        DeleteLeavesOthers(s1, id);
        forall i | i != id ensures Kept(s, ClearNew(s, slot), i) {
          assert Kept(s1, ClearNew(s, slot), i);
        }
      }
    }
  }

  lemma DetachKeeps(e: Env, s: State, id: nat)
    requires Inv(e, s) && id in s.info && !s.info[id].inTried
    ensures Loose(e, Detach(s, id), {id}, 0) && Detach(s, id).info[id].refCount == 0
  {
    hide AddrsOk, RandomOk, NewsOk, TriedOk, RefsOk, NewIds, TriedIds;
    var s' := Detach(s, id);
    IdentityKept(s, s');
    DetachTables(e, s, id);
    DetachCounts(s, id);
    NoRefsLeft(s, id);
  }

  lemma DetachCounts(s: State, id: nat)
    requires Counted(s, {}, 0) && id in s.info && !s.info[id].inTried
    ensures Counted(Detach(s, id), {id}, 0)
  {
    SameSides(s, Detach(s, id));
    assert id in NewIds(s);
    hide NewIds, TriedIds;
    assert NewIds(s) - {} == (NewIds(s) - {id}) + {id};
  }

  lemma NoRefsLeft(s: State, id: nat)
    requires RefsOk(s, {}) && id in s.info
    ensures Detach(s, id).info[id].refCount == 0
  {
    assert RefOk(s, {}, id);
  }

  lemma DetachTables(e: Env, s: State, id: nat)
    requires NewsOk(e, s) && TriedOk(e, s) && RefsOk(s, {}) && id in s.info && !s.info[id].inTried
    ensures var s' := Detach(s, id); NewsOk(e, s') && TriedOk(e, s') && RefsOk(s', {id})
  {
    var s' := Detach(s, id);
    forall slot ensures NewSlotOk(e, s', slot) && TriedSlotOk(e, s', slot) {
      assert NewSlotOk(e, s, slot) && TriedSlotOk(e, s, slot);
    }
    forall i ensures TriedIdOk(e, s', i) && RefOk(s', {id}, i) {
      assert TriedIdOk(e, s, i) && RefOk(s, {}, i) && RefOk(s, {}, id);
      assert Refs(s'.news, i) == if i == id then {} else Refs(s.news, i);
    }
  }

  lemma EvictTables(e: Env, s: State, slot: Slot, detached: set<nat>)
    requires NewsOk(e, s) && TriedOk(e, s) && RefsOk(s, detached) && slot in s.tried && s.tried[slot] in s.info
    ensures var s' := Evict(s, slot); NewsOk(e, s') && TriedOk(e, s') && RefsOk(s', detached + {s.tried[slot]})
  {
    var id, s' := s.tried[slot], Evict(s, slot);
    assert TriedSlotOk(e, s, slot);
    forall sl ensures NewSlotOk(e, s', sl) && TriedSlotOk(e, s', sl) {
      assert NewSlotOk(e, s, sl) && TriedSlotOk(e, s, sl);
    }
    forall i ensures TriedIdOk(e, s', i) && RefOk(s', detached + {id}, i) {
      assert TriedIdOk(e, s, i) && RefOk(s, detached, i);
    }
  }

  lemma EvictCounts(s: State, slot: Slot, detached: set<nat>, extra: int)
    requires Counted(s, detached, extra) && slot in s.tried && s.tried[slot] in s.info && s.info[s.tried[slot]].inTried
    ensures Counted(Evict(s, slot), detached + {s.tried[slot]}, extra)
  {
    var id, s' := s.tried[slot], Evict(s, slot);
    assert NewIds(s') - (detached + {id}) == NewIds(s) - detached;
    assert TriedIds(s) == TriedIds(s') + {id};
  }

  lemma EvictKeeps(e: Env, s: State, slot: Slot, detached: set<nat>, extra: int)
    requires Loose(e, s, detached, extra) && slot in s.tried
    ensures s.tried[slot] in s.info && s.tried[slot] !in detached
    ensures Loose(e, Evict(s, slot), detached + {s.tried[slot]}, extra)
  {
    assert TriedSlotOk(e, s, slot);
    var id, s' := s.tried[slot], Evict(s, slot);
    IdentityKept(s, s');
    EvictTables(e, s, slot, detached);
    EvictCounts(s, slot, detached, extra);
  }

  lemma RefsAfterTake(news: map<Slot, nat>, id: nat, slot: Slot, i: nat)
    requires slot !in news
    ensures |Refs(news[slot := id], i)| == |Refs(news, i)| + (if i == id then 1 else 0)
  {
    assert Refs(news[slot := id], i) == if i == id then Refs(news, i) + {slot} else Refs(news, i);
  }

  lemma TakeNewTables(e: Env, s: State, id: nat, slot: Slot, detached: set<nat>)
    requires NewsOk(e, s) && TriedOk(e, s) && RefsOk(s, detached)
    requires id in s.info && !s.info[id].inTried && slot !in s.news && s.info[id].refCount < NEW_BUCKETS_PER_ADDRESS
    requires slot.bucket < NEW_BUCKET_COUNT && slot.pos == e.position(s.key, true, slot.bucket, s.info[id].address.service)
    ensures var s' := TakeNew(s, id, slot, s.info[id].refCount + 1);
            NewsOk(e, s') && TriedOk(e, s') && RefsOk(s', detached - {id})
  {
    var s' := TakeNew(s, id, slot, s.info[id].refCount + 1);
    forall sl ensures NewSlotOk(e, s', sl) && TriedSlotOk(e, s', sl) {
      assert NewSlotOk(e, s, sl) && TriedSlotOk(e, s, sl);
    }
    forall i ensures TriedIdOk(e, s', i) && RefOk(s', detached - {id}, i) {
      assert TriedIdOk(e, s, i) && RefOk(s, detached, i);
      RefsAfterTake(s.news, id, slot, i);
    }
  }

  lemma TakeNewCounts(s: State, id: nat, slot: Slot, refCount: int, detached: set<nat>, extra: int)
    requires Counted(s, detached, extra) && id in s.info && !s.info[id].inTried
    ensures Counted(TakeNew(s, id, slot, refCount), detached - {id}, if id in detached then extra - 1 else extra)
  {
    var s' := TakeNew(s, id, slot, refCount);
    SameSides(s, s');
    assert id in NewIds(s);
    hide NewIds, TriedIds;
    if id in detached {
      OneFewer(NewIds(s), detached, id);
    } else {
      assert detached - {id} == detached;
    }
  }

  lemma OneFewer(ids: set<nat>, detached: set<nat>, id: nat)
    requires id in ids && id in detached
    ensures |ids - (detached - {id})| == |ids - detached| + 1
  {
    assert ids - (detached - {id}) == (ids - detached) + {id};
  }

  lemma TakeNewIndexes(e: Env, s: State, id: nat, slot: Slot, detached: set<nat>, extra: int)
    requires Indexed(e, s, detached, extra)
    requires id in s.info && !s.info[id].inTried && slot !in s.news && s.info[id].refCount < NEW_BUCKETS_PER_ADDRESS
    requires slot.bucket < NEW_BUCKET_COUNT && slot.pos == e.position(s.key, true, slot.bucket, s.info[id].address.service)
    ensures SameIdentity(s, TakeNew(s, id, slot, s.info[id].refCount + 1))
    ensures Indexed(e, TakeNew(s, id, slot, s.info[id].refCount + 1), detached - {id}, if id in detached then extra - 1 else extra)
  {
    var s' := TakeNew(s, id, slot, s.info[id].refCount + 1);
    hide RandomOk, NewsOk, TriedOk, RefsOk, Counted;
    PlacesKept(s, s');
    TakeNewTables(e, s, id, slot, detached);
    TakeNewCounts(s, id, slot, s.info[id].refCount + 1, detached, extra);
  }

  lemma TakeNewKeeps(e: Env, s: State, id: nat, slot: Slot, detached: set<nat>, extra: int)
    requires Loose(e, s, detached, extra)
    requires id in s.info && !s.info[id].inTried && slot !in s.news && s.info[id].refCount < NEW_BUCKETS_PER_ADDRESS
    requires slot.bucket < NEW_BUCKET_COUNT && slot.pos == e.position(s.key, true, slot.bucket, s.info[id].address.service)
    ensures Loose(e, TakeNew(s, id, slot, s.info[id].refCount + 1), detached - {id}, if id in detached then extra - 1 else extra)
  {
    hide AddrsOk, Indexed, TakeNew;
    TakeNewIndexes(e, s, id, slot, detached, extra);
    NamesKept(s, TakeNew(s, id, slot, s.info[id].refCount + 1));
  }

  lemma TakeTriedTables(e: Env, s: State, id: nat, detached: set<nat>)
    requires NewsOk(e, s) && TriedOk(e, s) && RefsOk(s, detached) && id in s.info && id in detached && !s.info[id].inTried
    requires TriedSlot(e, s.key, s.info[id].address.service) !in s.tried
    ensures var s' := TakeTried(s, id, TriedSlot(e, s.key, s.info[id].address.service));
            NewsOk(e, s') && TriedOk(e, s') && RefsOk(s', detached - {id})
  {
    var slot := TriedSlot(e, s.key, s.info[id].address.service);
    var s' := TakeTried(s, id, slot);
    assert RefOk(s, detached, id);
    forall sl ensures NewSlotOk(e, s', sl) && TriedSlotOk(e, s', sl) {
      assert NewSlotOk(e, s, sl) && TriedSlotOk(e, s, sl);
      assert sl in s.news && s.news[sl] == id ==> sl in Refs(s.news, id);
    }
    forall i ensures TriedIdOk(e, s', i) && RefOk(s', detached - {id}, i) {
      assert TriedIdOk(e, s, i) && RefOk(s, detached, i);
    }
  }

  lemma TakeTriedCounts(s: State, id: nat, slot: Slot, detached: set<nat>, extra: int)
    requires Counted(s, detached, extra) && id in s.info && id in detached
    ensures Counted(TakeTried(s, id, slot), detached - {id}, extra)
  {
    var s' := TakeTried(s, id, slot);
    assert id in NewIds(s);
    assert NewIds(s') - (detached - {id}) == NewIds(s) - detached;
    assert TriedIds(s') == TriedIds(s) + {id};
  }

  lemma TakeTriedIndexes(e: Env, s: State, id: nat, detached: set<nat>, extra: int)
    requires Indexed(e, s, detached, extra) && id in s.info && id in detached
    requires TriedSlot(e, s.key, s.info[id].address.service) !in s.tried
    ensures SameIdentity(s, TakeTried(s, id, TriedSlot(e, s.key, s.info[id].address.service)))
    ensures Indexed(e, TakeTried(s, id, TriedSlot(e, s.key, s.info[id].address.service)), detached - {id}, extra)
  {
    var s' := TakeTried(s, id, TriedSlot(e, s.key, s.info[id].address.service));
    assert id in NewIds(s);
    hide RandomOk, NewsOk, TriedOk, RefsOk, Counted, TriedSlot;
    PlacesKept(s, s');
    TakeTriedTables(e, s, id, detached);
    TakeTriedCounts(s, id, TriedSlot(e, s.key, s.info[id].address.service), detached, extra);
  }

  lemma TakeTriedKeeps(e: Env, s: State, id: nat, detached: set<nat>, extra: int)
    requires Loose(e, s, detached, extra) && id in s.info && id in detached
    requires TriedSlot(e, s.key, s.info[id].address.service) !in s.tried
    ensures Loose(e, TakeTried(s, id, TriedSlot(e, s.key, s.info[id].address.service)), detached - {id}, extra)
  {
    hide AddrsOk, Indexed, TakeTried, TriedSlot;
    TakeTriedIndexes(e, s, id, detached, extra);
    NamesKept(s, TakeTried(s, id, TriedSlot(e, s.key, s.info[id].address.service)));
  }
}
