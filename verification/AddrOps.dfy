/** The operations of the address manager, each keeping the invariant; random draws and the clock are arguments. */
module AddrOps {
  import opened Arithmetic
  import opened Wrappers
  import opened AddrTables

  // ---------- moving to "tried" ----------

  lemma CountOneMoreIndexes(e: Env, s: State, detached: set<nat>, extra: int)
    requires Indexed(e, s, detached, extra)
    ensures Indexed(e, s.(nNew := s.nNew + 1), detached, extra + 1)
  {
    var s' := s.(nNew := s.nNew + 1);
    PlacesKept(s, s');
    forall slot ensures NewSlotOk(e, s', slot) && TriedSlotOk(e, s', slot) {
      assert NewSlotOk(e, s, slot) && TriedSlotOk(e, s, slot);
    }
    forall i ensures TriedIdOk(e, s', i) && RefOk(s', detached, i) {
      assert TriedIdOk(e, s, i) && RefOk(s, detached, i);
    }
    assert NewIds(s') == NewIds(s) && TriedIds(s') == TriedIds(s);
  }

  lemma CountOneMore(e: Env, s: State, detached: set<nat>, extra: int)
    requires Loose(e, s, detached, extra)
    ensures Loose(e, s.(nNew := s.nNew + 1), detached, extra + 1)
  {
    CountOneMoreIndexes(e, s, detached, extra);
    hide AddrsOk, Indexed;
    NamesKept(s, s.(nNew := s.nNew + 1));
  }

  /** The "new" slot the occupant of a "tried" slot would go to. */
  function BackSlot(e: Env, s: State, slot: Slot): Slot
    requires slot in s.tried && s.tried[slot] in s.info
  {
    NewSlot(e, s.key, s.info[s.tried[slot]].address.service, s.info[s.tried[slot]].source)
  }

  predicate CanMakeRoom(e: Env, s: State, slot: Slot) {
    && slot in s.tried && s.tried[slot] in s.info
    && CanClearNew(Evict(s, slot), BackSlot(e, s, slot))
    && s.tried[slot] in ClearNew(Evict(s, slot), BackSlot(e, s, slot)).info
  }

  /** The occupant of a "tried" slot goes back to the "new" slot of its own source, whoever sits there. */
  function MakeRoom(e: Env, s: State, slot: Slot): State
    requires CanMakeRoom(e, s, slot)
  {
    var s1 := TakeNew(ClearNew(Evict(s, slot), BackSlot(e, s, slot)), s.tried[slot], BackSlot(e, s, slot), 1);
    s1.(nNew := s1.nNew + 1)
  }

  lemma MakeRoomIsPossible(e: Env, s: State, slot: Slot, id: nat)
    requires Loose(e, s, {id}, 0) && slot in s.tried
    ensures CanMakeRoom(e, s, slot) && s.tried[slot] != id
    ensures var s1, ev, uslot := Evict(s, slot), s.tried[slot], BackSlot(e, s, slot);
            var s2 := ClearNew(s1, uslot);
            && Loose(e, s2, {id, ev}, 0)
            && Kept(s1, s2, ev) && Kept(s1, s2, id) && uslot !in s2.news && s2.tried == s1.tried && s2.key == s.key
  {
    EvictKeeps(e, s, slot, {id}, 0);
    var s1, ev, uslot := Evict(s, slot), s.tried[slot], BackSlot(e, s, slot);
    assert {id} + {ev} == {id, ev};
    ClearNewIsPossible(e, s1, uslot, {id, ev}, 0);
    ClearNewKeeps(e, s1, uslot, {id, ev}, 0);
    ClearNewFrame(s1, uslot);
    assert Kept(s1, ClearNew(s1, uslot), ev);
  }

  lemma MakeRoomKeeps(e: Env, s: State, slot: Slot, id: nat)
    requires Loose(e, s, {id}, 0) && slot in s.tried && id in s.info
    ensures CanMakeRoom(e, s, slot)
    ensures var s' := MakeRoom(e, s, slot);
            Loose(e, s', {id}, 0) && Kept(s, s', id) && s'.tried == s.tried - {slot} && s'.key == s.key
  {
    hide Loose, ClearNew, CanClearNew, NewSlot;
    MakeRoomIsPossible(e, s, slot, id);
    var s2, ev, uslot := ClearNew(Evict(s, slot), BackSlot(e, s, slot)), s.tried[slot], BackSlot(e, s, slot);
    DetachedHasNone(e, s2, {id, ev}, 0, ev);
    NewSlotAims(e, s2.key, s2.info[ev].address.service, s2.info[ev].source);
    TakeNewKeeps(e, s2, ev, uslot, {id, ev}, 0);
    assert {id, ev} - {ev} == {id};
    CountOneMore(e, TakeNew(s2, ev, uslot, 1), {id}, -1);
  }

  lemma DetachedHasNone(e: Env, s: State, detached: set<nat>, extra: int, id: nat)
    requires Loose(e, s, detached, extra) && id in detached
    ensures id in s.info && !s.info[id].inTried && s.info[id].refCount == 0
  {
    assert id in NewIds(s) && RefOk(s, detached, id);
  }

  lemma NewSlotAims(e: Env, key: Key, a: Service, source: Ip)
    ensures var slot := NewSlot(e, key, a, source); slot.bucket < NEW_BUCKET_COUNT && slot.pos == e.position(key, true, slot.bucket, a)
  {
  }

  /** MakeTried up to where the "tried" slot is free. */
  predicate CanVacate(e: Env, s: State, id: nat) {
    && id in s.info
    && var s1, slot := Detach(s, id), TriedSlot(e, s.key, s.info[id].address.service);
    && s1.info[id].refCount == 0 && (slot in s1.tried ==> CanMakeRoom(e, s1, slot))
  }

  function Vacate(e: Env, s: State, id: nat): State
    requires CanVacate(e, s, id)
  {
    var s1, slot := Detach(s, id), TriedSlot(e, s.key, s.info[id].address.service);
    if slot in s1.tried then MakeRoom(e, s1, slot) else s1
  }

  predicate CanMakeTried(e: Env, s: State, id: nat) {
    && CanVacate(e, s, id) && id in Vacate(e, s, id).info
    && TriedSlot(e, s.key, s.info[id].address.service) !in Vacate(e, s, id).tried
  }

  /** Out of every "new" bucket, room made in the "tried" slot, and into it. */
  function MakeTried(e: Env, s: State, id: nat): State
    requires CanMakeTried(e, s, id)
  {
    TakeTried(Vacate(e, s, id), id, TriedSlot(e, s.key, s.info[id].address.service))
  }

  lemma VacateKeeps(e: Env, s: State, id: nat)
    requires Inv(e, s) && id in s.info && !s.info[id].inTried
    ensures CanVacate(e, s, id)
    ensures var s2 := Vacate(e, s, id);
            && Loose(e, s2, {id}, 0) && TriedSlot(e, s.key, s.info[id].address.service) !in s2.tried
            && Kept(s.(info := s.info[id := s.info[id].(refCount := 0)]), s2, id) && s2.key == s.key
  {
    DetachKeeps(e, s, id);
    hide Loose, MakeRoom, CanMakeRoom, TriedSlot;
    var s1, slot := Detach(s, id), TriedSlot(e, s.key, s.info[id].address.service);
    if slot in s1.tried {
      MakeRoomKeeps(e, s1, slot, id);
    }
  }

  lemma MakeTriedKeeps(e: Env, s: State, id: nat)
    requires Inv(e, s) && id in s.info && !s.info[id].inTried
    ensures CanMakeTried(e, s, id)
    ensures var s' := MakeTried(e, s, id);
            Inv(e, s') && Kept(s.(info := s.info[id := s.info[id].(inTried := true, refCount := 0)]), s', id)
  {
    hide Loose, Vacate, CanVacate, TriedSlot;
    VacateKeeps(e, s, id);
    TakeTriedKeeps(e, Vacate(e, s, id), id, {id}, 0);
    assert {id} - {id} == {};
  }

  // ---------- bookkeeping fields ----------

  /** Fields the indexes do not depend on. */
  ghost predicate SameLinks(i: Info, j: Info) {
    i.address.service == j.address.service && i.refCount == j.refCount && i.inTried == j.inTried && i.randomPos == j.randomPos
  }

  /** One record replaced. */
  function Touch(s: State, id: nat, info: Info): State {
    s.(info := s.info[id := info])
  }

  lemma TouchFrame(s: State, id: nat, info: Info)
    requires id in s.info && SameLinks(s.info[id], info)
    ensures var s' := Touch(s, id, info);
            && s'.info.Keys == s.info.Keys && s'.info[id] == info
            && s'.tried == s.tried && s'.news == s.news && s'.key == s.key && s'.addrs == s.addrs
            && TriedIds(s') == TriedIds(s) && NewIds(s') == NewIds(s)
  {
  }

  lemma TouchTables(e: Env, s: State, id: nat, info: Info, detached: set<nat>)
    requires NewsOk(e, s) && TriedOk(e, s) && RefsOk(s, detached) && id in s.info && SameLinks(s.info[id], info)
    ensures var s' := Touch(s, id, info); NewsOk(e, s') && TriedOk(e, s') && RefsOk(s', detached)
  {
    var s' := Touch(s, id, info);
    forall slot ensures NewSlotOk(e, s', slot) && TriedSlotOk(e, s', slot) {
      assert NewSlotOk(e, s, slot) && TriedSlotOk(e, s, slot);
    }
    forall i ensures TriedIdOk(e, s', i) && RefOk(s', detached, i) {
      assert TriedIdOk(e, s, i) && RefOk(s, detached, i);
    }
  }

  lemma TouchIndexes(e: Env, s: State, id: nat, info: Info, detached: set<nat>, extra: int)
    requires Indexed(e, s, detached, extra) && id in s.info && SameLinks(s.info[id], info)
    ensures SameIdentity(s, Touch(s, id, info)) && Indexed(e, Touch(s, id, info), detached, extra)
  {
    PlacesKept(s, Touch(s, id, info));
    TouchTables(e, s, id, info, detached);
    TouchFrame(s, id, info);
  }

  lemma TouchKeeps(e: Env, s: State, id: nat, info: Info)
    requires Inv(e, s) && id in s.info && SameLinks(s.info[id], info)
    ensures Inv(e, Touch(s, id, info))
  {
    TouchIndexes(e, s, id, info, {}, 0);
    hide AddrsOk, Indexed, Touch;
    NamesKept(s, Touch(s, id, info));
  }

  /** The record of exactly this endpoint, ports included. */
  function FindExact(s: State, a: Service): Option<nat> {
    match Find(s, a.ip)
    case Some(id) => if id in s.info && s.info[id].address.service == a then Some(id) else None
    case None => None
  }

  function Attempt(e: Env, s: State, a: Service, time: int): (s': State)
    requires Inv(e, s)
    ensures Inv(e, s')
  {
    match FindExact(s, a)
    case None => s
    case Some(id) =>
      var info := s.info[id].(lastTry := time, attempts := s.info[id].attempts + 1);
      TouchKeeps(e, s, id, info);
      Touch(s, id, info)
  }

  function Connected(e: Env, s: State, a: Service, time: int): (s': State)
    requires Inv(e, s)
    ensures Inv(e, s')
  {
    match FindExact(s, a)
    case None => s
    case Some(id) =>
      var info := s.info[id];
      if time - info.address.time > 20 * 60 then
        var info' := info.(address := info.address.(time := time));
        TouchKeeps(e, s, id, info');
        Touch(s, id, info')
      else s
  }

  function Good(e: Env, s: State, a: Service, time: int): (s': State)
    requires Inv(e, s)
    ensures Inv(e, s')
  {
    match FindExact(s, a)
    case None => s
    case Some(id) =>
      var info := s.info[id].(lastSuccess := time, lastTry := time, attempts := 0);
      TouchKeeps(e, s, id, info);
      var s1 := Touch(s, id, info);
      if info.inTried then s1 else (MakeTriedKeeps(e, s1, id); MakeTried(e, s1, id))
  }

  // ---------- adding ----------

  function Max0(x: int): int { if x < 0 then 0 else x }

  lemma KnownId(e: Env, s: State, ip: Ip)
    requires Inv(e, s) && ip in s.addrs
    ensures s.addrs[ip] in s.info && 0 <= s.info[s.addrs[ip]].refCount <= NEW_BUCKETS_PER_ADDRESS
  {
    assert NameKnown(s, ip) && RefOk(s, {}, s.addrs[ip]);
  }

  lemma RefCountBounds(e: Env, s: State, id: nat)
    requires Inv(e, s) && id in s.info
    ensures 0 <= s.info[id].refCount <= NEW_BUCKETS_PER_ADDRESS
  {
    assert RefOk(s, {}, id);
  }

  /** The refresh of an address already known: its time may move, services only accumulate. */
  function Refreshed(info: Info, a: Address, penalty: int, now: int): (r: Info)
    ensures SameLinks(info, r)
  {
    var interval := if now - a.time < 24 * 60 * 60 then 60 * 60 else 24 * 60 * 60;
    var time := if a.time != 0 && (info.address.time == 0 || info.address.time < a.time - interval - penalty)
                then Max0(a.time - penalty) else info.address.time;
    info.(address := info.address.(time := time, services := info.address.services + a.services))
  }

  /** No further "new" slot is wanted for a known address. */
  predicate Enough(info: Info, a: Address, roll: nat)
    requires info.refCount >= 0
  {
    || a.time == 0 || (info.address.time != 0 && a.time <= info.address.time)
    || info.inTried
    || info.refCount == NEW_BUCKETS_PER_ADDRESS
    || (Pow2(info.refCount) > 1 && roll % Pow2(info.refCount) != 0)
  }

  /** Everything in `s` but at most `lost` is still known. */
  ghost predicate ForgetsOnly(s: State, s': State, lost: set<nat>) {
    s.info.Keys - lost <= s'.info.Keys
  }

  lemma ClearNewForgets(s: State, slot: Slot)
    requires AddrsOk(s) && RandomOk(s) && CanClearNew(s, slot)
    ensures slot !in s.news ==> ClearNew(s, slot) == s
    ensures slot in s.news ==> ForgetsOnly(s, ClearNew(s, slot), {s.news[slot]})
  {
    ClearNewFrame(s, slot);
    forall i | i in s.info && slot in s.news && i != s.news[slot] ensures i in ClearNew(s, slot).info {
      assert Kept(s, ClearNew(s, slot), i);
    }
  }

  /** The slot is free, or its occupant may be overwritten by an id with that many slots. */
  predicate Yields(s: State, slot: Slot, refCount: int, now: int) {
    slot in s.news ==>
      && s.news[slot] in s.info
      && (s.info[s.news[slot]].IsTerrible(now) || (s.info[s.news[slot]].refCount > 1 && refCount == 0))
  }

  /** Clear the slot and sit down in it. */
  function Overwrite(s: State, id: nat, slot: Slot): State
    requires CanClearNew(s, slot) && id in ClearNew(s, slot).info
  {
    var s1 := ClearNew(s, slot);
    TakeNew(s1, id, slot, s1.info[id].refCount + 1)
  }

  lemma OverwriteIsPossible(e: Env, s: State, id: nat, slot: Slot, detached: set<nat>, extra: int)
    requires Loose(e, s, detached, extra) && id in s.info && (slot in s.news ==> s.news[slot] != id)
    ensures CanClearNew(s, slot)
    ensures var s1 := ClearNew(s, slot);
            && Kept(s, s1, id) && slot !in s1.news && s1.key == s.key && Loose(e, s1, detached, extra)
  {
    ClearNewKeeps(e, s, slot, detached, extra);
    ClearNewFrame(s, slot);
  }

  lemma OverwriteKeeps(e: Env, s: State, id: nat, slot: Slot, detached: set<nat>, extra: int)
    requires CanClearNew(s, slot)
    requires var s1 := ClearNew(s, slot);
             && Loose(e, s1, detached, extra) && slot !in s1.news
             && id in s1.info && !s1.info[id].inTried && s1.info[id].refCount < NEW_BUCKETS_PER_ADDRESS
             && slot.bucket < NEW_BUCKET_COUNT && slot.pos == e.position(s1.key, true, slot.bucket, s1.info[id].address.service)
    ensures Loose(e, Overwrite(s, id, slot), detached - {id}, if id in detached then extra - 1 else extra)
  {
    hide Loose, ClearNew, CanClearNew, TakeNew;
    TakeNewKeeps(e, ClearNew(s, slot), id, slot, detached, extra);
  }

  lemma OverwriteEffect(s: State, id: nat, slot: Slot)
    requires AddrsOk(s) && RandomOk(s) && CanClearNew(s, slot) && id in s.info
    requires slot in s.news ==> s.news[slot] != id
    ensures id in ClearNew(s, slot).info
    ensures var s' := Overwrite(s, id, slot);
            && s'.tried == s.tried && s'.key == s.key
            && s'.news == s.news[slot := id]
            && id in s'.info && s'.info[id].refCount == s.info[id].refCount + 1
            && s'.info[id].address == s.info[id].address
            && ForgetsOnly(s, s', if slot in s.news then {s.news[slot]} else {})
  {
    ClearNewFrame(s, slot);
    ClearNewForgets(s, slot);
    assert Kept(s, ClearNew(s, slot), id);
  }

  /** What PlaceNew may rely on about the slot it aims at. */
  lemma AimedSlot(e: Env, s: State, id: nat, slot: Slot, detached: set<nat>, extra: int)
    requires Loose(e, s, detached, extra) && id in s.info
    ensures s.info[id].refCount == 0 && !s.info[id].inTried ==> CanDelete(s, id)
    ensures (slot in s.news ==> s.news[slot] != id) ==> CanClearNew(s, slot)
    ensures slot in s.news ==> s.news[slot] in s.info && s.news[slot] !in TriedIds(s) && s.news[slot] !in detached
    ensures !s.info[id].inTried ==> (s.info[id].refCount == 0 <==> id in detached)
    ensures AddrsOk(s) && RandomOk(s)
  {
    assert RefOk(s, detached, id) && NewSlotOk(e, s, slot);
    assert slot in s.news ==> slot in Refs(s.news, s.news[slot]) && RefOk(s, detached, s.news[slot]);
    if s.info[id].refCount == 0 && !s.info[id].inTried {
      DeleteIsPossible(s, id);
    }
    ClearNewIsPossible(e, s, slot, detached, extra);
  }

  /** Every record PlaceNew may have to look at or give up is there and fit for it. */
  predicate CanPlace(e: Env, s: State, id: nat, source: Ip) {
    && id in s.info && !s.info[id].inTried
    && var slot := NewSlot(e, s.key, s.info[id].address.service, source);
    && (slot in s.news ==> s.news[slot] in s.info)
    && ((slot in s.news && s.news[slot] == id) || (CanClearNew(s, slot) && id in ClearNew(s, slot).info))
    && (s.info[id].refCount == 0 ==> CanDelete(s, id))
  }

  /** The last part of Add_: try for the slot the source points at; give up an id left without one. */
  function PlaceNew(e: Env, s: State, id: nat, source: Ip, now: int): State
    requires CanPlace(e, s, id, source)
  {
    var slot := NewSlot(e, s.key, s.info[id].address.service, source);
    if slot in s.news && s.news[slot] == id then s
    else if Yields(s, slot, s.info[id].refCount, now) then Overwrite(s, id, slot)
    else if s.info[id].refCount == 0 then Delete(s, id)
    else s
  }

  lemma PlaceIsPossible(e: Env, s: State, id: nat, source: Ip, detached: set<nat>, extra: int)
    requires Loose(e, s, detached, extra) && id in s.info && !s.info[id].inTried
    ensures CanPlace(e, s, id, source)
  {
    var slot := NewSlot(e, s.key, s.info[id].address.service, source);
    AimedSlot(e, s, id, slot, detached, extra);
    hide Loose;
    if slot in s.news ==> s.news[slot] != id {
      OverwriteIsPossible(e, s, id, slot, detached, extra);
    }
  }

  lemma PlaceNewKeeps(e: Env, s: State, id: nat, source: Ip, now: int, detached: set<nat>, extra: int)
    requires Loose(e, s, detached, extra) && id in s.info && !s.info[id].inTried
    requires detached <= {id} && extra == |detached|
    requires s.info[id].refCount < NEW_BUCKETS_PER_ADDRESS
    ensures CanPlace(e, s, id, source) && Inv(e, PlaceNew(e, s, id, source, now))
  {
    PlaceIsPossible(e, s, id, source, detached, extra);
    var slot := NewSlot(e, s.key, s.info[id].address.service, source);
    AimedSlot(e, s, id, slot, detached, extra);
    hide Loose, CanClearNew, AddrsOk, RandomOk, TriedIds, Overwrite, Delete, ClearNew;
    assert detached - {id} == {};
    if slot in s.news && s.news[slot] == id {
    } else if Yields(s, slot, s.info[id].refCount, now) {
      OverwriteIsPossible(e, s, id, slot, detached, extra);
      OverwriteKeeps(e, s, id, slot, detached, extra);
    } else if s.info[id].refCount == 0 {
      DeleteKeeps(e, s, id, detached, extra);
    }
  }

  /** A record for an unknown address: created, dated, and counted as new. */
  function Enrol(s: State, a: Address, source: Ip, time: int): State {
    var s1 := Create(s, a, source);
    var s2 := s1.(info := s1.info[s.idCount := s1.info[s.idCount].(address := a.(time := time))]);
    s2.(nNew := s2.nNew + 1)
  }

  lemma EnrolKeeps(e: Env, s: State, a: Address, source: Ip, time: int)
    requires Inv(e, s) && a.service.ip !in s.addrs
    ensures s.idCount !in s.info
    ensures Loose(e, Enrol(s, a, source, time), {s.idCount}, 1)
  {
    hide Loose;
    var dated := a.(time := time);
    CreateKeeps(e, s, dated, source, {}, 0);
    assert {} + {s.idCount} == {s.idCount};
    var s1 := Create(s, dated, source);
    assert Enrol(s, a, source, time) == s1.(nNew := s1.nNew + 1);
    CountOneMore(e, s1, {s.idCount}, 0);
  }

  lemma EnrolFrame(s: State, a: Address, source: Ip, time: int)
    requires s.idCount !in s.info
    ensures var s', id := Enrol(s, a, source, time), s.idCount;
            && s'.info.Keys == s.info.Keys + {id} && (forall i | i in s.info :: s'.info[i] == s.info[i])
            && s'.info[id].address.service == a.service && s'.info[id].refCount == 0 && !s'.info[id].inTried
            && s'.tried == s.tried && s'.news == s.news && s'.key == s.key
            && TriedIds(s') == TriedIds(s)
  {
  }

  /** The branch of Add_ for an unknown address. */
  function AddUnknown(e: Env, s: State, a: Address, source: Ip, time: int, now: int): (s': State)
    requires Inv(e, s) && a.service.ip !in s.addrs
    ensures Inv(e, s')
  {
    EnrolKeeps(e, s, a, source, time);
    EnrolFrame(s, a, source, time);
    PlaceNewKeeps(e, Enrol(s, a, source, time), s.idCount, source, now, {s.idCount}, 1);
    PlaceNew(e, Enrol(s, a, source, time), s.idCount, source, now)
  }

  /** The branch of Add_ for an address already known, with its record brought up to date. */
  function AddKnown(e: Env, s: State, id: nat, a: Address, source: Ip, info: Info, now: int, roll: nat): (s': State)
    requires Inv(e, s) && id in s.info && SameLinks(s.info[id], info) && info.refCount >= 0
    ensures Inv(e, s')
  {
    TouchKeeps(e, s, id, info);
    assert RefOk(s, {}, id);
    if Enough(info, a, roll) then Touch(s, id, info)
    else
      PlaceNewKeeps(e, Touch(s, id, info), id, source, now, {}, 0);
      PlaceNew(e, Touch(s, id, info), id, source, now)
  }

  /** Add_; the flag is its result, which says a record was created, not that it survived. */
  function Add(e: Env, s: State, a: Address, source: Ip, penalty: int, now: int, roll: nat): (r: (State, bool))
    requires Inv(e, s)
    ensures Inv(e, r.0)
  {
    if !e.routable(a.service.ip) then (s, false) else
      match Find(s, a.service.ip)
      case Some(id) =>
        KnownId(e, s, a.service.ip);
        (AddKnown(e, s, id, a, source, Refreshed(s.info[id], a, penalty, now), now, roll), false)
      case None =>
        (AddUnknown(e, s, a, source, Max0(a.time - penalty), now), true)
  }

  // ---------- what the operations achieve ----------

  lemma MakeRoomEffect(e: Env, s: State, slot: Slot) returns (lost: set<nat>)
    requires CanMakeRoom(e, s, slot) && AddrsOk(s) && RandomOk(s)
    ensures ForgetsOnly(s, MakeRoom(e, s, slot), lost) && |lost| <= 1 && lost !! TriedIds(s)
    ensures s.tried[slot] in MakeRoom(e, s, slot).info
  {
    var s1, uslot := Evict(s, slot), BackSlot(e, s, slot);
    IdentityKept(s, s1);
    ClearNewForgets(s1, uslot);
    lost := if uslot in s1.news && s1.news[uslot] !in TriedIds(s) then {s1.news[uslot]} else {};
  }

  lemma MakeTriedForgets(e: Env, s: State, id: nat) returns (lost: set<nat>)
    requires Inv(e, s) && id in s.info && !s.info[id].inTried
    ensures CanMakeTried(e, s, id)
    ensures ForgetsOnly(s, MakeTried(e, s, id), lost) && |lost| <= 1 && lost !! TriedIds(s)
  {
    hide Inv, Loose, Detach, TriedIds, TriedSlot, AddrsOk, RandomOk, MakeRoom, CanMakeRoom;
    MakeTriedKeeps(e, s, id);
    DetachedIs(e, s, id);
    var s1, slot := Detach(s, id), TriedSlot(e, s.key, s.info[id].address.service);
    lost := {};
    if slot in s1.tried {
      lost := MakeRoomEffect(e, s1, slot);
    }
  }

  lemma DetachedIs(e: Env, s: State, id: nat)
    requires Inv(e, s) && id in s.info && !s.info[id].inTried
    ensures var s1 := Detach(s, id);
            AddrsOk(s1) && RandomOk(s1) && TriedIds(s1) == TriedIds(s) && s1.info.Keys == s.info.Keys
  {
    DetachKeeps(e, s, id);
    hide AddrsOk, RandomOk;
  }

  /**
   A known endpoint reported good ends up in the one "tried" slot it hashes to. Making room
   forgets at most one address, never a tried one.
   */
  lemma GoodMovesToTried(e: Env, s: State, a: Service, time: int) returns (lost: set<nat>)
    requires Inv(e, s) && FindExact(s, a).Some?
    ensures var s', id := Good(e, s, a, time), FindExact(s, a).value;
            && id in s'.info && s'.info[id].inTried && s'.info[id].address == s.info[id].address
            && s'.info[id].lastSuccess == time && s'.info[id].lastTry == time && s'.info[id].attempts == 0
            && TriedSlot(e, s'.key, a) in s'.tried && s'.tried[TriedSlot(e, s'.key, a)] == id
    ensures ForgetsOnly(s, Good(e, s, a, time), lost) && |lost| <= 1 && lost !! TriedIds(s)
  {
    hide Inv, Loose, Touch, TriedIds, MakeTried, CanMakeTried;
    var id, s' := FindExact(s, a).value, Good(e, s, a, time);
    lost := {};
    var info := s.info[id].(lastSuccess := time, lastTry := time, attempts := 0);
    TouchKeeps(e, s, id, info);
    TouchFrame(s, id, info);
    TriedIsAtItsSlot(e, s', id);
    if !s.info[id].inTried {
      MakeTriedKeeps(e, Touch(s, id, info), id);
      lost := MakeTriedForgets(e, Touch(s, id, info), id);
    }
  }

  lemma TriedIsAtItsSlot(e: Env, s: State, id: nat)
    requires Inv(e, s)
    ensures TriedIdOk(e, s, id)
  {
  }

  lemma PlaceNewForgets(e: Env, s: State, id: nat, source: Ip, now: int, detached: set<nat>, extra: int) returns (lost: set<nat>)
    requires Loose(e, s, detached, extra) && id in s.info && !s.info[id].inTried
    ensures CanPlace(e, s, id, source)
    ensures var s' := PlaceNew(e, s, id, source, now);
            s'.tried == s.tried && s'.key == s.key && ForgetsOnly(s, s', lost) && |lost| <= 1 && lost !! TriedIds(s)
  {
    PlaceIsPossible(e, s, id, source, detached, extra);
    var slot := NewSlot(e, s.key, s.info[id].address.service, source);
    AimedSlot(e, s, id, slot, detached, extra);
    hide Loose, AddrsOk, RandomOk, CanClearNew, CanDelete, Overwrite, Delete;
    lost := {};
    if slot in s.news && s.news[slot] == id {
    } else if Yields(s, slot, s.info[id].refCount, now) {
      OverwriteEffect(s, id, slot);
      lost := if slot in s.news then {s.news[slot]} else {};
    } else if s.info[id].refCount == 0 {
      DeleteLeavesOthers(s, id);
      lost := {id};
    }
  }

  lemma PlaceNewFate(e: Env, s: State, id: nat, source: Ip, now: int)
    requires Loose(e, s, {id}, 1) && id in s.info && !s.info[id].inTried
    requires s.info[id].refCount == 0
    ensures CanPlace(e, s, id, source)
    ensures var s', slot := PlaceNew(e, s, id, source, now), NewSlot(e, s.key, s.info[id].address.service, source);
            && (id in s'.info <==> Yields(s, slot, 0, now))
            && (s.info[id].Ip() in s'.addrs <==> id in s'.info)
            && (id in s'.info ==> slot in s'.news && s'.news[slot] == id && s'.info[id].refCount == 1 && s'.addrs[s.info[id].Ip()] == id)
  {
    PlaceNewKeeps(e, s, id, source, now, {id}, 1);
    var slot := NewSlot(e, s.key, s.info[id].address.service, source);
    AimedSlot(e, s, id, slot, {id}, 1);
    hide Loose, AddrsOk, RandomOk, CanClearNew, CanDelete, Overwrite;
    if Yields(s, slot, 0, now) {
      OverwriteEffect(s, id, slot);
      KnownByName(e, Overwrite(s, id, slot), id);
    } else {
      DeleteLeavesOthers(s, id);
    }
  }

  lemma KnownByName(e: Env, s: State, id: nat)
    requires Inv(e, s) && id in s.info
    ensures s.info[id].Ip() in s.addrs && s.addrs[s.info[id].Ip()] == id
  {
    assert IdNamed(s, id);
  }

  /** Adding never touches the "tried" table and forgets at most one address, never a tried one. */
  lemma AddForgetsAtMostOne(e: Env, s: State, a: Address, source: Ip, penalty: int, now: int, roll: nat) returns (lost: set<nat>)
    requires Inv(e, s)
    ensures var s' := Add(e, s, a, source, penalty, now, roll).0;
            s'.tried == s.tried && ForgetsOnly(s, s', lost) && |lost| <= 1 && lost !! TriedIds(s)
  {
    hide AddKnown, AddUnknown, Loose, TriedIds, Refreshed, ForgetsOnly;
    if !e.routable(a.service.ip) {
      lost := NothingForgotten(s);
    } else if a.service.ip in s.addrs {
      var id := s.addrs[a.service.ip];
      KnownId(e, s, a.service.ip);
      lost := AddKnownEffect(e, s, id, a, source, Refreshed(s.info[id], a, penalty, now), now, roll);
    } else {
      lost := AddUnknownForgets(e, s, a, source, Max0(a.time - penalty), now);
    }
  }

  lemma NothingForgotten(s: State) returns (lost: set<nat>)
    ensures ForgetsOnly(s, s, lost) && |lost| <= 1 && lost !! TriedIds(s)
  {
    lost := {};
  }

  /**
   A routable address not yet known is taken exactly if the slot its source points at is free or
   its occupant is terrible or sits elsewhere too; that slot is then its only one.
   */
  lemma UnknownIsTakenIff(e: Env, s: State, a: Address, source: Ip, penalty: int, now: int, roll: nat)
    requires Inv(e, s) && e.routable(a.service.ip) && a.service.ip !in s.addrs
    ensures var r, slot := Add(e, s, a, source, penalty, now, roll), NewSlot(e, s.key, a.service, source);
            && r.1
            && (a.service.ip in r.0.addrs <==> Yields(s, slot, 0, now))
            && (a.service.ip in r.0.addrs ==> slot in r.0.news && r.0.news[slot] == r.0.addrs[a.service.ip]
                                              && Refs(r.0.news, r.0.news[slot]) == {slot})
  {
    hide AddUnknown, Loose, Yields, NewSlot, Refs;
    AddUnknownFate(e, s, a, source, Max0(a.time - penalty), now);
    assert Find(s, a.service.ip) == None;
  }

  lemma AddKnownEffect(e: Env, s: State, id: nat, a: Address, source: Ip, info: Info, now: int, roll: nat) returns (lost: set<nat>)
    requires Inv(e, s) && id in s.info && SameLinks(s.info[id], info) && info.refCount >= 0
    ensures var s' := AddKnown(e, s, id, a, source, info, now, roll);
            s'.tried == s.tried && ForgetsOnly(s, s', lost) && |lost| <= 1 && lost !! TriedIds(s)
  {
    assert RefOk(s, {}, id);
    hide RefOk;
    TouchKeeps(e, s, id, info);
    TouchFrame(s, id, info);
    hide Loose, Touch, TriedIds, PlaceNew;
    lost := {};
    if !Enough(info, a, roll) {
      lost := PlaceNewForgets(e, Touch(s, id, info), id, source, now, {}, 0);
    }
  }

  lemma NewSlotOccupantKnown(e: Env, s: State, slot: Slot)
    requires Inv(e, s)
    ensures slot in s.news ==> s.news[slot] in s.info
  {
    assert NewSlotOk(e, s, slot);
  }

  lemma OnlySlot(e: Env, s: State, id: nat, slot: Slot)
    requires Inv(e, s) && id in s.info && s.info[id].refCount == 1 && slot in s.news && s.news[slot] == id
    ensures Refs(s.news, id) == {slot}
  {
    assert RefOk(s, {}, id);
    assert slot in Refs(s.news, id) && |Refs(s.news, id) - {slot}| == 0;
  }

  lemma AddUnknownForgets(e: Env, s: State, a: Address, source: Ip, time: int, now: int) returns (lost: set<nat>)
    requires Inv(e, s) && a.service.ip !in s.addrs
    ensures var s' := AddUnknown(e, s, a, source, time, now);
            s'.tried == s.tried && ForgetsOnly(s, s', lost) && |lost| <= 1 && lost !! TriedIds(s)
  {
    EnrolKeeps(e, s, a, source, time);
    EnrolFrame(s, a, source, time);
    hide Loose, Enrol, PlaceNew, TriedIds;
    lost := PlaceNewForgets(e, Enrol(s, a, source, time), s.idCount, source, now, {s.idCount}, 1);
  }

  lemma AddUnknownFate(e: Env, s: State, a: Address, source: Ip, time: int, now: int)
    requires Inv(e, s) && a.service.ip !in s.addrs
    ensures var s', slot := AddUnknown(e, s, a, source, time, now), NewSlot(e, s.key, a.service, source);
            && (a.service.ip in s'.addrs <==> Yields(s, slot, 0, now))
            && (a.service.ip in s'.addrs ==> slot in s'.news && s'.news[slot] == s'.addrs[a.service.ip]
                                             && Refs(s'.news, s'.news[slot]) == {slot})
  {
    var id, slot := s.idCount, NewSlot(e, s.key, a.service, source);
    EnrolKeeps(e, s, a, source, time);
    EnrolFrame(s, a, source, time);
    NewSlotOccupantKnown(e, s, slot);
    hide Loose, Enrol, PlaceNew, TriedIds, NewSlot;
    PlaceNewFate(e, Enrol(s, a, source, time), id, source, now);
    var s' := AddUnknown(e, s, a, source, time, now);
    if id in s'.info {
      OnlySlot(e, s', id, slot);
    }
  }
}
