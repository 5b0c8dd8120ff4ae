/** What the operations of the address manager do to the records and slots, in the source's own terms. */
module AddrEffects {
  import opened Arithmetic
  import opened Wrappers
  import opened AddrTables
  import opened AddrOps

  // ---------- records worth throwing away ----------

  /** The rules of IsTerrible, in seconds: a minute, ten minutes, 30 days and a week. */
  lemma TerribleIff(info: Info, now: int)
    ensures info.IsTerrible(now) <==>
            && !(info.lastTry != 0 && now - info.lastTry <= 60)
            && (|| info.address.time - now > 600 || info.address.time == 0 || info.address.time < now - 2592000
                || (info.lastSuccess == 0 && info.attempts >= 3)
                || (info.lastSuccess < now - 604800 && info.attempts >= 10))
  {
  }

  // ---------- Add_ on an address already known ----------

  /** The "new" slot a source points at, for an endpoint. */
  function SlotFor(e: Env, s: State, a: Service, source: Ip): Slot {
    Slot(e.newBucket(s.key, a.ip, source), e.position(s.key, true, e.newBucket(s.key, a.ip, source), a))
  }

  lemma SlotForIs(e: Env, s: State, a: Service, source: Ip)
    ensures SlotFor(e, s, a, source) == NewSlot(e, s.key, a, source)
  {
  }

  /** Free, or held by another address that is bad enough to be thrown away. */
  predicate Winnable(s: State, slot: Slot, id: nat, now: int)
    requires slot in s.news ==> s.news[slot] in s.info
  {
    slot in s.news ==> s.news[slot] != id && s.info[s.news[slot]].IsTerrible(now)
  }

  lemma OverwriteRecord(s: State, id: nat, slot: Slot)
    requires AddrsOk(s) && RandomOk(s) && CanClearNew(s, slot) && id in s.info
    requires slot in s.news ==> s.news[slot] != id
    ensures id in ClearNew(s, slot).info
    ensures var s' := Overwrite(s, id, slot);
            && s'.news == s.news[slot := id] && id in s'.info
            && s'.info[id] == s.info[id].(refCount := s.info[id].refCount + 1, randomPos := s'.info[id].randomPos)
  {
    hide ClearNew, CanClearNew, AddrsOk, RandomOk;
    OverwriteEffect(s, id, slot);
    ClearNewFrame(s, slot);
    assert Kept(s, ClearNew(s, slot), id);
  }

  /** An address that has a slot takes the one aimed at only from nobody or from a terrible occupant. */
  lemma PlaceNewEffect(e: Env, s: State, id: nat, source: Ip, now: int)
    requires Inv(e, s) && id in s.info && !s.info[id].inTried
    ensures CanPlace(e, s, id, source) && s.info[id].refCount > 0
    ensures var slot, s' := SlotFor(e, s, s.info[id].address.service, source), PlaceNew(e, s, id, source, now);
            && (slot in s.news ==> s.news[slot] in s.info)
            && if Winnable(s, slot, id, now) then
                 && s'.news == s.news[slot := id] && id in s'.info
                 && s'.info[id] == s.info[id].(refCount := s.info[id].refCount + 1, randomPos := s'.info[id].randomPos)
               else s' == s
  {
    var slot := SlotFor(e, s, s.info[id].address.service, source);
    PlaceIsPossible(e, s, id, source, {}, 0);
    AimedSlot(e, s, id, slot, {}, 0);
    RefCountBounds(e, s, id);
    hide Inv, Loose, AddrsOk, RandomOk, CanClearNew, ClearNew, Overwrite, CanDelete, Delete;
    if slot !in s.news || s.news[slot] != id {
      OverwriteRecord(s, id, slot);
    }
  }

  /** The time of a record after a refresh. */
  lemma RefreshedTime(info: Info, a: Address, penalty: int, now: int)
    ensures var interval := if now - a.time < 86400 then 3600 else 86400;
            Refreshed(info, a, penalty, now).address.time ==
              if a.time != 0 && (info.address.time == 0 || info.address.time + interval + penalty < a.time)
              then (if a.time < penalty then 0 else a.time - penalty) else info.address.time
  {
  }

  /**
   Add_ of an address already known: its record stays, its services become those of both, and its
   time moves only if the announced one is clearly later than the one on record. What was learnt by
   trying the address is not touched.
   */
  lemma KnownIsRefreshed(e: Env, s: State, a: Address, source: Ip, penalty: int, now: int, roll: nat)
    requires Inv(e, s) && e.routable(a.service.ip) && a.service.ip in s.addrs
    ensures s.addrs[a.service.ip] in s.info
    ensures var id := s.addrs[a.service.ip]; var r := Add(e, s, a, source, penalty, now, roll);
            && !r.1 && id in r.0.info && a.service.ip in r.0.addrs && r.0.addrs[a.service.ip] == id
            && var before, after := s.info[id], r.0.info[id]; var interval := if now - a.time < 86400 then 3600 else 86400;
            && after.address.service == before.address.service
            && after.address.services == before.address.services + a.services
            && after.address.time == (if a.time != 0 && (before.address.time == 0 || before.address.time + interval + penalty < a.time)
                                   then (if a.time < penalty then 0 else a.time - penalty) else before.address.time)
            && after.source == before.source && after.lastTry == before.lastTry && after.lastSuccess == before.lastSuccess
            && after.attempts == before.attempts && after.inTried == before.inTried
  {
    KnownId(e, s, a.service.ip);
    var id := s.addrs[a.service.ip];
    var info := Refreshed(s.info[id], a, penalty, now);
    AddKnownIs(e, s, id, a, source, info, now, roll);
    RefreshedTime(s.info[id], a, penalty, now);
    hide AddKnown, Enough, Winnable, SlotFor;
    KnownByName(e, Add(e, s, a, source, penalty, now, roll).0, id);
    NameStays(e, s, a.service.ip);
  }

  lemma NameStays(e: Env, s: State, ip: Ip)
    requires Inv(e, s) && ip in s.addrs
    ensures s.addrs[ip] in s.info && s.info[s.addrs[ip]].Ip() == ip
  {
    assert NameKnown(s, ip);
  }

  /** A record brought up to date and perhaps given one more slot. */
  lemma AddKnownIs(e: Env, s: State, id: nat, a: Address, source: Ip, info: Info, now: int, roll: nat)
    requires Inv(e, s) && id in s.info && SameLinks(s.info[id], info) && info.refCount >= 0
    ensures var slot := SlotFor(e, s, s.info[id].address.service, source); var s' := AddKnown(e, s, id, a, source, info, now, roll);
            && (slot in s.news ==> s.news[slot] in s.info)
            && id in s'.info && s'.info[id] == info.(refCount := s'.info[id].refCount, randomPos := s'.info[id].randomPos)
            && if !Enough(info, a, roll) && Winnable(s, slot, id, now)
               then s'.news == s.news[slot := id] && s'.info[id].refCount == info.refCount + 1
               else s' == Touch(s, id, info)
  {
    NewSlotOccupantKnown(e, s, SlotFor(e, s, s.info[id].address.service, source));
    TouchKeeps(e, s, id, info);
    TouchFrame(s, id, info);
    RefCountBounds(e, s, id);
    hide Inv, Loose, Enough;
    if !Enough(info, a, roll) {
      NotTried(info, a, roll);
      PlaceNewEffect(e, Touch(s, id, info), id, source, now);
    }
  }

  lemma NotTried(info: Info, a: Address, roll: nat)
    requires info.refCount >= 0 && !Enough(info, a, roll)
    ensures !info.inTried
  {
  }

  /** Two to the power of the number of slots an address has: the odds against one more. */
  const ODDS: seq<nat> := [1, 2, 4, 8, 16, 32, 64, 128]

  lemma OddsArePowers(n: nat)
    requires n < 8
    ensures Pow2(n) == ODDS[n]
  {
    assert Pow2(1) == 2 && Pow2(2) == 4 && Pow2(3) == 8 && Pow2(4) == 16;
    assert Pow2(5) == 32 && Pow2(6) == 64 && Pow2(7) == 128;
  }

  /** The announcement is news, and the draw goes in favour of one more slot. */
  predicate Wants(info: Info, a: Address, time: int, roll: nat)
    requires info.refCount >= 0
  {
    && a.time != 0 && (time == 0 || time < a.time) && !info.inTried
    && info.refCount < 8 && roll % ODDS[info.refCount] == 0
  }

  lemma WantsIff(info: Info, a: Address, roll: nat)
    requires 0 <= info.refCount <= 8
    ensures !Enough(info, a, roll) <==> Wants(info, a, info.address.time, roll)
  {
    if info.refCount < 8 {
      OddsArePowers(info.refCount);
    }
  }

  /**
   A known address gains a further slot exactly if the announcement is later than its refreshed
   time, it is not tried, it has fewer than 8 slots, the draw is one in two to the power of their
   number, and the slot is neither its own nor held by an address still worth keeping.
   */
  lemma KnownGainsIff(e: Env, s: State, id: nat, a: Address, source: Ip, penalty: int, now: int, roll: nat)
    requires Inv(e, s) && e.routable(a.service.ip) && a.service.ip in s.addrs && s.addrs[a.service.ip] == id
    ensures id in s.info && 0 <= s.info[id].refCount
    ensures var s' := Add(e, s, a, source, penalty, now, roll).0; var slot := SlotFor(e, s, s.info[id].address.service, source);
            && id in s'.info && (slot in s.news ==> s.news[slot] in s.info)
            && var gains := Wants(s.info[id], a, s'.info[id].address.time, roll) && Winnable(s, slot, id, now);
            && s'.info[id].refCount == s.info[id].refCount + (if gains then 1 else 0)
            && s'.news == (if gains then s.news[slot := id] else s.news)
            && Refs(s'.news, id) == Refs(s.news, id) + (if gains then {slot} else {})
  {
    hide Inv, Refreshed, Winnable, SlotFor, Enough, Touch, AddKnown, Wants, Refs;
    KnownId(e, s, a.service.ip);
    var info := Refreshed(s.info[id], a, penalty, now);
    AddIsAddKnown(e, s, id, a, source, penalty, now, roll);
    AddKnownGains(e, s, id, a, source, info, now, roll);
    RefsGain(s.news, id, SlotFor(e, s, s.info[id].address.service, source));
  }

  lemma AddIsAddKnown(e: Env, s: State, id: nat, a: Address, source: Ip, penalty: int, now: int, roll: nat)
    requires Inv(e, s) && e.routable(a.service.ip) && a.service.ip in s.addrs && s.addrs[a.service.ip] == id
    ensures id in s.info && s.info[id].refCount >= 0
    ensures Add(e, s, a, source, penalty, now, roll) ==
            (AddKnown(e, s, id, a, source, Refreshed(s.info[id], a, penalty, now), now, roll), false)
  {
    hide Refreshed, AddKnown, Loose;
    KnownId(e, s, a.service.ip);
  }

  lemma RefsGain(news: map<Slot, nat>, id: nat, slot: Slot)
    ensures Refs(news[slot := id], id) == Refs(news, id) + {slot}
  {
  }

  lemma AddKnownGains(e: Env, s: State, id: nat, a: Address, source: Ip, info: Info, now: int, roll: nat)
    requires Inv(e, s) && id in s.info && SameLinks(s.info[id], info) && s.info[id].refCount >= 0
    ensures var slot := SlotFor(e, s, s.info[id].address.service, source); var s' := AddKnown(e, s, id, a, source, info, now, roll);
            && (slot in s.news ==> s.news[slot] in s.info) && id in s'.info
            && var gains := Wants(s.info[id], a, s'.info[id].address.time, roll) && Winnable(s, slot, id, now);
            && s'.info[id].refCount == s.info[id].refCount + (if gains then 1 else 0)
            && s'.news == (if gains then s.news[slot := id] else s.news)
  {
    hide Inv, Winnable, SlotFor, Enough, Touch, AddKnown, Wants;
    AddKnownIs(e, s, id, a, source, info, now, roll);
    RefCountBounds(e, s, id);
    WantsIff(info, a, roll);
    SameWish(info, s.info[id], a, roll);
    TouchFrame(s, id, info);
  }

  lemma SameWish(info: Info, was: Info, a: Address, roll: nat)
    requires SameLinks(was, info) && info.refCount >= 0
    ensures Wants(info, a, info.address.time, roll) == Wants(was, a, info.address.time, roll)
  {
  }

  /** What is not routable is not even looked up. */
  lemma UnroutableIsRefused(e: Env, s: State, a: Address, source: Ip, penalty: int, now: int, roll: nat)
    requires Inv(e, s) && !e.routable(a.service.ip)
    ensures Add(e, s, a, source, penalty, now, roll) == (s, false)
  {
  }

  // ---------- Add_ on an address not yet known ----------

  /** Free, or held by an address that is bad enough to be thrown away or has another slot. */
  predicate Open(s: State, slot: Slot, now: int)
    requires slot in s.news ==> s.news[slot] in s.info
  {
    slot in s.news ==> s.info[s.news[slot]].IsTerrible(now) || s.info[s.news[slot]].refCount >= 2
  }

  /** The record of an address just heard of from a source. */
  predicate JustHeardOf(info: Info, a: Address, source: Ip, penalty: int) {
    && info.address.service == a.service && info.address.services == a.services
    && info.address.time == (if a.time < penalty then 0 else a.time - penalty)
    && info.source == source && info.lastTry == 0 && info.lastSuccess == 0 && info.attempts == 0
    && info.refCount == 1 && !info.inTried
  }

  /** An unknown address is put down as just heard of in the slot its source points at if that is open, else not at all. */
  lemma UnknownIsRecorded(e: Env, s: State, a: Address, source: Ip, penalty: int, now: int, roll: nat)
    requires Inv(e, s) && e.routable(a.service.ip) && a.service.ip !in s.addrs
    ensures var s' := Add(e, s, a, source, penalty, now, roll).0; var slot := SlotFor(e, s, a.service, source);
            && (slot in s.news ==> s.news[slot] in s.info)
            && if Open(s, slot, now) then
                 && a.service.ip in s'.addrs && s'.addrs[a.service.ip] in s'.info
                 && JustHeardOf(s'.info[s'.addrs[a.service.ip]], a, source, penalty)
                 && s'.news == s.news[slot := s'.addrs[a.service.ip]]
               else a.service.ip !in s'.addrs && s'.news == s.news
  {
    hide Inv, AddUnknown, Yields, Open, NewSlot, Refs, JustHeardOf;
    var slot := SlotFor(e, s, a.service, source);
    SlotForIs(e, s, a.service, source);
    NewSlotOccupantKnown(e, s, slot);
    OpenIs(s, s, slot, now);
    UnknownIsTakenIff(e, s, a, source, penalty, now, roll);
    AddUnknownIs(e, s, a, source, penalty, now);
    assert Find(s, a.service.ip) == None;
  }

  lemma AddUnknownIs(e: Env, s: State, a: Address, source: Ip, penalty: int, now: int)
    requires Inv(e, s) && a.service.ip !in s.addrs
    ensures var id, s' := s.idCount, AddUnknown(e, s, a, source, Max0(a.time - penalty), now);
            var slot := NewSlot(e, s.key, a.service, source);
            && (slot in s.news ==> s.news[slot] in s.info)
            && if Yields(s, slot, 0, now) then
                 && s'.news == s.news[slot := id] && id in s'.info && JustHeardOf(s'.info[id], a, source, penalty)
                 && a.service.ip in s'.addrs && s'.addrs[a.service.ip] == id
               else s'.news == s.news
  {
    hide Inv, Loose, Enrol, NewSlot, Overwrite, Delete, PlaceNew, CanPlace;
    var id, slot, time := s.idCount, NewSlot(e, s.key, a.service, source), Max0(a.time - penalty);
    NewSlotOccupantKnown(e, s, slot);
    EnrolKeeps(e, s, a, source, time);
    EnrolFrame(s, a, source, time);
    EnrolRecord(s, a, source, time);
    OpenIs(s, Enrol(s, a, source, time), slot, now);
    PlaceUnknown(e, Enrol(s, a, source, time), id, source, now);
  }

  lemma EnrolRecord(s: State, a: Address, source: Ip, time: int)
    ensures s.idCount in Enrol(s, a, source, time).info
    ensures Enrol(s, a, source, time).info[s.idCount] == Info(a.(time := time), source, 0, 0, 0, 0, false, |s.random|)
    ensures a.service.ip in Enrol(s, a, source, time).addrs && Enrol(s, a, source, time).addrs[a.service.ip] == s.idCount
  {
  }

  lemma OpenIs(s: State, s': State, slot: Slot, now: int)
    requires s'.news == s.news && forall i | i in s.info :: i in s'.info && s'.info[i] == s.info[i]
    requires slot in s.news ==> s.news[slot] in s.info
    ensures Open(s, slot, now) == Yields(s', slot, 0, now) == Yields(s, slot, 0, now)
  {
  }

  lemma PlaceUnknown(e: Env, s: State, id: nat, source: Ip, now: int)
    requires Loose(e, s, {id}, 1) && id in s.info && !s.info[id].inTried && s.info[id].refCount == 0
    ensures CanPlace(e, s, id, source)
    ensures var slot, s' := NewSlot(e, s.key, s.info[id].address.service, source), PlaceNew(e, s, id, source, now);
            if Yields(s, slot, 0, now) then
              && s'.news == s.news[slot := id] && id in s'.info
              && s'.info[id] == s.info[id].(refCount := 1, randomPos := s'.info[id].randomPos)
              && s.info[id].Ip() in s'.addrs && s'.addrs[s.info[id].Ip()] == id
            else s'.news == s.news
  {
    hide Loose, AddrsOk, RandomOk, CanClearNew, CanDelete, Overwrite, Delete, ClearNew, NewSlot;
    var slot := NewSlot(e, s.key, s.info[id].address.service, source);
    PlaceIsPossible(e, s, id, source, {id}, 1);
    AimedSlot(e, s, id, slot, {id}, 1);
    PlaceNewFate(e, s, id, source, now);
    if Yields(s, slot, 0, now) {
      OverwriteRecord(s, id, slot);
    } else {
      DeleteLeavesOthers(s, id);
    }
  }

  // ---------- what Attempt_, Connected_ and Good_ record ----------

  /** The record of exactly this endpoint. */
  predicate IsRecordOf(s: State, a: Service, id: nat) {
    a.ip in s.addrs && s.addrs[a.ip] == id && id in s.info && s.info[id].address.service == a
  }

  lemma FoundIff(s: State, a: Service, id: nat)
    ensures FindExact(s, a) == Some(id) <==> IsRecordOf(s, a, id)
    ensures FindExact(s, a).Some? ==> IsRecordOf(s, a, FindExact(s, a).value)
  {
  }

  /** Nothing but one record differs. */
  ghost predicate OnlyRecordDiffers(s: State, s': State, id: nat) {
    && id in s.info && s'.info.Keys == s.info.Keys && (forall i | i in s.info && i != id :: s'.info[i] == s.info[i])
    && s' == s.(info := s'.info)
  }

  lemma TouchDiffers(s: State, id: nat, info: Info)
    requires id in s.info
    ensures OnlyRecordDiffers(s, Touch(s, id, info), id) && Touch(s, id, info).info[id] == info
  {
  }

  /** A failed connection counts as one more attempt, tried just then; another port of the address is not it. */
  lemma AttemptIsRecorded(e: Env, s: State, a: Service, time: int, id: nat)
    requires Inv(e, s)
    ensures var s' := Attempt(e, s, a, time);
            && (IsRecordOf(s, a, id) ==>
                  && OnlyRecordDiffers(s, s', id) && s'.info[id].attempts == s.info[id].attempts + 1 && s'.info[id].lastTry == time
                  && s'.info[id].address == s.info[id].address && s'.info[id].source == s.info[id].source
                  && s'.info[id].lastSuccess == s.info[id].lastSuccess && SameLinks(s.info[id], s'.info[id]))
            && ((forall i :: !IsRecordOf(s, a, i)) ==> s' == s)
  {
    hide Inv, Touch, OnlyRecordDiffers;
    FoundIff(s, a, id);
    if IsRecordOf(s, a, id) {
      TouchDiffers(s, id, s.info[id].(lastTry := time, attempts := s.info[id].attempts + 1));
    }
  }

  /** A connection moves the time of the record on if that is more than 20 minutes back, and nothing else. */
  lemma ConnectionIsRecorded(e: Env, s: State, a: Service, time: int, id: nat)
    requires Inv(e, s)
    ensures var s' := Connected(e, s, a, time);
            && (IsRecordOf(s, a, id) ==>
                  && OnlyRecordDiffers(s, s', id)
                  && s'.info[id].address.time == (if time > s.info[id].address.time + 1200 then time else s.info[id].address.time)
                  && s'.info[id].address.services == s.info[id].address.services && s'.info[id].source == s.info[id].source
                  && s'.info[id].lastTry == s.info[id].lastTry && s'.info[id].lastSuccess == s.info[id].lastSuccess
                  && s'.info[id].attempts == s.info[id].attempts && SameLinks(s.info[id], s'.info[id]))
            && ((forall i :: !IsRecordOf(s, a, i)) ==> s' == s)
  {
    hide Inv, Touch, OnlyRecordDiffers;
    FoundIff(s, a, id);
    if IsRecordOf(s, a, id) {
      TouchDiffers(s, id, s.info[id]);
      assert Touch(s, id, s.info[id]) == s by { TouchSame(s, id); }
      TouchDiffers(s, id, s.info[id].(address := s.info[id].address.(time := time)));
    }
  }

  lemma TouchSame(s: State, id: nat)
    requires id in s.info
    ensures Touch(s, id, s.info[id]) == s
  {
  }

  /** The "tried" slot of an endpoint. */
  function TriedSlotFor(e: Env, s: State, a: Service): Slot {
    Slot(e.triedBucket(s.key, a), e.position(s.key, false, e.triedBucket(s.key, a), a))
  }

  /** The record after a success. */
  predicate Succeeded(was: Info, now: Info, time: int) {
    now == was.(lastSuccess := time, lastTry := time, attempts := 0, inTried := true,
                refCount := if was.inTried then was.refCount else 0, randomPos := now.randomPos)
  }

  lemma MakeRoomRecord(e: Env, s: State, slot: Slot)
    requires CanMakeRoom(e, s, slot) && AddrsOk(s) && RandomOk(s)
    requires BackSlot(e, s, slot) in s.news ==> s.news[BackSlot(e, s, slot)] != s.tried[slot]
    ensures var s', ev := MakeRoom(e, s, slot), s.tried[slot];
            && s'.news == s.news[BackSlot(e, s, slot) := ev] && s'.tried == s.tried - {slot}
            && ev in s'.info && s'.info[ev] == s.info[ev].(inTried := false, refCount := 1, randomPos := s'.info[ev].randomPos)
  {
    hide ClearNew, CanClearNew, AddrsOk, RandomOk, NewSlot;
    var s1, ev, uslot := Evict(s, slot), s.tried[slot], BackSlot(e, s, slot);
    IdentityKept(s, s1);
    ClearNewFrame(s1, uslot);
    assert Kept(s1, ClearNew(s1, uslot), ev);
  }

  /** The occupant of the "tried" slot, if any, ends in the "new" slot its own source points at. */
  predicate MovedBack(e: Env, s: State, s': State, id: nat, slot: Slot) {
    if slot in s.tried then
      var ev := s.tried[slot];
      && ev in s.info && ev in s'.info
      && s'.info[ev] == s.info[ev].(inTried := false, refCount := 1, randomPos := s'.info[ev].randomPos)
      && s'.news == (s.news - Refs(s.news, id))[SlotFor(e, s, s.info[ev].address.service, s.info[ev].source) := ev]
    else s'.news == s.news - Refs(s.news, id)
  }

  lemma MakeTriedEffect(e: Env, s: State, id: nat)
    requires Inv(e, s) && id in s.info && !s.info[id].inTried
    ensures CanMakeTried(e, s, id)
    ensures var s', slot := MakeTried(e, s, id), TriedSlotFor(e, s, s.info[id].address.service);
            && s'.tried == s.tried[slot := id] && MovedBack(e, s, s', id, slot)
            && id in s'.info && s'.info[id] == s.info[id].(inTried := true, refCount := 0, randomPos := s'.info[id].randomPos)
  {
    hide Loose, MakeRoom, CanMakeRoom, AddrsOk, RandomOk, NewSlot, Refs;
    MakeTriedKeeps(e, s, id);
    var s1, slot := Detach(s, id), TriedSlot(e, s.key, s.info[id].address.service);
    DetachedIs(e, s, id);
    DetachKeeps(e, s, id);
    if slot in s1.tried {
      MakeRoomKeeps(e, s1, slot, id);
      TriedHasNoNew(e, s1, slot, id);
      MakeRoomRecord(e, s1, slot);
      SlotForIs(e, s, s.info[s.tried[slot]].address.service, s.info[s.tried[slot]].source);
    }
  }

  lemma TriedHasNoNew(e: Env, s: State, slot: Slot, id: nat)
    requires Loose(e, s, {id}, 0) && slot in s.tried
    ensures s.tried[slot] in s.info && s.tried[slot] != id
    ensures BackSlot(e, s, slot) in s.news ==> s.news[BackSlot(e, s, slot)] != s.tried[slot]
  {
    EvictKeeps(e, s, slot, {id}, 0);
    assert TriedSlotOk(e, s, slot) && NewSlotOk(e, s, BackSlot(e, s, slot));
  }

  /**
   A success is written into the record of that endpoint alone. If it was new it leaves all its
   "new" slots for its "tried" one, whose occupant becomes new again.
   */
  lemma SuccessIsRecorded(e: Env, s: State, a: Service, time: int, id: nat)
    requires Inv(e, s)
    ensures var s' := Good(e, s, a, time);
            && (IsRecordOf(s, a, id) ==>
                  && id in s'.info && Succeeded(s.info[id], s'.info[id], time)
                  && if s.info[id].inTried then OnlyRecordDiffers(s, s', id)
                     else s'.tried == s.tried[TriedSlotFor(e, s, a) := id] && MovedBack(e, s, s', id, TriedSlotFor(e, s, a)))
            && ((forall i :: !IsRecordOf(s, a, i)) ==> s' == s)
  {
    hide Inv, Touch, OnlyRecordDiffers, MakeTried, CanMakeTried, MovedBack, TriedSlotFor;
    FoundIff(s, a, id);
    if IsRecordOf(s, a, id) {
      var info := s.info[id].(lastSuccess := time, lastTry := time, attempts := 0);
      TouchKeeps(e, s, id, info);
      TouchDiffers(s, id, info);
      TouchFrame(s, id, info);
      if !info.inTried {
        MakeTriedEffect(e, Touch(s, id, info), id);
        MovedBackAlike(e, s, Touch(s, id, info), Good(e, s, a, time), id, a);
      }
    }
  }

  lemma MovedBackAlike(e: Env, s: State, s1: State, s': State, id: nat, a: Service)
    requires OnlyRecordDiffers(s, s1, id) && Inv(e, s) && !s.info[id].inTried
    requires MovedBack(e, s1, s', id, TriedSlotFor(e, s1, a))
    ensures TriedSlotFor(e, s1, a) == TriedSlotFor(e, s, a)
    ensures MovedBack(e, s, s', id, TriedSlotFor(e, s, a))
  {
    assert TriedSlotOk(e, s, TriedSlotFor(e, s, a));
  }
}
