/** The address manager as an object, each method doing to its fields what AddrOps says. */
module AddrMan {
  import opened Arithmetic
  import opened Wrappers
  import opened AddrTables
  import opened AddrOps
  import opened AddrRuns

  /** The table holds -1 wherever the map has no entry. */
  ghost predicate Mirrors(a: array2<int>, t: map<Slot, nat>)
    reads a
  {
    && (forall slot | slot in t :: slot.bucket < a.Length0 && slot.pos < a.Length1)
    && (forall b, p | 0 <= b < a.Length0 && 0 <= p < a.Length1 ::
          a[b, p] == if Slot(b, p) in t then t[Slot(b, p)] else -1)
  }

  class AddrMan {
    const env: Env
    var key: Key
    var idCount: nat
    var mapInfo: map<nat, Info>
    var mapAddr: map<Ip, nat>
    var vRandom: seq<nat>
    var nTried: int
    const vvTried: array2<int>
    var nNew: int
    const vvNew: array2<int>
    ghost var tried: map<Slot, nat>
    ghost var news: map<Slot, nat>

    ghost predicate Valid()
      reads this`tried, this`news, vvTried, vvNew
    {
      && vvTried.Length0 == TRIED_BUCKET_COUNT && vvTried.Length1 == BUCKET_SIZE
      && vvNew.Length0 == NEW_BUCKET_COUNT && vvNew.Length1 == BUCKET_SIZE
      && vvTried != vvNew
      && Mirrors(vvTried, tried) && Mirrors(vvNew, news)
    }

    ghost function Model(): State
      reads this
    {
      State(key, idCount, mapInfo, mapAddr, vRandom, nTried, tried, nNew, news)
    }

    constructor (env: Env, key: Key)
      ensures Valid() && Model() == Empty(key) && Inv(env, Model())
      ensures this.env == env && fresh(vvTried) && fresh(vvNew)
    {
      this.env, this.key := env, key;
      idCount, mapInfo, mapAddr, vRandom, nTried, nNew := 0, map[], map[], [], 0, 0;
      vvTried := new int[TRIED_BUCKET_COUNT, BUCKET_SIZE]((_, _) => -1);
      vvNew := new int[NEW_BUCKET_COUNT, BUCKET_SIZE]((_, _) => -1);
      tried, news := map[], map[];
      new;
      EmptyIsOk(env, key);
    }

    function NewAt(slot: Slot): (v: int)
      requires Valid() && slot.bucket < NEW_BUCKET_COUNT && slot.pos < BUCKET_SIZE
      reads this`tried, this`news, vvTried, vvNew
      ensures v == if slot in news then news[slot] else -1
    {
      assert Slot(slot.bucket, slot.pos) == slot;
      vvNew[slot.bucket, slot.pos]
    }

    function TriedAt(slot: Slot): (v: int)
      requires Valid() && slot.bucket < TRIED_BUCKET_COUNT && slot.pos < BUCKET_SIZE
      reads this`tried, this`news, vvTried, vvNew
      ensures v == if slot in tried then tried[slot] else -1
    {
      assert Slot(slot.bucket, slot.pos) == slot;
      vvTried[slot.bucket, slot.pos]
    }

    method SetNew(slot: Slot, v: int)
      requires Valid() && slot.bucket < NEW_BUCKET_COUNT && slot.pos < BUCKET_SIZE && v >= -1
      modifies this`news, vvNew
      ensures Valid() && news == if v == -1 then old(news) - {slot} else old(news)[slot := v]
    {
      vvNew[slot.bucket, slot.pos] := v;
      news := if v == -1 then news - {slot} else news[slot := v];
    }

    method SetTried(slot: Slot, v: int)
      requires Valid() && slot.bucket < TRIED_BUCKET_COUNT && slot.pos < BUCKET_SIZE && v >= -1
      modifies this`tried, vvTried
      ensures Valid() && tried == if v == -1 then old(tried) - {slot} else old(tried)[slot := v]
    {
      vvTried[slot.bucket, slot.pos] := v;
      tried := if v == -1 then tried - {slot} else tried[slot := v];
    }

    method Create(a: Address, source: Ip) returns (id: nat)
      requires Valid()
      modifies this`idCount, this`mapInfo, this`mapAddr, this`vRandom
      ensures Valid() && Model() == AddrTables.Create(old(Model()), a, source) && id == old(idCount)
    {
      id := idCount;
      idCount := idCount + 1;
      mapInfo := mapInfo[id := FreshInfo(a, source, -1)];
      mapAddr := mapAddr[a.service.ip := id];
      mapInfo := mapInfo[id := mapInfo[id].(randomPos := |vRandom|)];
      vRandom := vRandom + [id];
    }

    method SwapRandom(i: nat, j: nat)
      requires Valid() && i < |vRandom| && j < |vRandom| && vRandom[i] in mapInfo && vRandom[j] in mapInfo
      modifies this`mapInfo, this`vRandom
      ensures Valid() && Model() == AddrTables.SwapRandom(old(Model()), i, j)
    {
      if i == j {
        return;
      }
      var a, b := vRandom[i], vRandom[j];
      mapInfo := mapInfo[a := mapInfo[a].(randomPos := j)];
      mapInfo := mapInfo[b := mapInfo[b].(randomPos := i)];
      vRandom := vRandom[i := b];
      vRandom := vRandom[j := a];
    }

    method Delete(id: nat)
      requires Valid() && CanDelete(Model(), id)
      modifies this`mapInfo, this`vRandom, this`mapAddr, this`nNew
      ensures Valid() && Model() == AddrTables.Delete(old(Model()), id)
    {
      var info := mapInfo[id];
      SwapRandom(info.randomPos, |vRandom| - 1);
      vRandom := vRandom[..|vRandom| - 1];
      mapAddr := mapAddr - {info.Ip()};
      mapInfo := mapInfo - {id};
      nNew := nNew - 1;
    }

    method ClearNew(slot: Slot)
      requires Valid() && CanClearNew(Model(), slot)
      requires slot.bucket < NEW_BUCKET_COUNT && slot.pos < BUCKET_SIZE
      modifies this`mapInfo, this`vRandom, this`mapAddr, this`nNew, this`news, vvNew
      ensures Valid() && Model() == AddrTables.ClearNew(old(Model()), slot)
    {
      var id := NewAt(slot);
      if id != -1 {
        assert mapInfo[id].refCount > 0;
        mapInfo := mapInfo[id := mapInfo[id].(refCount := mapInfo[id].refCount - 1)];
        SetNew(slot, -1);
        if mapInfo[id].refCount == 0 {
          Delete(id);
        }
      }
    }

    method LeaveTried(slot: Slot) returns (evicted: nat)
      requires Valid() && slot in tried && tried[slot] in mapInfo
      requires slot.bucket < TRIED_BUCKET_COUNT && slot.pos < BUCKET_SIZE
      modifies this`mapInfo, this`tried, this`nTried, vvTried
      ensures Valid() && Model() == Evict(old(Model()), slot) && evicted == old(tried)[slot]
    {
      evicted := TriedAt(slot);
      mapInfo := mapInfo[evicted := mapInfo[evicted].(inTried := false)];
      SetTried(slot, -1);
      nTried := nTried - 1;
    }

    method EnterNew(id: nat, slot: Slot, refCount: int)
      requires Valid() && id in mapInfo && slot.bucket < NEW_BUCKET_COUNT && slot.pos < BUCKET_SIZE
      modifies this`mapInfo, this`news, vvNew
      ensures Valid() && Model() == TakeNew(old(Model()), id, slot, refCount)
    {
      mapInfo := mapInfo[id := mapInfo[id].(refCount := refCount)];
      SetNew(slot, id);
    }

    method EnterTried(id: nat, slot: Slot)
      requires Valid() && id in mapInfo && slot !in tried
      requires slot.bucket < TRIED_BUCKET_COUNT && slot.pos < BUCKET_SIZE
      modifies this`mapInfo, this`tried, this`nTried, vvTried
      ensures Valid() && Model() == TakeTried(old(Model()), id, slot)
    {
      assert TriedAt(slot) == -1;
      SetTried(slot, id);
      nTried := nTried + 1;
      mapInfo := mapInfo[id := mapInfo[id].(inTried := true)];
    }

    method LeaveBucket(id: nat, bucket: nat)
      requires Valid() && id in mapInfo && bucket < NEW_BUCKET_COUNT
      modifies this`mapInfo, this`news, vvNew
      ensures Valid() && Model() == LeftBucket(env, old(Model()), id, bucket)
    {
      var slot := Slot(bucket, env.position(key, true, bucket, mapInfo[id].address.service));
      if NewAt(slot) == id {
        SetNew(slot, -1);
        mapInfo := mapInfo[id := mapInfo[id].(refCount := mapInfo[id].refCount - 1)];
      }
    }

    /** The first loop of MakeTried: out of every "new" bucket. */
    method RemoveFromNew(id: nat)
      requires Valid() && Inv(env, Model()) && id in mapInfo
      modifies this`mapInfo, this`nNew, this`news, vvNew
      ensures Valid() && Model() == Detach(old(Model()), id)
    {
      ghost var s := Model();
      hide Valid, Loose, LeftUpTo, LeftBucket, Detach, NewAt, TriedAt;
      LeftNone(s, id);
      var bucket := 0;
      while bucket < NEW_BUCKET_COUNT
        invariant bucket <= NEW_BUCKET_COUNT && Valid()
        invariant id in mapInfo && Model() == LeftUpTo(s, id, bucket)
      {
        LeaveOneMore(env, s, id, bucket);
        LeaveBucket(id, bucket);
        bucket := bucket + 1;
      }
      LeftAll(env, s, id);
      nNew := nNew - 1;
    }

    /** The eviction in the middle of MakeTried. */
    method MakeRoom(slot: Slot)
      requires Valid() && CanMakeRoom(env, Model(), slot)
      requires slot.bucket < TRIED_BUCKET_COUNT && slot.pos < BUCKET_SIZE
      modifies this, vvNew, vvTried
      ensures Valid() && Model() == AddrOps.MakeRoom(env, old(Model()), slot)
    {
      hide Valid, CanClearNew, AddrTables.ClearNew;
      var evicted := LeaveTried(slot);
      var uslot := NewSlot(env, key, mapInfo[evicted].address.service, mapInfo[evicted].source);
      assert uslot == BackSlot(env, old(Model()), slot);
      hide NewSlot;
      ClearNew(uslot);
      EnterNew(evicted, uslot, 1);
      nNew := nNew + 1;
    }

    method MakeTried(id: nat)
      requires Valid() && Inv(env, Model()) && CanMakeTried(env, Model(), id)
      modifies this, vvNew, vvTried
      ensures Valid() && Model() == AddrOps.MakeTried(env, old(Model()), id)
    {
      hide Valid, Loose, AddrOps.MakeRoom, CanMakeRoom, NewAt, TriedAt;
      RemoveFromNew(id);
      assert mapInfo[id].refCount == 0;
      var slot := TriedSlot(env, key, mapInfo[id].address.service);
      if TriedAt(slot) != -1 {
        MakeRoom(slot);
      }
      EnterTried(id, slot);
    }

    method FindExact(a: Service) returns (id: Option<nat>)
      requires Valid() && Inv(env, Model())
      ensures id == AddrOps.FindExact(Model(), a)
      ensures id.Some? ==> id.value in mapInfo
    {
      if a.ip !in mapAddr {
        return None;
      }
      assert NameKnown(Model(), a.ip);
      if mapInfo[mapAddr[a.ip]].address.service != a {
        return None;
      }
      id := Some(mapAddr[a.ip]);
    }

    method Replace(id: nat, info: Info)
      requires Valid()
      modifies this`mapInfo
      ensures Valid() && Model() == Touch(old(Model()), id, info)
    {
      mapInfo := mapInfo[id := info];
    }

    method Attempt(a: Service, time: int)
      requires Valid() && Inv(env, Model())
      modifies this`mapInfo
      ensures Valid() && Model() == AddrOps.Attempt(env, old(Model()), a, time)
    {
      hide Inv, Loose, Valid;
      var id := FindExact(a);
      if id.Some? {
        var info := mapInfo[id.value];
        mapInfo := mapInfo[id.value := info.(lastTry := time, attempts := info.attempts + 1)];
      }
    }

    method Connected(a: Service, time: int)
      requires Valid() && Inv(env, Model())
      modifies this`mapInfo
      ensures Valid() && Model() == AddrOps.Connected(env, old(Model()), a, time)
    {
      hide Inv, Loose, Valid;
      var id := FindExact(a);
      if id.Some? {
        var info := mapInfo[id.value];
        if time - info.address.time > 20 * 60 {
          mapInfo := mapInfo[id.value := info.(address := info.address.(time := time))];
        }
      }
    }

    /** The search for a bucket the address is in, from a random one on: it always succeeds. */
    method FindNewBucket(id: nat, rnd: nat) returns (bucket: int)
      requires Valid() && Inv(env, Model()) && id in mapInfo && !mapInfo[id].inTried
      ensures Valid() && Model() == old(Model())
      ensures 0 <= bucket < NEW_BUCKET_COUNT
      ensures var slot := Slot(bucket, env.position(key, true, bucket, mapInfo[id].address.service)); slot in news && news[slot] == id
    {
      var service := mapInfo[id].address.service;
      bucket := -1;
      var n := 0;
      while n < NEW_BUCKET_COUNT
        invariant 0 <= n <= NEW_BUCKET_COUNT
        invariant forall m: nat | m < n :: !HoldsAt(news, id, Slot(Turn(m, rnd), env.position(key, true, Turn(m, rnd), service)))
      {
        var b := Turn(n, rnd);
        var slot := Slot(b, env.position(key, true, b, service));
        if NewAt(slot) == id {
          assert HoldsAt(news, id, slot);
          return b;
        }
        n := n + 1;
      }
      assert RefOk(Model(), {}, id);
      ghost var slot :| slot in Refs(news, id);
      assert NewSlotOk(env, Model(), slot);
      ghost var m := TurnsReachAll(slot.bucket, rnd);
      assert HoldsAt(news, id, Slot(slot.bucket, slot.pos));
    }

    method Good(a: Service, time: int, rnd: nat)
      requires Valid() && Inv(env, Model())
      modifies this, vvNew, vvTried
      ensures Valid() && Model() == AddrOps.Good(env, old(Model()), a, time)
    {
      var id := FindExact(a);
      if id.None? {
        return;
      }
      GoodInSteps(env, Model(), a, time);
      hide Valid, Loose, AddrOps.MakeTried, CanMakeTried, Touch, AddrOps.FindExact, AddrOps.Good;
      Replace(id.value, mapInfo[id.value].(lastSuccess := time, lastTry := time, attempts := 0));
      if mapInfo[id.value].inTried {
        return;
      }
      var bucket := FindNewBucket(id.value, rnd);
      if bucket == -1 {
        return;
      }
      MakeTried(id.value);
    }

    /** The end of Add_, from the choice of the slot on. */
    method PlaceNew(id: nat, source: Ip, now: int)
      requires Valid() && CanPlace(env, Model(), id, source)
      modifies this`mapInfo, this`vRandom, this`mapAddr, this`nNew, this`news, vvNew
      ensures Valid() && Model() == AddrOps.PlaceNew(env, old(Model()), id, source, now)
    {
      hide Valid, CanClearNew, CanDelete, AddrTables.ClearNew, AddrTables.Delete;
      var slot := NewSlot(env, key, mapInfo[id].address.service, source);
      var sitting := NewAt(slot);
      if sitting != id {
        var insert := sitting == -1;
        if !insert {
          var existing := mapInfo[sitting];
          insert := existing.IsTerrible(now) || (existing.refCount > 1 && mapInfo[id].refCount == 0);
        }
        if insert {
          ClearNew(slot);
          EnterNew(id, slot, mapInfo[id].refCount + 1);
        } else if mapInfo[id].refCount == 0 {
          Delete(id);
        }
      }
    }

    static method Factor(refCount: nat) returns (factor: nat)
      ensures factor == Pow2(refCount)
    {
      factor := 1;
      for n := 0 to refCount
        invariant factor == Pow2(n)
      {
        factor := factor * 2;
      }
    }

    /** The branch of Add_ for a known address, its record brought up to date; `roll` is the random draw. */
    method AddKnown(id: nat, a: Address, source: Ip, info: Info, now: int, roll: nat)
      requires Valid() && Inv(env, Model()) && id in mapInfo && SameLinks(mapInfo[id], info) && info.refCount >= 0
      modifies this`mapInfo, this`vRandom, this`mapAddr, this`nNew, this`news, vvNew
      ensures Valid() && Model() == AddrOps.AddKnown(env, old(Model()), id, a, source, info, now, roll)
    {
      hide Loose, Valid, AddrOps.PlaceNew, CanPlace, Pow2;
      TouchKeeps(env, Model(), id, info);
      RefCountBounds(env, Model(), id);
      mapInfo := mapInfo[id := info];
      if a.time == 0 || (info.address.time != 0 && a.time <= info.address.time) {
        return;
      }
      if info.inTried {
        return;
      }
      if info.refCount == NEW_BUCKETS_PER_ADDRESS {
        return;
      }
      var factor := Factor(info.refCount);
      if factor > 1 && roll % factor != 0 {
        return;
      }
      PlaceNewKeeps(env, Model(), id, source, now, {}, 0);
      PlaceNew(id, source, now);
    }

    method Enrol(a: Address, source: Ip, time: int) returns (id: nat)
      requires Valid()
      modifies this`idCount, this`mapInfo, this`mapAddr, this`vRandom, this`nNew
      ensures Valid() && Model() == AddrOps.Enrol(old(Model()), a, source, time) && id == old(idCount)
    {
      id := Create(a, source);
      mapInfo := mapInfo[id := mapInfo[id].(address := mapInfo[id].address.(time := time))];
      nNew := nNew + 1;
    }

    method AddUnknown(a: Address, source: Ip, time: int, now: int)
      requires Valid() && Inv(env, Model()) && a.service.ip !in mapAddr
      modifies this, vvNew
      ensures Valid() && Model() == AddrOps.AddUnknown(env, old(Model()), a, source, time, now)
    {
      EnrolKeeps(env, Model(), a, source, time);
      EnrolFrame(Model(), a, source, time);
      hide Valid, Loose, AddrOps.PlaceNew, TriedIds, NewSlot, AddrOps.Enrol;
      PlaceNewKeeps(env, AddrOps.Enrol(Model(), a, source, time), idCount, source, now, {idCount}, 1);
      var id := Enrol(a, source, time);
      PlaceNew(id, source, now);
    }

    method Add(a: Address, source: Ip, penalty: int, now: int, roll: nat) returns (isNew: bool)
      requires Valid() && Inv(env, Model())
      modifies this, vvNew
      ensures Valid() && (Model(), isNew) == AddrOps.Add(env, old(Model()), a, source, penalty, now, roll)
    {
      hide Valid, Loose, AddrOps.AddKnown, AddrOps.AddUnknown, Refreshed;
      if !env.routable(a.service.ip) {
        return false;
      }
      if a.service.ip in mapAddr {
        KnownId(env, Model(), a.service.ip);
        var id := mapAddr[a.service.ip];
        AddKnown(id, a, source, Refreshed(mapInfo[id], a, penalty, now), now, roll);
        isNew := false;
      } else {
        AddUnknown(a, source, Max0(a.time - penalty), now);
        isNew := true;
      }
    }

    method GetAddr(picks: nat -> nat, now: int) returns (out: seq<Address>)
      requires Valid() && Inv(env, Model())
      modifies this`mapInfo, this`vRandom
      ensures Valid() && (Model(), out) == AddrRuns.GetAddr(env, old(Model()), picks, now)
    {
      ghost var s := Model();
      var cap := GETADDR_MAX_PCT * |vRandom| / 100;
      if cap > GETADDR_MAX {
        cap := GETADDR_MAX;
      }
      out := [];
      var n := 0;
      hide Valid, Loose, AddrTables.SwapRandom, Draw, Gather, Kept, PlaceKnown;
      while n < |vRandom|
        invariant n <= |vRandom| && Valid() && Inv(env, Model())
        invariant SampleFrom(env, s, 0, cap, [], picks, now) == SampleFrom(env, Model(), n, cap, out, picks, now)
        decreases |vRandom| - n
      {
        if |out| >= cap {
          break;
        }
        var j := Draw(picks(n), n, |vRandom|);
        SwapKeepsInv(env, Model(), n, j);
        SampleRound(env, Model(), n, j, now);
        SwapRandom(n, j);
        var info := mapInfo[vRandom[n]];
        if !info.IsTerrible(now) {
          out := out + [info.address];
        }
        n := n + 1;
      }
    }
  }

  /** Good_ for an endpoint that is known, as the states it passes through. */
  lemma GoodInSteps(e: Env, s: State, a: Service, time: int)
    requires Inv(e, s) && AddrOps.FindExact(s, a).Some?
    ensures var id := AddrOps.FindExact(s, a).value;
            && id in s.info
            && var s1 := Touch(s, id, s.info[id].(lastSuccess := time, lastTry := time, attempts := 0));
            && Inv(e, s1) && id in s1.info && s1.info[id].inTried == s.info[id].inTried
            && (s1.info[id].inTried ==> AddrOps.Good(e, s, a, time) == s1)
            && (!s1.info[id].inTried ==> CanMakeTried(e, s1, id) && AddrOps.Good(e, s, a, time) == AddrOps.MakeTried(e, s1, id))
  {
    var id := AddrOps.FindExact(s, a).value;
    var info := s.info[id].(lastSuccess := time, lastTry := time, attempts := 0);
    hide Loose, AddrOps.MakeTried, CanMakeTried;
    TouchKeeps(e, s, id, info);
    if !info.inTried {
      MakeTriedKeeps(e, Touch(s, id, info), id);
    }
  }

  predicate HoldsAt(news: map<Slot, nat>, id: nat, slot: Slot) {
    slot in news && news[slot] == id
  }

  /** The n-th bucket looked at when starting from a random one. */
  function Turn(n: nat, rnd: nat): NewBucket {
    (n + rnd) % 1024
  }

  lemma TurnsReachAll(b: NewBucket, rnd: nat) returns (n: nat)
    ensures n < NEW_BUCKET_COUNT && Turn(n, rnd) == b
  {
    n := (b + 1024 - rnd % 1024) % 1024;
  }

  /** The slots an id holds in the first buckets. */
  function RefsBelow(news: map<Slot, nat>, id: nat, bucket: nat): set<Slot> {
    set slot | slot in news && news[slot] == id && slot.bucket < bucket
  }

  /** One round of the loop that takes an id out of every "new" bucket. */
  function LeftBucket(e: Env, s: State, id: nat, bucket: nat): State
    requires id in s.info
  {
    var slot := Slot(bucket, e.position(s.key, true, bucket, s.info[id].address.service));
    if HoldsAt(s.news, id, slot) then
      s.(info := s.info[id := s.info[id].(refCount := s.info[id].refCount - 1)], news := s.news - {slot})
    else s
  }

  /** That loop after so many buckets. */
  function LeftUpTo(s: State, id: nat, bucket: nat): State
    requires id in s.info
  {
    s.(info := s.info[id := s.info[id].(refCount := s.info[id].refCount - |RefsBelow(s.news, id, bucket)|)],
       news := s.news - RefsBelow(s.news, id, bucket))
  }

  lemma LeftNone(s: State, id: nat)
    requires id in s.info
    ensures LeftUpTo(s, id, 0) == s
  {
    assert RefsBelow(s.news, id, 0) == {};
  }

  /** A bucket adds at most the one slot the id hashes to there. */
  lemma OneSlotPerBucket(e: Env, s: State, id: nat, bucket: nat)
    requires Inv(e, s) && id in s.info
    ensures var mine := Slot(bucket, e.position(s.key, true, bucket, s.info[id].address.service));
            && mine !in RefsBelow(s.news, id, bucket)
            && RefsBelow(s.news, id, bucket + 1) ==
               RefsBelow(s.news, id, bucket) + (if HoldsAt(s.news, id, mine) then {mine} else {})
  {
    var mine := Slot(bucket, e.position(s.key, true, bucket, s.info[id].address.service));
    forall slot ensures slot in RefsBelow(s.news, id, bucket + 1) <==>
                        slot in RefsBelow(s.news, id, bucket) || (slot == mine && HoldsAt(s.news, id, slot)) {
      assert NewSlotOk(e, s, slot);
    }
  }

  lemma LeaveOneMore(e: Env, s: State, id: nat, bucket: nat)
    requires Inv(e, s) && id in s.info
    ensures id in LeftUpTo(s, id, bucket).info && id in LeftUpTo(s, id, bucket + 1).info
    ensures LeftBucket(e, LeftUpTo(s, id, bucket), id, bucket) == LeftUpTo(s, id, bucket + 1)
  {
    hide Inv, Loose, RefsBelow;
    OneSlotPerBucket(e, s, id, bucket);
    var mine := Slot(bucket, e.position(s.key, true, bucket, s.info[id].address.service));
    var before, after := RefsBelow(s.news, id, bucket), RefsBelow(s.news, id, bucket + 1);
    if HoldsAt(s.news, id, mine) {
      OneLess(s, id, before, mine);
      assert HoldsAt(s.news - before, id, mine);
    } else {
      assert !HoldsAt(s.news - before, id, mine) && after == before;
    }
  }

  /** One more slot taken away, and counted off. */
  lemma OneLess(s: State, id: nat, before: set<Slot>, mine: Slot)
    requires id in s.info && mine !in before
    ensures |before + {mine}| == |before| + 1 && s.news - before - {mine} == s.news - (before + {mine})
    ensures var one := s.info[id := s.info[id].(refCount := s.info[id].refCount - |before|)];
            one[id := one[id].(refCount := one[id].refCount - 1)] == s.info[id := s.info[id].(refCount := s.info[id].refCount - |before + {mine}|)]
  {
  }

  lemma LeftAll(e: Env, s: State, id: nat)
    requires Inv(e, s) && id in s.info
    ensures var s' := LeftUpTo(s, id, NEW_BUCKET_COUNT); s'.(nNew := s'.nNew - 1) == Detach(s, id)
  {
    forall slot ensures slot in RefsBelow(s.news, id, NEW_BUCKET_COUNT) <==> slot in Refs(s.news, id) {
      assert NewSlotOk(e, s, slot);
    }
    assert RefsBelow(s.news, id, NEW_BUCKET_COUNT) == Refs(s.news, id);
  }
}
