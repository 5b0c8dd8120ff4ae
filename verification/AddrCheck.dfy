/** Check_, the consistency check of the address manager, and how it compares with the invariant. */
module AddrCheck {
  import opened Wrappers
  import opened AddrTables
  import opened AddrRuns
  import opened AddrMan

  // ---------- what is checked ----------

  /** operator[] of the address map: zero where there is no entry. */
  function NameOf(s: State, ip: Ip): nat { if ip in s.addrs then s.addrs[ip] else 0 }

  predicate RecordFine(s: State, id: nat) {
    id in s.info ==>
      var info := s.info[id];
      && (if info.inTried then info.lastSuccess != 0 && info.refCount == 0 else 0 < info.refCount <= NEW_BUCKETS_PER_ADDRESS)
      && NameOf(s, info.Ip()) == id
      && 0 <= info.randomPos < |s.random| && s.random[info.randomPos] == id
      && info.lastTry >= 0 && info.lastSuccess >= 0
  }

  ghost predicate AllFine(s: State) { forall id: nat :: RecordFine(s, id) }

  predicate NewSlotFine(e: Env, s: State, slot: Slot) {
    slot in s.news ==>
      && s.news[slot] in s.info && !s.info[s.news[slot]].inTried
      && slot.pos == e.position(s.key, true, slot.bucket, s.info[s.news[slot]].address.service)
  }

  ghost predicate RefsCounted(s: State, id: nat) {
    id in s.info && !s.info[id].inTried ==> s.info[id].refCount == |Refs(s.news, id)|
  }

  ghost predicate Checked(e: Env, s: State) {
    && |s.random| == s.nTried + s.nNew
    && AllFine(s)
    && |TriedIds(s)| == s.nTried && |NewIds(s)| == s.nNew
    && TriedOk(e, s) && NewTableFine(e, s)
    && s.key != 0
  }

  ghost predicate NewTableFine(e: Env, s: State) {
    (forall slot :: NewSlotFine(e, s, slot)) && (forall id :: RefsCounted(s, id))
  }

  // ---------- against the invariant ----------

  /** What Check_ looks at besides the indexes: times that are not negative, a success for every tried address, a key. */
  predicate Healthy(s: State) {
    && s.key != 0
    && forall id | id in s.info :: s.info[id].lastTry >= 0 && s.info[id].lastSuccess >= 0
                                   && (s.info[id].inTried ==> s.info[id].lastSuccess != 0)
  }

  lemma InvIsChecked(e: Env, s: State)
    requires Inv(e, s) && Healthy(s)
    ensures Checked(e, s)
  {
    RandomHoldsBothTables(e, s);
    forall id ensures RecordFine(s, id) {
      assert IdNamed(s, id) && IdPlaced(s, id) && RefOk(s, {}, id);
    }
    forall slot ensures NewSlotFine(e, s, slot) { assert NewSlotOk(e, s, slot); }
    forall id ensures RefsCounted(s, id) { assert RefOk(s, {}, id); }
    assert NewIds(s) - {} == NewIds(s);
  }

  lemma {:induction false} ElemsAreFew(ids: seq<nat>)
    ensures |Elems(ids)| <= |ids|
    decreases |ids|
  {
    if ids != [] {
      var rest, last := ids[..|ids| - 1], ids[|ids| - 1];
      ElemsAreFew(rest);
      assert ids == rest + [last];
      assert Elems(ids) == Elems(rest) + {last} by {
        forall id ensures id in Elems(ids) <==> id in Elems(rest) + {last} {}
      }
    } else {
      assert Elems(ids) == {};
    }
  }

  lemma RepeatShrinks(ids: seq<nat>, i: nat, j: nat)
    requires i < j < |ids| && ids[i] == ids[j]
    ensures |Elems(ids)| < |ids|
  {
    var rest := ids[..j] + ids[j + 1..];
    ElemsAreFew(rest);
    assert ids == ids[..j] + [ids[j]] + ids[j + 1..];
    assert ids[i] in ids[..j];
    forall id ensures id in Elems(ids) <==> id in Elems(rest) {}
    assert Elems(ids) == Elems(rest);
  }

  lemma SupersetIsEqual<T>(a: set<T>, b: set<T>)
    requires a <= b && |b| <= |a|
    ensures a == b
  {
    assert b == (b - a) + a;
    assert |b| == |b - a| + |a|;
  }

  /** As many places as records, and a place for each record: so a record for each place. */
  lemma PlacesAreTaken(s: State)
    requires |s.random| == |s.info| && forall id :: IdPlaced(s, id)
    ensures RandomOk(s)
  {
    forall id | id in s.info ensures id in Elems(s.random) {
      assert IdPlaced(s, id);
    }
    ElemsAreFew(s.random);
    assert |s.info.Keys| == |s.info|;
    SupersetIsEqual(s.info.Keys, Elems(s.random));
    forall k: nat ensures PlaceKnown(s, k) {
      if k < |s.random| {
        var id := s.random[k];
        assert id in Elems(s.random) && IdPlaced(s, id);
        var p := s.info[id].randomPos;
        if p < k {
          RepeatShrinks(s.random, p, k);
        } else if k < p {
          RepeatShrinks(s.random, k, p);
        }
      }
    }
  }

  /** A state whose "new" table has the size it has. */
  predicate InTable(s: State) {
    forall slot | slot in s.news :: slot.bucket < NEW_BUCKET_COUNT
  }

  /** What Check_ does not look at: every name is that of its record, no id is beyond nIdCount, and record 0 has a name. */
  ghost predicate NamesKnown(s: State) {
    && (forall a :: NameKnown(s, a))
    && (forall id | id in s.info :: id < s.idCount)
    && (0 in s.info ==> s.info[0].Ip() in s.addrs)
  }

  lemma CheckedNamesAndPlaces(s: State)
    requires AllFine(s) && NamesKnown(s) && |s.random| == |s.info|
    ensures AddrsOk(s) && RandomOk(s)
  {
    forall id ensures IdPlaced(s, id) && IdNamed(s, id) { assert RecordFine(s, id); }
    PlacesAreTaken(s);
  }

  lemma CheckedTables(e: Env, s: State)
    requires AllFine(s) && NewTableFine(e, s) && InTable(s)
    ensures NewsOk(e, s) && RefsOk(s, {})
  {
    forall slot ensures NewSlotOk(e, s, slot) { assert NewSlotFine(e, s, slot); }
    forall id ensures RefOk(s, {}, id) {
      assert RecordFine(s, id) && RefsCounted(s, id);
      if id in s.info && s.info[id].inTried {
        forall slot ensures slot !in Refs(s.news, id) { assert NewSlotFine(e, s, slot); }
        assert Refs(s.news, id) == {};
      }
    }
  }

  lemma FineIsHealthy(s: State)
    requires AllFine(s) && s.key != 0
    ensures Healthy(s)
  {
    forall id | id in s.info
      ensures s.info[id].lastTry >= 0 && s.info[id].lastSuccess >= 0 && (s.info[id].inTried ==> s.info[id].lastSuccess != 0)
    {
      assert RecordFine(s, id);
    }
  }

  lemma CheckedIsInv(e: Env, s: State)
    requires Checked(e, s) && NamesKnown(s) && InTable(s)
    ensures Inv(e, s) && Healthy(s)
  {
    hide AllFine, NewTableFine, NamesKnown, InTable, AddrsOk, RandomOk, NewsOk, TriedOk, RefsOk, Healthy, NewIds, TriedIds;
    BothSides(s);
    CheckedNamesAndPlaces(s);
    CheckedTables(e, s);
    FineIsHealthy(s);
  }

  /** Passing the check is exactly the invariant, but for the names and ids it does not look at. */
  lemma CheckedIffInv(e: Env, s: State)
    ensures Inv(e, s) && Healthy(s) <==> Checked(e, s) && NamesKnown(s) && InTable(s)
  {
    if Inv(e, s) && Healthy(s) {
      InvIsChecked(e, s);
      assert NamesKnown(s) by {
        forall id | id in s.info ensures id < s.idCount { assert IdNamed(s, id); }
        assert IdNamed(s, 0);
      }
      assert InTable(s) by {
        forall slot | slot in s.news ensures slot.bucket < NEW_BUCKET_COUNT { assert NewSlotOk(e, s, slot); }
      }
    }
    if Checked(e, s) && NamesKnown(s) && InTable(s) {
      CheckedIsInv(e, s);
    }
  }

  // ---------- names that are looked up ----------

  /** The lookup itself: an unknown name is entered with id 0. */
  function LookUp(s: State, a: Ip): State {
    if a in s.addrs then s else s.(addrs := s.addrs[a := 0])
  }

  /** The same but for names entered by looking them up. */
  ghost predicate SameButNames(s: State, s': State) {
    && s' == s.(addrs := s'.addrs)
    && forall a :: NameOf(s', a) == NameOf(s, a)
  }

  lemma CheckedStays(e: Env, s: State, s': State)
    requires SameButNames(s, s')
    ensures AllFine(s') <==> AllFine(s)
    ensures TriedOk(e, s') <==> TriedOk(e, s)
    ensures NewTableFine(e, s') <==> NewTableFine(e, s)
    ensures TriedIds(s') == TriedIds(s) && NewIds(s') == NewIds(s)
    ensures Checked(e, s') <==> Checked(e, s)
  {
    FineStays(s, s');
    TablesStay(e, s, s');
  }

  lemma FineStays(s: State, s': State)
    requires SameButNames(s, s')
    ensures forall id: nat :: RecordFine(s', id) <==> RecordFine(s, id)
    ensures AllFine(s') <==> AllFine(s)
  {
    forall id: nat ensures RecordFine(s', id) <==> RecordFine(s, id) {}
    if AllFine(s) {
      forall id: nat ensures RecordFine(s', id) { assert RecordFine(s, id); }
    }
    if AllFine(s') {
      forall id: nat ensures RecordFine(s, id) { assert RecordFine(s', id); }
    }
  }

  lemma TablesStay(e: Env, s: State, s': State)
    requires SameButNames(s, s')
    ensures TriedOk(e, s') <==> TriedOk(e, s)
    ensures NewTableFine(e, s') <==> NewTableFine(e, s)
  {
    forall slot ensures NewSlotFine(e, s', slot) <==> NewSlotFine(e, s, slot) {}
    forall slot ensures TriedSlotOk(e, s', slot) <==> TriedSlotOk(e, s, slot) {}
    forall id ensures TriedIdOk(e, s', id) <==> TriedIdOk(e, s, id) {}
    forall id ensures RefsCounted(s', id) <==> RefsCounted(s, id) {}
  }

  /** The checks of one record, in their order, and the names known afterwards. */
  function ScanOne(s: State, id: nat): (State, int)
    requires id in s.info
  {
    var info := s.info[id];
    if info.inTried && info.lastSuccess == 0 then (s, -1)
    else if info.inTried && info.refCount != 0 then (s, -2)
    else if !info.inTried && (info.refCount < 0 || info.refCount > NEW_BUCKETS_PER_ADDRESS) then (s, -3)
    else if !info.inTried && info.refCount == 0 then (s, -4)
    else (LookUp(s, info.Ip()), if NameOf(s, info.Ip()) != id then -5 else LateCode(s, id))
  }

  /** The checks of a record after that of its name. */
  function LateCode(s: State, id: nat): int
    requires id in s.info
  {
    var info := s.info[id];
    if info.randomPos < 0 || info.randomPos >= |s.random| || s.random[info.randomPos] != id then -14
    else if info.lastTry < 0 then -6
    else if info.lastSuccess < 0 then -8
    else 0
  }

  /** The records below n are checked one by one, up to the first that is not in order. */
  function Scan(s: State, n: nat): (State, int) {
    if n == 0 then (s, 0)
    else
      var (s1, code) := Scan(s, n - 1);
      if code != 0 || n - 1 !in s1.info then (s1, code) else ScanOne(s1, n - 1)
  }

  lemma ScanOneIs(s: State, id: nat)
    requires id in s.info
    ensures SameButNames(s, ScanOne(s, id).0)
    ensures ScanOne(s, id).1 == 0 <==> RecordFine(s, id)
    ensures ScanOne(s, id).1 == 0 ==> ScanOne(s, id).0 == LookUp(s, s.info[id].Ip())
  {
  }

  /** What each code says of a record, and that these are all. */
  lemma CodesMean(s: State, id: nat)
    requires id in s.info
    ensures var code, info := ScanOne(s, id).1, s.info[id]; var named := id == if info.Ip() in s.addrs then s.addrs[info.Ip()] else 0;
            && (code == -1 <==> info.inTried && info.lastSuccess == 0)
            && (code == -2 <==> info.inTried && info.lastSuccess != 0 && info.refCount != 0)
            && (code == -3 <==> !info.inTried && !(0 <= info.refCount <= 8))
            && (code == -4 <==> !info.inTried && info.refCount == 0)
            && (code == -5 ==> !named) && (code in {-14, -6, -8, 0} ==> named)
            && (code == -14 ==> !(0 <= info.randomPos < |s.random|) || s.random[info.randomPos] != id)
            && (code in {-6, -8, 0} ==> 0 <= info.randomPos < |s.random| && s.random[info.randomPos] == id)
            && (code == -6 ==> info.lastTry < 0) && (code == -8 ==> info.lastTry >= 0 && info.lastSuccess < 0)
            && (code == 0 ==> info.lastTry >= 0 && info.lastSuccess >= 0)
            && code in {-1, -2, -3, -4, -5, -14, -6, -8, 0}
  {
  }

  /** Record 0 is taken for known by a name it does not have, and has it afterwards. */
  function Repaired(s: State): State {
    if 0 in s.info then LookUp(s, s.info[0].Ip()) else s
  }

  /** Nothing but record 0's name is entered by a scan that finds nothing. */
  lemma {:induction false} ScanIs(s: State, n: nat)
    ensures SameButNames(s, Scan(s, n).0)
    ensures Scan(s, n).1 == 0 <==> FineBelow(s, n)
    ensures Scan(s, n).1 == 0 && n > 0 ==> Scan(s, n).0 == Repaired(s)
  {
    if n == 0 {
      NoneYet(s);
    } else {
      ScanIs(s, n - 1);
      var s1 := Scan(s, n - 1).0;
      hide AllFine, LookUp, ScanOne;
      FineStays(s, s1);
      if Scan(s, n - 1).1 == 0 {
        FineSoFar(s, n - 1);
        if n - 1 in s.info {
          ScanOneIs(s1, n - 1);
          SameTwice(s, s1, ScanOne(s1, n - 1).0);
          FineRecordIsNamed(s, n - 1);
        } else {
          UnknownIsFine(s, n - 1);
        }
      }
      hide FineBelow;
    }
  }

  lemma SameTwice(s: State, s1: State, s2: State)
    requires SameButNames(s, s1) && SameButNames(s1, s2)
    ensures SameButNames(s, s2)
  {
    forall a ensures NameOf(s2, a) == NameOf(s, a) { assert NameOf(s1, a) == NameOf(s, a); }
  }

  lemma FineRecordIsNamed(s: State, id: nat)
    requires id in s.info
    ensures RecordFine(s, id) && id != 0 ==> LookUp(Repaired(s), s.info[id].Ip()) == Repaired(s) && s.info[id].Ip() in s.addrs
    ensures id == 0 ==> LookUp(s, s.info[id].Ip()) == Repaired(s)
  {
  }

  /** A manager that passes the check keeps the invariant from then on, if names and ids are in order. */
  lemma PassingRestoresTheName(e: Env, s: State)
    requires Checked(e, s) && InTable(s) && (forall a :: NameKnown(s, a)) && (forall id | id in s.info :: id < s.idCount)
    ensures Inv(e, Repaired(s)) && Healthy(Repaired(s))
  {
    var s' := Repaired(s);
    CheckedStays(e, s, s');
    forall a ensures NameKnown(s', a) { assert NameKnown(s, a); }
    CheckedIsInv(e, s');
  }

  // ---------- the loops ----------

  /** Already passed by a loop over buckets and positions that is at (n, i). */
  predicate Seen(n: nat, i: nat, slot: Slot) { slot.bucket < n || (slot.bucket == n && slot.pos < i) }

  lemma SeenNext(n: nat, i: nat, next: nat)
    requires next == i + 1
    ensures forall slot :: Seen(n, next, slot) <==> Seen(n, i, slot) || slot == Slot(n, i)
  {
    forall slot ensures Seen(n, next, slot) <==> Seen(n, i, slot) || slot == Slot(n, i) {
      if slot.bucket == n && slot.pos == i {
        assert slot == Slot(n, i);
      }
    }
  }

  ghost predicate FineBelow(s: State, k: nat) { forall id: nat | id < k :: RecordFine(s, id) }

  lemma FineSoFar(s: State, k: nat)
    requires FineBelow(s, k)
    ensures FineBelow(s, k + 1) <==> RecordFine(s, k)
    ensures !RecordFine(s, k) ==> !AllFine(s)
  {
    if RecordFine(s, k) {
      forall id: nat | id < k + 1 ensures RecordFine(s, id) {}
    }
  }

  lemma FineThroughout(s: State)
    requires FineBelow(s, s.idCount) && forall id | id in s.info :: id < s.idCount
    ensures AllFine(s)
  {
    forall id: nat ensures RecordFine(s, id) {}
  }

  /** The first loop: zero if all records are fine; then the tried ids and the reference counts of the others. */
  method CheckRecords(m: AddrMan) returns (code: int, setTried: set<nat>, mapNew: map<nat, int>)
    requires m.Valid() && forall id | id in m.mapInfo :: id < m.idCount
    modifies m`mapAddr
    ensures (m.Model(), code) == Scan(old(m.Model()), m.idCount)
    ensures code == 0 <==> AllFine(old(m.Model()))
    ensures code == 0 ==> setTried == TriedIds(m.Model()) && mapNew.Keys == NewIds(m.Model())
    ensures code == 0 ==> forall id | id in mapNew :: mapNew[id] == m.mapInfo[id].refCount
    ensures m.Valid()
  {
    ghost var s := m.Model();
    hide AddrMan.Valid, RecordFine, FineBelow, AllFine, ScanOne, LookUp;
    var mapInfo := m.mapInfo;
    setTried, mapNew := {}, map[];
    for n := 0 to m.idCount
      invariant m.Valid() && (m.Model(), 0) == Scan(s, n) && m.mapInfo == mapInfo && m.idCount == s.idCount
      invariant setTried == (set id | id in mapInfo && id < n && mapInfo[id].inTried)
      invariant mapNew.Keys == (set id | id in mapInfo && id < n && !mapInfo[id].inTried)
      invariant forall id | id in mapNew :: mapNew[id] == mapInfo[id].refCount
    {
      if n in mapInfo {
        code := CheckRecord(m, n);
        if code != 0 {
          StoppedEarly(s, n);
          return;
        }
        if mapInfo[n].inTried {
          setTried := setTried + {n};
        } else {
          mapNew := mapNew[n := mapInfo[n].refCount];
        }
      }
    }
    ScanIs(s, s.idCount);
    FineThroughout(s);
    code := 0;
  }

  /** A record that is not in order ends the scan, and the rest is not looked at. */
  lemma StoppedEarly(s: State, n: nat)
    requires Scan(s, n + 1).1 != 0 && n < s.idCount
    ensures Scan(s, s.idCount) == Scan(s, n + 1) && !AllFine(s)
  {
    ScanStays(s, n + 1, s.idCount);
    ScanIs(s, n + 1);
  }

  lemma {:induction false} ScanStays(s: State, n: nat, m: nat)
    requires n <= m && Scan(s, n).1 != 0
    ensures Scan(s, m) == Scan(s, n)
    decreases m
  {
    hide ScanOne;
    if n < m {
      ScanStays(s, n, m - 1);
    }
  }

  lemma NoneYet(s: State)
    ensures FineBelow(s, 0)
  {
  }

  lemma UnknownIsFine(s: State, id: nat)
    requires id !in s.info
    ensures RecordFine(s, id)
  {
  }

  /** The name index returns zero for a name it does not know, and knows it from then on. */
  method IdOfName(m: AddrMan, a: Ip) returns (id: nat)
    requires m.Valid()
    modifies m`mapAddr
    ensures m.Model() == LookUp(old(m.Model()), a) && id == NameOf(old(m.Model()), a) && m.Valid()
  {
    if a !in m.mapAddr {
      m.mapAddr := m.mapAddr[a := 0];
    }
    id := m.mapAddr[a];
  }

  method CheckRecord(m: AddrMan, n: nat) returns (code: int)
    requires m.Valid() && n in m.mapInfo
    modifies m`mapAddr
    ensures (m.Model(), code) == ScanOne(old(m.Model()), n) && m.Valid()
  {
    var info := m.mapInfo[n];
    if info.inTried {
      if info.lastSuccess == 0 { return -1; }
      if info.refCount != 0 { return -2; }
    } else {
      if info.refCount < 0 || info.refCount > NEW_BUCKETS_PER_ADDRESS { return -3; }
      if info.refCount == 0 { return -4; }
    }
    var id := IdOfName(m, info.Ip());
    if id != n { return -5; }
    if info.randomPos < 0 || info.randomPos >= |m.vRandom| || m.vRandom[info.randomPos] != n { return -14; }
    if info.lastTry < 0 { return -6; }
    if info.lastSuccess < 0 { return -8; }
    return 0;
  }

  // ---------- the "tried" table ----------

  ghost predicate TriedFineBelow(e: Env, s: State, n: nat, i: nat) {
    forall slot | Seen(n, i, slot) :: TriedSlotOk(e, s, slot)
  }

  /** The tried ids whose slot has not been come by. */
  function StillTried(e: Env, s: State, n: nat, i: nat): set<nat> {
    set id | id in TriedIds(s) &&
      var slot := TriedSlot(e, s.key, s.info[id].address.service); !(Seen(n, i, slot) && slot in s.tried && s.tried[slot] == id)
  }

  lemma NextRow(e: Env, s: State, n: nat)
    ensures TriedFineBelow(e, s, n, BUCKET_SIZE) ==> (InTriedTable(s) ==> TriedFineBelow(e, s, n + 1, 0))
    ensures InTriedTable(s) ==> StillTried(e, s, n, BUCKET_SIZE) == StillTried(e, s, n + 1, 0)
  {
    assert forall slot: Slot | slot.pos < BUCKET_SIZE :: Seen(n, BUCKET_SIZE, slot) <==> Seen(n + 1, 0, slot);
  }

  /** The occupied slots are where the table has slots. */
  predicate InTriedTable(s: State) {
    forall slot | slot in s.tried :: slot.bucket < TRIED_BUCKET_COUNT && slot.pos < BUCKET_SIZE
  }

  lemma EmptyTriedSlot(e: Env, s: State, n: nat, i: nat)
    requires Slot(n, i) !in s.tried
    ensures TriedFineBelow(e, s, n, i) ==> TriedFineBelow(e, s, n, i + 1)
    ensures StillTried(e, s, n, i + 1) == StillTried(e, s, n, i)
  {
    SeenNext(n, i, i + 1);
  }

  /** The three tests on an occupied slot say whether it is in order. */
  lemma OccupiedTriedSlot(e: Env, s: State, n: nat, i: nat)
    requires Slot(n, i) in s.tried && TriedFineBelow(e, s, n, i)
    ensures var id := s.tried[Slot(n, i)];
            && (id in StillTried(e, s, n, i) && Slot(n, i) == TriedSlot(e, s.key, s.info[id].address.service)
                <==> TriedSlotOk(e, s, Slot(n, i)))
            && (TriedSlotOk(e, s, Slot(n, i)) ==>
                  TriedFineBelow(e, s, n, i + 1) && StillTried(e, s, n, i + 1) == StillTried(e, s, n, i) - {id})
  {
    var slot, id := Slot(n, i), s.tried[Slot(n, i)];
    SeenNext(n, i, i + 1);
    assert !Seen(n, i, slot);
  }

  lemma AllTriedSeen(e: Env, s: State)
    requires InTriedTable(s) && TriedFineBelow(e, s, TRIED_BUCKET_COUNT, 0)
    ensures TriedOk(e, s) <==> StillTried(e, s, TRIED_BUCKET_COUNT, 0) == {}
  {
    forall slot ensures TriedSlotOk(e, s, slot) {
      assert slot in s.tried ==> Seen(TRIED_BUCKET_COUNT, 0, slot);
    }
    forall id ensures id in StillTried(e, s, TRIED_BUCKET_COUNT, 0) <==> !TriedIdOk(e, s, id) {
      if id in TriedIds(s) {
        var slot := TriedSlot(e, s.key, s.info[id].address.service);
        assert slot in s.tried ==> Seen(TRIED_BUCKET_COUNT, 0, slot);
      }
    }
  }

  lemma NothingSeen(e: Env, s: State)
    ensures TriedFineBelow(e, s, 0, 0) && StillTried(e, s, 0, 0) == TriedIds(s)
  {
  }

  /** The second loop; the ids not met are what is left of the set. */
  method CheckTriedTable(m: AddrMan, tried: set<nat>) returns (code: int, setTried: set<nat>)
    requires m.Valid() && tried == TriedIds(m.Model())
    ensures code == 0 && setTried == {} <==> TriedOk(m.env, m.Model())
    ensures m.Valid() && m.Model() == old(m.Model())
  {
    ghost var s := m.Model();
    assert InTriedTable(s);
    hide AddrMan.Valid, TriedFineBelow, StillTried, TriedSlotOk, TriedOk, InTriedTable;
    NothingSeen(m.env, s);
    code, setTried := 0, tried;
    for n := 0 to TRIED_BUCKET_COUNT
      invariant m.Valid() && m.Model() == s
      invariant TriedFineBelow(m.env, s, n, 0) && setTried == StillTried(m.env, s, n, 0)
    {
      for i := 0 to BUCKET_SIZE
        invariant m.Valid() && m.Model() == s
        invariant TriedFineBelow(m.env, s, n, i) && setTried == StillTried(m.env, s, n, i)
      {
        var id := m.TriedAt(Slot(n, i));
        if id == -1 {
          EmptyTriedSlot(m.env, s, n, i);
        } else {
          OccupiedTriedSlot(m.env, s, n, i);
          BadSlot(m.env, s, Slot(n, i));
          StillTriedKnown(m.env, s, n, i, id);
          if id !in setTried { return -11, setTried; }
          if m.env.triedBucket(m.key, m.mapInfo[id].address.service) != n { return -17, setTried; }
          if m.env.position(m.key, false, n, m.mapInfo[id].address.service) != i { return -18, setTried; }
          setTried := setTried - {id};
        }
      }
      NextRow(m.env, s, n);
    }
    AllTriedSeen(m.env, s);
  }

  lemma BadSlot(e: Env, s: State, slot: Slot)
    ensures !TriedSlotOk(e, s, slot) ==> !TriedOk(e, s)
  {
  }

  lemma StillTriedKnown(e: Env, s: State, n: nat, i: nat, id: nat)
    ensures id in StillTried(e, s, n, i) ==> id in s.info
  {
  }

  // ---------- the "new" table ----------

  ghost predicate NewFineBelow(e: Env, s: State, n: nat, i: nat) {
    forall slot | Seen(n, i, slot) :: NewSlotFine(e, s, slot)
  }

  function RefsSeen(news: map<Slot, nat>, id: nat, n: nat, i: nat): set<Slot> {
    set slot | slot in news && news[slot] == id && Seen(n, i, slot)
  }

  /** The references still to come for each "new" id, those with none to come left out. */
  ghost predicate Remaining(s: State, n: nat, i: nat, mapNew: map<nat, int>) {
    && (forall id | id in NewIds(s) :: s.info[id].refCount >= |RefsSeen(s.news, id, n, i)|)
    && (forall id :: id in mapNew <==> id in NewIds(s) && s.info[id].refCount > |RefsSeen(s.news, id, n, i)|)
    && (forall id | id in mapNew :: mapNew[id] == s.info[id].refCount - |RefsSeen(s.news, id, n, i)|)
  }

  lemma RefsNext(s: State, id: nat, n: nat, i: nat)
    ensures var slot := Slot(n, i);
            |RefsSeen(s.news, id, n, i + 1)| == |RefsSeen(s.news, id, n, i)| + if slot in s.news && s.news[slot] == id then 1 else 0
  {
    SeenNext(n, i, i + 1);
    var slot, was := Slot(n, i), RefsSeen(s.news, id, n, i);
    assert RefsSeen(s.news, id, n, i + 1) == if slot in s.news && s.news[slot] == id then was + {slot} else was;
  }

  predicate InNewTable(s: State) {
    forall slot | slot in s.news :: slot.bucket < NEW_BUCKET_COUNT && slot.pos < BUCKET_SIZE
  }

  lemma NextNewRow(e: Env, s: State, n: nat, mapNew: map<nat, int>)
    requires InNewTable(s) && NewFineBelow(e, s, n, BUCKET_SIZE) && Remaining(s, n, BUCKET_SIZE, mapNew)
    ensures NewFineBelow(e, s, n + 1, 0) && Remaining(s, n + 1, 0, mapNew)
  {
    assert forall slot: Slot | slot.pos < BUCKET_SIZE :: Seen(n, BUCKET_SIZE, slot) <==> Seen(n + 1, 0, slot);
    forall id ensures RefsSeen(s.news, id, n + 1, 0) == RefsSeen(s.news, id, n, BUCKET_SIZE) {}
  }

  lemma EmptyNewSlot(e: Env, s: State, n: nat, i: nat, mapNew: map<nat, int>)
    requires Slot(n, i) !in s.news && NewFineBelow(e, s, n, i) && Remaining(s, n, i, mapNew)
    ensures NewFineBelow(e, s, n, i + 1) && Remaining(s, n, i + 1, mapNew)
  {
    SeenNext(n, i, i + 1);
    forall id ensures |RefsSeen(s.news, id, n, i + 1)| == |RefsSeen(s.news, id, n, i)| { RefsNext(s, id, n, i); }
  }

  /** An occupant that is no longer in the map is unknown, tried, or has more references than it says. */
  lemma UnexpectedOccupant(e: Env, s: State, n: nat, i: nat, mapNew: map<nat, int>)
    requires Slot(n, i) in s.news && Remaining(s, n, i, mapNew) && s.news[Slot(n, i)] !in mapNew
    ensures !NewSlotFine(e, s, Slot(n, i)) || !RefsCounted(s, s.news[Slot(n, i)])
  {
    var id := s.news[Slot(n, i)];
    if id in NewIds(s) {
      RefsNext(s, id, n, i);
      assert RefsSeen(s.news, id, n, i + 1) <= Refs(s.news, id);
      SubsetSize(RefsSeen(s.news, id, n, i + 1), Refs(s.news, id));
    }
  }

  function CountDown(mapNew: map<nat, int>, id: nat): map<nat, int>
    requires id in mapNew
  {
    if mapNew[id] == 1 then mapNew - {id} else mapNew[id := mapNew[id] - 1]
  }

  lemma OccupiedNewSlot(e: Env, s: State, n: nat, i: nat, mapNew: map<nat, int>)
    requires Slot(n, i) in s.news && NewFineBelow(e, s, n, i) && Remaining(s, n, i, mapNew)
    requires s.news[Slot(n, i)] in mapNew && NewSlotFine(e, s, Slot(n, i))
    ensures NewFineBelow(e, s, n, i + 1) && Remaining(s, n, i + 1, CountDown(mapNew, s.news[Slot(n, i)]))
  {
    SeenNext(n, i, i + 1);
    var occupant := s.news[Slot(n, i)];
    forall id
      ensures |RefsSeen(s.news, id, n, i + 1)| == |RefsSeen(s.news, id, n, i)| + if occupant == id then 1 else 0
    {
      RefsNext(s, id, n, i);
    }
  }

  lemma AllNewSeen(e: Env, s: State, mapNew: map<nat, int>)
    requires InNewTable(s) && NewFineBelow(e, s, NEW_BUCKET_COUNT, 0) && Remaining(s, NEW_BUCKET_COUNT, 0, mapNew)
    ensures NewTableFine(e, s) <==> |mapNew| == 0
  {
    forall slot ensures NewSlotFine(e, s, slot) {
      assert slot in s.news ==> Seen(NEW_BUCKET_COUNT, 0, slot);
    }
    forall id ensures RefsSeen(s.news, id, NEW_BUCKET_COUNT, 0) == Refs(s.news, id) {
      assert forall slot | slot in s.news :: Seen(NEW_BUCKET_COUNT, 0, slot);
    }
    if |mapNew| == 0 {
      forall id ensures RefsCounted(s, id) {
        assert id !in mapNew;
      }
    } else {
      assert mapNew.Keys != {};
      var id :| id in mapNew;
      assert !RefsCounted(s, id);
    }
  }

  lemma NothingSeenNew(e: Env, s: State, mapNew: map<nat, int>)
    requires mapNew.Keys == NewIds(s) && forall id | id in mapNew :: mapNew[id] == s.info[id].refCount > 0
    ensures NewFineBelow(e, s, 0, 0) && Remaining(s, 0, 0, mapNew)
  {
    forall id ensures RefsSeen(s.news, id, 0, 0) == {} {}
  }

  lemma BadNewTable(e: Env, s: State, slot: Slot, id: nat)
    ensures !NewSlotFine(e, s, slot) || !RefsCounted(s, id) ==> !NewTableFine(e, s)
  {
  }

  lemma RemainingKnown(s: State, n: nat, i: nat, mapNew: map<nat, int>, id: nat)
    requires Remaining(s, n, i, mapNew) && id in mapNew
    ensures id in s.info && !s.info[id].inTried
  {
  }

  /** The third loop; what is left in the map are references that were not met. */
  method CheckNewTable(m: AddrMan, counts: map<nat, int>) returns (code: int, mapNew: map<nat, int>)
    requires m.Valid() && counts.Keys == NewIds(m.Model())
    requires forall id | id in counts :: counts[id] == m.mapInfo[id].refCount > 0
    ensures code == 0 && |mapNew| == 0 <==> NewTableFine(m.env, m.Model())
    ensures m.Valid() && m.Model() == old(m.Model())
  {
    ghost var s := m.Model();
    assert InNewTable(s);
    NothingSeenNew(m.env, s, counts);
    hide AddrMan.Valid, NewFineBelow, Remaining, NewTableFine, InNewTable, RefsCounted;
    code, mapNew := 0, counts;
    for n := 0 to NEW_BUCKET_COUNT
      invariant m.Valid() && m.Model() == s
      invariant NewFineBelow(m.env, s, n, 0) && Remaining(s, n, 0, mapNew)
    {
      for i := 0 to BUCKET_SIZE
        invariant m.Valid() && m.Model() == s
        invariant NewFineBelow(m.env, s, n, i) && Remaining(s, n, i, mapNew)
      {
        var id := m.NewAt(Slot(n, i));
        if id == -1 {
          EmptyNewSlot(m.env, s, n, i, mapNew);
        } else {
          BadNewTable(m.env, s, Slot(n, i), id);
          if id !in mapNew {
            UnexpectedOccupant(m.env, s, n, i, mapNew);
            return -12, mapNew;
          }
          RemainingKnown(s, n, i, mapNew, id);
          if m.env.position(m.key, true, n, m.mapInfo[id].address.service) != i { return -19, mapNew; }
          OccupiedNewSlot(m.env, s, n, i, mapNew);
          mapNew := if mapNew[id] == 1 then mapNew - {id} else mapNew[id := mapNew[id] - 1];
        }
      }
      NextNewRow(m.env, s, n, mapNew);
    }
    AllNewSeen(m.env, s, mapNew);
  }

  // ---------- the whole check ----------

  lemma PositiveCounts(s: State)
    requires AllFine(s)
    ensures forall id | id in NewIds(s) :: s.info[id].refCount > 0
  {
    forall id | id in NewIds(s) ensures s.info[id].refCount > 0 { assert RecordFine(s, id); }
  }

  /** Zero exactly if everything checked is in order; looking names up may enter some. */
  method Check(m: AddrMan) returns (code: int)
    requires m.Valid() && forall id | id in m.mapInfo :: id < m.idCount
    modifies m`mapAddr
    ensures code == 0 <==> Checked(m.env, old(m.Model()))
    ensures |m.vRandom| != m.nTried + m.nNew ==> code == -7
    ensures var found := Scan(old(m.Model()), m.idCount).1; |m.vRandom| == m.nTried + m.nNew && found != 0 ==> code == found
    ensures m.Model() == if |m.vRandom| == m.nTried + m.nNew then Scan(old(m.Model()), m.idCount).0 else old(m.Model())
    ensures m.Valid() && (code == 0 && m.idCount > 0 ==> m.Model() == Repaired(old(m.Model())))
  {
    ghost var s := m.Model();
    hide AddrMan.Valid, AllFine, TriedOk, Scan, NewTableFine, SameButNames;
    if |m.vRandom| != m.nTried + m.nNew { return -7; }
    var setTried, mapNew;
    ScanIs(s, s.idCount);
    CheckedStays(m.env, s, Scan(s, s.idCount).0);
    code, setTried, mapNew := CheckRecords(m);
    if code != 0 { return; }
    PositiveCounts(m.Model());
    if |setTried| != m.nTried { return -9; }
    assert |mapNew| == |NewIds(m.Model())|;
    if |mapNew| != m.nNew { return -10; }
    code, setTried := CheckTriedTable(m, setTried);
    if code != 0 { return; }
    code, mapNew := CheckNewTable(m, mapNew);
    if code != 0 { return; }
    if |setTried| != 0 { return -13; }
    if |mapNew| != 0 { return -15; }
    if m.key == 0 { return -16; }
  }
}
