/** Writing the address manager out and reading it back: what is written, and the indexes rebuilt from it. */
module AddrPeers {
  import opened Wrappers
  import opened AddrTables
  import opened AddrOps

  // Only the addresses and the occupied "new" slots are written; ids, the name index, the random
  // vector, the "tried" table, the reference counts and the counters are rebuilt.

  /** What is written of a record. */
  datatype Disk = Disk(address: Address, source: Ip, lastSuccess: int, attempts: int)

  /** The serialized form, with every counted list as a sequence. */
  datatype Image = Image(version: nat, keySize: nat, key: Key, uBuckets: nat,
                         newInfos: seq<Disk>, triedInfos: seq<Disk>, buckets: seq<seq<int>>)

  const BIT30: nat := 0x4000_0000

  /** Exclusive or with 2^30. */
  function FlipBit30(x: nat): nat {
    if x / BIT30 % 2 == 0 then x + BIT30 else x - BIT30
  }

  function ToDisk(info: Info): Disk {
    Disk(info.address, info.source, info.lastSuccess, info.attempts)
  }

  // ---------- writing ----------

  /** The ids below n with a "new" slot, in the order a std::map yields them. */
  function NewList(s: State, n: nat): seq<nat> {
    if n == 0 then []
    else NewList(s, n - 1) + (if n - 1 in s.info && s.info[n - 1].refCount != 0 then [n - 1] else [])
  }

  function TriedList(s: State, n: nat): seq<nat> {
    if n == 0 then []
    else TriedList(s, n - 1) + (if n - 1 in s.info && s.info[n - 1].inTried then [n - 1] else [])
  }

  /** The number a "new" id is written under. */
  function Index(s: State, id: nat): nat {
    |NewList(s, id)|
  }

  function Disks(s: State, ids: seq<nat>): (d: seq<Disk>)
    requires forall id | id in ids :: id in s.info
    ensures |d| == |ids| && forall k | 0 <= k < |ids| :: d[k] == ToDisk(s.info[ids[k]])
  {
    seq(|ids|, k requires 0 <= k < |ids| => ToDisk(s.info[ids[k]]))
  }

  /** The occupants of the first p positions of a bucket. */
  function BucketList(s: State, b: nat, p: nat): seq<int> {
    if p == 0 then []
    else BucketList(s, b, p - 1) + (if Slot(b, p - 1) in s.news then [Index(s, s.news[Slot(b, p - 1)])] else [])
  }

  lemma {:induction false} ListsAreKnown(s: State, n: nat)
    ensures forall id | id in NewList(s, n) :: id < n && id in s.info && s.info[id].refCount != 0
    ensures forall id | id in TriedList(s, n) :: id < n && id in s.info && s.info[id].inTried
  {
    if n > 0 {
      ListsAreKnown(s, n - 1);
    }
  }

  function Write(s: State): Image {
    ListsAreKnown(s, s.idCount);
    Image(1, 32, s.key, FlipBit30(NEW_BUCKET_COUNT),
          Disks(s, NewList(s, s.idCount)), Disks(s, TriedList(s, s.idCount)),
          seq(NEW_BUCKET_COUNT, (b: nat) => BucketList(s, b, BUCKET_SIZE)))
  }

  // ---------- reading ----------

  /** Ids that were read as "new" and have no slot yet. */
  function Unplaced(s: State): set<nat> {
    set id | id in s.info && !s.info[id].inTried && s.info[id].refCount == 0
  }

  /** The table data can be used as it stands. */
  predicate UsesTable(img: Image) {
    img.version == 1 && UBuckets(img) == NEW_BUCKET_COUNT
  }

  function UBuckets(img: Image): nat {
    if img.version != 0 then FlipBit30(img.uBuckets) else img.uBuckets
  }

  /** A record read from the list of "new" addresses; nNew, known beforehand there, grows along here. */
  function LoadRecord(s: State, d: Disk): State {
    var s1 := Create(s, d.address, d.source);
    Touch(s1, s.idCount, s1.info[s.idCount].(lastSuccess := d.lastSuccess, attempts := d.attempts))
  }

  /** With a table that cannot be used, an address gets the slot of its own source if that is free. */
  function LoadNew(e: Env, s: State, d: Disk, usesTable: bool): State {
    var id, s1 := s.idCount, LoadRecord(s, d);
    var s2 := s1.(nNew := s1.nNew + 1);
    var slot := NewSlot(e, s.key, d.address.service, d.source);
    if !usesTable && slot !in s2.news then TakeNew(s2, id, slot, 1) else s2
  }

  function LoadTried(e: Env, s: State, d: Disk): State {
    var slot := TriedSlot(e, s.key, d.address.service);
    if slot in s.tried then s else TakeTried(LoadRecord(s, d), s.idCount, slot)
  }

  /** One index read from the table of "new" buckets. */
  function LoadIndex(e: Env, s: State, b: nat, index: int, nNew: nat, usesTable: bool): State {
    if !(0 <= index < nNew && index in s.info) then s else
      var slot := Slot(b, e.position(s.key, true, b, s.info[index].address.service));
      if usesTable && slot !in s.news && s.info[index].refCount < NEW_BUCKETS_PER_ADDRESS
      then TakeNew(s, index, slot, s.info[index].refCount + 1)
      else s
  }

  function LoadNews(e: Env, s: State, ds: seq<Disk>, usesTable: bool): State {
    if ds == [] then s else LoadNew(e, LoadNews(e, s, ds[..|ds| - 1], usesTable), ds[|ds| - 1], usesTable)
  }

  function LoadTrieds(e: Env, s: State, ds: seq<Disk>): State {
    if ds == [] then s else LoadTried(e, LoadTrieds(e, s, ds[..|ds| - 1]), ds[|ds| - 1])
  }

  function LoadBucket(e: Env, s: State, b: nat, indexes: seq<int>, nNew: nat, usesTable: bool): State {
    if indexes == [] then s
    else LoadIndex(e, LoadBucket(e, s, b, indexes[..|indexes| - 1], nNew, usesTable), b, indexes[|indexes| - 1], nNew, usesTable)
  }

  function LoadBuckets(e: Env, s: State, buckets: seq<seq<int>>, nNew: nat, usesTable: bool): State {
    if buckets == [] then s
    else
      var b := |buckets| - 1;
      LoadBucket(e, LoadBuckets(e, s, buckets[..b], nNew, usesTable), b, buckets[b], nNew, usesTable)
  }

  /** Ids below n that ended up without any slot are deleted. */
  function Prune(s: State, n: nat): State {
    if n == 0 then s else
      var s1, id := Prune(s, n - 1), n - 1;
      if CanDelete(s1, id) then Delete(s1, id) else s1
  }

  datatype Result = Failure | Success(s: State, lostTried: int, lostNew: int)

  function Loaded(e: Env, img: Image): State {
    var usesTable := UsesTable(img);
    var s1 := LoadNews(e, Empty(img.key), img.newInfos, usesTable);
    var s2 := LoadTrieds(e, s1, img.triedInfos);
    LoadBuckets(e, s2, img.buckets, |img.newInfos|, usesTable)
  }

  function Read(e: Env, img: Image): Result {
    if img.keySize != 32 then Failure else
      var s3 := Loaded(e, img);
      var s4 := Prune(s3, s3.idCount);
      Success(s4, |img.triedInfos| - s3.nTried, |s3.info| - |s4.info|)
  }

  // ---------- what reading keeps ----------

  /** Each name in the index belongs to the last record that has it. */
  ghost predicate LastNamed(s: State) {
    (forall id :: NamedByLater(s, id)) && (forall a :: NameKnown(s, a))
  }

  ghost predicate NamedByLater(s: State, id: nat) {
    id in s.info ==> id < s.idCount && s.info[id].Ip() in s.addrs && id <= s.addrs[s.info[id].Ip()]
  }

  lemma LastNamedStays(s: State, s': State)
    requires LastNamed(s) && SameIdentity(s, s')
    ensures LastNamed(s')
  {
    forall id ensures NamedByLater(s', id) { assert NamedByLater(s, id); }
    forall a ensures NameKnown(s', a) { assert NameKnown(s, a); }
  }

  lemma CreateNamesLast(s: State, a: Address, source: Ip)
    requires LastNamed(s)
    ensures s.idCount !in s.info && LastNamed(Create(s, a, source))
  {
    var s' := Create(s, a, source);
    assert NamedByLater(s, s.idCount);
    forall id ensures NamedByLater(s', id) {
      assert NamedByLater(s, id);
      if id in s.info { assert NameKnown(s, s.info[id].Ip()) && NamedByLater(s, s.addrs[s.info[id].Ip()]); }
    }
    forall b ensures NameKnown(s', b) {
      assert NameKnown(s, b);
      if b in s.addrs { assert NamedByLater(s, s.addrs[b]); }
    }
  }

  /** The invariant while reading: everything is in order but for the ids without a slot, and for names used twice. */
  ghost predicate Loading(e: Env, s: State) {
    LastNamed(s) && Slotted(e, s)
  }

  /** What is left of it while unplaced ids are deleted, and names with them. */
  ghost predicate Slotted(e: Env, s: State) {
    Indexed(e, s, Unplaced(s), |Unplaced(s)|)
  }

  lemma UnplacedIs(e: Env, s: State, detached: set<nat>)
    requires RefsOk(s, detached) && detached <= NewIds(s)
    ensures Unplaced(s) == detached
  {
    forall id ensures id in Unplaced(s) <==> id in detached {
      assert RefOk(s, detached, id);
    }
  }

  lemma IndexedIsSlotted(e: Env, s: State, detached: set<nat>)
    requires Indexed(e, s, detached, |detached|)
    ensures Slotted(e, s) && Unplaced(s) == detached
  {
    UnplacedIs(e, s, detached);
  }

  lemma LoadRecordKeeps(e: Env, s: State, d: Disk)
    requires Loading(e, s)
    ensures s.idCount !in s.info && s.idCount !in Unplaced(s) && LastNamed(LoadRecord(s, d))
    ensures Indexed(e, LoadRecord(s, d), Unplaced(s) + {s.idCount}, |Unplaced(s)|)
  {
    CreateNamesLast(s, d.address, d.source);
    IdleIdIsPlaced(s);
    var s1 := Create(s, d.address, d.source);
    hide Indexed, LastNamed, Unplaced;
    CreateIndexes(e, s, d.address, d.source, Unplaced(s), |Unplaced(s)|);
    var info := s1.info[s.idCount].(lastSuccess := d.lastSuccess, attempts := d.attempts);
    TouchIndexes(e, s1, s.idCount, info, Unplaced(s) + {s.idCount}, |Unplaced(s)|);
    LastNamedStays(s1, Touch(s1, s.idCount, info));
  }

  lemma IdleIdIsPlaced(s: State)
    requires s.idCount !in s.info
    ensures s.idCount !in Unplaced(s)
  {
  }

  lemma LoadCountedKeeps(e: Env, s: State, d: Disk)
    requires Loading(e, s)
    ensures var s2 := LoadNew(e, s, d, true);
            s.idCount !in Unplaced(s) && LastNamed(s2)
            && Indexed(e, s2, Unplaced(s) + {s.idCount}, |Unplaced(s) + {s.idCount}|)
  {
    LoadRecordKeeps(e, s, d);
    var un, s1 := Unplaced(s), LoadRecord(s, d);
    hide Indexed, LastNamed, Unplaced, LoadRecord;
    CountOneMoreIndexes(e, s1, un + {s.idCount}, |un|);
    LastNamedStays(s1, s1.(nNew := s1.nNew + 1));
  }

  /** With a table that cannot be used a record is entered as with one, and then perhaps given a slot. */
  lemma LoadNewIs(e: Env, s: State, d: Disk, usesTable: bool)
    ensures var id, s2, slot := s.idCount, LoadNew(e, s, d, true), NewSlot(e, s.key, d.address.service, d.source);
            && id in s2.info && !s2.info[id].inTried && s2.info[id].refCount == 0
            && s2.info[id].address.service == d.address.service && s2.key == s.key
            && LoadNew(e, s, d, usesTable) == if !usesTable && slot !in s2.news then TakeNew(s2, id, slot, 1) else s2
  {
    LoadRecordFrame(s, d);
    hide LoadRecord, NewSlot;
  }

  lemma LoadNewKeeps(e: Env, s: State, d: Disk, usesTable: bool)
    requires Loading(e, s)
    ensures Loading(e, LoadNew(e, s, d, usesTable))
  {
    hide Indexed, LastNamed, Slotted, Unplaced, LoadNew, NewSlot;
    var id, un, s2, slot := s.idCount, Unplaced(s), LoadNew(e, s, d, true), NewSlot(e, s.key, d.address.service, d.source);
    LoadCountedKeeps(e, s, d);
    LoadNewIs(e, s, d, usesTable);
    NewSlotAims(e, s.key, d.address.service, d.source);
    if !usesTable && slot !in s2.news {
      TakeNewIndexes(e, s2, id, slot, un + {id}, |un + {id}|);
      LastNamedStays(s2, TakeNew(s2, id, slot, 1));
      assert un + {id} - {id} == un;
      IndexedIsSlotted(e, TakeNew(s2, id, slot, 1), un);
    } else {
      IndexedIsSlotted(e, s2, un + {id});
    }
  }

  lemma LoadTriedKeeps(e: Env, s: State, d: Disk)
    requires Loading(e, s)
    ensures Loading(e, LoadTried(e, s, d))
  {
    var slot := TriedSlot(e, s.key, d.address.service);
    if slot !in s.tried {
      var id, s1, un := s.idCount, LoadRecord(s, d), Unplaced(s);
      LoadRecordKeeps(e, s, d);
      LoadRecordFrame(s, d);
      hide Indexed, LastNamed, Slotted, Unplaced, LoadRecord;
      TakeTriedIndexes(e, s1, id, un + {id}, |un|);
      LastNamedStays(s1, TakeTried(s1, id, slot));
      assert un + {id} - {id} == un;
      IndexedIsSlotted(e, TakeTried(s1, id, slot), un);
    }
  }

  lemma LoadIndexKeeps(e: Env, s: State, b: nat, index: int, nNew: nat, usesTable: bool)
    requires Loading(e, s) && (usesTable ==> b < NEW_BUCKET_COUNT)
    requires NewBelow(s, nNew)
    ensures Loading(e, LoadIndex(e, s, b, index, nNew, usesTable))
  {
    hide Indexed, LastNamed, Unplaced, SameIdentity;
    var s' := LoadIndex(e, s, b, index, nNew, usesTable);
    if 0 <= index < nNew && index in s.info {
      var slot, un := Slot(b, e.position(s.key, true, b, s.info[index].address.service)), Unplaced(s);
      if usesTable && slot !in s.news && s.info[index].refCount < NEW_BUCKETS_PER_ADDRESS {
        TakeNewIndexes(e, s, index, slot, un, |un|);
        LastNamedStays(s, s');
        OneOut(un, index);
        hide TakeNew, LoadIndex;
        IndexedIsSlotted(e, s', un - {index});
      }
    }
  }

  lemma OneOut(un: set<nat>, id: nat)
    ensures |un - {id}| == if id in un then |un| - 1 else |un|
  {
  }

  /** What one record adds. */
  lemma LoadRecordFrame(s: State, d: Disk)
    ensures var s' := LoadRecord(s, d);
            && s'.info == s.info[s.idCount := Info(d.address, d.source, 0, d.lastSuccess, d.attempts, 0, false, |s.random|)]
            && s'.addrs == s.addrs[d.address.service.ip := s.idCount] && s'.idCount == s.idCount + 1
            && s'.news == s.news && s'.tried == s.tried && s'.key == s.key && s'.nTried == s.nTried && s'.nNew == s.nNew
  {
  }

  lemma LoadNewsStep(e: Env, s: State, ds: seq<Disk>, d: Disk, usesTable: bool)
    ensures LoadNews(e, s, ds + [d], usesTable) == LoadNew(e, LoadNews(e, s, ds, usesTable), d, usesTable)
    ensures LoadNews(e, s, [], usesTable) == s
  {
    assert (ds + [d])[..|ds|] == ds;
  }

  lemma LoadTriedsStep(e: Env, s: State, ds: seq<Disk>, d: Disk)
    ensures LoadTrieds(e, s, ds + [d]) == LoadTried(e, LoadTrieds(e, s, ds), d)
    ensures LoadTrieds(e, s, []) == s
  {
    assert (ds + [d])[..|ds|] == ds;
  }

  ghost predicate NoneTried(s: State) {
    forall id | id in s.info :: !s.info[id].inTried
  }

  lemma LoadNewFrame(e: Env, s: State, d: Disk, usesTable: bool)
    ensures var s' := LoadNew(e, s, d, usesTable);
            && s'.idCount == s.idCount + 1 && s'.key == s.key && (NoneTried(s) ==> NoneTried(s'))
            && s'.info.Keys == s.info.Keys + {s.idCount} && s'.info[s.idCount].Ip() == d.address.service.ip
            && forall id | id in s.info && id != s.idCount :: s'.info[id] == s.info[id]
  {
    LoadRecordFrame(s, d);
  }

  lemma {:induction false} LoadNewsKeeps(e: Env, s: State, ds: seq<Disk>, usesTable: bool)
    requires Loading(e, s) && NoneTried(s)
    ensures var s' := LoadNews(e, s, ds, usesTable);
            Loading(e, s') && s'.idCount == s.idCount + |ds| && s'.key == s.key && NoneTried(s')
    decreases |ds|
  {
    hide Loading, LoadNew, NoneTried;
    if ds != [] {
      var init, d := ds[..|ds| - 1], ds[|ds| - 1];
      LoadNewsKeeps(e, s, init, usesTable);
      var s1 := LoadNews(e, s, init, usesTable);
      LoadNewKeeps(e, s1, d, usesTable);
      LoadNewFrame(e, s1, d, usesTable);
    }
  }

  /** The ids and records there were are still there. */
  ghost predicate Extends(s: State, s': State) {
    && s'.key == s.key && s.idCount <= s'.idCount && s'.news == s.news
    && (forall id | id < s.idCount :: id in s'.info <==> id in s.info)
    && (forall id | id < s.idCount && id in s.info :: s'.info[id] == s.info[id])
  }

  lemma LoadTriedFrame(e: Env, s: State, d: Disk)
    ensures Extends(s, LoadTried(e, s, d))
  {
    LoadRecordFrame(s, d);
  }

  lemma ExtendsTwice(s: State, s1: State, s2: State)
    requires Extends(s, s1) && Extends(s1, s2)
    ensures Extends(s, s2)
  {
  }

  lemma {:induction false} LoadTriedsKeeps(e: Env, s: State, ds: seq<Disk>)
    requires Loading(e, s)
    ensures Loading(e, LoadTrieds(e, s, ds)) && Extends(s, LoadTrieds(e, s, ds))
    decreases |ds|
  {
    hide Loading, LoadTried;
    if ds != [] {
      var init, d := ds[..|ds| - 1], ds[|ds| - 1];
      LoadTriedsKeeps(e, s, init);
      hide Extends;
      var s1 := LoadTrieds(e, s, init);
      LoadTriedKeeps(e, s1, d);
      LoadTriedFrame(e, s1, d);
      ExtendsTwice(s, s1, LoadTried(e, s1, d));
    }
  }

  /** Placing ids changes reference counts and the "new" table, nothing else. */
  ghost predicate OnlyPlaced(s: State, s': State) {
    && s'.info.Keys == s.info.Keys && s'.key == s.key && s'.idCount == s.idCount && s'.addrs == s.addrs
    && s'.tried == s.tried && s'.nTried == s.nTried && s'.nNew == s.nNew
    && (forall id | id in s.info :: s'.info[id] == s.info[id].(refCount := s'.info[id].refCount))
  }

  lemma OnlyPlacedTwice(s: State, s1: State, s2: State)
    requires OnlyPlaced(s, s1) && OnlyPlaced(s1, s2)
    ensures OnlyPlaced(s, s2)
  {
  }

  lemma LoadIndexFrame(e: Env, s: State, b: nat, index: int, nNew: nat, usesTable: bool)
    ensures OnlyPlaced(s, LoadIndex(e, s, b, index, nNew, usesTable))
  {
  }

  /** The ids below n are all "new". */
  predicate NewBelow(s: State, n: nat) {
    forall id | 0 <= id < n && id in s.info :: !s.info[id].inTried
  }

  lemma NewBelowStays(s: State, s': State, n: nat)
    requires NewBelow(s, n) && OnlyPlaced(s, s')
    ensures NewBelow(s', n)
  {
  }

  lemma {:induction false} LoadBucketKeeps(e: Env, s: State, b: nat, indexes: seq<int>, nNew: nat, usesTable: bool)
    requires Loading(e, s) && (usesTable ==> b < NEW_BUCKET_COUNT) && NewBelow(s, nNew)
    ensures Loading(e, LoadBucket(e, s, b, indexes, nNew, usesTable))
    ensures OnlyPlaced(s, LoadBucket(e, s, b, indexes, nNew, usesTable))
    decreases |indexes|
  {
    hide Loading, LoadIndex;
    if indexes != [] {
      var init := indexes[..|indexes| - 1];
      LoadBucketKeeps(e, s, b, init, nNew, usesTable);
      hide OnlyPlaced;
      var s1 := LoadBucket(e, s, b, init, nNew, usesTable);
      NewBelowStays(s, s1, nNew);
      LoadIndexKeeps(e, s1, b, indexes[|indexes| - 1], nNew, usesTable);
      LoadIndexFrame(e, s1, b, indexes[|indexes| - 1], nNew, usesTable);
      OnlyPlacedTwice(s, s1, LoadIndex(e, s1, b, indexes[|indexes| - 1], nNew, usesTable));
    }
  }

  lemma {:induction false} LoadBucketsKeeps(e: Env, s: State, buckets: seq<seq<int>>, nNew: nat, usesTable: bool)
    requires Loading(e, s) && (usesTable ==> |buckets| <= NEW_BUCKET_COUNT) && NewBelow(s, nNew)
    ensures Loading(e, LoadBuckets(e, s, buckets, nNew, usesTable))
    ensures OnlyPlaced(s, LoadBuckets(e, s, buckets, nNew, usesTable))
    decreases |buckets|
  {
    hide Loading, LoadBucket;
    if buckets != [] {
      var b := |buckets| - 1;
      LoadBucketsKeeps(e, s, buckets[..b], nNew, usesTable);
      hide OnlyPlaced;
      var s1 := LoadBuckets(e, s, buckets[..b], nNew, usesTable);
      NewBelowStays(s, s1, nNew);
      LoadBucketKeeps(e, s1, b, buckets[b], nNew, usesTable);
      OnlyPlacedTwice(s, s1, LoadBucket(e, s1, b, buckets[b], nNew, usesTable));
    }
  }

  lemma EmptyIsLoading(e: Env, key: Key)
    ensures Loading(e, Empty(key)) && NoneTried(Empty(key))
  {
    var s := Empty(key);
    assert Unplaced(s) == {} && NewIds(s) - {} == {} && TriedIds(s) == {};
  }

  lemma LoadedKeeps(e: Env, img: Image)
    requires |img.buckets| == UBuckets(img)
    ensures Loading(e, Loaded(e, img))
  {
    hide Loading, LoadNews, LoadTrieds, LoadBuckets;
    EmptyIsLoading(e, img.key);
    var usesTable := UsesTable(img);
    LoadNewsKeeps(e, Empty(img.key), img.newInfos, usesTable);
    var s1 := LoadNews(e, Empty(img.key), img.newInfos, usesTable);
    LoadTriedsKeeps(e, s1, img.triedInfos);
    var s2 := LoadTrieds(e, s1, img.triedInfos);
    NewOnesAreNew(s1, s2, |img.newInfos|);
    LoadBucketsKeeps(e, s2, img.buckets, |img.newInfos|, usesTable);
  }

  // ---------- what the pruning keeps ----------

  lemma UnplacedIffDeletable(e: Env, s: State, id: nat)
    requires Slotted(e, s)
    ensures id in Unplaced(s) <==> CanDelete(s, id)
  {
    if id in Unplaced(s) {
      DeleteIsPossible(s, id);
    }
  }

  /** One id is gone, and whatever its name stood for cannot be found by it. */
  ghost predicate WithoutOne(s: State, s': State, id: nat) {
    && s'.key == s.key && s'.info.Keys == s.info.Keys - {id} && s'.idCount == s.idCount
    && (forall i | i in s'.info :: s'.info[i].Ip() == s.info[i].Ip())
    && s'.addrs == if id in s.info then s.addrs - {s.info[id].Ip()} else s.addrs
  }

  lemma DeleteIsWithout(s: State, id: nat)
    requires RandomOk(s) && CanDelete(s, id)
    ensures WithoutOne(s, Delete(s, id), id)
  {
    DeleteLeavesOthers(s, id);
    forall i | i in Delete(s, id).info ensures Delete(s, id).info[i].Ip() == s.info[i].Ip() {
      assert Kept(s, Delete(s, id), i);
    }
  }

  lemma PruneOneKeeps(e: Env, s: State, id: nat)
    requires Slotted(e, s)
    ensures var s' := if CanDelete(s, id) then Delete(s, id) else s;
            && Slotted(e, s') && Unplaced(s') == Unplaced(s) - {id}
            && (if id in Unplaced(s) then WithoutOne(s, s', id) else s' == s)
  {
    var un := Unplaced(s);
    UnplacedIffDeletable(e, s, id);
    if id in un {
      DeleteIsWithout(s, id);
      hide Indexed, Unplaced, WithoutOne, Delete, CanDelete;
      DeleteIndexes(e, s, id, un, |un|);
      IndexedIsSlotted(e, Delete(s, id), un - {id});
    }
  }

  lemma PruneStep(s: State, n: nat)
    ensures Prune(s, n + 1) == if CanDelete(Prune(s, n), n) then Delete(Prune(s, n), n) else Prune(s, n)
    ensures Prune(s, 0) == s
  {
  }

  /** The unplaced ids below n, and their names. */
  function Dropped(s: State, n: nat): set<nat> {
    set id | id in Unplaced(s) && id < n
  }

  function NamesOf(s: State, ids: set<nat>): set<Ip>
  {
    set id | id in ids && id in s.info :: s.info[id].Ip()
  }

  /** The ids are gone, with the names they had. */
  ghost predicate Without(s: State, s': State, ids: set<nat>) {
    && s'.key == s.key && s'.info.Keys == s.info.Keys - ids && s'.idCount == s.idCount
    && (forall i | i in s'.info :: s'.info[i].Ip() == s.info[i].Ip())
    && s'.addrs == s.addrs - NamesOf(s, ids)
  }

  lemma WithoutOneMore(s: State, s1: State, s2: State, ids: set<nat>, id: nat)
    requires Without(s, s1, ids) && id in s.info && id !in ids && WithoutOne(s1, s2, id)
    ensures Without(s, s2, ids + {id})
  {
    assert NamesOf(s, ids + {id}) == NamesOf(s, ids) + {s.info[id].Ip()};
    assert s2.info.Keys == s.info.Keys - (ids + {id});
    forall i | i in s2.info ensures s2.info[i].Ip() == s.info[i].Ip() { assert i in s1.info; }
    assert s2.addrs == s.addrs - NamesOf(s, ids + {id});
  }

  lemma DroppedGrows(s: State, n: nat)
    ensures Dropped(s, n + 1) == if n in Unplaced(s) then Dropped(s, n) + {n} else Dropped(s, n)
    ensures n !in Dropped(s, n) && (n in Unplaced(s) ==> n in s.info)
  {
  }

  lemma NothingDropped(s: State, n: nat)
    ensures n == 0 || Unplaced(s) == {} ==> Dropped(s, n) == {}
    ensures Without(s, s, {})
  {
    assert NamesOf(s, {}) == {};
  }

  lemma {:induction false} PruneKeeps(e: Env, s: State, n: nat)
    requires Slotted(e, s)
    ensures Slotted(e, Prune(s, n)) && Without(s, Prune(s, n), Dropped(s, n))
    ensures Unplaced(Prune(s, n)) == Unplaced(s) - Dropped(s, n)
    ensures Unplaced(s) == {} ==> Prune(s, n) == s
    decreases n
  {
    hide Slotted, Unplaced, CanDelete, Delete, Prune, Without, WithoutOne, Dropped;
    if n == 0 {
      PruneStep(s, 0);
      NothingDropped(s, 0);
    } else {
      var s1 := Prune(s, n - 1);
      PruneStep(s, n - 1);
      PruneKeeps(e, s, n - 1);
      PruneOneKeeps(e, s1, n - 1);
      DroppedGrows(s, n - 1);
      NothingDropped(s, n);
      if n - 1 in Unplaced(s) {
        WithoutOneMore(s, s1, Prune(s, n), Dropped(s, n - 1), n - 1);
      }
    }
  }

  // ---------- when what is read is consistent ----------

  /** No record that got a slot shares its address with another record that was entered. */
  predicate NoNameClash(s: State) {
    forall i, j | i in s.info && j in s.info && i != j && i !in Unplaced(s) :: s.info[i].Ip() != s.info[j].Ip()
  }

  lemma AllAreDropped(s: State)
    requires LastNamed(s)
    ensures Dropped(s, s.idCount) == Unplaced(s)
  {
    forall id: nat ensures id in Unplaced(s) ==> id < s.idCount { assert NamedByLater(s, id); }
  }

  /** Deleting the records without slots leaves every other one its name exactly if there was no clash. */
  lemma NamesAfterPruning(s: State, s': State)
    requires LastNamed(s) && Without(s, s', Unplaced(s))
    ensures AddrsOk(s') <==> NoNameClash(s)
  {
    hide Unplaced;
    if NoNameClash(s) {
      forall id ensures IdNamed(s', id) {
        if id in s'.info {
          assert NamedByLater(s, id) && NameKnown(s, s.info[id].Ip());
        }
      }
      forall a ensures NameKnown(s', a) { assert NameKnown(s, a); }
    }
    if AddrsOk(s') {
      forall i, j | i in s.info && j in s.info && i != j && i !in Unplaced(s) ensures s.info[i].Ip() != s.info[j].Ip() {
        assert IdNamed(s', i) && IdNamed(s', j);
        if j in Unplaced(s) {
          assert s.info[j].Ip() in NamesOf(s, Unplaced(s));
        }
      }
    }
  }

  /**
   Whatever a file holds, of whatever version and bucket count, all but the name index of what is
   read is in order; and the whole is exactly if no record that got a slot shares its address with
   another that was entered. (If it does, either the later of the two has the name to itself, or
   deleting the one without a slot takes it away from the other.)
   */
  lemma ReadIsConsistent(e: Env, img: Image)
    requires img.keySize == 32 && |img.buckets| == UBuckets(img)
    ensures Loading(e, Loaded(e, img)) && Indexed(e, Read(e, img).s, {}, 0)
    ensures Inv(e, Read(e, img).s) <==> NoNameClash(Loaded(e, img))
    ensures DistinctIps(img.newInfos + img.triedInfos) ==> Inv(e, Read(e, img).s)
  {
    var s := Loaded(e, img);
    LoadedKeeps(e, img);
    AllAreDropped(s);
    PruneKeeps(e, s, s.idCount);
    var s' := Prune(s, s.idCount);
    NamesAfterPruning(s, s');
    assert Unplaced(s') == {} && Read(e, img).s == s';
    hide LastNamed, Indexed, AddrsOk, Unplaced, Loaded, Prune, NoNameClash, DistinctIps;
    if DistinctIps(img.newInfos + img.triedInfos) {
      DistinctMeansNoClash(e, img);
    }
  }

  // ----- files in which all addresses differ -----

  function Ips(ds: seq<Disk>): set<Ip> {
    set d | d in ds :: d.address.service.ip
  }

  ghost predicate DistinctIps(ds: seq<Disk>) {
    forall i, j | 0 <= i < j < |ds| :: ds[i].address.service.ip != ds[j].address.service.ip
  }

  /** The names of the records are among these, and all different. */
  ghost predicate NamesDiffer(s: State, ips: set<Ip>) {
    && (forall i | i in s.info :: i < s.idCount && s.info[i].Ip() in ips)
    && (forall i, j | i in s.info && j in s.info && i != j :: s.info[i].Ip() != s.info[j].Ip())
  }

  lemma IpsGrow(ds: seq<Disk>, d: Disk)
    requires DistinctIps(ds + [d])
    ensures Ips(ds + [d]) == Ips(ds) + {d.address.service.ip}
    ensures DistinctIps(ds) && d.address.service.ip !in Ips(ds)
  {
    assert (ds + [d])[..|ds|] == ds && (ds + [d])[|ds|] == d;
    forall i, j | 0 <= i < j < |ds| ensures ds[i].address.service.ip != ds[j].address.service.ip {
      assert (ds + [d])[i] == ds[i] && (ds + [d])[j] == ds[j];
    }
    forall i | 0 <= i < |ds| ensures ds[i].address.service.ip != d.address.service.ip {
      assert (ds + [d])[i] == ds[i];
    }
    forall a ensures a in Ips(ds + [d]) <==> a in Ips(ds) + {d.address.service.ip} {}
  }

  lemma LoadNewDiffers(e: Env, s: State, d: Disk, usesTable: bool, ips: set<Ip>)
    requires NamesDiffer(s, ips) && d.address.service.ip !in ips
    ensures NamesDiffer(LoadNew(e, s, d, usesTable), ips + {d.address.service.ip})
  {
    LoadNewFrame(e, s, d, usesTable);
  }

  lemma LoadTriedDiffers(e: Env, s: State, d: Disk, ips: set<Ip>)
    requires NamesDiffer(s, ips) && d.address.service.ip !in ips
    ensures NamesDiffer(LoadTried(e, s, d), ips + {d.address.service.ip})
  {
    LoadRecordFrame(s, d);
  }

  lemma {:induction false} LoadNewsDiffer(e: Env, key: Key, ds: seq<Disk>, usesTable: bool)
    requires DistinctIps(ds)
    ensures NamesDiffer(LoadNews(e, Empty(key), ds, usesTable), Ips(ds))
    decreases |ds|
  {
    if ds != [] {
      var init, d := ds[..|ds| - 1], ds[|ds| - 1];
      assert ds == init + [d];
      IpsGrow(init, d);
      LoadNewsDiffer(e, key, init, usesTable);
      hide NamesDiffer, LoadNew;
      LoadNewDiffers(e, LoadNews(e, Empty(key), init, usesTable), d, usesTable, Ips(init));
    }
  }

  lemma {:induction false} LoadTriedsDiffer(e: Env, s: State, before: seq<Disk>, ds: seq<Disk>)
    requires DistinctIps(before + ds) && NamesDiffer(s, Ips(before))
    ensures NamesDiffer(LoadTrieds(e, s, ds), Ips(before + ds))
    decreases |ds|
  {
    if ds == [] {
      assert before + [] == before;
    } else {
      var init, d := ds[..|ds| - 1], ds[|ds| - 1];
      assert before + ds == (before + init) + [d];
      IpsGrow(before + init, d);
      LoadTriedsDiffer(e, s, before, init);
      hide NamesDiffer, LoadTried;
      LoadTriedDiffers(e, LoadTrieds(e, s, init), d, Ips(before + init));
    }
  }

  lemma DistinctMeansNoClash(e: Env, img: Image)
    requires DistinctIps(img.newInfos + img.triedInfos) && |img.buckets| == UBuckets(img)
    ensures NoNameClash(Loaded(e, img))
  {
    hide Loading, LoadNews, LoadTrieds, LoadBuckets, DistinctIps, Ips, NamesDiffer, OnlyPlaced;
    var usesTable := UsesTable(img);
    PrefixDistinct(img.newInfos, img.triedInfos);
    LoadNewsDiffer(e, img.key, img.newInfos, usesTable);
    var s1 := LoadNews(e, Empty(img.key), img.newInfos, usesTable);
    LoadTriedsDiffer(e, s1, img.newInfos, img.triedInfos);
    EmptyIsLoading(e, img.key);
    LoadNewsKeeps(e, Empty(img.key), img.newInfos, usesTable);
    LoadTriedsKeeps(e, s1, img.triedInfos);
    var s2 := LoadTrieds(e, s1, img.triedInfos);
    NewOnesAreNew(s1, s2, |img.newInfos|);
    LoadBucketsKeeps(e, s2, img.buckets, |img.newInfos|, usesTable);
    PlacedDiffer(s2, Loaded(e, img), Ips(img.newInfos + img.triedInfos));
  }

  /** What the first list was read as stays "new" when the second is read. */
  lemma NewOnesAreNew(s: State, s': State, n: nat)
    requires NoneTried(s) && s.idCount == n && Extends(s, s')
    ensures NewBelow(s', n)
  {
  }

  lemma PrefixDistinct(a: seq<Disk>, b: seq<Disk>)
    requires DistinctIps(a + b)
    ensures DistinctIps(a)
  {
    forall i, j | 0 <= i < j < |a| ensures a[i].address.service.ip != a[j].address.service.ip {
      assert (a + b)[i] == a[i] && (a + b)[j] == a[j];
    }
  }

  lemma PlacedDiffer(s: State, s': State, ips: set<Ip>)
    requires NamesDiffer(s, ips) && OnlyPlaced(s, s')
    ensures NoNameClash(s')
  {
  }

  // ----- a file that is read wrong -----

  /** Two ports of one address, filed by their ports, in a file from before there were bucket counts. */
  const ByPort := Env((k, a) => 0, (k, a, b) => 0, (k, n, b, a: Service) => a.port % BUCKET_SIZE, a => true)

  function RecordOf(port: nat): Disk { Disk(Address(Service(1, port), {}, 0), 0, 0, 0) }

  const TwoPorts := Image(0, 32, 1, 0, [RecordOf(0), RecordOf(1)], [], [])

  lemma PortIsLoaded(s: State, port: nat)
    requires Slot(0, port % BUCKET_SIZE) !in s.news
    ensures LoadNew(ByPort, s, RecordOf(port), false)
            == s.(idCount := s.idCount + 1,
                  info := s.info[s.idCount := Info(RecordOf(port).address, 0, 0, 0, 0, 1, false, |s.random|)],
                  addrs := s.addrs[1 := s.idCount], random := s.random + [s.idCount], nNew := s.nNew + 1,
                  news := s.news[Slot(0, port % BUCKET_SIZE) := s.idCount])
  {
  }

  lemma TwoPortsAreLoaded()
    ensures var s := Loaded(ByPort, TwoPorts);
            && s.info.Keys == {0, 1} && s.info[0].Ip() == 1 && s.info[1].Ip() == 1 && s.addrs == map[1 := 1]
            && s.info[0].refCount == 1 && Unplaced(s) == {}
  {
    var s0 := Empty(1);
    LoadNewsStep(ByPort, s0, [], RecordOf(0), false);
    LoadNewsStep(ByPort, s0, [RecordOf(0)], RecordOf(1), false);
    assert [] + [RecordOf(0)] == [RecordOf(0)] && [RecordOf(0)] + [RecordOf(1)] == TwoPorts.newInfos;
    hide LoadNew, LoadNews;
    PortIsLoaded(s0, 0);
    PortIsLoaded(LoadNew(ByPort, s0, RecordOf(0), false), 1);
  }

  /** Both records get their slots, but the first cannot be found by its name any more. */
  lemma TwoPortsClash()
    ensures |TwoPorts.buckets| == UBuckets(TwoPorts) && Read(ByPort, TwoPorts).Success?
    ensures var s := Read(ByPort, TwoPorts).s;
            !Inv(ByPort, s) && 0 in s.info && s.info[0].refCount == 1 && s.info[0].Ip() == 1 && s.addrs == map[1 := 1]
  {
    TwoPortsAreLoaded();
    ReadIsConsistent(ByPort, TwoPorts);
    var s := Loaded(ByPort, TwoPorts);
    hide Loaded, Loading, Indexed, Inv, Unplaced;
    PruneKeeps(ByPort, s, s.idCount);
    assert s.info[0].Ip() == s.info[1].Ip();
  }
}
