/** CAddrMan's Serialize and Unserialize: loops over the object's tables. */
module AddrManFile {
  import opened Wrappers
  import opened AddrTables
  import opened AddrOps
  import opened AddrPeers
  import opened AddrRoundTrip
  import opened AddrMan

  // ---------- writing ----------

  lemma NewListStep(s: State, n: nat)
    ensures NewList(s, 0) == []
    ensures NewList(s, n + 1) == NewList(s, n) + if n in s.info && s.info[n].refCount != 0 then [n] else []
  {
  }

  lemma TriedListStep(s: State, n: nat)
    ensures TriedList(s, 0) == []
    ensures TriedList(s, n + 1) == TriedList(s, n) + if n in s.info && s.info[n].inTried then [n] else []
  {
  }

  lemma {:induction false} ListsGrow(s: State, n: nat, m: nat)
    requires n <= m
    ensures |NewList(s, n)| <= |NewList(s, m)| && |TriedList(s, n)| <= |TriedList(s, m)|
    decreases m
  {
    if n < m {
      ListsGrow(s, n, m - 1);
    }
  }

  ghost predicate Listed(s: State, ids: seq<nat>, infos: seq<Disk>) {
    |infos| == |ids| && forall k | 0 <= k < |ids| :: ids[k] in s.info && infos[k] == ToDisk(s.info[ids[k]])
  }

  lemma NothingListed(s: State)
    ensures Listed(s, [], [])
  {
  }

  lemma ListedGrows(s: State, ids: seq<nat>, infos: seq<Disk>, id: nat)
    requires Listed(s, ids, infos)
    ensures id in s.info ==> Listed(s, ids + [id], infos + [ToDisk(s.info[id])])
    ensures Listed(s, ids + [], infos)
  {
    assert ids + [] == ids;
  }

  /** The records with "new" slots, in order of id, and the number each id is written under; nNew is never exceeded. */
  method WriteNews(m: AddrMan) returns (infos: seq<Disk>, unkIds: map<nat, nat>)
    requires Inv(m.env, m.Model())
    ensures Listed(m.Model(), NewList(m.Model(), m.idCount), infos)
    ensures forall id | id in m.mapInfo && id < m.idCount :: id in unkIds && unkIds[id] == Index(m.Model(), id)
    ensures m.Model() == old(m.Model())
  {
    hide NewList, Loose, Inv, Listed;
    ghost var s := m.Model();
    ListsAreCounted(m.env, s);
    var mapInfo, nNew := m.mapInfo, m.nNew;
    infos, unkIds := [], map[];
    var nIds: int := 0;
    NewListStep(s, 0);
    NothingListed(s);
    for id := 0 to m.idCount
      invariant nIds == |infos| == |NewList(s, id)| && Listed(s, NewList(s, id), infos)
      invariant forall i: nat | i in mapInfo && i < id :: i in unkIds && unkIds[i] == Index(s, i)
    {
      NewListStep(s, id);
      ListsGrow(s, id + 1, s.idCount);
      ListedGrows(s, NewList(s, id), infos, id);
      if id in mapInfo {
        unkIds := unkIds[id := nIds];
        if mapInfo[id].refCount != 0 {
          assert nIds != nNew;
          infos := infos + [ToDisk(mapInfo[id])];
          nIds := nIds + 1;
        }
      }
    }
  }

  method WriteTrieds(m: AddrMan) returns (infos: seq<Disk>)
    requires Inv(m.env, m.Model())
    ensures Listed(m.Model(), TriedList(m.Model(), m.idCount), infos)
    ensures m.Model() == old(m.Model())
  {
    hide TriedList, Loose, Inv, Listed;
    ghost var s := m.Model();
    ListsAreCounted(m.env, s);
    var mapInfo, nTried := m.mapInfo, m.nTried;
    infos := [];
    var nIds: int := 0;
    TriedListStep(s, 0);
    NothingListed(s);
    for id := 0 to m.idCount
      invariant nIds == |infos| == |TriedList(s, id)| && Listed(s, TriedList(s, id), infos)
    {
      TriedListStep(s, id);
      ListsGrow(s, id + 1, s.idCount);
      ListedGrows(s, TriedList(s, id), infos, id);
      if id in mapInfo && mapInfo[id].inTried {
        assert nIds != nTried;
        infos := infos + [ToDisk(mapInfo[id])];
        nIds := nIds + 1;
      }
    }
  }

  lemma BucketListStep(s: State, b: nat, p: nat)
    ensures BucketList(s, b, 0) == []
    ensures BucketList(s, b, p + 1) == BucketList(s, b, p) + if Slot(b, p) in s.news then [Index(s, s.news[Slot(b, p)])] else []
  {
  }

  method CountBucket(m: AddrMan, b: nat) returns (nSize: nat)
    requires m.Valid() && b < NEW_BUCKET_COUNT
    ensures nSize == |BucketList(m.Model(), b, BUCKET_SIZE)|
    ensures m.Valid() && m.Model() == old(m.Model())
  {
    ghost var s := m.Model();
    hide BucketList, AddrMan.Valid;
    nSize := 0;
    BucketListStep(s, b, 0);
    for i := 0 to BUCKET_SIZE
      invariant nSize == |BucketList(s, b, i)| && m.Valid() && m.Model() == s
    {
      BucketListStep(s, b, i);
      if m.NewAt(Slot(b, i)) != -1 {
        nSize := nSize + 1;
      }
    }
  }

  /** One bucket: its size, counted first, and the number of each occupant. */
  method WriteBucket(m: AddrMan, b: nat, unkIds: map<nat, nat>) returns (nSize: nat, indexes: seq<int>)
    requires m.Valid() && Inv(m.env, m.Model()) && b < NEW_BUCKET_COUNT
    requires forall id | id in m.mapInfo && id < m.idCount :: id in unkIds && unkIds[id] == Index(m.Model(), id)
    ensures indexes == BucketList(m.Model(), b, BUCKET_SIZE) && nSize == |indexes|
    ensures m.Valid() && m.Model() == old(m.Model())
  {
    ghost var s := m.Model();
    hide BucketList, Loose, Index, AddrMan.Valid;
    nSize := CountBucket(m, b);
    indexes := [];
    BucketListStep(s, b, 0);
    for i := 0 to BUCKET_SIZE
      invariant indexes == BucketList(s, b, i) && m.Valid() && m.Model() == s
    {
      BucketListStep(s, b, i);
      var id := m.NewAt(Slot(b, i));
      if id != -1 {
        OccupantIsKnown(m.env, s, Slot(b, i));
        indexes := indexes + [unkIds[id]];
      }
    }
  }

  lemma OccupantIsKnown(e: Env, s: State, slot: Slot)
    requires Inv(e, s) && slot in s.news
    ensures s.news[slot] in s.info && s.news[slot] < s.idCount
  {
    assert NewSlotOk(e, s, slot) && IdNamed(s, s.news[slot]);
  }

  /** Neither assertion on the counters fires, and what is written is the image of the state. */
  method Serialize(m: AddrMan) returns (img: Image)
    requires m.Valid() && Inv(m.env, m.Model())
    ensures img == Write(m.Model())
    ensures m.Valid() && m.Model() == old(m.Model())
  {
    ghost var s := m.Model();
    hide NewList, TriedList, BucketList, Loose;
    var newInfos, unkIds := WriteNews(m);
    var triedInfos := WriteTrieds(m);
    var buckets: seq<seq<int>> := [];
    for bucket := 0 to NEW_BUCKET_COUNT
      invariant |buckets| == bucket && m.Valid() && m.Model() == s
      invariant forall b | 0 <= b < bucket :: buckets[b] == BucketList(s, b, BUCKET_SIZE)
    {
      var nSize, indexes := WriteBucket(m, bucket, unkIds);
      buckets := buckets + [indexes];
    }
    img := Image(1, 32, m.key, FlipBit30(NEW_BUCKET_COUNT), newInfos, triedInfos, buckets);
  }

  // ---------- reading ----------

  /** A state with the counters as they were read, before the lists have been. */
  function Counted(s: State, nNew: int, nTried: int): State { s.(nNew := nNew, nTried := nTried) }

  method ReadRecord(m: AddrMan, d: Disk) returns (id: nat)
    requires m.Valid()
    modifies m
    ensures m.Valid() && m.Model() == LoadRecord(old(m.Model()), d) && id == old(m.idCount)
  {
    hide AddrMan.Valid;
    id := m.Create(d.address, d.source);
    m.Replace(id, m.mapInfo[id].(lastSuccess := d.lastSuccess, attempts := d.attempts));
  }

  /** The next address of the "new" list, with a slot at once if the table cannot be used. */
  method ReadNew(m: AddrMan, d: Disk, usesTable: bool)
    requires m.Valid()
    modifies m, m.vvNew
    ensures m.Valid()
    ensures m.Model() == Counted(LoadNew(m.env, old(m.Model()), d, usesTable), old(m.nNew), old(m.nTried))
  {
    hide AddrMan.Valid, NewSlot;
    var id := ReadRecord(m, d);
    if !usesTable {
      var slot := NewSlot(m.env, m.key, d.address.service, d.source);
      assert slot.bucket < NEW_BUCKET_COUNT && slot.pos < BUCKET_SIZE by { NewSlotFits(m.env, m.key, d.address.service, d.source); }
      if m.NewAt(slot) == -1 {
        m.EnterNew(id, slot, 1);
      }
    }
  }

  lemma NewSlotFits(e: Env, key: Key, a: Service, source: Ip)
    ensures NewSlot(e, key, a, source).bucket < NEW_BUCKET_COUNT && NewSlot(e, key, a, source).pos < BUCKET_SIZE
  {
  }

  lemma LoadNewCounts(e: Env, s: State, d: Disk, usesTable: bool, nNew: int, nTried: int)
    ensures Counted(LoadNew(e, Counted(s, nNew, nTried), d, usesTable), nNew, nTried) == Counted(LoadNew(e, s, d, usesTable), nNew, nTried)
    ensures LoadNew(e, s, d, usesTable).nNew == s.nNew + 1 && LoadNew(e, s, d, usesTable).nTried == s.nTried
    ensures LoadNew(e, s, d, usesTable).idCount == s.idCount + 1 && LoadNew(e, s, d, usesTable).key == s.key
    ensures LoadNew(e, s, d, usesTable).info.Keys == s.info.Keys + {s.idCount}
  {
  }

  method ReadNews(m: AddrMan, ds: seq<Disk>, usesTable: bool)
    requires m.Valid() && m.Model() == Counted(Empty(m.key), m.nNew, m.nTried)
    modifies m, m.vvNew
    ensures m.Valid() && m.key == old(m.key)
    ensures m.Model() == Counted(LoadNews(m.env, Empty(m.key), ds, usesTable), old(m.nNew), old(m.nTried))
    ensures var s := LoadNews(m.env, Empty(m.key), ds, usesTable);
            s.nNew == |ds| && s.nTried == 0 && forall id: nat | id < |ds| :: id in s.info
  {
    hide AddrMan.Valid, LoadNew, LoadNews;
    ghost var s0 := Empty(m.key);
    LoadNewsStep(m.env, s0, [], Disk(Address(Service(0, 0), {}, 0), 0, 0, 0), usesTable);
    assert ds[..0] == [];
    for n := 0 to |ds|
      invariant m.Valid() && m.key == old(m.key)
      invariant m.Model() == Counted(LoadNews(m.env, s0, ds[..n], usesTable), old(m.nNew), old(m.nTried))
      invariant var s := LoadNews(m.env, s0, ds[..n], usesTable);
                s.nNew == n && s.idCount == n && s.nTried == 0 && s.key == s0.key && forall id: nat | id < n :: id in s.info
    {
      assert ds[..n + 1] == ds[..n] + [ds[n]];
      LoadNewsStep(m.env, s0, ds[..n], ds[n], usesTable);
      LoadNewCounts(m.env, LoadNews(m.env, s0, ds[..n], usesTable), ds[n], usesTable, old(m.nNew), old(m.nTried));
      ReadNew(m, ds[n], usesTable);
    }
    assert ds[..|ds|] == ds;
  }

  /** The next address of the "tried" list; lost if its slot is taken. */
  method ReadTried(m: AddrMan, d: Disk) returns (lost: bool)
    requires m.Valid()
    modifies m, m.vvTried
    ensures m.Valid() && m.Model() == Counted(LoadTried(m.env, old(m.Model()), d), old(m.nNew), old(m.nTried))
    ensures lost <==> TriedSlot(m.env, old(m.key), d.address.service) in old(m.tried)
  {
    hide AddrMan.Valid, TriedSlot;
    var slot := TriedSlot(m.env, m.key, d.address.service);
    assert slot.bucket < TRIED_BUCKET_COUNT && slot.pos < BUCKET_SIZE by { TriedSlotFits(m.env, m.key, d.address.service); }
    lost := m.TriedAt(slot) != -1;
    if !lost {
      var id := ReadRecord(m, d);
      m.Replace(id, m.mapInfo[id].(inTried := true));
      m.SetTried(slot, id);
    }
  }

  lemma TriedSlotFits(e: Env, key: Key, a: Service)
    ensures TriedSlot(e, key, a).bucket < TRIED_BUCKET_COUNT && TriedSlot(e, key, a).pos < BUCKET_SIZE
  {
  }

  lemma LoadTriedCounts(e: Env, s: State, d: Disk, nNew: int, nTried: int)
    ensures Counted(LoadTried(e, Counted(s, nNew, nTried), d), nNew, nTried) == Counted(LoadTried(e, s, d), nNew, nTried)
    ensures LoadTried(e, s, d).nNew == s.nNew && LoadTried(e, s, d).info.Keys >= s.info.Keys && LoadTried(e, s, d).key == s.key
    ensures LoadTried(e, s, d).nTried == s.nTried + if TriedSlot(e, s.key, d.address.service) in s.tried then 0 else 1
  {
  }

  method ReadTrieds(m: AddrMan, ghost s0: State, ds: seq<Disk>) returns (nLost: nat)
    requires m.Valid() && m.Model() == Counted(s0, m.nNew, m.nTried)
    modifies m, m.vvTried
    ensures m.Valid() && m.key == old(m.key)
    ensures m.Model() == Counted(LoadTrieds(m.env, s0, ds), old(m.nNew), old(m.nTried))
    ensures var s := LoadTrieds(m.env, s0, ds);
            s.nNew == s0.nNew && s.info.Keys >= s0.info.Keys && nLost == |ds| - (s.nTried - s0.nTried)
  {
    hide AddrMan.Valid, LoadTried, LoadTrieds;
    LoadTriedsStep(m.env, s0, [], Disk(Address(Service(0, 0), {}, 0), 0, 0, 0));
    assert ds[..0] == [];
    nLost := 0;
    for n := 0 to |ds|
      invariant m.Valid() && m.key == old(m.key)
      invariant m.Model() == Counted(LoadTrieds(m.env, s0, ds[..n]), old(m.nNew), old(m.nTried))
      invariant var s := LoadTrieds(m.env, s0, ds[..n]);
                s.nNew == s0.nNew && s.info.Keys >= s0.info.Keys && nLost == n - (s.nTried - s0.nTried)
    {
      assert ds[..n + 1] == ds[..n] + [ds[n]];
      LoadTriedsStep(m.env, s0, ds[..n], ds[n]);
      LoadTriedCounts(m.env, LoadTrieds(m.env, s0, ds[..n]), ds[n], old(m.nNew), old(m.nTried));
      var lost := ReadTried(m, ds[n]);
      if lost {
        nLost := nLost + 1;
      }
    }
    assert ds[..|ds|] == ds;
  }

  /** One number read for a bucket: the address named takes the slot its position says, if it may. */
  method ReadIndex(m: AddrMan, bucket: nat, index: int, nNew: nat, usesTable: bool)
    requires m.Valid() && (usesTable ==> bucket < NEW_BUCKET_COUNT)
    requires forall id: nat | id < nNew :: id in m.mapInfo
    modifies m, m.vvNew
    ensures m.Valid() && m.Model() == LoadIndex(m.env, old(m.Model()), bucket, index, nNew, usesTable)
  {
    hide AddrMan.Valid;
    if 0 <= index < nNew {
      var info := m.mapInfo[index];
      var slot := Slot(bucket, m.env.position(m.key, true, bucket, info.address.service));
      if usesTable && m.NewAt(slot) == -1 && info.refCount < NEW_BUCKETS_PER_ADDRESS {
        m.EnterNew(index, slot, info.refCount + 1);
      }
    }
  }

  lemma LoadBucketStep(e: Env, s: State, b: nat, indexes: seq<int>, index: int, nNew: nat, usesTable: bool)
    ensures LoadBucket(e, s, b, indexes + [index], nNew, usesTable)
            == LoadIndex(e, LoadBucket(e, s, b, indexes, nNew, usesTable), b, index, nNew, usesTable)
    ensures LoadBucket(e, s, b, [], nNew, usesTable) == s
  {
    assert (indexes + [index])[..|indexes|] == indexes;
  }

  method ReadBucket(m: AddrMan, bucket: nat, indexes: seq<int>, nNew: nat, usesTable: bool)
    requires m.Valid() && (usesTable ==> bucket < NEW_BUCKET_COUNT)
    requires forall id: nat | id < nNew :: id in m.mapInfo
    modifies m, m.vvNew
    ensures m.Valid() && m.Model() == LoadBucket(m.env, old(m.Model()), bucket, indexes, nNew, usesTable)
    ensures m.mapInfo.Keys == old(m.mapInfo).Keys
  {
    ghost var s := m.Model();
    hide AddrMan.Valid, LoadIndex, LoadBucket;
    LoadBucketStep(m.env, s, bucket, [], 0, nNew, usesTable);
    assert indexes[..0] == [];
    for n := 0 to |indexes|
      invariant m.Valid() && m.Model() == LoadBucket(m.env, s, bucket, indexes[..n], nNew, usesTable)
      invariant m.mapInfo.Keys == s.info.Keys
    {
      assert indexes[..n + 1] == indexes[..n] + [indexes[n]];
      LoadBucketStep(m.env, s, bucket, indexes[..n], indexes[n], nNew, usesTable);
      LoadIndexFrame(m.env, m.Model(), bucket, indexes[n], nNew, usesTable);
      ReadIndex(m, bucket, indexes[n], nNew, usesTable);
    }
    assert indexes[..|indexes|] == indexes;
  }

  lemma LoadBucketsStep(e: Env, s: State, buckets: seq<seq<int>>, b: seq<int>, nNew: nat, usesTable: bool)
    ensures LoadBuckets(e, s, buckets + [b], nNew, usesTable)
            == LoadBucket(e, LoadBuckets(e, s, buckets, nNew, usesTable), |buckets|, b, nNew, usesTable)
    ensures LoadBuckets(e, s, [], nNew, usesTable) == s
  {
    assert (buckets + [b])[..|buckets|] == buckets;
  }

  method ReadBuckets(m: AddrMan, buckets: seq<seq<int>>, nNew: nat, usesTable: bool)
    requires m.Valid() && (usesTable ==> |buckets| == NEW_BUCKET_COUNT)
    requires forall id: nat | id < nNew :: id in m.mapInfo
    modifies m, m.vvNew
    ensures m.Valid() && m.Model() == LoadBuckets(m.env, old(m.Model()), buckets, nNew, usesTable)
  {
    ghost var s := m.Model();
    hide AddrMan.Valid, LoadBucket, LoadBuckets;
    LoadBucketsStep(m.env, s, [], [], nNew, usesTable);
    assert buckets[..0] == [];
    for bucket := 0 to |buckets|
      invariant m.Valid() && m.Model() == LoadBuckets(m.env, s, buckets[..bucket], nNew, usesTable)
      invariant m.mapInfo.Keys == s.info.Keys
    {
      assert buckets[..bucket + 1] == buckets[..bucket] + [buckets[bucket]];
      LoadBucketsStep(m.env, s, buckets[..bucket], buckets[bucket], nNew, usesTable);
      ReadBucket(m, bucket, buckets[bucket], nNew, usesTable);
    }
    assert buckets[..|buckets|] == buckets;
  }

  lemma {:induction false} BucketKeepsTried(e: Env, s: State, b: nat, indexes: seq<int>, nNew: nat, usesTable: bool)
    ensures LoadBucket(e, s, b, indexes, nNew, usesTable).nTried == s.nTried
    decreases |indexes|
  {
    if indexes != [] {
      BucketKeepsTried(e, s, b, indexes[..|indexes| - 1], nNew, usesTable);
    }
  }

  lemma {:induction false} BucketsKeepTried(e: Env, s: State, buckets: seq<seq<int>>, nNew: nat, usesTable: bool)
    ensures LoadBuckets(e, s, buckets, nNew, usesTable).nTried == s.nTried
    decreases |buckets|
  {
    hide LoadBucket;
    if buckets != [] {
      var b := |buckets| - 1;
      BucketsKeepTried(e, s, buckets[..b], nNew, usesTable);
      BucketKeepsTried(e, LoadBuckets(e, s, buckets[..b], nNew, usesTable), b, buckets[b], nNew, usesTable);
    }
  }

  lemma PrunableIsDeletable(e: Env, s: State, id: nat)
    requires Slotted(e, s)
    ensures id in s.info && !s.info[id].inTried && s.info[id].refCount == 0 <==> CanDelete(s, id)
  {
    UnplacedIffDeletable(e, s, id);
  }

  /** Addresses that ended up without a slot are deleted; the preconditions of Delete hold each time. */
  method PruneAll(m: AddrMan) returns (nLostUnk: nat)
    requires m.Valid() && Slotted(m.env, m.Model())
    modifies m
    ensures m.Valid() && m.Model() == Prune(old(m.Model()), old(m.idCount))
    ensures nLostUnk == |old(m.mapInfo)| - |m.mapInfo|
  {
    ghost var s := m.Model();
    hide AddrMan.Valid, Slotted, Prune, CanDelete, Delete, Without, Unplaced;
    nLostUnk := 0;
    PruneStep(s, 0);
    for id := 0 to m.idCount
      invariant m.Valid() && m.Model() == Prune(s, id)
      invariant nLostUnk == |s.info| - |m.mapInfo|
    {
      PruneKeeps(m.env, s, id);
      PruneStep(s, id);
      PrunableIsDeletable(m.env, m.Model(), id);
      if id in m.mapInfo && !m.mapInfo[id].inTried && m.mapInfo[id].refCount == 0 {
        DeleteShrinks(m.Model(), id);
        m.Delete(id);
        nLostUnk := nLostUnk + 1;
      }
    }
  }

  lemma DeleteShrinks(s: State, id: nat)
    requires CanDelete(s, id)
    ensures |Delete(s, id).info| == |s.info| - 1
  {
    var s1 := SwapRandom(s, s.info[id].randomPos, |s.random| - 1);
    assert s1.info.Keys == s.info.Keys;
    assert Delete(s, id).info.Keys == s.info.Keys - {id};
  }

  /**
   Into a new object; the numbers lost are as counted. What comes out is consistent, but for the
   name index if a record with a slot shares its address with another record entered.
   */
  method Unserialize(m: AddrMan, img: Image) returns (ok: bool, nLost: int, nLostUnk: int)
    requires m.Valid() && m.Model() == Empty(m.key)
    requires |img.buckets| == UBuckets(img)
    modifies m, m.vvNew, m.vvTried
    ensures match Read(m.env, img)
            case Failure => !ok
            case Success(s, lostTried, lostNew) => ok && m.Valid() && m.Model() == s && nLost == lostTried && nLostUnk == lostNew
    ensures ok ==> Indexed(m.env, m.Model(), {}, 0) && (Inv(m.env, m.Model()) <==> NoNameClash(Loaded(m.env, img)))
  {
    hide AddrMan.Valid, LastNamed, Slotted, Indexed, Inv, NoNameClash, LoadNews, LoadTrieds, LoadBuckets, Prune, DistinctIps;
    nLost, nLostUnk := 0, 0;
    if img.keySize != 32 {
      return false, 0, 0;
    }
    ReadIsConsistent(m.env, img);
    var usesTable := UsesTable(img);
    SetCounters(m, img.key, |img.newInfos|, |img.triedInfos|);
    ReadNews(m, img.newInfos, usesTable);
    ghost var s1 := LoadNews(m.env, Empty(img.key), img.newInfos, usesTable);
    nLost := ReadTrieds(m, s1, img.triedInfos);
    SetTriedCount(m, m.nTried - nLost);
    assert m.Model() == LoadTrieds(m.env, s1, img.triedInfos);
    BucketsKeepTried(m.env, m.Model(), img.buckets, |img.newInfos|, usesTable);
    ReadBuckets(m, img.buckets, |img.newInfos|, usesTable);
    assert m.Model() == Loaded(m.env, img);
    nLostUnk := PruneAll(m);
    ok := true;
  }

  method SetCounters(m: AddrMan, key: Key, nNew: int, nTried: int)
    requires m.Valid() && m.Model() == Empty(m.key)
    modifies m`key, m`nNew, m`nTried
    ensures m.Valid() && m.Model() == Counted(Empty(key), nNew, nTried)
  {
    m.key, m.nNew, m.nTried := key, nNew, nTried;
  }

  method SetTriedCount(m: AddrMan, nTried: int)
    requires m.Valid()
    modifies m`nTried
    ensures m.Valid() && m.Model() == old(m.Model()).(nTried := nTried)
  {
    m.nTried := nTried;
  }
}
