/** Writing a consistent manager and reading it back loses nothing but the numbering of ids. */
module AddrRoundTrip {
  import opened Wrappers
  import opened AddrTables
  import opened AddrOps
  import opened AddrPeers
  import AddrRuns

  // ---------- the numbering ----------

  function TriedIndex(s: State, id: nat): nat {
    |TriedList(s, id)|
  }

  /** The id an id is read back as. */
  function Renumber(s: State, id: nat): nat {
    if id in s.info && s.info[id].inTried then |NewList(s, s.idCount)| + TriedIndex(s, id) else Index(s, id)
  }

  lemma {:induction false} IndexOfNew(s: State, n: nat, id: nat)
    requires id < n && id in s.info && s.info[id].refCount != 0
    ensures Index(s, id) < |NewList(s, n)| && NewList(s, n)[Index(s, id)] == id
  {
    if id < n - 1 {
      IndexOfNew(s, n - 1, id);
    }
  }

  lemma {:induction false} NewAtIndex(s: State, n: nat, k: nat)
    requires k < |NewList(s, n)|
    ensures Index(s, NewList(s, n)[k]) == k
  {
    if k < |NewList(s, n - 1)| {
      NewAtIndex(s, n - 1, k);
    }
  }

  lemma {:induction false} IndexOfTried(s: State, n: nat, id: nat)
    requires id < n && id in s.info && s.info[id].inTried
    ensures TriedIndex(s, id) < |TriedList(s, n)| && TriedList(s, n)[TriedIndex(s, id)] == id
  {
    if id < n - 1 {
      IndexOfTried(s, n - 1, id);
    }
  }

  lemma {:induction false} TriedAtIndex(s: State, n: nat, k: nat)
    requires k < |TriedList(s, n)|
    ensures TriedIndex(s, TriedList(s, n)[k]) == k
  {
    if k < |TriedList(s, n - 1)| {
      TriedAtIndex(s, n - 1, k);
    }
  }

  // ---------- what is written ----------

  lemma ListedNew(e: Env, s: State, k: nat)
    requires Inv(e, s) && k < |NewList(s, s.idCount)|
    ensures var id := NewList(s, s.idCount)[k];
            && id in s.info && !s.info[id].inTried && 0 < s.info[id].refCount <= NEW_BUCKETS_PER_ADDRESS && Renumber(s, id) == k
            && Write(s).newInfos[k] == ToDisk(s.info[id])
  {
    ListsAreKnown(s, s.idCount);
    NewAtIndex(s, s.idCount, k);
    assert RefOk(s, {}, NewList(s, s.idCount)[k]);
  }

  lemma ListedTried(s: State, k: nat)
    requires k < |TriedList(s, s.idCount)|
    ensures var id := TriedList(s, s.idCount)[k];
            && id in s.info && s.info[id].inTried && Renumber(s, id) == |NewList(s, s.idCount)| + k
            && Write(s).triedInfos[k] == ToDisk(s.info[id])
  {
    ListsAreKnown(s, s.idCount);
    TriedAtIndex(s, s.idCount, k);
  }

  /** The id behind the k-th record written, the "new" ones first. */
  function Listed(s: State, k: nat): nat
    requires k < |NewList(s, s.idCount)| + |TriedList(s, s.idCount)|
  {
    if k < |NewList(s, s.idCount)| then NewList(s, s.idCount)[k] else TriedList(s, s.idCount)[k - |NewList(s, s.idCount)|]
  }

  lemma ListedIs(e: Env, s: State, k: nat)
    requires Inv(e, s) && k < |NewList(s, s.idCount)| + |TriedList(s, s.idCount)|
    ensures Listed(s, k) in s.info && Renumber(s, Listed(s, k)) == k
    ensures |Write(s).newInfos| == |NewList(s, s.idCount)| && |Write(s).triedInfos| == |TriedList(s, s.idCount)|
    ensures (Write(s).newInfos + Write(s).triedInfos)[k] == ToDisk(s.info[Listed(s, k)])
    ensures s.info[Listed(s, k)].inTried <==> k >= |NewList(s, s.idCount)|
  {
    if k < |NewList(s, s.idCount)| {
      ListedNew(e, s, k);
    } else {
      ListedTried(s, k - |NewList(s, s.idCount)|);
    }
  }

  lemma RenumberedIs(e: Env, s: State, id: nat)
    requires Inv(e, s) && id in s.info
    ensures Renumber(s, id) < |NewList(s, s.idCount)| + |TriedList(s, s.idCount)| && Listed(s, Renumber(s, id)) == id
  {
    assert IdNamed(s, id) && RefOk(s, {}, id);
    if s.info[id].inTried {
      IndexOfTried(s, s.idCount, id);
    } else {
      IndexOfNew(s, s.idCount, id);
    }
  }

  /** The records written name different addresses, and hash to different "tried" slots. */
  lemma WrittenAreDistinct(e: Env, s: State)
    requires Inv(e, s)
    ensures DistinctIps(Write(s).newInfos + Write(s).triedInfos)
    ensures DistinctTriedSlots(e, s.key, Write(s).triedInfos)
  {
    var all := Write(s).newInfos + Write(s).triedInfos;
    forall i, j | 0 <= i < j < |all| ensures all[i].address.service.ip != all[j].address.service.ip {
      ListedIs(e, s, i);
      ListedIs(e, s, j);
      assert IdNamed(s, Listed(s, i)) && IdNamed(s, Listed(s, j));
    }
    forall i, j | 0 <= i < j < |Write(s).triedInfos|
      ensures TriedSlot(e, s.key, Write(s).triedInfos[i].address.service) != TriedSlot(e, s.key, Write(s).triedInfos[j].address.service)
    {
      ListedTried(s, i);
      ListedTried(s, j);
      assert TriedIdOk(e, s, TriedList(s, s.idCount)[i]) && TriedIdOk(e, s, TriedList(s, s.idCount)[j]);
    }
  }

  // ---------- what the records are read as ----------

  lemma {:induction false} NewsAsWritten(e: Env, key: Key, ds: seq<Disk>)
    ensures var r := LoadNews(e, Empty(key), ds, true);
            && r.key == key && r.idCount == |ds| && r.nNew == |ds| && r.nTried == 0
            && r.news == map[] && r.tried == map[]
            && (forall k :: k in r.info <==> 0 <= k < |ds|)
            && (forall k | 0 <= k < |ds| :: ToDisk(r.info[k]) == ds[k] && !r.info[k].inTried && r.info[k].refCount == 0)
  {
    if ds != [] {
      var init := ds[..|ds| - 1];
      NewsAsWritten(e, key, init);
      hide LoadRecord;
      LoadRecordFrame(LoadNews(e, Empty(key), init, true), ds[|ds| - 1]);
    }
  }

  ghost predicate DistinctTriedSlots(e: Env, key: Key, ds: seq<Disk>) {
    forall i, j | 0 <= i < j < |ds| :: TriedSlot(e, key, ds[i].address.service) != TriedSlot(e, key, ds[j].address.service)
  }

  /** The table holds just the records, each in its slot, numbered from `base` on. */
  ghost predicate TriedFrom(e: Env, key: Key, base: nat, ds: seq<Disk>, tried: map<Slot, nat>) {
    (forall slot :: TriedSlotFrom(e, key, base, ds, tried, slot)) && (forall k :: TriedDiskAt(e, key, base, ds, tried, k))
  }

  ghost predicate TriedSlotFrom(e: Env, key: Key, base: nat, ds: seq<Disk>, tried: map<Slot, nat>, slot: Slot) {
    slot in tried ==> base <= tried[slot] < base + |ds| && slot == TriedSlot(e, key, ds[tried[slot] - base].address.service)
  }

  ghost predicate TriedDiskAt(e: Env, key: Key, base: nat, ds: seq<Disk>, tried: map<Slot, nat>, k: nat) {
    k < |ds| ==> var slot := TriedSlot(e, key, ds[k].address.service); slot in tried && tried[slot] == base + k
  }

  lemma LoadTriedFrame(e: Env, r: State, d: Disk)
    requires TriedSlot(e, r.key, d.address.service) !in r.tried
    ensures var r' := LoadTried(e, r, d);
            && r'.tried == r.tried[TriedSlot(e, r.key, d.address.service) := r.idCount]
            && r'.info == r.info[r.idCount := Info(d.address, d.source, 0, d.lastSuccess, d.attempts, 0, true, |r.random|)]
            && r'.key == r.key && r'.idCount == r.idCount + 1 && r'.nTried == r.nTried + 1 && r'.nNew == r.nNew && r'.news == r.news
  {
    LoadRecordFrame(r, d);
  }

  lemma TriedFromGrows(e: Env, key: Key, base: nat, ds: seq<Disk>, tried: map<Slot, nat>)
    requires ds != [] && DistinctTriedSlots(e, key, ds) && TriedFrom(e, key, base, ds[..|ds| - 1], tried)
    ensures var slot := TriedSlot(e, key, ds[|ds| - 1].address.service);
            slot !in tried && TriedFrom(e, key, base, ds, tried[slot := base + |ds| - 1])
  {
    hide TriedSlot;
    var init, last := ds[..|ds| - 1], |ds| - 1;
    var slot := TriedSlot(e, key, ds[last].address.service);
    var tried' := tried[slot := base + last];
    assert slot !in tried by { assert TriedSlotFrom(e, key, base, init, tried, slot); }
    forall sl ensures TriedSlotFrom(e, key, base, ds, tried', sl) {
      assert TriedSlotFrom(e, key, base, init, tried, sl);
    }
    forall k ensures TriedDiskAt(e, key, base, ds, tried', k) {
      assert TriedDiskAt(e, key, base, init, tried, k);
    }
  }

  /** The state after reading the tried records, but for the random vector and the name index. */
  ghost predicate TriedRead(e: Env, s: State, ds: seq<Disk>, r: State) {
    && TriedFrom(e, s.key, s.idCount, ds, r.tried)
    && r.key == s.key && r.idCount == s.idCount + |ds| && r.nTried == |ds| && r.nNew == s.nNew && r.news == s.news
  }

  ghost predicate RecordsRead(s: State, ds: seq<Disk>, r: State) {
    && (forall id :: id in r.info <==> id in s.info || s.idCount <= id < s.idCount + |ds|)
    && (forall id | id in s.info :: r.info[id] == s.info[id])
    && (forall k | s.idCount <= k < s.idCount + |ds| ::
          ToDisk(r.info[k]) == ds[k - s.idCount] && r.info[k].inTried && r.info[k].refCount == 0)
  }

  lemma RecordsGrow(s: State, ds: seq<Disk>, r: State, r': State, place: int)
    requires ds != [] && RecordsRead(s, ds[..|ds| - 1], r) && forall id | id in s.info :: id < s.idCount
    requires var d := ds[|ds| - 1];
             r'.info == r.info[s.idCount + |ds| - 1 := Info(d.address, d.source, 0, d.lastSuccess, d.attempts, 0, true, place)]
    ensures RecordsRead(s, ds, r')
  {
  }

  lemma NothingRead(e: Env, s: State)
    requires s.tried == map[]
    ensures TriedFrom(e, s.key, s.idCount, [], s.tried) && RecordsRead(s, [], s)
  {
  }

  lemma {:induction false} TriedsAsWritten(e: Env, s: State, ds: seq<Disk>)
    requires s.tried == map[] && s.nTried == 0 && DistinctTriedSlots(e, s.key, ds) && forall id | id in s.info :: id < s.idCount
    ensures TriedRead(e, s, ds, LoadTrieds(e, s, ds)) && RecordsRead(s, ds, LoadTrieds(e, s, ds))
  {
    hide LoadTried, TriedSlot, TriedFrom, RecordsRead;
    if ds == [] {
      NothingRead(e, s);
    } else {
      var init, d := ds[..|ds| - 1], ds[|ds| - 1];
      TriedsAsWritten(e, s, init);
      var r := LoadTrieds(e, s, init);
      TriedFromGrows(e, s.key, s.idCount, ds, r.tried);
      LoadTriedFrame(e, r, d);
      RecordsGrow(s, ds, r, LoadTried(e, r, d), |r.random|);
    }
  }

  // ---------- what the "new" table is read as ----------

  /** Slots up to bucket b, position p come out as they went in, under the new numbers. */
  ghost predicate CopiedUpTo(s: State, news: map<Slot, nat>, b: nat, p: nat) {
    forall slot :: Copied(s, news, b, p, slot)
  }

  ghost predicate Copied(s: State, news: map<Slot, nat>, b: nat, p: nat, slot: Slot) {
    && (slot in news <==> slot in s.news && (slot.bucket < b || (slot.bucket == b && slot.pos < p)))
    && (slot in news ==> news[slot] == Index(s, s.news[slot]))
  }

  /** Every "new" id has been read as the record with its number. */
  ghost predicate Records(s: State, r: State) {
    forall id | id in s.info && s.info[id].refCount != 0 ::
      Index(s, id) in r.info && ToDisk(r.info[Index(s, id)]) == ToDisk(s.info[id])
  }

  /** While its slots are being copied an id has fewer than it will have. */
  lemma RoomForOneMore(e: Env, s: State, r: State, b: nat, p: nat, slot: Slot)
    requires Inv(e, s) && Loading(e, r) && CopiedUpTo(s, r.news, b, p)
    requires slot in s.news && slot !in r.news && Index(s, s.news[slot]) in r.info
    ensures r.info[Index(s, s.news[slot])].refCount < NEW_BUCKETS_PER_ADDRESS
  {
    var id, k := s.news[slot], Index(s, s.news[slot]);
    assert NewSlotOk(e, s, slot) && RefOk(s, {}, id) && slot in Refs(s.news, id);
    assert RefOk(r, Unplaced(r), k);
    IndexOfNew(s, s.idCount, id) by { assert IdNamed(s, id); }
    forall sl | sl in Refs(r.news, k) ensures sl in Refs(s.news, id) - {slot} {
      assert Copied(s, r.news, b, p, sl);
      SameIndexSameId(e, s, sl, slot);
    }
    SubsetSize(Refs(r.news, k), Refs(s.news, id) - {slot});
  }

  lemma SameIndexSameId(e: Env, s: State, a: Slot, b: Slot)
    requires Inv(e, s) && a in s.news && b in s.news && Index(s, s.news[a]) == Index(s, s.news[b])
    ensures s.news[a] == s.news[b]
  {
    assert NewSlotOk(e, s, a) && NewSlotOk(e, s, b);
    assert a in Refs(s.news, s.news[a]) && b in Refs(s.news, s.news[b]);
    assert RefOk(s, {}, s.news[a]) && RefOk(s, {}, s.news[b]) && IdNamed(s, s.news[a]) && IdNamed(s, s.news[b]);
    IndexOfNew(s, s.idCount, s.news[a]);
    IndexOfNew(s, s.idCount, s.news[b]);
  }

  lemma CopiedGrows(s: State, news: map<Slot, nat>, b: nat, p: nat)
    requires CopiedUpTo(s, news, b, p)
    ensures var slot := Slot(b, p);
            && slot !in news
            && CopiedUpTo(s, (if slot in s.news then news[slot := Index(s, s.news[slot])] else news), b, p + 1)
  {
    var slot, q := Slot(b, p), p + 1;
    assert Copied(s, news, b, p, slot);
    var news' := if slot in s.news then news[slot := Index(s, s.news[slot])] else news;
    forall sl ensures Copied(s, news', b, q, sl) {
      assert Copied(s, news, b, p, sl);
    }
  }

  /** One position of a bucket: if it is occupied, the occupant's number lands in the very same slot. */
  lemma CopyOne(e: Env, s: State, r: State, b: nat, p: nat, nNew: nat)
    requires Inv(e, s) && Loading(e, r) && r.key == s.key && CopiedUpTo(s, r.news, b, p) && Records(s, r)
    requires b < NEW_BUCKET_COUNT && nNew == |NewList(s, s.idCount)| && NewBelow(r, nNew)
    ensures var slot := Slot(b, p);
            CopiedUpTo(s, (if slot in s.news then LoadIndex(e, r, b, Index(s, s.news[slot]), nNew, true) else r).news, b, p + 1)
  {
    hide Inv, Loading, Loose, CopiedUpTo, NewBelow, Index, NewList;
    var slot := Slot(b, p);
    CopiedGrows(s, r.news, b, p);
    if slot in s.news {
      var id, k := s.news[slot], Index(s, s.news[slot]);
      OccupantIsListed(e, s, slot);
      RoomForOneMore(e, s, r, b, p, slot);
      assert ToDisk(r.info[k]) == ToDisk(s.info[id]);
      assert LoadIndex(e, r, b, k, nNew, true).news == r.news[slot := k];
    }
  }

  lemma OccupantIsListed(e: Env, s: State, slot: Slot)
    requires Inv(e, s) && slot in s.news
    ensures var id := s.news[slot];
            && id in s.info && s.info[id].refCount != 0 && Index(s, id) < |NewList(s, s.idCount)|
            && slot.pos == e.position(s.key, true, slot.bucket, s.info[id].address.service)
  {
    var id := s.news[slot];
    assert NewSlotOk(e, s, slot) && RefOk(s, {}, id) && slot in Refs(s.news, id) && IdNamed(s, id);
    IndexOfNew(s, s.idCount, id);
  }

  lemma RecordsStay(s: State, r: State, r': State)
    requires Records(s, r) && OnlyPlaced(r, r')
    ensures Records(s, r')
  {
  }

  lemma {:induction false} CopyBucket(e: Env, s: State, r: State, b: nat, p: nat, nNew: nat)
    requires Inv(e, s) && Loading(e, r) && r.key == s.key && CopiedUpTo(s, r.news, b, 0) && Records(s, r)
    requires b < NEW_BUCKET_COUNT && nNew == |NewList(s, s.idCount)| && NewBelow(r, nNew)
    ensures CopiedUpTo(s, LoadBucket(e, r, b, BucketList(s, b, p), nNew, true).news, b, p)
  {
    if p > 0 {
      var prev := BucketList(s, b, p - 1);
      CopyBucket(e, s, r, b, p - 1, nNew);
      LoadBucketKeeps(e, r, b, prev, nNew, true);
      var r1 := LoadBucket(e, r, b, prev, nNew, true);
      RecordsStay(s, r, r1);
      NewBelowStays(r, r1, nNew);
      hide Loading, Inv, CopiedUpTo, Records, OnlyPlaced, LoadIndex, NewBelow, Index;
      CopyOne(e, s, r1, b, p - 1, nNew);
      var list := BucketList(s, b, p);
      if Slot(b, p - 1) in s.news {
        assert list == prev + [Index(s, s.news[Slot(b, p - 1)])];
        assert list[..|list| - 1] == prev;
      } else {
        assert list == prev;
      }
    }
  }

  /** A bucket has no positions past its size, so finishing one is starting the next. */
  lemma NextBucket(e: Env, s: State, news: map<Slot, nat>, b: nat)
    requires Inv(e, s) && CopiedUpTo(s, news, b, BUCKET_SIZE)
    ensures CopiedUpTo(s, news, b + 1, 0)
  {
    var next := b + 1;
    forall slot ensures Copied(s, news, next, 0, slot) {
      assert Copied(s, news, b, BUCKET_SIZE, slot) && NewSlotOk(e, s, slot);
    }
  }

  lemma {:induction false} CopyBuckets(e: Env, s: State, r: State, n: nat, nNew: nat)
    requires Inv(e, s) && Loading(e, r) && r.key == s.key && CopiedUpTo(s, r.news, 0, 0) && Records(s, r)
    requires n <= NEW_BUCKET_COUNT && nNew == |NewList(s, s.idCount)| && NewBelow(r, nNew)
    ensures CopiedUpTo(s, LoadBuckets(e, r, Write(s).buckets[..n], nNew, true).news, n, 0)
  {
    if n > 0 {
      CopyBuckets(e, s, r, n - 1, nNew);
      assert Write(s).buckets[..n][..n - 1] == Write(s).buckets[..n - 1];
      LoadBucketsKeeps(e, r, Write(s).buckets[..n - 1], nNew, true);
      var r1 := LoadBuckets(e, r, Write(s).buckets[..n - 1], nNew, true);
      RecordsStay(s, r, r1);
      NewBelowStays(r, r1, nNew);
      hide Loading, Inv, CopiedUpTo, Records, OnlyPlaced, NewBelow;
      CopyBucket(e, s, r1, n - 1, BUCKET_SIZE, nNew);
      assert Write(s).buckets[..n][n - 1] == BucketList(s, n - 1, BUCKET_SIZE);
      NextBucket(e, s, LoadBucket(e, r1, n - 1, BucketList(s, n - 1, BUCKET_SIZE), nNew, true).news, n - 1);
    }
  }

  // ---------- the round trip ----------

  lemma WrittenFlags(s: State)
    ensures var img := Write(s);
            img.keySize == 32 && img.version == 1 && UBuckets(img) == NEW_BUCKET_COUNT && |img.buckets| == NEW_BUCKET_COUNT && UsesTable(img)
  {
  }

  /** The records written, read back in order, with the "tried" table they imply. */
  ghost predicate RecordsBack(e: Env, img: Image, r: State) {
    var n, t := |img.newInfos|, |img.triedInfos|;
    && r.key == img.key && r.idCount == n + t && r.nTried == t && r.nNew == n
    && (forall k :: k in r.info <==> 0 <= k < n + t)
    && (forall k | 0 <= k < n + t ::
          ToDisk(r.info[k]) == (if k < n then img.newInfos[k] else img.triedInfos[k - n]) && (r.info[k].inTried <==> k >= n))
    && TriedFrom(e, img.key, n, img.triedInfos, r.tried)
  }

  function NewsBack(e: Env, s: State): State {
    LoadNews(e, Empty(s.key), Write(s).newInfos, true)
  }

  lemma RecordsComeBack(e: Env, img: Image)
    requires DistinctTriedSlots(e, img.key, img.triedInfos)
    ensures var r := LoadTrieds(e, LoadNews(e, Empty(img.key), img.newInfos, true), img.triedInfos);
            RecordsBack(e, img, r) && r.news == map[]
  {
    NewsAsWritten(e, img.key, img.newInfos);
    hide TriedFrom, DistinctTriedSlots, LoadNews, LoadTrieds;
    TriedsAsWritten(e, LoadNews(e, Empty(img.key), img.newInfos, true), img.triedInfos);
  }

  lemma RecordsLoad(e: Env, s: State)
    requires Inv(e, s)
    ensures Loading(e, LoadTrieds(e, NewsBack(e, s), Write(s).triedInfos))
  {
    EmptyIsLoading(e, s.key);
    LoadNewsKeeps(e, Empty(s.key), Write(s).newInfos, true);
    hide Loading, Write;
    LoadTriedsKeeps(e, NewsBack(e, s), Write(s).triedInfos);
  }

  lemma RecordsBackStay(e: Env, img: Image, r: State, r': State)
    requires RecordsBack(e, img, r) && OnlyPlaced(r, r')
    ensures RecordsBack(e, img, r')
  {
    hide TriedFrom;
  }

  lemma RecordsBackAreNew(e: Env, s: State, r: State)
    requires Inv(e, s) && RecordsBack(e, Write(s), r)
    ensures NewBelow(r, |NewList(s, s.idCount)|) && Records(s, r)
  {
    forall id | id in s.info && s.info[id].refCount != 0
      ensures Index(s, id) in r.info && ToDisk(r.info[Index(s, id)]) == ToDisk(s.info[id])
    {
      assert IdNamed(s, id);
      IndexOfNew(s, s.idCount, id);
    }
  }

  /** The state read back, before the pruning. */
  lemma LoadedAsWritten(e: Env, s: State)
    requires Inv(e, s)
    ensures var r := Loaded(e, Write(s));
            Loading(e, r) && RecordsBack(e, Write(s), r) && CopiedUpTo(s, r.news, NEW_BUCKET_COUNT, 0)
  {
    var img, n := Write(s), |NewList(s, s.idCount)|;
    var r := LoadTrieds(e, NewsBack(e, s), img.triedInfos);
    WrittenFlags(s);
    RecordsLoad(e, s);
    WrittenAreDistinct(e, s);
    RecordsComeBack(e, img);
    RecordsBackAreNew(e, s, r);
    NothingCopied(s, r.news);
    assert img.buckets[..NEW_BUCKET_COUNT] == img.buckets && r.key == s.key;
    assert Loaded(e, img) == LoadBuckets(e, r, img.buckets, n, true);
    hide Loading, Loose, RecordsBack, CopiedUpTo, Records, NewBelow, OnlyPlaced, LoadBuckets, Loaded, Write, NewList;
    LoadBucketsKeeps(e, r, img.buckets, n, true);
    RecordsBackStay(e, img, r, LoadBuckets(e, r, img.buckets, n, true));
    CopyBuckets(e, s, r, NEW_BUCKET_COUNT, n);
  }

  lemma NothingCopied(s: State, news: map<Slot, nat>)
    requires news == map[]
    ensures CopiedUpTo(s, news, 0, 0)
  {
    forall slot ensures Copied(s, news, 0, 0, slot) {}
  }

  // ----- counts -----

  /** The lists are as long as the counters say, so the assertions while writing hold. */
  lemma ListsAreCounted(e: Env, s: State)
    requires Inv(e, s)
    ensures |NewList(s, s.idCount)| == s.nNew && |TriedList(s, s.idCount)| == s.nTried
  {
    var news, trieds := NewList(s, s.idCount), TriedList(s, s.idCount);
    forall i, j | 0 <= i < j < |news| ensures news[i] != news[j] {
      NewAtIndex(s, s.idCount, i);
      NewAtIndex(s, s.idCount, j);
    }
    forall i, j | 0 <= i < j < |trieds| ensures trieds[i] != trieds[j] {
      TriedAtIndex(s, s.idCount, i);
      TriedAtIndex(s, s.idCount, j);
    }
    AddrRuns.DistinctSize(news);
    AddrRuns.DistinctSize(trieds);
    ListsAreKnown(s, s.idCount);
    forall id ensures id in AddrRuns.Elems(news) <==> id in NewIds(s)
              ensures id in AddrRuns.Elems(trieds) <==> id in TriedIds(s)
    {
      assert IdNamed(s, id) && RefOk(s, {}, id);
      if id in NewIds(s) {
        IndexOfNew(s, s.idCount, id);
      }
      if id in TriedIds(s) {
        IndexOfTried(s, s.idCount, id);
      }
    }
    assert AddrRuns.Elems(news) == NewIds(s) && AddrRuns.Elems(trieds) == TriedIds(s) && NewIds(s) - {} == NewIds(s);
  }

  // ----- reference counts -----

  lemma SameRefs(e: Env, s: State, r: State, id: nat)
    requires Inv(e, s) && CopiedUpTo(s, r.news, NEW_BUCKET_COUNT, 0) && id in s.info && s.info[id].refCount != 0
    ensures Refs(r.news, Index(s, id)) == Refs(s.news, id)
  {
    assert IdNamed(s, id);
    IndexOfNew(s, s.idCount, id);
    forall slot ensures slot in Refs(r.news, Index(s, id)) <==> slot in Refs(s.news, id) {
      assert Copied(s, r.news, NEW_BUCKET_COUNT, 0, slot) && NewSlotOk(e, s, slot);
      if slot in r.news {
        var other := s.news[slot];
        assert RefOk(s, {}, other) && slot in Refs(s.news, other) && IdNamed(s, other);
        IndexOfNew(s, s.idCount, other);
      }
    }
  }

  lemma RecordAsWritten(e: Env, s: State, r: State, id: nat)
    requires Inv(e, s) && Loading(e, r) && RecordsBack(e, Write(s), r) && CopiedUpTo(s, r.news, NEW_BUCKET_COUNT, 0)
    requires id in s.info
    ensures var k := Renumber(s, id);
            && k in r.info && ToDisk(r.info[k]) == ToDisk(s.info[id])
            && r.info[k].inTried == s.info[id].inTried && r.info[k].refCount == s.info[id].refCount
  {
    var k := Renumber(s, id);
    RenumberedIs(e, s, id);
    ListedIs(e, s, k);
    assert RefOk(s, {}, id) && RefOk(r, Unplaced(r), k);
    if !s.info[id].inTried {
      SameRefs(e, s, r, id);
    }
  }

  lemma NothingUnplaced(e: Env, s: State, r: State)
    requires Inv(e, s) && Loading(e, r) && RecordsBack(e, Write(s), r) && CopiedUpTo(s, r.news, NEW_BUCKET_COUNT, 0)
    ensures Unplaced(r) == {} && Inv(e, r)
  {
    forall k ensures k !in Unplaced(r) {
      if k in r.info {
        ListedIs(e, s, k);
        RecordAsWritten(e, s, r, Listed(s, k));
        assert RefOk(s, {}, Listed(s, k));
      }
    }
    assert Unplaced(r) == {};
    NoClashBack(e, s, r);
    NothingDropped(r, 0);
    NamesAfterPruning(r, r);
  }

  lemma DiskBack(e: Env, img: Image, r: State, k: nat)
    requires RecordsBack(e, img, r) && k in r.info
    ensures k < |img.newInfos + img.triedInfos| && ToDisk(r.info[k]) == (img.newInfos + img.triedInfos)[k]
  {
    hide TriedFrom;
  }

  lemma NoClashBack(e: Env, s: State, r: State)
    requires Inv(e, s) && RecordsBack(e, Write(s), r)
    ensures NoNameClash(r)
  {
    hide Inv, Write, RecordsBack;
    WrittenAreDistinct(e, s);
    forall i, j | i in r.info && j in r.info && i != j ensures r.info[i].Ip() != r.info[j].Ip() {
      DiskBack(e, Write(s), r, i);
      DiskBack(e, Write(s), r, j);
    }
  }

  // ----- the theorem -----

  ghost predicate SameRecords(s: State, r: State) {
    && (forall id | id in s.info :: Renumber(s, id) in r.info
          && ToDisk(r.info[Renumber(s, id)]) == ToDisk(s.info[id])
          && r.info[Renumber(s, id)].inTried == s.info[id].inTried
          && r.info[Renumber(s, id)].refCount == s.info[id].refCount)
    && (forall i, j | i in s.info && j in s.info && i != j :: Renumber(s, i) != Renumber(s, j))
    && |r.info| == |s.info|
  }

  ghost predicate SameNames(s: State, r: State) {
    forall a :: (a in r.addrs <==> a in s.addrs) && (a in s.addrs ==> r.addrs[a] == Renumber(s, s.addrs[a]))
  }

  /** Slot by slot the same occupants. */
  ghost predicate SameTable(s: State, t: map<Slot, nat>, t': map<Slot, nat>) {
    forall slot :: (slot in t' <==> slot in t) && (slot in t ==> t'[slot] == Renumber(s, t[slot]))
  }

  /** The k-th record read back is that of the id it was written for. */
  lemma NameBack(e: Env, s: State, r: State, k: nat)
    requires Inv(e, s) && RecordsBack(e, Write(s), r) && k in r.info
    ensures k < |NewList(s, s.idCount)| + |TriedList(s, s.idCount)| && Listed(s, k) in s.info && Renumber(s, Listed(s, k)) == k
    ensures r.info[k].Ip() == s.info[Listed(s, k)].Ip()
  {
    DiskBack(e, Write(s), r, k);
    hide Inv, RecordsBack, Renumber, Listed, NewList, TriedList;
    ListedIs(e, s, k);
  }

  lemma IdBack(e: Env, s: State, r: State, id: nat)
    requires Inv(e, s) && RecordsBack(e, Write(s), r) && id in s.info
    ensures Renumber(s, id) in r.info && r.info[Renumber(s, id)].Ip() == s.info[id].Ip()
  {
    RenumberedIs(e, s, id);
    ListedIs(e, s, Renumber(s, id));
    IsBack(e, Write(s), r, Renumber(s, id));
    hide Inv, RecordsBack, Renumber, Listed, NewList, TriedList;
    NameBack(e, s, r, Renumber(s, id));
  }

  lemma IsBack(e: Env, img: Image, r: State, k: nat)
    requires RecordsBack(e, img, r) && k < |img.newInfos| + |img.triedInfos|
    ensures k in r.info
  {
    hide TriedFrom;
  }

  lemma NamesComeBack(e: Env, s: State, r: State)
    requires Inv(e, s) && Inv(e, r) && RecordsBack(e, Write(s), r)
    ensures SameNames(s, r)
  {
    hide RecordsBack, Renumber, Listed, NewList, TriedList, Write, RandomOk, NewsOk, TriedOk, RefsOk, Counted;
    forall a ensures (a in r.addrs <==> a in s.addrs) && (a in s.addrs ==> r.addrs[a] == Renumber(s, s.addrs[a])) {
      assert NameKnown(s, a) && NameKnown(r, a);
      if a in s.addrs {
        IdBack(e, s, r, s.addrs[a]);
        assert IdNamed(r, Renumber(s, s.addrs[a]));
      }
      if a in r.addrs {
        NameBack(e, s, r, r.addrs[a]);
        assert IdNamed(s, Listed(s, r.addrs[a]));
      }
    }
  }

  lemma NewTableComesBack(e: Env, s: State, r: State)
    requires Inv(e, s) && CopiedUpTo(s, r.news, NEW_BUCKET_COUNT, 0)
    ensures SameTable(s, s.news, r.news)
  {
    forall slot ensures (slot in r.news <==> slot in s.news) && (slot in s.news ==> r.news[slot] == Renumber(s, s.news[slot])) {
      assert Copied(s, r.news, NEW_BUCKET_COUNT, 0, slot) && NewSlotOk(e, s, slot);
    }
  }

  lemma TriedSlotGoesBack(e: Env, s: State, r: State, slot: Slot)
    requires Inv(e, s) && RecordsBack(e, Write(s), r) && slot in s.tried
    ensures slot in r.tried && r.tried[slot] == Renumber(s, s.tried[slot])
  {
    var id, n := s.tried[slot], |NewList(s, s.idCount)|;
    assert TriedSlotOk(e, s, slot) && IdNamed(s, id);
    IndexOfTried(s, s.idCount, id);
    ListedTried(s, TriedIndex(s, id));
    assert TriedDiskAt(e, s.key, n, Write(s).triedInfos, r.tried, TriedIndex(s, id));
  }

  lemma TriedSlotComesBack(e: Env, s: State, r: State, slot: Slot)
    requires Inv(e, s) && RecordsBack(e, Write(s), r) && slot in r.tried
    ensures slot in s.tried
  {
    var k := r.tried[slot] - |NewList(s, s.idCount)|;
    assert TriedSlotFrom(e, s.key, |NewList(s, s.idCount)|, Write(s).triedInfos, r.tried, slot);
    ListedTried(s, k);
    assert TriedIdOk(e, s, TriedList(s, s.idCount)[k]);
  }

  lemma TriedTableComesBack(e: Env, s: State, r: State)
    requires Inv(e, s) && RecordsBack(e, Write(s), r)
    ensures SameTable(s, s.tried, r.tried)
  {
    hide Inv, RecordsBack;
    forall slot ensures (slot in r.tried <==> slot in s.tried) && (slot in s.tried ==> r.tried[slot] == Renumber(s, s.tried[slot])) {
      if slot in s.tried {
        TriedSlotGoesBack(e, s, r, slot);
      }
      if slot in r.tried {
        TriedSlotComesBack(e, s, r, slot);
      }
    }
  }

  /**
   Reading back what a consistent manager wrote loses nothing: the same key and counts, the same
   records with the same reference counts, every address under its name, and every slot of both
   tables with the same occupant, all up to the numbering of ids.
   */
  lemma RoundTrip(e: Env, s: State)
    requires Inv(e, s)
    ensures Read(e, Write(s)).Success?
    ensures var res := Read(e, Write(s));
            && res.lostTried == 0 && res.lostNew == 0
            && Inv(e, res.s) && res.s.key == s.key && res.s.nNew == s.nNew && res.s.nTried == s.nTried
            && SameRecords(s, res.s) && SameNames(s, res.s)
            && SameTable(s, s.news, res.s.news) && SameTable(s, s.tried, res.s.tried)
  {
    var r := Loaded(e, Write(s));
    LoadedAsWritten(e, s);
    NothingUnplaced(e, s, r);
    PruneKeeps(e, r, r.idCount);
    ListsAreCounted(e, s);
    WrittenFlags(s);
    RecordsComeBackSame(e, s, r);
    hide Loose, Loading, RecordsBack, CopiedUpTo, Loaded, Prune, SameNames, SameTable, SameRecords;
    NamesComeBack(e, s, r);
    NewTableComesBack(e, s, r);
    TriedTableComesBack(e, s, r);
  }

  lemma RecordsComeBackSame(e: Env, s: State, r: State)
    requires Inv(e, s) && Inv(e, r) && Loading(e, r) && RecordsBack(e, Write(s), r) && CopiedUpTo(s, r.news, NEW_BUCKET_COUNT, 0)
    ensures SameRecords(s, r) && r.nNew == s.nNew && r.nTried == s.nTried
  {
    ListsAreCounted(e, s);
    forall id | id in s.info
      ensures Renumber(s, id) in r.info
          && ToDisk(r.info[Renumber(s, id)]) == ToDisk(s.info[id])
          && r.info[Renumber(s, id)].inTried == s.info[id].inTried
          && r.info[Renumber(s, id)].refCount == s.info[id].refCount
          && Listed(s, Renumber(s, id)) == id
    {
      RecordAsWritten(e, s, r, id);
      RenumberedIs(e, s, id);
    }
    AddrRuns.CountsAddUp(e, s);
    AddrRuns.CountsAddUp(e, r);
  }
}
