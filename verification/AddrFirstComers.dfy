/** What the header of a peers file says, and who gets a slot when the table in it cannot be used. */
module AddrFirstComers {
  import opened Wrappers
  import opened AddrTables
  import opened AddrOps
  import opened AddrPeers
  import opened AddrEffects

  // ---------- the header ----------

  lemma Flipped(x: nat)
    ensures FlipBit30(x) == 1024 <==> x == 1073742848
    ensures FlipBit30(1024) == 1073742848
  {
    assert 1073742848 == 1024 + BIT30;
  }

  /** Version 1, a key of 32 bytes, 1024 buckets with bit 30 flipped, and a list for each bucket. */
  lemma HeaderWritten(s: State)
    ensures var img := Write(s);
            img.version == 1 && img.keySize == 32 && img.key == s.key && img.uBuckets == 1073742848 && |img.buckets| == 1024
  {
    Flipped(0);
  }

  /** 1024 "new" and 256 "tried" buckets of 64 places, and at most 8 "new" places for an address. */
  lemma TableSizes(e: Env, key: Key, a: Service, ip: Ip, source: Ip, b: nat)
    ensures NEW_BUCKET_COUNT == 1024 && TRIED_BUCKET_COUNT == 256 && BUCKET_SIZE == 64 && NEW_BUCKETS_PER_ADDRESS == 8
    ensures e.newBucket(key, ip, source) < 1024 && e.triedBucket(key, a) < 256
    ensures e.position(key, true, b, a) < 64 && e.position(key, false, b, a) < 64
  {
  }

  /** The table is used exactly if the version is 1 and the number of buckets, bit 30 flipped, is 1024. */
  lemma TableIsUsedIff(img: Image)
    ensures UsesTable(img) <==> img.version == 1 && img.uBuckets == 1073742848
  {
    Flipped(img.uBuckets);
  }

  // ---------- first come, first served ----------

  /** The record says what was read. */
  predicate IsReadFrom(info: Info, d: Disk) {
    && info.address == d.address && info.source == d.source && info.lastSuccess == d.lastSuccess && info.attempts == d.attempts
    && info.lastTry == 0
  }

  ghost predicate HoldsTried(s: State, slot: Slot, d: Disk) {
    slot in s.tried && s.tried[slot] in s.info && s.tried[slot] < s.idCount && IsReadFrom(s.info[s.tried[slot]], d)
  }

  ghost predicate HoldsNew(s: State, slot: Slot, d: Disk) {
    slot in s.news && s.news[slot] in s.info && s.news[slot] < s.idCount && IsReadFrom(s.info[s.news[slot]], d)
  }

  lemma LoadTriedServes(e: Env, s: State, d: Disk, slot: Slot, first: Disk)
    ensures HoldsTried(s, slot, first) ==> HoldsTried(LoadTried(e, s, d), slot, first)
    ensures slot == TriedSlotFor(e, s, d.address.service) && slot !in s.tried ==> HoldsTried(LoadTried(e, s, d), slot, d)
    ensures slot != TriedSlotFor(e, s, d.address.service) && slot !in s.tried ==> slot !in LoadTried(e, s, d).tried
    ensures LoadTried(e, s, d).key == s.key
  {
    LoadRecordFrame(s, d);
  }

  lemma LoadNewServes(e: Env, s: State, d: Disk, slot: Slot, first: Disk)
    ensures HoldsNew(s, slot, first) ==> HoldsNew(LoadNew(e, s, d, false), slot, first)
    ensures slot == SlotFor(e, s, d.address.service, d.source) && slot !in s.news ==> HoldsNew(LoadNew(e, s, d, false), slot, d)
    ensures slot != SlotFor(e, s, d.address.service, d.source) && slot !in s.news ==> slot !in LoadNew(e, s, d, false).news
    ensures LoadNew(e, s, d, false).key == s.key
  {
    LoadRecordFrame(s, d);
  }

  /** A "tried" slot goes to the first address read that hashes to it, and stays free if there is none. */
  lemma {:induction false} FirstTriedIsServed(e: Env, s: State, ds: seq<Disk>, slot: Slot)
    requires slot !in s.tried
    ensures LoadTrieds(e, s, ds).key == s.key
    ensures forall k | 0 <= k < |ds| && TriedSlotFor(e, s, ds[k].address.service) == slot
                       && (forall i | 0 <= i < k :: TriedSlotFor(e, s, ds[i].address.service) != slot) ::
              HoldsTried(LoadTrieds(e, s, ds), slot, ds[k])
    ensures (forall i | 0 <= i < |ds| :: TriedSlotFor(e, s, ds[i].address.service) != slot) ==> slot !in LoadTrieds(e, s, ds).tried
    decreases |ds|
  {
    hide LoadTried, HoldsTried;
    if ds != [] {
      var n := |ds| - 1;
      var s1 := LoadTrieds(e, s, ds[..n]);
      FirstTriedIsServed(e, s, ds[..n], slot);
      forall i | 0 <= i < n ensures ds[..n][i] == ds[i] {}
      forall i | 0 <= i <= n { LoadTriedServes(e, s1, ds[n], slot, ds[i]); }
    }
  }

  /** Where the table cannot be used, a "new" slot goes to the first address read whose own source points at it. */
  lemma {:induction false} FirstNewIsServed(e: Env, s: State, ds: seq<Disk>, slot: Slot)
    requires slot !in s.news
    ensures LoadNews(e, s, ds, false).key == s.key
    ensures forall k | 0 <= k < |ds| && SlotFor(e, s, ds[k].address.service, ds[k].source) == slot
                       && (forall i | 0 <= i < k :: SlotFor(e, s, ds[i].address.service, ds[i].source) != slot) ::
              HoldsNew(LoadNews(e, s, ds, false), slot, ds[k])
    ensures (forall i | 0 <= i < |ds| :: SlotFor(e, s, ds[i].address.service, ds[i].source) != slot) ==>
              slot !in LoadNews(e, s, ds, false).news
    decreases |ds|
  {
    hide LoadNew, HoldsNew;
    if ds != [] {
      var n := |ds| - 1;
      var s1 := LoadNews(e, s, ds[..n], false);
      FirstNewIsServed(e, s, ds[..n], slot);
      forall i | 0 <= i < n ensures ds[..n][i] == ds[i] {}
      forall i | 0 <= i <= n { LoadNewServes(e, s1, ds[n], slot, ds[i]); }
    }
  }
}
