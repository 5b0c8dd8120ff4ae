/** A database with any number of write-back caches stacked on it, as a value. */
module CoinsStack {
  import opened Primitives
  import opened Wrappers
  import opened Coins

  // The main result is RunsAreFlat: whatever is fetched, modified, flushed or stacked, every layer
  // shows exactly what a plain map per layer would show.

  datatype Entry = Entry(coins: Coins, isDirty: bool, isFresh: bool)

  /** `modifying` is the entry the one outstanding CCoinsModifier points at. */
  datatype Stack =
    | Db(disk: map<Txid, Coins>, best: Hash)
    | Layer(cache: map<Txid, Entry>, best: Hash, modifying: Option<Txid>, base: Stack)

  // ---------- what a view answers ----------

  function Read(s: Stack, t: Txid): Option<Coins> {
    match s
    case Db(disk, _) => if t in disk then Some(disk[t]) else None
    case Layer(cache, _, _, base) => if t in cache then Some(cache[t].coins) else Read(base, t)
  }

  /** Read with the absent and the fully spent record identified, and trailing spent outputs dropped. */
  function Look(s: Stack, t: Txid): Option<Coins> {
    var r := Read(s, t);
    if r.None? || r.value.IsPruned() then None else Some(r.value.Tidy())
  }

  /** Everything a view shows, as one flat map. */
  function View(s: Stack): map<Txid, Coins> {
    match s
    case Db(disk, _) => map t | t in disk && !disk[t].IsPruned() :: disk[t].Tidy()
    case Layer(cache, _, _, base) =>
      (View(base) - cache.Keys) + map t | t in cache && !cache[t].coins.IsPruned() :: cache[t].coins.Tidy()
  }

  lemma {:induction false} ViewIsLook(s: Stack, t: Txid)
    ensures t in View(s) <==> Look(s, t).Some?
    ensures t in View(s) ==> View(s)[t] == Look(s, t).value
  {
    if s.Layer? {
      ViewIsLook(s.base, t);
    }
  }

  lemma SameLookSameView(s: Stack, s': Stack)
    requires forall t :: Look(s, t) == Look(s', t)
    ensures View(s) == View(s')
  {
    forall t ensures t in View(s) <==> t in View(s')
             ensures t in View(s) ==> View(s)[t] == View(s')[t]
    {
      assert Look(s, t) == Look(s', t);
      ViewIsLook(s, t);
      ViewIsLook(s', t);
    }
  }

  /** The layer itself, not something below it, has a record for t. */
  predicate Holds(s: Stack, t: Txid) {
    match s
    case Db(disk, _) => t in disk
    case Layer(cache, _, _, _) => t in cache
  }

  /** No layer has an outstanding modifier. */
  predicate Quiet(s: Stack) {
    s.Db? || (s.modifying.None? && Quiet(s.base))
  }

  function Best(s: Stack): Hash {
    if s.Db? || s.best != 0 then s.best else Best(s.base)
  }

  // ---------- the operations ----------

  /** FetchCoins: pull the record into every layer it passes through. */
  function Fetch(s: Stack, t: Txid): Stack {
    if s.Db? || t in s.cache then s else
      var base := Fetch(s.base, t);
      match Read(s.base, t)
      case None => s.(base := base)
      case Some(c) => s.(cache := s.cache[t := Entry(c, false, c.IsPruned())], base := base)
  }

  /** ModifyCoins up to the point where the modifier is handed out. */
  function Begin(s: Stack, t: Txid): Stack
    requires s.Layer?
  {
    if t in s.cache then
      s.(cache := s.cache[t := s.cache[t].(isDirty := true)], modifying := Some(t))
    else
      var entry := match Read(s.base, t)
                   case None => Entry(EMPTY_COINS, true, true)
                   case Some(c) => Entry(c, true, c.IsPruned());
      s.(cache := s.cache[t := entry], modifying := Some(t), base := Fetch(s.base, t))
  }

  /** The holder of the modifier replaces the record. */
  function Write(s: Stack, t: Txid, c: Coins): Stack
    requires s.Layer? && t in s.cache
  {
    s.(cache := s.cache[t := s.cache[t].(coins := c)])
  }

  /** The destructor of the modifier. */
  function End(s: Stack): Stack
    requires s.Layer? && s.modifying.Some? && s.modifying.value in s.cache
  {
    var t := s.modifying.value;
    var e := s.cache[t].(coins := s.cache[t].coins.Tidy());
    s.(modifying := None, cache := if e.isFresh && e.coins.IsPruned() then s.cache - {t} else s.cache[t := e])
  }

  /** GetBestBlock remembers the answer in every layer that had to ask. */
  function AskBest(s: Stack): Stack {
    if s.Db? || s.best != 0 then s else s.(best := Best(s.base), base := AskBest(s.base))
  }

  /** One child entry arriving in a parent cache; None means the parent ends up without an entry. */
  function Merge(ours: Option<Entry>, theirs: Entry): Option<Entry> {
    if !theirs.isDirty then ours
    else if ours.None? then
      if theirs.coins.IsPruned() then None else Some(Entry(theirs.coins, true, true))
    else if ours.value.isFresh && theirs.coins.IsPruned() then None
    else Some(Entry(theirs.coins, true, ours.value.isFresh))
  }

  function Lookup<V>(m: map<Txid, V>, t: Txid): Option<V> {
    if t in m then Some(m[t]) else None
  }

  function MergeAt(ours: map<Txid, Entry>, theirs: map<Txid, Entry>, t: Txid): Option<Entry> {
    if t in theirs then Merge(Lookup(ours, t), theirs[t]) else Lookup(ours, t)
  }

  function MergeAll(ours: map<Txid, Entry>, theirs: map<Txid, Entry>): map<Txid, Entry> {
    map t | t in ours.Keys + theirs.Keys && MergeAt(ours, theirs, t).Some? :: MergeAt(ours, theirs, t).value
  }

  /** The parent's entries while `todo` is what is left of the child's. */
  ghost predicate PartlyMerged(ours: map<Txid, Entry>, theirs: map<Txid, Entry>, todo: set<Txid>, now: map<Txid, Entry>) {
    forall t :: Lookup(now, t) == if t in todo then Lookup(ours, t) else MergeAt(ours, theirs, t)
  }

  lemma MergeOne(ours: map<Txid, Entry>, theirs: map<Txid, Entry>, todo: set<Txid>, now: map<Txid, Entry>, t: Txid, after: map<Txid, Entry>)
    requires PartlyMerged(ours, theirs, todo, now) && t in todo && t in theirs
    requires Lookup(after, t) == Merge(Lookup(now, t), theirs[t])
    requires forall u | u != t :: Lookup(after, u) == Lookup(now, u)
    ensures PartlyMerged(ours, theirs, todo - {t}, after)
  {
    forall u ensures Lookup(after, u) == if u in todo - {t} then Lookup(ours, u) else MergeAt(ours, theirs, u) {
      assert Lookup(now, u) == if u in todo then Lookup(ours, u) else MergeAt(ours, theirs, u);
    }
  }

  lemma MergedWhenDone(ours: map<Txid, Entry>, theirs: map<Txid, Entry>, now: map<Txid, Entry>)
    requires PartlyMerged(ours, theirs, {}, now)
    ensures now == MergeAll(ours, theirs)
  {
    forall t ensures t in now <==> t in MergeAll(ours, theirs)
             ensures t in now ==> now[t] == MergeAll(ours, theirs)[t]
    {
      assert Lookup(now, t) == MergeAt(ours, theirs, t);
    }
  }

  /** The database writes dirty records and erases the pruned ones. */
  function DiskAt(disk: map<Txid, Coins>, theirs: map<Txid, Entry>, t: Txid): Option<Coins> {
    if t !in theirs || !theirs[t].isDirty then Lookup(disk, t)
    else if theirs[t].coins.IsPruned() then None
    else Some(theirs[t].coins)
  }

  function WriteDisk(disk: map<Txid, Coins>, theirs: map<Txid, Entry>): map<Txid, Coins> {
    map t | t in disk.Keys + theirs.Keys && DiskAt(disk, theirs, t).Some? :: DiskAt(disk, theirs, t).value
  }

  ghost predicate PartlyWritten(disk: map<Txid, Coins>, theirs: map<Txid, Entry>, todo: set<Txid>, now: map<Txid, Coins>) {
    forall t :: Lookup(now, t) == if t in todo then Lookup(disk, t) else DiskAt(disk, theirs, t)
  }

  lemma WriteOne(disk: map<Txid, Coins>, theirs: map<Txid, Entry>, todo: set<Txid>, now: map<Txid, Coins>, t: Txid, after: map<Txid, Coins>)
    requires PartlyWritten(disk, theirs, todo, now) && t in todo
    requires Lookup(after, t) == DiskAt(now, theirs, t)
    requires forall u | u != t :: Lookup(after, u) == Lookup(now, u)
    ensures PartlyWritten(disk, theirs, todo - {t}, after)
  {
    forall u ensures Lookup(after, u) == if u in todo - {t} then Lookup(disk, u) else DiskAt(disk, theirs, u) {
      assert Lookup(now, u) == if u in todo then Lookup(disk, u) else DiskAt(disk, theirs, u);
    }
  }

  lemma WrittenWhenDone(disk: map<Txid, Coins>, theirs: map<Txid, Entry>, now: map<Txid, Coins>)
    requires PartlyWritten(disk, theirs, {}, now)
    ensures now == WriteDisk(disk, theirs)
  {
    forall t ensures t in now <==> t in WriteDisk(disk, theirs)
             ensures t in now ==> now[t] == WriteDisk(disk, theirs)[t]
    {
      assert Lookup(now, t) == DiskAt(disk, theirs, t);
    }
  }

  function BatchWrite(s: Stack, theirs: map<Txid, Entry>, h: Hash): Stack {
    match s
    case Db(disk, best) => Db(WriteDisk(disk, theirs), if h != 0 then h else best)
    case Layer(cache, _, _, _) => s.(cache := MergeAll(cache, theirs), best := h)
  }

  function Flush(s: Stack): Stack
    requires s.Layer?
  {
    s.(cache := map[], base := BatchWrite(s.base, s.cache, s.best))
  }

  /** What the assertion inside BatchWrite demands of every entry it is handed. */
  ghost predicate BatchAllowed(s: Stack, theirs: map<Txid, Entry>) {
    s.Layer? ==>
      forall t | t in theirs && theirs[t].isDirty && t !in s.cache && !theirs[t].coins.IsPruned() :: theirs[t].isFresh
  }

  // ---------- the invariant between a layer and what lies below it ----------

  predicate EntryOk(e: Entry, t: Txid, base: Stack) {
    && (e.isFresh ==> Look(base, t).None?)
    && (!e.isFresh ==> Holds(base, t))
    && (!e.isDirty ==> Read(base, t) == Some(e.coins))
  }

  predicate Inv(s: Stack) {
    match s
    case Db(disk, _) => forall t | t in disk :: disk[t].IsTidy()
    case Layer(cache, _, modifying, base) =>
      && Inv(base)
      && (modifying.Some? ==> Quiet(base) && modifying.value in cache && cache[modifying.value].isDirty)
      && (forall t | t in cache :: EntryOk(cache[t], t, base))
      && (forall t | t in cache && modifying != Some(t) :: cache[t].coins.IsTidy())
  }

  // ---------- fetching is invisible ----------

  lemma {:induction false} FetchReadsTheSame(s: Stack, t: Txid, u: Txid)
    ensures Read(Fetch(s, t), u) == Read(s, u)
    ensures Holds(s, u) ==> Holds(Fetch(s, t), u)
    ensures Read(s, t).Some? ==> Holds(Fetch(s, t), t)
    ensures Quiet(Fetch(s, t)) == Quiet(s)
  {
    if s.Layer? && t !in s.cache {
      FetchReadsTheSame(s.base, t, u);
    }
  }

  lemma {:induction false} QuietReadsTidy(s: Stack, t: Txid)
    requires Inv(s) && Quiet(s) && Read(s, t).Some?
    ensures Read(s, t).value.IsTidy()
  {
    if s.Layer? && t !in s.cache {
      QuietReadsTidy(s.base, t);
    }
  }

  /** Entries stay good when the layer below changes only in ways that cannot be seen. */
  lemma BaseMayFetch(e: Entry, t: Txid, base: Stack, u: Txid)
    requires EntryOk(e, t, base)
    ensures EntryOk(e, t, Fetch(base, u))
  {
    FetchReadsTheSame(base, u, t);
  }

  lemma {:induction false} FetchKeepsInv(s: Stack, t: Txid)
    requires Inv(s) && (s.Layer? ==> Quiet(s.base))
    ensures Inv(Fetch(s, t))
  {
    if s.Layer? && t !in s.cache {
      FetchKeepsInv(s.base, t);
      FetchReadsTheSame(s.base, t, t);
      forall u | u in s.cache ensures EntryOk(s.cache[u], u, Fetch(s.base, t)) {
        BaseMayFetch(s.cache[u], u, s.base, t);
      }
      if Read(s.base, t).Some? {
        QuietReadsTidy(s.base, t);
      }
    }
  }

  // ---------- modification ----------

  lemma BeginKeepsInv(s: Stack, t: Txid)
    requires s.Layer? && Inv(s) && s.modifying.None? && Quiet(s.base)
    ensures Inv(Begin(s, t))
    ensures forall u :: Look(Begin(s, t), u) == Look(s, u)
  {
    if t !in s.cache {
      FetchKeepsInv(s.base, t);
      FetchReadsTheSame(s.base, t, t);
      forall u ensures Read(Fetch(s.base, t), u) == Read(s.base, u) {
        FetchReadsTheSame(s.base, t, u);
      }
      forall u | u in s.cache ensures EntryOk(s.cache[u], u, Fetch(s.base, t)) {
        BaseMayFetch(s.cache[u], u, s.base, t);
      }
      forall u ensures Look(Begin(s, t), u) == Look(s, u) {
        assert u != t ==> Read(Begin(s, t), u) == Read(s, u);
      }
    }
  }

  lemma EndKeepsInv(s: Stack)
    requires s.Layer? && Inv(s) && s.modifying.Some?
    ensures Inv(End(s))
    ensures forall u :: Look(End(s), u) == Look(s, u)
  {
    var t := s.modifying.value;
    var c := s.cache[t].coins;
    CleanupDropsExactlyTheNullTail(c);
    CleanupDropsExactlyTheNullTail(c.Tidy());
    forall u ensures Look(End(s), u) == Look(s, u) {
      assert u != t ==> (u in End(s).cache <==> u in s.cache);
    }
  }

  // ---------- the flags of an entry ----------

  /** A fetched entry is clean, and fresh only if the record found is spent; nothing is fetched twice. */
  lemma FetchedEntry(s: Stack, t: Txid)
    requires s.Layer?
    ensures var cache := Fetch(s, t).cache;
            && (forall u | u != t :: Lookup(cache, u) == Lookup(s.cache, u))
            && if t in s.cache then cache == s.cache
               else match Read(s.base, t)
                    case None => t !in cache
                    case Some(c) => t in cache && cache[t].coins == c && !cache[t].isDirty && (cache[t].isFresh <==> c.IsPruned())
  {
  }

  /** An entry handed out is dirty; if it was not held before, it is fresh exactly if nothing below shows the record. */
  lemma HandedOutEntry(s: Stack, t: Txid)
    requires s.Layer?
    ensures var cache := Begin(s, t).cache;
            && (forall u | u != t :: Lookup(cache, u) == Lookup(s.cache, u))
            && t in cache && cache[t].isDirty
            && (cache[t].isFresh <==> if t in s.cache then s.cache[t].isFresh else Look(s.base, t).None?)
            && (Read(s, t).Some? ==> cache[t].coins == Read(s, t).value)
            && (Read(s, t).None? ==> cache[t].coins == Coins(false, false, [], 0, 0))
  {
  }

  /** Handed back, a spent entry that is fresh is dropped; any other stays with its flags. */
  lemma HandedBackEntry(s: Stack)
    requires s.Layer? && s.modifying.Some? && s.modifying.value in s.cache
    ensures var t := s.modifying.value; var e, cache := s.cache[t], End(s).cache;
            && (forall u | u != t :: Lookup(cache, u) == Lookup(s.cache, u))
            && (t !in cache <==> e.isFresh && e.coins.IsPruned())
            && (t in cache ==> cache[t].coins == e.coins.Tidy() && cache[t].isDirty == e.isDirty && cache[t].isFresh == e.isFresh)
  {
    CleanupDropsExactlyTheNullTail(s.cache[s.modifying.value].coins);
    CleanupDropsExactlyTheNullTail(s.cache[s.modifying.value].coins.Tidy());
  }

  /** A clean entry changes nothing on its way down; a dirty one arrives dirty, or is dropped if it is spent and nothing below knows it. */
  lemma ArrivedEntry(ours: map<Txid, Entry>, theirs: map<Txid, Entry>, t: Txid)
    ensures var r := MergeAll(ours, theirs);
            if t !in theirs || !theirs[t].isDirty then Lookup(r, t) == Lookup(ours, t)
            else
              && (t in r <==> !(theirs[t].coins.IsPruned() && (t !in ours || ours[t].isFresh)))
              && (t in r ==> r[t].coins == theirs[t].coins && r[t].isDirty && (r[t].isFresh <==> t !in ours || ours[t].isFresh))
  {
    assert t in MergeAll(ours, theirs) <==> MergeAt(ours, theirs, t).Some?;
  }

  // ---------- flushing ----------

  /** The assertion inside BatchWrite cannot fail during a flush. */
  lemma FlushIsAllowed(s: Stack)
    requires s.Layer? && Inv(s)
    ensures BatchAllowed(s.base, s.cache)
  {
    forall t | t in s.cache && s.cache[t].isDirty && !Holds(s.base, t) ensures s.cache[t].isFresh {
      assert EntryOk(s.cache[t], t, s.base);
    }
  }

  /** One key of a flush into another cache: its new record is what the child showed. */
  lemma MergedEntry(s: Stack, t: Txid)
    requires s.Layer? && Inv(s) && s.modifying.None? && s.base.Layer? && t in s.cache
    ensures var b := BatchWrite(s.base, s.cache, s.best);
            && Look(b, t) == Look(s, t)
            && (t in b.cache ==> EntryOk(b.cache[t], t, s.base.base) && (b.cache[t].coins.IsTidy() || s.base.modifying == Some(t)))
  {
    assert EntryOk(s.cache[t], t, s.base);
    if t in s.base.cache {
      assert EntryOk(s.base.cache[t], t, s.base.base);
    }
  }

  /** The same for a flush into the database. */
  lemma WrittenRecord(s: Stack, t: Txid)
    requires s.Layer? && Inv(s) && s.base.Db?
    ensures Look(BatchWrite(s.base, s.cache, s.best), t) == Look(s, t)
  {
    var b := BatchWrite(s.base, s.cache, s.best);
    assert Read(b, t) == DiskAt(s.base.disk, s.cache, t);
    if t in s.cache {
      assert EntryOk(s.cache[t], t, s.base);
      if s.cache[t].isDirty {
        assert Read(s, t) == Some(s.cache[t].coins);
        assert Read(b, t) == if s.cache[t].coins.IsPruned() then None else Read(s, t);
      } else {
        assert Read(b, t) == Read(s, t);
      }
    } else {
      assert Read(b, t) == Read(s, t);
    }
  }

  lemma FlushKeepsInv(s: Stack)
    requires s.Layer? && Inv(s) && Quiet(s)
    ensures Inv(Flush(s)) && Quiet(Flush(s))
    ensures forall t :: Look(Flush(s).base, t) == Look(s, t)
  {
    var b := BatchWrite(s.base, s.cache, s.best);
    forall t ensures Look(b, t) == Look(s, t) {
      if s.base.Db? {
        WrittenRecord(s, t);
      } else if t in s.cache {
        MergedEntry(s, t);
      } else {
        assert Lookup(b.cache, t) == Lookup(s.base.cache, t);
        assert Read(b, t) == Read(s.base, t);
      }
    }
    if s.base.Layer? {
      forall t | t in b.cache ensures EntryOk(b.cache[t], t, b.base) && b.cache[t].coins.IsTidy() {
        if t in s.cache {
          MergedEntry(s, t);
        } else {
          assert b.cache[t] == s.base.cache[t];
        }
      }
    }
  }

  /**
   A flush hands the best block down. It survives unless the flushing layer never learnt one
   while the layer below holds one that differs from what lies further down.
   */
  lemma FlushKeepsBestBlock(s: Stack)
    requires s.Layer?
    ensures Best(Flush(s).base) == Best(s) <==>
            s.best != 0 || s.base.Db? || s.base.best == 0 || s.base.best == Best(s.base.base)
  {
  }

  lemma {:induction false} AskBestKeepsBest(s: Stack)
    ensures Best(AskBest(s)) == Best(s)
    ensures Inv(s) ==> Inv(AskBest(s))
    ensures forall t :: Read(AskBest(s), t) == Read(s, t)
    ensures forall t :: Holds(AskBest(s), t) == Holds(s, t)
    ensures Quiet(AskBest(s)) == Quiet(s)
    ensures s.Layer? ==> Best(Flush(AskBest(s)).base) == Best(s)
  {
    if s.Layer? && s.best == 0 {
      AskBestKeepsBest(s.base);
      forall t | Inv(s) && t in s.cache ensures EntryOk(s.cache[t], t, AskBest(s.base)) {
        assert EntryOk(s.cache[t], t, s.base);
      }
    }
  }

  // ---------- the state machine ----------

  datatype Op =
    | OpFetch(t: Txid)
    | OpBegin(t: Txid)
    | OpWrite(t: Txid, c: Coins)
    | OpEnd
    | OpSetBest(h: Hash)
    | OpAskBest
    | OpFlush
    | OpPush                 // construct a new, empty cache on top
    | OpPop                  // destroy the top cache, losing what it did not flush
    | OpBelow(op: Op)        // use the layer below directly

  /** A lower layer may be used directly only while everything above it is empty. */
  predicate Enabled(s: Stack, op: Op) {
    if s.Db? then op.OpPush? else
      match op
      case OpFetch(_) => Quiet(s.base)
      case OpBegin(_) => s.modifying.None? && Quiet(s.base)
      case OpWrite(t, _) => s.modifying == Some(t)
      case OpEnd => s.modifying.Some?
      case OpSetBest(_) => true
      case OpAskBest => true
      case OpFlush => Quiet(s)
      case OpPush => Quiet(s)
      case OpPop => s.modifying.None?
      case OpBelow(o) => s.cache == map[] && s.modifying.None? && !o.OpPush? && !o.OpPop? && Enabled(s.base, o)
  }

  function Step(s: Stack, op: Op): Stack
    requires Inv(s) && Enabled(s, op)
    decreases op
  {
    match op
    case OpFetch(t) => Fetch(s, t)
    case OpBegin(t) => Begin(s, t)
    case OpWrite(t, c) => Write(s, t, c)
    case OpEnd => End(s)
    case OpSetBest(h) => s.(best := h)
    case OpAskBest => AskBest(s)
    case OpFlush => Flush(s)
    case OpPush => Layer(map[], 0, None, s)
    case OpPop => s.base
    case OpBelow(o) => s.(base := Step(s.base, o))
  }

  /** The reference: one plain map per layer, top layer first. */
  type Flat = seq<map<Txid, Coins>>

  function Views(s: Stack): (v: Flat)
    ensures |v| > 0 && v[0] == View(s)
    ensures s.Layer? ==> |v| > 1 && v[1..] == Views(s.base)
  {
    if s.Db? then [View(s)] else [View(s)] + Views(s.base)
  }

  function Put(m: map<Txid, Coins>, t: Txid, c: Coins): map<Txid, Coins> {
    if c.IsPruned() then m - {t} else m[t := c.Tidy()]
  }

  /** In the reference only a write, a flush and the stacking of layers do anything. */
  function FlatStep(v: Flat, op: Op): Flat
    requires |v| > 0
  {
    match op
    case OpWrite(t, c) => [Put(v[0], t, c)] + v[1..]
    case OpFlush => if |v| > 1 then [v[0], v[0]] + v[2..] else v
    case OpPush => [v[0]] + v
    case OpPop => v[1..]
    case OpBelow(o) => if |v| < 2 then v else var w := FlatStep(v[1..], o); if w == [] then v else [w[0]] + w
    case _ => v
  }

  lemma {:induction false} FetchKeepsViews(s: Stack, t: Txid)
    ensures Views(Fetch(s, t)) == Views(s)
  {
    forall u ensures Look(Fetch(s, t), u) == Look(s, u) {
      FetchReadsTheSame(s, t, u);
    }
    SameLookSameView(Fetch(s, t), s);
    if s.Layer? {
      FetchKeepsViews(s.base, t);
    }
  }

  lemma {:induction false} AskBestKeepsViews(s: Stack)
    ensures Views(AskBest(s)) == Views(s)
  {
    AskBestKeepsBest(s);
    SameLookSameView(AskBest(s), s);
    if s.Layer? {
      AskBestKeepsViews(s.base);
    }
  }

  lemma WriteShows(s: Stack, t: Txid, c: Coins)
    requires s.Layer? && t in s.cache
    ensures View(Write(s, t, c)) == Put(View(s), t, c)
  {
    var s' := Write(s, t, c);
    forall u ensures u in View(s') <==> u in Put(View(s), t, c)
             ensures u in View(s') ==> View(s')[u] == Put(View(s), t, c)[u]
    {
      ViewIsLook(s, u);
      ViewIsLook(s', u);
    }
  }

  /** An empty layer shows what is below it. */
  lemma EmptyLayerIsTransparent(s: Stack)
    requires s.Layer? && s.cache == map[]
    ensures View(s) == View(s.base)
  {
    assert forall t :: Look(s, t) == Look(s.base, t);
    SameLookSameView(s, s.base);
  }

  lemma WriteKeepsInv(s: Stack, t: Txid, c: Coins)
    requires s.Layer? && Inv(s) && s.modifying == Some(t)
    ensures Inv(Write(s, t, c))
  {
    assert EntryOk(s.cache[t], t, s.base);
  }

  /** Every step keeps the invariant of every layer and does to the maps what the reference does. */
  lemma {:induction false} StepRefines(s: Stack, op: Op)
    requires Inv(s) && Enabled(s, op)
    ensures Inv(Step(s, op))
    ensures Views(Step(s, op)) == FlatStep(Views(s), op)
    decreases op
  {
    var s' := Step(s, op);
    match op
    case OpFetch(t) =>
      FetchKeepsInv(s, t);
      FetchKeepsViews(s, t);
    case OpBegin(t) =>
      BeginKeepsInv(s, t);
      SameLookSameView(s', s);
      FetchKeepsViews(s.base, t);
    case OpWrite(t, c) =>
      WriteKeepsInv(s, t, c);
      WriteShows(s, t, c);
    case OpEnd =>
      EndKeepsInv(s);
      SameLookSameView(s', s);
    case OpSetBest(h) =>
      SameLookSameView(s', s);
    case OpAskBest =>
      AskBestKeepsBest(s);
      AskBestKeepsViews(s);
    case OpFlush =>
      FlushKeepsInv(s);
      SameLookSameView(s'.base, s);
      EmptyLayerIsTransparent(s');
      FlushLeavesRest(s);
    case OpPush =>
      EmptyLayerIsTransparent(s');
    case OpPop =>
    case OpBelow(o) =>
      StepRefines(s.base, o);
      EmptyLayerIsTransparent(s);
      EmptyLayerIsTransparent(s');
      assert Views(s)[1..] == Views(s.base);
  }

  /** A flush touches no layer but the two it is about. */
  lemma FlushLeavesRest(s: Stack)
    requires s.Layer?
    ensures Views(Flush(s).base)[1..] == Views(s.base)[1..]
  {
  }

  // ---------- whole runs ----------

  predicate Allowed(s: Stack, ops: seq<Op>)
    requires Inv(s)
    decreases |ops|
  {
    ops == [] || (Enabled(s, ops[0]) && (StepRefines(s, ops[0]); Allowed(Step(s, ops[0]), ops[1..])))
  }

  function Run(s: Stack, ops: seq<Op>): Stack
    requires Inv(s) && Allowed(s, ops)
    decreases |ops|
  {
    if ops == [] then s else (StepRefines(s, ops[0]); Run(Step(s, ops[0]), ops[1..]))
  }

  function FlatRun(v: Flat, ops: seq<Op>): Flat
    decreases |ops|
  {
    if ops == [] || v == [] then v else FlatRun(FlatStep(v, ops[0]), ops[1..])
  }

  /**
   For every stack and every run, each layer shows at the end what a plain map per layer shows,
   and the flags are still trustworthy.
   */
  lemma {:induction false} RunsAreFlat(s: Stack, ops: seq<Op>)
    requires Inv(s) && Allowed(s, ops)
    ensures Inv(Run(s, ops))
    ensures Views(Run(s, ops)) == FlatRun(Views(s), ops)
    decreases |ops|
  {
    if ops != [] {
      StepRefines(s, ops[0]);
      RunsAreFlat(Step(s, ops[0]), ops[1..]);
    }
  }

  // ---------- a run that loses the best block ----------

  /** Block 1 in the database, a cache that moved on to block 2, and a cache on top that never asked. */
  const NeverAsked: seq<Op> := [OpPush, OpSetBest(2), OpPush]

  lemma NeverAskedIs()
    ensures Inv(Db(map[], 1)) && Allowed(Db(map[], 1), NeverAsked)
    ensures Run(Db(map[], 1), NeverAsked) == Layer(map[], 0, None, Layer(map[], 2, None, Db(map[], 1)))
  {
    var s0 := Db(map[], 1);
    var s1 := Layer(map[], 0, None, s0);
    var s2 := Layer(map[], 2, None, s0);
    assert Step(s0, OpPush) == s1 && Step(s1, OpSetBest(2)) == s2;
    assert NeverAsked[1..] == [OpSetBest(2), OpPush] && NeverAsked[1..][1..] == [OpPush] && NeverAsked[1..][1..][1..] == [];
    var s3 := Layer(map[], 0, None, s2);
    assert Step(s2, OpPush) == s3;
    assert Allowed(s3, []) && Run(s3, []) == s3;
    assert Allowed(s2, [OpPush]) && Run(s2, [OpPush]) == s3;
    assert Allowed(s1, [OpSetBest(2), OpPush]) && Run(s1, [OpSetBest(2), OpPush]) == s3;
  }

  /** Flushing it sends the cache below back to block 1. */
  lemma BestBlockIsLost()
    ensures Allowed(Db(map[], 1), NeverAsked)
    ensures var s := Run(Db(map[], 1), NeverAsked);
            Inv(s) && Enabled(s, OpFlush) && Best(s) == 2 && Best(Step(s, OpFlush)) == Best(Step(s, OpFlush).base) == 1
  {
    NeverAskedIs();
  }

  /** HaveCoins looks only at whether vout is empty, and that is the right question. */
  predicate Have(s: Stack, t: Txid) {
    Read(s, t).Some? && Read(s, t).value.vout != []
  }

  lemma HaveIsPresence(s: Stack, t: Txid)
    requires Inv(s) && Quiet(s)
    ensures Have(s, t) <==> t in View(s)
  {
    ViewIsLook(s, t);
    if Read(s, t).Some? {
      QuietReadsTidy(s, t);
      CleanupDropsExactlyTheNullTail(Read(s, t).value);
    }
  }
}
