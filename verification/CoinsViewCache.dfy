/** The coins database and the write-back cache as objects, each method doing what CoinsStack says. */
module CoinsViewCache {
  import opened Primitives
  import opened Wrappers
  import opened Coins
  import CS = CoinsStack

  class CoinsViewDb {
    var disk: map<Txid, Coins>
    var best: Hash

    ghost function Model(): CS.Stack
      reads this
    {
      CS.Db(disk, best)
    }

    constructor (disk: map<Txid, Coins>)
      ensures Model() == CS.Db(disk, 0)
    {
      this.disk, best := disk, 0;
    }

    method BatchWrite(mapCoins: map<Txid, CS.Entry>, hashBlock: Hash)
      modifies this
      ensures Model() == CS.BatchWrite(old(Model()), mapCoins, hashBlock)
    {
      var todo, batch := mapCoins.Keys, disk;
      while todo != {}
        invariant todo <= mapCoins.Keys
        invariant CS.PartlyWritten(disk, mapCoins, todo, batch)
        modifies {}
      {
        var t :| t in todo;
        ghost var before := batch;
        if mapCoins[t].isDirty {
          if mapCoins[t].coins.IsPruned() {
            batch := batch - {t};
          } else {
            batch := batch[t := mapCoins[t].coins];
          }
        }
        CS.WriteOne(disk, mapCoins, todo, before, t, batch);
        todo := todo - {t};
      }
      CS.WrittenWhenDone(disk, mapCoins, batch);
      disk := batch;
      if hashBlock != 0 {
        best := hashBlock;
      }
    }
  }

  /** What a cache is stacked on. */
  datatype Backend = Database(db: CoinsViewDb) | Cache(view: CoinsViewCache)

  class CoinsViewCache {
    const base: Backend
    ghost const repr: set<object>
    var cacheCoins: map<Txid, CS.Entry>
    var hashBlock: Hash
    /** hasModifier, together with the entry the modifier refers to. */
    var modifying: Option<Txid>

    /** The chain of objects below is finite and never shares this object. */
    ghost predicate Valid()
      decreases repr
    {
      this in repr &&
      match base
      case Database(db) => repr == {this, db}
      case Cache(view) => view.repr < repr && this !in view.repr && repr == {this} + view.repr && view.Valid()
    }

    ghost function Model(): (m: CS.Stack)
      requires Valid()
      reads repr
      ensures m.Layer?
      decreases repr
    {
      var below := match base
                   case Database(db) => db.Model()
                   case Cache(view) => view.Model();
      CS.Layer(cacheCoins, hashBlock, modifying, below)
    }

    constructor (base: Backend)
      requires base.Cache? ==> base.view.Valid()
      ensures Valid() && this.base == base
      ensures Model() == CS.Layer(map[], 0, None, match base case Database(db) => db.Model() case Cache(view) => view.Model())
      ensures fresh(this)
    {
      this.base := base;
      repr := {this} + match base case Database(db) => {db} case Cache(view) => view.repr;
      cacheCoins, hashBlock, modifying := map[], 0, None;
    }

    /** FetchCoins and GetCoins in one: the entry found, if any, is in the cache afterwards. */
    method GetCoins(txid: Txid) returns (coins: Option<Coins>)
      requires Valid()
      modifies repr
      ensures Model() == CS.Fetch(old(Model()), txid)
      ensures coins == CS.Read(old(Model()), txid)
      decreases repr, 1
    {
      if txid in cacheCoins {
        return Some(cacheCoins[txid].coins);
      }
      coins := GetBaseCoins(txid);
      if coins.Some? {
        cacheCoins := cacheCoins[txid := CS.Entry(coins.value, false, coins.value.IsPruned())];
      }
    }

    method GetBaseCoins(txid: Txid) returns (coins: Option<Coins>)
      requires Valid()
      modifies repr - {this}
      ensures Model() == CS.Layer(cacheCoins, hashBlock, modifying, CS.Fetch(old(Model()).base, txid))
      ensures coins == CS.Read(old(Model()).base, txid)
      decreases repr, 0
    {
      match base
      case Database(db) => coins := if txid in db.disk then Some(db.disk[txid]) else None;
      case Cache(view) => coins := view.GetCoins(txid);
    }

    method HaveCoins(txid: Txid) returns (have: bool)
      requires Valid() && CS.Inv(Model()) && CS.Quiet(Model())
      modifies repr
      ensures have <==> txid in CS.View(old(Model()))
      ensures Model() == CS.Fetch(old(Model()), txid)
    {
      CS.HaveIsPresence(Model(), txid);
      var coins := GetCoins(txid);
      have := coins.Some? && coins.value.vout != [];
    }

    method ModifyCoins(txid: Txid)
      requires Valid() && modifying.None?
      modifies repr
      ensures Model() == CS.Begin(old(Model()), txid)
    {
      hide CS.Fetch, CS.Read;
      if txid !in cacheCoins {
        var coins := GetBaseCoins(txid);
        var entry := if coins.None? then CS.Entry(EMPTY_COINS, false, true)
                     else CS.Entry(coins.value, false, coins.value.IsPruned());
        cacheCoins := cacheCoins[txid := entry];
      }
      cacheCoins := cacheCoins[txid := cacheCoins[txid].(isDirty := true)];
      modifying := Some(txid);
    }

    /** The owner of the modifier assigns through it. */
    method Assign(coins: Coins)
      requires Valid() && modifying.Some? && modifying.value in cacheCoins
      modifies this`cacheCoins
      ensures Model() == CS.Write(old(Model()), modifying.value, coins)
    {
      var txid := modifying.value;
      cacheCoins := cacheCoins[txid := cacheCoins[txid].(coins := coins)];
    }

    /** The destructor of the modifier. */
    method Release()
      requires Valid() && modifying.Some? && modifying.value in cacheCoins
      modifies this`cacheCoins, this`modifying
      ensures Model() == CS.End(old(Model()))
    {
      var txid := modifying.value;
      modifying := None;
      cacheCoins := cacheCoins[txid := cacheCoins[txid].(coins := cacheCoins[txid].coins.Tidy())];
      if cacheCoins[txid].isFresh && cacheCoins[txid].coins.IsPruned() {
        CleanupDropsExactlyTheNullTail(cacheCoins[txid].coins);
        cacheCoins := cacheCoins - {txid};
      }
    }

    method GetBestBlock() returns (hash: Hash)
      requires Valid()
      modifies repr
      ensures Model() == CS.AskBest(old(Model()))
      ensures hash == CS.Best(old(Model()))
      decreases repr
    {
      if hashBlock == 0 {
        match base
        case Database(db) => hashBlock := db.best;
        case Cache(view) =>
          var h := view.GetBestBlock();
          hashBlock := h;
      }
      hash := hashBlock;
    }

    method SetBestBlock(hash: Hash)
      requires Valid()
      modifies this`hashBlock
      ensures Model() == old(Model()).(best := hash)
    {
      hashBlock := hash;
    }

    method BatchWrite(mapCoins: map<Txid, CS.Entry>, hash: Hash)
      requires Valid() && modifying.None?
      requires CS.BatchAllowed(Model(), mapCoins)
      modifies this`cacheCoins, this`hashBlock
      ensures Model() == CS.BatchWrite(old(Model()), mapCoins, hash)
    {
      ghost var ours := cacheCoins;
      var todo := mapCoins.Keys;
      while todo != {}
        invariant todo <= mapCoins.Keys
        invariant CS.PartlyMerged(ours, mapCoins, todo, cacheCoins)
      {
        var t :| t in todo;
        var theirs := mapCoins[t];
        ghost var before := cacheCoins;
        assert CS.Lookup(before, t) == CS.Lookup(ours, t);
        if theirs.isDirty {
          if t !in cacheCoins {
            if !theirs.coins.IsPruned() {
              assert t !in ours;
              assert theirs.isFresh;
              cacheCoins := cacheCoins[t := CS.Entry(theirs.coins, true, true)];
            }
          } else if cacheCoins[t].isFresh && theirs.coins.IsPruned() {
            cacheCoins := cacheCoins - {t};
          } else {
            cacheCoins := cacheCoins[t := cacheCoins[t].(coins := theirs.coins, isDirty := true)];
          }
        }
        CS.MergeOne(ours, mapCoins, todo, before, t, cacheCoins);
        todo := todo - {t};
      }
      CS.MergedWhenDone(ours, mapCoins, cacheCoins);
      hashBlock := hash;
    }

    method Flush()
      requires Valid() && CS.Inv(Model()) && CS.Quiet(Model())
      modifies repr
      ensures Model() == CS.Flush(old(Model()))
      ensures CS.Inv(Model()) && CS.View(Model().base) == CS.View(old(Model()))
    {
      ghost var before := Model();
      CS.FlushIsAllowed(before);
      CS.FlushKeepsInv(before);
      CS.SameLookSameView(CS.Flush(before).base, before);
      match base {
        case Database(db) => db.BatchWrite(cacheCoins, hashBlock);
        case Cache(view) =>
          assert view.Model() == before.base;
          view.BatchWrite(cacheCoins, hashBlock);
      }
      cacheCoins := map[];
    }
  }
}
