/** The coin views as objects: `CCoinsViewDB` (src/txdb.cpp) and `CCoinsViewCache` (src/coins.cpp),
    each cache pointing at the one below it.  Every method is tied to the function of CoinsView that
    describes it. */
module CoinsViewCaches {
  import opened Wrappers
  import opened Coins
  import opened CoinsView

  class CCoinsViewDB {
    var coins: map<Hash, Coins>
    var best: Hash

    ghost function View(): View
      reads this
    {
      Db(coins, best)
    }

    constructor (coins: map<Hash, Coins>, best: Hash)
      ensures View() == Db(coins, best)
    {
      this.coins, this.best := coins, best;
    }

    method GetCoins(txid: Hash) returns (r: Option<Coins>)
      ensures r == Lookup(View(), txid)
    {
      r := if txid in coins then Some(coins[txid]) else None;
    }

    /** Writes or erases each dirty entry, in whatever order the map yields them. */
    method BatchWrite(mapCoins: CoinsMap, hash: Hash)
      modifies this
      ensures View() == CoinsView.BatchWrite(old(View()), mapCoins, hash)
    {
      var left := mapCoins.Keys;
      while left != {}
        invariant left <= mapCoins.Keys && best == old(best)
        invariant forall t :: Find(coins, t) == if t in left then Find(old(coins), t) else Written(old(coins), mapCoins, t)
        decreases |left|
      {
        var txid :| txid in left;
        if mapCoins[txid].fDirty {
          coins := if mapCoins[txid].coins.IsPruned() then coins - {txid} else coins[txid := mapCoins[txid].coins];
        }
        left := left - {txid};
      }
      if hash != 0 {
        best := hash;
      }
      SameFinds(coins, WrittenMap(old(coins), mapCoins));
    }
  }

  /** Two maps that find the same things are the same map. */
  lemma SameFinds<V>(a: map<Hash, V>, b: map<Hash, V>)
    requires forall t :: Find(a, t) == Find(b, t)
    ensures a == b
  {
    forall t ensures (t in a <==> t in b) && (t in a ==> a[t] == b[t]) {
      assert Find(a, t) == Find(b, t);
    }
  }

  class CCoinsViewCache {
    const base: CCoinsViewCache?
    const db: CCoinsViewDB
    var cacheCoins: CoinsMap
    var hasModifier: bool
    var hashBlock: Hash
    ghost const Repr: set<object>

    /** Below this cache lies another one, or the database. */
    ghost predicate Valid()
      decreases Repr
    {
      && this in Repr && db in Repr
      && (base != null ==> base.Repr < Repr && this !in base.Repr && base.db == db && base.Valid())
      && (base == null ==> Repr == {this, db})
    }

    ghost function View(): (v: View)
      requires Valid()
      reads Repr
      ensures v.Cache? && v.cacheCoins == cacheCoins && v.hasModifier == hasModifier && v.hashBlock == hashBlock
      ensures v.base == BaseView()
      decreases Repr, 1
    {
      Cache(BaseView(), cacheCoins, hasModifier, hashBlock)
    }

    ghost function BaseView(): View
      requires Valid()
      reads Repr
      decreases Repr, 0
    {
      if base == null then db.View() else base.View()
    }

    constructor (baseIn: CCoinsViewCache?, dbIn: CCoinsViewDB)
      requires baseIn != null ==> baseIn.Valid() && baseIn.db == dbIn
      ensures Valid() && base == baseIn && db == dbIn && fresh(this)
      ensures Repr == {this} + (if baseIn == null then {dbIn} else baseIn.Repr)
      ensures View() == Cache(if baseIn == null then dbIn.View() else baseIn.View(), map[], false, 0)
    {
      base, db := baseIn, dbIn;
      cacheCoins, hasModifier, hashBlock := map[], false, 0;
      Repr := {this} + (if baseIn == null then {dbIn} else baseIn.Repr);
    }

    method BaseGetCoins(txid: Hash) returns (r: Option<Coins>)
      requires Valid()
      modifies Repr - {this}
      ensures BaseView() == Fetch(old(BaseView()), txid) && r == Lookup(old(BaseView()), txid)
      decreases Repr, 0
    {
      if base == null {
        r := db.GetCoins(txid);
      } else {
        r := base.GetCoins(txid);
      }
    }

    method GetCoins(txid: Hash) returns (r: Option<Coins>)
      requires Valid()
      modifies Repr
      ensures View() == Fetch(old(View()), txid) && r == Lookup(old(View()), txid)
      decreases Repr, 1
    {
      if txid in cacheCoins {
        return Some(cacheCoins[txid].coins);
      }
      r := BaseGetCoins(txid);
      if r.Some? {
        cacheCoins := cacheCoins[txid := Entry(r.value, false, r.value.IsPruned())];
      }
    }

    /** The shortcut through `vout.empty()` answers correctly because every entry is clean. */
    method HaveCoins(txid: Hash) returns (have: bool)
      requires Valid() && Consistent(View())
      modifies Repr
      ensures View() == Fetch(old(View()), txid)
      ensures have == Unspent(old(View()), txid).Some?
    {
      var r := GetCoins(txid);
      have := r.Some? && r.value.vout != [];
      if r.Some? {
        LookupClean(old(View()), txid);
      }
    }

    /** Hands out the entry; the caller edits the object and gives it back through `EndModify`. */
    method ModifyCoins(txid: Hash) returns (coins: CCoins)
      requires Valid() && !hasModifier
      modifies Repr
      ensures fresh(coins)
      ensures View() == BeginModify(old(View()), txid) && coins.Value() == ModifiedEntry(old(View()), txid).coins
    {
      var e: Entry;
      if txid in cacheCoins {
        e := cacheCoins[txid];
      } else {
        var r := BaseGetCoins(txid);
        if r.None? {
          e := Entry(NO_COINS, false, true);
        } else {
          e := Entry(r.value, false, r.value.IsPruned());
        }
      }
      e := e.(fDirty := true);
      cacheCoins := cacheCoins[txid := e];
      hasModifier := true;
      coins := new CCoins(e.coins);
    }

    /** The modifier's destructor. */
    method ReleaseModifier(txid: Hash, coins: CCoins)
      requires Valid() && hasModifier && txid in cacheCoins && coins !in Repr
      modifies this, coins
      ensures View() == EndModify(old(View()), txid, old(coins.Value()))
    {
      hasModifier := false;
      coins.CleanupInPlace();
      var value := Coins(coins.fCoinBase, coins.fCoinStake, coins.vout, coins.nHeight, coins.nVersion);
      var e := cacheCoins[txid].(coins := value);
      if e.fFresh && value.IsPruned() {
        cacheCoins := cacheCoins - {txid};
      } else {
        cacheCoins := cacheCoins[txid := e];
      }
    }

    /** One turn of the loop in `BatchWrite`; the assertion is the source's own. */
    method MergeOne(txid: Hash, e: Entry)
      requires FreshWhenUnknown(cacheCoins, e, txid)
      modifies this`cacheCoins
      ensures Find(cacheCoins, txid) == MergeEntry(Find(old(cacheCoins), txid), e)
      ensures forall t :: t != txid ==> Find(cacheCoins, t) == Find(old(cacheCoins), t)
    {
      if e.fDirty {
        if txid !in cacheCoins {
          if !e.coins.IsPruned() {
            assert e.fFresh;
            cacheCoins := cacheCoins[txid := Entry(e.coins, true, true)];
          }
        } else if cacheCoins[txid].fFresh && e.coins.IsPruned() {
          cacheCoins := cacheCoins - {txid};
        } else {
          cacheCoins := cacheCoins[txid := Entry(e.coins, true, cacheCoins[txid].fFresh)];
        }
      }
    }

    method MergeAll(mapCoins: CoinsMap)
      requires forall t :: t in mapCoins ==> FreshWhenUnknown(cacheCoins, mapCoins[t], t)
      modifies this`cacheCoins
      ensures cacheCoins == MergedMap(old(cacheCoins), mapCoins)
    {
      ghost var us := cacheCoins;
      var left := mapCoins.Keys;
      while left != {}
        invariant left <= mapCoins.Keys
        invariant forall t :: Find(cacheCoins, t) == if t in left then Find(us, t) else Merged(us, mapCoins, t)
        decreases |left|
      {
        var txid :| txid in left;
        assert FreshWhenUnknown(us, mapCoins[txid], txid);
        assert Find(cacheCoins, txid) == Find(us, txid);
        MergeOne(txid, mapCoins[txid]);
        left := left - {txid};
      }
      SameFinds(cacheCoins, MergedMap(us, mapCoins));
    }

    /** Takes over a child's entries, in whatever order its map yields them. */
    method BatchWrite(mapCoins: CoinsMap, hash: Hash)
      requires Valid() && CanBatchWrite(View(), mapCoins)
      modifies this
      ensures View() == CoinsView.BatchWrite(old(View()), mapCoins, hash)
    {
      MergeAll(mapCoins);
      hashBlock := hash;
    }

    method Flush()
      requires Valid() && Consistent(View()) && NoModifiers(View())
      modifies Repr
      ensures View() == CoinsView.Flush(old(View()))
    {
      FlushKeeps(View());
      if base == null {
        db.BatchWrite(cacheCoins, hashBlock);
      } else {
        base.BatchWrite(cacheCoins, hashBlock);
      }
      cacheCoins := map[];
    }

    method GetBestBlock() returns (hash: Hash)
      requires Valid()
      modifies Repr
      ensures View() == FetchBest(old(View())) && hash == BestBlock(old(View()))
      decreases Repr
    {
      if hashBlock == 0 {
        if base == null {
          hashBlock := db.best;
        } else {
          var h := base.GetBestBlock();
          hashBlock := h;
        }
      }
      hash := hashBlock;
    }
  }
}
