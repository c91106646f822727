/** Stacks of write-back coin caches over a database (src/coins.h, src/coins.cpp, and the coin part
    of src/txdb.cpp).  `View` is a stack as a value, with one function an operation; the classes
    perform the operations in place.  `Unspent` is what a view shows once a pruned entry and an
    absent one count as the same. */
module CoinsView {
  import opened Wrappers
  import opened Coins

  /** A cache entry.  `fDirty`: may differ from the view below.  `fFresh`: that view has nothing unspent here. */
  datatype Entry = Entry(coins: Coins, fDirty: bool, fFresh: bool)

  type CoinsMap = map<Hash, Entry>

  datatype View =
    | Db(coins: map<Hash, Coins>, best: Hash)
    | Cache(base: View, cacheCoins: CoinsMap, hasModifier: bool, hashBlock: Hash)

  // ----- the operations on values

  /** What `GetCoins` returns. */
  function Lookup(v: View, txid: Hash): Option<Coins> {
    match v
    case Db(coins, _) => if txid in coins then Some(coins[txid]) else None
    case Cache(base, cacheCoins, _, _) => if txid in cacheCoins then Some(cacheCoins[txid].coins) else Lookup(base, txid)
  }

  /** The stack after `GetCoins`: every cache on the way has filled itself. */
  function Fetch(v: View, txid: Hash): View {
    match v
    case Db(_, _) => v
    case Cache(base, cacheCoins, _, _) =>
      if txid in cacheCoins then v else
        var v' := v.(base := Fetch(base, txid));
        match Lookup(base, txid)
        case None => v'
        case Some(c) => v'.(cacheCoins := cacheCoins[txid := Entry(c, false, c.IsPruned())])
  }

  /** The entry that `ModifyCoins` hands out. */
  function ModifiedEntry(v: View, txid: Hash): Entry
    requires v.Cache?
  {
    if txid in v.cacheCoins then v.cacheCoins[txid].(fDirty := true) else
      match Lookup(v.base, txid)
      case None => Entry(NO_COINS, true, true)
      case Some(c) => Entry(c, true, c.IsPruned())
  }

  function BeginModify(v: View, txid: Hash): View
    requires v.Cache?
  {
    var base := if txid in v.cacheCoins then v.base else Fetch(v.base, txid);
    Cache(base, v.cacheCoins[txid := ModifiedEntry(v, txid)], true, v.hashBlock)
  }

  /** The modifier's destructor, `c` being the coins as edited. */
  function EndModify(v: View, txid: Hash, c: Coins): View
    requires v.Cache? && txid in v.cacheCoins
  {
    var e := v.cacheCoins[txid].(coins := Cleanup(c));
    v.(hasModifier := false,
       cacheCoins := if e.fFresh && e.coins.IsPruned() then v.cacheCoins - {txid} else v.cacheCoins[txid := e])
  }

  /** `BatchWrite` for one entry of the child's map. */
  function MergeEntry(us: Option<Entry>, child: Entry): Option<Entry> {
    if !child.fDirty then us else
      match us
      case None => if child.coins.IsPruned() then None else Some(Entry(child.coins, true, true))
      case Some(e) => if e.fFresh && child.coins.IsPruned() then None else Some(Entry(child.coins, true, e.fFresh))
  }

  function Find<V>(m: map<Hash, V>, txid: Hash): Option<V> {
    if txid in m then Some(m[txid]) else None
  }

  function Merged(us: CoinsMap, child: CoinsMap, txid: Hash): Option<Entry> {
    if txid in child then MergeEntry(Find(us, txid), child[txid]) else Find(us, txid)
  }

  function Written(db: map<Hash, Coins>, child: CoinsMap, txid: Hash): Option<Coins> {
    if txid in child && child[txid].fDirty then
      if child[txid].coins.IsPruned() then None else Some(child[txid].coins)
    else Find(db, txid)
  }

  function MergedMap(us: CoinsMap, child: CoinsMap): (m: CoinsMap)
    ensures forall txid :: Find(m, txid) == Merged(us, child, txid)
  {
    map txid | txid in us.Keys + child.Keys && Merged(us, child, txid).Some? :: Merged(us, child, txid).value
  }

  function WrittenMap(db: map<Hash, Coins>, child: CoinsMap): (m: map<Hash, Coins>)
    ensures forall txid :: Find(m, txid) == Written(db, child, txid)
  {
    map txid | txid in db.Keys + child.Keys && Written(db, child, txid).Some? :: Written(db, child, txid).value
  }

  function BatchWrite(v: View, child: CoinsMap, hash: Hash): View {
    match v
    case Db(coins, best) =>
      Db(WrittenMap(coins, child), if hash != 0 then hash else best)
    case Cache(_, us, _, _) =>
      v.(cacheCoins := MergedMap(us, child), hashBlock := hash)
  }

  function Flush(v: View): View
    requires v.Cache?
  {
    v.(base := BatchWrite(v.base, v.cacheCoins, v.hashBlock), cacheCoins := map[])
  }

  function BestBlock(v: View): Hash {
    match v
    case Db(_, best) => best
    case Cache(base, _, _, hashBlock) => if hashBlock == 0 then BestBlock(base) else hashBlock
  }

  /** `GetBestBlock` keeps the answer in each cache it had to ask through. */
  function FetchBest(v: View): View {
    match v
    case Db(_, _) => v
    case Cache(base, _, _, hashBlock) =>
      if hashBlock == 0 then v.(base := FetchBest(base), hashBlock := BestBlock(base)) else v
  }

  // ----- what a view shows, and what keeps it consistent

  function Norm(c: Option<Coins>): Option<Coins> {
    if c.Some? && c.value.IsPruned() then None else c
  }

  function Unspent(v: View, txid: Hash): Option<Coins> {
    Norm(Lookup(v, txid))
  }

  /** The claim an entry makes about the view below it.  An entry that is not fresh was read through
      that view, which, being a cache itself, still holds it. */
  ghost predicate EntryOk(base: View, txid: Hash, e: Entry) {
    && e.coins.Clean()
    && (e.fFresh ==> Unspent(base, txid) == None)
    && (!e.fFresh && base.Cache? ==> txid in base.cacheCoins)
    && (!e.fDirty ==> Norm(Some(e.coins)) == Unspent(base, txid))
  }

  ghost predicate Consistent(v: View) {
    match v
    case Db(coins, _) => forall txid :: txid in coins ==> coins[txid].Clean() && !coins[txid].IsPruned()
    case Cache(base, cacheCoins, _, _) =>
      Consistent(base) && forall txid :: txid in cacheCoins ==> EntryOk(base, txid, cacheCoins[txid])
  }

  ghost predicate SameUnspent(v: View, w: View) {
    forall txid :: Unspent(v, txid) == Unspent(w, txid)
  }

  ghost predicate NoModifiers(v: View) {
    v.Cache? ==> !v.hasModifier && NoModifiers(v.base)
  }

  lemma {:induction false} LookupClean(v: View, txid: Hash)
    requires Consistent(v) && Lookup(v, txid).Some?
    ensures Lookup(v, txid).value.Clean()
  {
    if v.Cache? && txid !in v.cacheCoins {
      LookupClean(v.base, txid);
    } else if v.Cache? {
      assert EntryOk(v.base, txid, v.cacheCoins[txid]);
    }
  }

  /** Reading fills caches and changes nothing that can be seen. */
  lemma {:induction false} FetchKeeps(v: View, txid: Hash)
    requires Consistent(v)
    ensures var v' := Fetch(v, txid);
      && Consistent(v') && SameUnspent(v, v') && Lookup(v', txid) == Lookup(v, txid)
      && (v.Cache? ==> v'.Cache? && v.cacheCoins.Keys <= v'.cacheCoins.Keys)
      && (v.Cache? && Lookup(v, txid).Some? ==> txid in v'.cacheCoins)
      && (NoModifiers(v) ==> NoModifiers(v')) && BestBlock(v') == BestBlock(v)
  {
    if v.Cache? && txid !in v.cacheCoins {
      var v' := Fetch(v, txid);
      FetchKeeps(v.base, txid);
      if Lookup(v, txid).Some? {
        LookupClean(v.base, txid);
      }
      forall t | t in v'.cacheCoins ensures EntryOk(v'.base, t, v'.cacheCoins[t]) {
        assert t in v.cacheCoins ==> EntryOk(v.base, t, v.cacheCoins[t]);
        assert Unspent(v.base, t) == Unspent(v'.base, t);
      }
      forall t ensures Unspent(v, t) == Unspent(v', t) {
        assert Unspent(v.base, t) == Unspent(v'.base, t);
      }
    }
  }

  /** Handing out a modifier changes nothing that can be seen either, and the coins it shows are
      those the view showed, or pruned ones. */
  lemma BeginModifyKeeps(v: View, txid: Hash)
    requires Consistent(v) && v.Cache?
    ensures var v' := BeginModify(v, txid);
      && Consistent(v') && SameUnspent(v, v') && txid in v'.cacheCoins && v'.cacheCoins[txid].fDirty
      && Norm(Some(v'.cacheCoins[txid].coins)) == Unspent(v, txid)
      && v'.hasModifier && (NoModifiers(v.base) ==> NoModifiers(v'.base)) && BestBlock(v') == BestBlock(v)
  {
    var v' := BeginModify(v, txid);
    FetchKeeps(v.base, txid);
    if txid !in v.cacheCoins && Lookup(v.base, txid).Some? {
      LookupClean(v.base, txid);
    }
    BeginModifyEntries(v, txid);
    BeginModifyShows(v, txid);
    hide EntryOk, Fetch, Unspent, Consistent;
    assert v'.cacheCoins[txid].coins == ModifiedEntry(v, txid).coins;
    ModifiedShows(v, txid);
  }

  lemma ModifiedShows(v: View, txid: Hash)
    requires v.Cache?
    ensures ModifiedEntry(v, txid).fDirty && Norm(Some(ModifiedEntry(v, txid).coins)) == Unspent(v, txid)
  {
  }

  lemma BeginModifyShows(v: View, txid: Hash)
    requires Consistent(v) && v.Cache?
    ensures SameUnspent(v, BeginModify(v, txid))
  {
    var v' := BeginModify(v, txid);
    FetchKeeps(v.base, txid);
    ModifiedShows(v, txid);
    hide EntryOk, Fetch, Consistent, ModifiedEntry;
    forall t ensures Unspent(v, t) == Unspent(v', t) {
      assert Unspent(v.base, t) == Unspent(v'.base, t);
    }
  }

  lemma BeginModifyEntries(v: View, txid: Hash)
    requires Consistent(v) && v.Cache?
    requires txid !in v.cacheCoins && Lookup(v.base, txid).Some? ==> Lookup(v.base, txid).value.Clean()
    ensures Consistent(BeginModify(v, txid))
  {
    var v' := BeginModify(v, txid);
    FetchKeeps(v.base, txid);
    hide Fetch;
    forall t | t in v'.cacheCoins ensures EntryOk(v'.base, t, v'.cacheCoins[t]) {
      assert t in v.cacheCoins ==> EntryOk(v.base, t, v.cacheCoins[t]);
      assert Unspent(v.base, t) == Unspent(v'.base, t);
    }
  }

  ghost predicate NullsCanonical(c: Coins) {
    forall i :: 0 <= i < |c.vout| ==> (c.vout[i].IsNull() ==> c.vout[i] == NULL_OUT)
  }

  lemma CleanupClean(c: Coins)
    requires NullsCanonical(c)
    ensures Cleanup(c).Clean()
  {
  }

  /** Giving the modifier back changes this one entry, as a plain map would. */
  lemma EndModifySets(v: View, txid: Hash, c: Coins)
    requires Consistent(v) && v.Cache? && txid in v.cacheCoins && v.cacheCoins[txid].fDirty && NullsCanonical(c)
    ensures var v' := EndModify(v, txid, c);
      && Consistent(v') && Unspent(v', txid) == Norm(Some(Cleanup(c)))
      && (forall t :: t != txid ==> Unspent(v', t) == Unspent(v, t))
      && v'.base == v.base && !v'.hasModifier && BestBlock(v') == BestBlock(v)
  {
    CleanupClean(c);
    assert EntryOk(v.base, txid, v.cacheCoins[txid]);
  }

  // ----- flushing

  /** The assertion inside `BatchWrite` on a cache: a dirty, unpruned entry the parent does not hold is fresh. */
  predicate FreshWhenUnknown(us: CoinsMap, e: Entry, txid: Hash) {
    e.fDirty && txid !in us && !e.coins.IsPruned() ==> e.fFresh
  }

  ghost predicate CanBatchWrite(v: View, child: CoinsMap) {
    v.Cache? ==> !v.hasModifier && forall txid :: txid in child ==> FreshWhenUnknown(v.cacheCoins, child[txid], txid)
  }

  /** A parent that receives a consistent child's entries shows what the child showed. */
  lemma BatchWriteShows(base: View, child: CoinsMap, hash: Hash, txid: Hash)
    requires Consistent(base)
    requires txid in child ==> EntryOk(base, txid, child[txid])
    ensures Unspent(BatchWrite(base, child, hash), txid)
         == if txid in child then Norm(Some(child[txid].coins)) else Unspent(base, txid)
  {
    if base.Cache? && txid in base.cacheCoins {
      assert EntryOk(base.base, txid, base.cacheCoins[txid]);
    }
  }

  lemma BatchWriteConsistent(base: View, child: CoinsMap, hash: Hash)
    requires Consistent(base)
    requires forall txid :: txid in child ==> EntryOk(base, txid, child[txid])
    ensures Consistent(BatchWrite(base, child, hash))
  {
    var base' := BatchWrite(base, child, hash);
    if base.Cache? {
      forall t | t in base'.cacheCoins ensures EntryOk(base.base, t, base'.cacheCoins[t]) {
        assert t in child ==> EntryOk(base, t, child[t]);
        assert t in base.cacheCoins ==> EntryOk(base.base, t, base.cacheCoins[t]);
      }
    } else {
      forall t | t in base'.coins ensures base'.coins[t].Clean() && !base'.coins[t].IsPruned() {
        assert t in child ==> EntryOk(base, t, child[t]);
      }
    }
  }

  /** `Flush` never trips the assertion, shows the same coins, and leaves the parent showing them. */
  lemma FlushKeeps(v: View)
    requires Consistent(v) && v.Cache? && NoModifiers(v)
    ensures CanBatchWrite(v.base, v.cacheCoins)
    ensures Consistent(Flush(v)) && SameUnspent(v, Flush(v)) && SameUnspent(v, Flush(v).base) && NoModifiers(Flush(v))
  {
    forall t | t in v.cacheCoins && v.base.Cache? ensures FreshWhenUnknown(v.base.cacheCoins, v.cacheCoins[t], t) {
      assert EntryOk(v.base, t, v.cacheCoins[t]);
    }
    BatchWriteConsistent(v.base, v.cacheCoins, v.hashBlock);
    forall t ensures Unspent(v, t) == Unspent(Flush(v).base, t) == Unspent(Flush(v), t) {
      BatchWriteShows(v.base, v.cacheCoins, v.hashBlock, t);
    }
  }

  /** The best block is different: a cache whose own hash was never set overwrites its parent's
      with null, so a flush keeps the answer exactly when this cache has a hash, the parent had
      none, or nothing is lost by forgetting it. */
  lemma FlushBestBlock(v: View)
    requires v.Cache?
    ensures BestBlock(Flush(v)) == BestBlock(v)
       <==> v.hashBlock != 0 || v.base.Db? || v.base.hashBlock == 0 || v.base.hashBlock == BestBlock(v.base.base)
  {
  }

  lemma FlushLosesBestBlock()
    ensures var v := Cache(Cache(Db(map[], 1), map[], false, 2), map[], false, 0);
      Consistent(v) && BestBlock(v) == 2 && BestBlock(Flush(v)) == 1
  {
  }

  // ----- every sequence of operations

  /** Operations on the top of a stack: reads, one edit through a modifier, a flush, a new empty cache on
      top, and dropping the top one. */
  datatype Op = Read(txid: Hash) | Edit(txid: Hash, f: Coins -> Coins) | FlushTop | Push | Drop

  /** An edit must not look at what a pruned entry still carries, and nulls outputs as `SetNull` does. */
  ghost predicate GoodEdit(f: Coins -> Coins) {
    && (forall c: Coins :: c.IsPruned() ==> Norm(Some(Cleanup(f(c)))) == Norm(Some(Cleanup(f(NO_COINS)))))
    && (forall c: Coins :: c.Clean() ==> NullsCanonical(f(c)))
  }

  ghost predicate Allowed(v: View, op: Op) {
    match op
    case Read(_) => true
    case Edit(_, f) => v.Cache? && GoodEdit(f)
    case FlushTop => v.Cache?
    case Push => true
    case Drop => v.Cache?
  }

  function Step(v: View, op: Op): View
    requires v.Db? ==> op.Read? || op.Push?
  {
    match op
    case Read(txid) => Fetch(v, txid)
    case Edit(txid, f) => var v' := BeginModify(v, txid); EndModify(v', txid, f(v'.cacheCoins[txid].coins))
    case FlushTop => Flush(v)
    case Push => Cache(v, map[], false, 0)
    case Drop => v.base
  }

  /** The same operations on plain maps of unspent coins, one for each level, topmost last. */
  type Plain = map<Hash, Coins>

  function PlainSet(m: Plain, txid: Hash, c: Coins): Plain {
    var c' := Cleanup(c);
    if c'.IsPruned() then m - {txid} else m[txid := c']
  }

  function PlainGet(m: Plain, txid: Hash): Coins {
    if txid in m then m[txid] else NO_COINS
  }

  function PlainStep(ms: seq<Plain>, op: Op): seq<Plain>
    requires |ms| > 0 && ((op.FlushTop? || op.Drop?) ==> |ms| > 1)
  {
    var k := |ms| - 1;
    match op
    case Read(_) => ms
    case Edit(txid, f) => ms[k := PlainSet(ms[k], txid, f(PlainGet(ms[k], txid)))]
    case FlushTop => ms[k - 1 := ms[k]]
    case Push => ms + [ms[k]]
    case Drop => ms[..k]
  }

  ghost predicate Agrees(v: View, ms: seq<Plain>)
    decreases v
  {
    && |ms| > 0
    && (forall txid :: Unspent(v, txid) == Find(ms[|ms| - 1], txid))
    && match v
       case Db(_, _) => |ms| == 1
       case Cache(base, _, _, _) => Agrees(base, ms[..|ms| - 1])
  }

  lemma {:induction false} FetchAgrees(v: View, txid: Hash, ms: seq<Plain>)
    requires Consistent(v) && Agrees(v, ms)
    ensures Agrees(Fetch(v, txid), ms)
    decreases v
  {
    FetchKeeps(v, txid);
    if v.Cache? {
      FetchAgrees(v.base, txid, ms[..|ms| - 1]);
    }
  }

  /** What an edit leaves visible, `c` being the coins it was shown. */
  lemma EditShows(v: View, txid: Hash, f: Coins -> Coins) returns (c: Coins)
    requires Consistent(v) && v.Cache? && NoModifiers(v) && GoodEdit(f)
    ensures Norm(Some(c)) == Unspent(v, txid)
    ensures var v' := Step(v, Edit(txid, f));
      && Consistent(v') && NoModifiers(v')
      && v'.base == (if txid in v.cacheCoins then v.base else Fetch(v.base, txid))
      && Unspent(v', txid) == Norm(Some(Cleanup(f(c))))
      && forall t :: t != txid ==> Unspent(v', t) == Unspent(v, t)
  {
    var v1 := BeginModify(v, txid);
    BeginModifyKeeps(v, txid);
    c := v1.cacheCoins[txid].coins;
    assert EntryOk(v1.base, txid, v1.cacheCoins[txid]);
    EndModifySets(v1, txid, f(c));
    assert forall t :: Unspent(v1, t) == Unspent(v, t);
  }

  lemma PlainSetShows(m: Plain, txid: Hash, c: Coins, t: Hash)
    ensures Find(PlainSet(m, txid, c), t) == if t == txid then Norm(Some(Cleanup(c))) else Find(m, t)
  {
  }

  lemma EditAgrees(v: View, txid: Hash, f: Coins -> Coins, ms: seq<Plain>)
    requires Consistent(v) && v.Cache? && NoModifiers(v) && Agrees(v, ms) && GoodEdit(f)
    ensures Agrees(Step(v, Edit(txid, f)), PlainStep(ms, Edit(txid, f)))
  {
    var c := EditShows(v, txid, f);
    var v' := Step(v, Edit(txid, f));
    var k := |ms| - 1;
    var ms' := PlainStep(ms, Edit(txid, f));
    assert Find(ms[k], txid) == Norm(Some(c));
    assert Norm(Some(Cleanup(f(c)))) == Norm(Some(Cleanup(f(PlainGet(ms[k], txid)))));
    forall t ensures Unspent(v', t) == Find(ms'[k], t) {
      PlainSetShows(ms[k], txid, f(PlainGet(ms[k], txid)), t);
    }
    FetchAgrees(v.base, txid, ms[..k]);
    assert ms'[..k] == ms[..k];
  }

  lemma FlushAgrees(v: View, ms: seq<Plain>)
    requires Consistent(v) && v.Cache? && NoModifiers(v) && Agrees(v, ms) && |ms| > 1
    ensures Agrees(Flush(v), PlainStep(ms, FlushTop))
  {
    FlushKeeps(v);
    var k := |ms| - 1;
    var v', ms' := Flush(v), PlainStep(ms, FlushTop);
    assert forall t :: Unspent(v'.base, t) == Unspent(v, t) == Find(ms[k], t);
    if v.base.Cache? {
      assert ms'[..k][..k - 1] == ms[..k][..k - 1];
    }
    assert Agrees(v'.base, ms'[..k]);
  }

  lemma StepAgrees(v: View, op: Op, ms: seq<Plain>)
    requires Consistent(v) && NoModifiers(v) && Agrees(v, ms) && Allowed(v, op)
    requires (op.FlushTop? || op.Drop?) ==> |ms| > 1
    ensures Consistent(Step(v, op)) && NoModifiers(Step(v, op))
    ensures Agrees(Step(v, op), PlainStep(ms, op))
  {
    match op
    case Read(txid) =>
      FetchKeeps(v, txid);
      FetchAgrees(v, txid, ms);
    case Edit(txid, f) =>
      var _ := EditShows(v, txid, f);
      EditAgrees(v, txid, f, ms);
    case FlushTop =>
      FlushKeeps(v);
      FlushAgrees(v, ms);
    case Push =>
      var ms' := PlainStep(ms, Push);
      assert ms'[..|ms'| - 1] == ms;
      assert forall txid :: Unspent(Step(v, Push), txid) == Unspent(v, txid);
    case Drop =>
  }

  ghost predicate RunTo(v: View, ops: seq<Op>, v': View)
    decreases |ops|
  {
    if ops == [] then v == v' else Allowed(v, ops[0]) && RunTo(Step(v, ops[0]), ops[1..], v')
  }

  function PlainRun(ms: seq<Plain>, ops: seq<Op>): seq<Plain>
    requires |ms| > 0
    decreases |ops|
  {
    if ops == [] then ms
    else if (ops[0].FlushTop? || ops[0].Drop?) && |ms| == 1 then ms
    else PlainRun(PlainStep(ms, ops[0]), ops[1..])
  }

  /** Whatever is done to a stack of caches, it and every level below it show what plain maps
      treated the same way hold. */
  lemma {:induction false} CachesAreTransparent(v: View, ms: seq<Plain>, ops: seq<Op>, v': View)
    requires Consistent(v) && NoModifiers(v) && Agrees(v, ms) && RunTo(v, ops, v')
    ensures Consistent(v') && Agrees(v', PlainRun(ms, ops))
    decreases |ops|
  {
    if ops != [] {
      assert v.Cache? ==> Agrees(v.base, ms[..|ms| - 1]);
      StepAgrees(v, ops[0], ms);
      CachesAreTransparent(Step(v, ops[0]), PlainStep(ms, ops[0]), ops[1..], v');
    }
  }

  // ----- what caching saves

  /** What a read found is in the cache afterwards: another read of it changes nothing. */
  lemma {:induction false} FetchFills(v: View, txid: Hash)
    ensures Lookup(Fetch(v, txid), txid) == Lookup(v, txid)
    ensures v.Cache? && Lookup(v, txid).Some? ==>
      var m := Fetch(v, txid).cacheCoins; txid in m && m[txid].coins == Lookup(v, txid).value
    ensures v.Cache? && Lookup(v, txid).Some? ==> Fetch(Fetch(v, txid), txid) == Fetch(v, txid)
    ensures v.Cache? ==> forall t :: t != txid ==> Find(Fetch(v, txid).cacheCoins, t) == Find(v.cacheCoins, t)
  {
    if v.Cache? && txid !in v.cacheCoins {
      FetchFills(v.base, txid);
    }
  }

  /** Coins made and spent to the last output within one cache leave nothing to write. */
  lemma MadeAndSpentLeavesNothing(v: View, txid: Hash, made: Coins, spent: Coins)
    requires v.Cache? && txid !in v.cacheCoins && Unspent(v.base, txid) == None && spent.IsPruned()
    ensures var v1 := EndModify(BeginModify(v, txid), txid, made);
      if made.IsPruned() then txid !in v1.cacheCoins
      else txid in v1.cacheCoins && txid !in EndModify(BeginModify(v1, txid), txid, spent).cacheCoins
  {
  }

  /** Nor do they if a cache below is what they were made in, once both are flushed. */
  lemma SpentAboveLeavesNothing(us: CoinsMap, child: CoinsMap, txid: Hash)
    requires txid in us && us[txid].fFresh && txid in child && child[txid].fDirty && child[txid].coins.IsPruned()
    ensures txid !in MergedMap(us, child)
  {
    assert Find(MergedMap(us, child), txid) == Merged(us, child, txid);
  }
}
