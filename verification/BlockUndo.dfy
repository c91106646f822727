/** Applying a block to the coins and taking it back: `UpdateCoins`, the transaction loop of
    `ConnectBlock`, and the coin loop of `DisconnectBlock` (src/main.cpp), on plain maps of unspent
    coins.  BlockUndoOnViews.dfy has the loops themselves, on a cache. */
module BlockUndo {
  import opened Wrappers
  import opened Coins
  import opened CoinsView

  // ----- one transaction

  function SpendOne(m: Plain, out: OutPoint): (Plain, InUndo) {
    var c := PlainGet(m, out.hash);
    if CanSpend(c, out.n) then
      var (c', undo) := SpendOut(c, out.n);
      (PlainSet(m, out.hash, c'), undo)
    else
      (m, InUndo(NULL_OUT, false, false, 0, 0))
  }

  function SpendAll(m: Plain, vin: seq<TxIn>): (r: (Plain, seq<InUndo>))
    ensures |r.1| == |vin|
    decreases |vin|
  {
    if vin == [] then (m, []) else
      var (m1, undo) := SpendOne(m, vin[0].prevout);
      var (m', undos) := SpendAll(m1, vin[1..]);
      (m', [undo] + undos)
  }

  /** No `Spend` along the way finds its output missing. */
  predicate Spendable(m: Plain, vin: seq<TxIn>)
    decreases |vin|
  {
    vin == [] || (CanSpend(PlainGet(m, vin[0].prevout.hash), vin[0].prevout.n)
                  && Spendable(SpendOne(m, vin[0].prevout).0, vin[1..]))
  }

  predicate SpendsCoins(tx: Tx) {
    !tx.IsCoinBase() && !tx.IsZerocoinSpend()
  }

  function Inputs(tx: Tx): seq<TxIn> {
    if SpendsCoins(tx) then tx.vin else []
  }

  function UpdateCoins(m: Plain, tx: Tx, nHeight: int): (Plain, seq<InUndo>) {
    var (m', undos) := SpendAll(m, Inputs(tx));
    (PlainSet(m', tx.txid, FromTx(tx, nHeight)), undos)
  }

  function UndoOne(m: Plain, out: OutPoint, undo: InUndo): Plain {
    PlainSet(m, out.hash, Unspend(PlainGet(m, out.hash), out.n, undo))
  }

  /** The inputs are put back last one first. */
  function UndoAll(m: Plain, vin: seq<TxIn>, undos: seq<InUndo>): Plain
    requires |undos| == |vin|
    decreases |vin|
  {
    if vin == [] then m else UndoOne(UndoAll(m, vin[1..], undos[1..]), vin[0].prevout, undos[0])
  }

  predicate UndoAllClean(m: Plain, vin: seq<TxIn>, undos: seq<InUndo>)
    requires |undos| == |vin|
    decreases |vin|
  {
    vin == [] || (UndoAllClean(m, vin[1..], undos[1..])
                  && UnspendIsClean(PlainGet(UndoAll(m, vin[1..], undos[1..]), vin[0].prevout.hash), vin[0].prevout.n, undos[0]))
  }

  function UndoTx(m: Plain, tx: Tx, undos: seq<InUndo>): Plain
    requires |undos| == |Inputs(tx)|
  {
    UndoAll(m - {tx.txid}, Inputs(tx), undos)
  }

  /** The comparison of what is found under the transaction's id with what it must have created. */
  predicate OutputsMatch(found: Coins, tx: Tx, nHeight: int) {
    var outs := ClearUnspendable(found);
    var outsBlock := FromTx(tx, nHeight);
    (if outsBlock.nVersion < 0 then outs.(nVersion := outsBlock.nVersion) else outs).Same(outsBlock)
  }

  predicate UndoTxClean(m: Plain, tx: Tx, undos: seq<InUndo>, nHeight: int)
    requires |undos| == |Inputs(tx)|
  {
    OutputsMatch(PlainGet(m, tx.txid), tx, nHeight) && UndoAllClean(m - {tx.txid}, Inputs(tx), undos)
  }

  // ----- what is lost: the coinstake flag of coins that were spent to the last output

  function LostByOne(m: Plain, out: OutPoint): set<Hash> {
    var c := PlainGet(m, out.hash);
    if CanSpend(c, out.n) && SpendOut(c, out.n).0.IsPruned() then {out.hash} else {}
  }

  function LostByAll(m: Plain, vin: seq<TxIn>): set<Hash>
    decreases |vin|
  {
    if vin == [] then {} else LostByOne(m, vin[0].prevout) + LostByAll(SpendOne(m, vin[0].prevout).0, vin[1..])
  }

  function Strip(m: Plain, lost: set<Hash>): Plain {
    map txid | txid in m :: if txid in lost then m[txid].(fCoinStake := false) else m[txid]
  }

  ghost predicate Good(m: Plain) {
    forall txid :: txid in m ==> m[txid].Clean() && !m[txid].IsPruned() && m[txid].nHeight > 0
  }

  lemma StripTwice(m: Plain, a: set<Hash>, b: set<Hash>)
    ensures Strip(Strip(m, a), b) == Strip(m, a + b)
  {
  }

  lemma SetGood(m: Plain, txid: Hash, c: Coins)
    requires Good(m) && c.Clean() && Cleanup(c) == c && c.nHeight > 0
    ensures Good(PlainSet(m, txid, c))
  {
  }

  lemma SpendOneGood(m: Plain, out: OutPoint)
    requires Good(m)
    ensures Good(SpendOne(m, out).0)
  {
    if CanSpend(PlainGet(m, out.hash), out.n) {
      SpendOutClean(m[out.hash], out.n);
      SetGood(m, out.hash, SpendOut(m[out.hash], out.n).0);
    }
  }

  lemma {:induction false} SpendAllGood(m: Plain, vin: seq<TxIn>)
    requires Good(m)
    ensures Good(SpendAll(m, vin).0)
    decreases |vin|
  {
    if vin != [] {
      SpendOneGood(m, vin[0].prevout);
      SpendAllGood(SpendOne(m, vin[0].prevout).0, vin[1..]);
    }
  }

  /** When the undo data carries the metadata, what was there does not matter. */
  lemma UnspendForgets(c: Coins, d: Coins, n: nat, undo: InUndo)
    ensures undo.nHeight != 0 ==> Unspend(c, n, undo) == Unspend(d, n, undo)
  {
  }

  /** What an undo step finds after a spend, and what it makes of it. */
  lemma UnspendFound(c: Coins, n: nat)
    requires c.Clean() && CanSpend(c, n) && c.nHeight > 0
    ensures var (c', undo) := SpendOut(c, n);
      var found := if c'.IsPruned() then NO_COINS else c';
      && Cleanup(c') == c'
      && Cleanup(Unspend(found, n, undo)) == (if c'.IsPruned() then c.(fCoinStake := false) else c)
      && UnspendIsClean(found, n, undo)
  {
    var (c', undo) := SpendOut(c, n);
    UnspendRestores(c, n);
    SpentThenClean(c, n);
    UnspendForgets(NO_COINS, c', n, undo);
  }

  lemma SetGet(m: Plain, txid: Hash, c: Coins)
    ensures PlainGet(PlainSet(m, txid, c), txid) == if Cleanup(c).IsPruned() then NO_COINS else Cleanup(c)
  {
  }

  lemma SetTwice(m: Plain, txid: Hash, c: Coins, d: Coins)
    requires !Cleanup(d).IsPruned()
    ensures PlainSet(PlainSet(m, txid, c), txid, d) == m[txid := Cleanup(d)]
  {
  }

  lemma StripOne(m: Plain, txid: Hash)
    requires txid in m
    ensures Strip(m, {txid}) == m[txid := m[txid].(fCoinStake := false)]
    ensures Strip(m, {}) == m == m[txid := m[txid]]
  {
  }

  lemma UndoOneRestores(m: Plain, out: OutPoint)
    requires Good(m) && CanSpend(PlainGet(m, out.hash), out.n)
    ensures UndoOne(SpendOne(m, out).0, out, SpendOne(m, out).1) == Strip(m, LostByOne(m, out))
    ensures UnspendIsClean(PlainGet(SpendOne(m, out).0, out.hash), out.n, SpendOne(m, out).1)
  {
    var c := m[out.hash];
    UnspendFound(c, out.n);
    UndoOneParts(m, out.hash, out.n, SpendOut(c, out.n).0, SpendOut(c, out.n).1);
  }

  lemma UndoOneParts(m: Plain, txid: Hash, n: nat, c': Coins, undo: InUndo)
    requires txid in m && !m[txid].IsPruned() && Cleanup(c') == c'
    requires var found := if c'.IsPruned() then NO_COINS else c';
      Cleanup(Unspend(found, n, undo)) == if c'.IsPruned() then m[txid].(fCoinStake := false) else m[txid]
    ensures PlainGet(PlainSet(m, txid, c'), txid) == if c'.IsPruned() then NO_COINS else c'
    ensures UndoOne(PlainSet(m, txid, c'), OutPoint(txid, n), undo) == Strip(m, if c'.IsPruned() then {txid} else {})
  {
    var found := if c'.IsPruned() then NO_COINS else c';
    SetGet(m, txid, c');
    assert !Cleanup(Unspend(found, n, undo)).IsPruned() by {
      assert Cleanup(Unspend(found, n, undo)).vout == m[txid].vout;
    }
    SetTwice(m, txid, c', Unspend(found, n, undo));
    StripOne(m, txid);
  }

  lemma UnspendStripped(c: Coins, n: nat, undo: InUndo)
    ensures Cleanup(Unspend(c.(fCoinStake := false), n, undo)) == Cleanup(Unspend(c, n, undo)).(fCoinStake := false)
    ensures UnspendIsClean(c.(fCoinStake := false), n, undo) == UnspendIsClean(c, n, undo)
  {
  }

  lemma SetStripped(m: Plain, lost: set<Hash>, txid: Hash, c: Coins, s: Coins)
    requires Cleanup(s) == if txid in lost then Cleanup(c).(fCoinStake := false) else Cleanup(c)
    ensures PlainSet(Strip(m, lost), txid, s) == Strip(PlainSet(m, txid, c), lost)
  {
    assert Cleanup(c).IsPruned() == Cleanup(s).IsPruned() by {
      assert Cleanup(c).vout == Cleanup(s).vout;
    }
  }

  lemma UndoOneStripped(m: Plain, lost: set<Hash>, out: OutPoint, undo: InUndo)
    ensures UndoOne(Strip(m, lost), out, undo) == Strip(UndoOne(m, out, undo), lost)
    ensures UnspendIsClean(PlainGet(Strip(m, lost), out.hash), out.n, undo) == UnspendIsClean(PlainGet(m, out.hash), out.n, undo)
  {
    var c, s := PlainGet(m, out.hash), PlainGet(Strip(m, lost), out.hash);
    assert s == if out.hash in lost then c.(fCoinStake := false) else c;
    UnspendStripped(c, out.n, undo);
    SetStripped(m, lost, out.hash, Unspend(c, out.n, undo), Unspend(s, out.n, undo));
  }

  lemma {:induction false} UndoAllStripped(m: Plain, lost: set<Hash>, vin: seq<TxIn>, undos: seq<InUndo>)
    requires |undos| == |vin|
    ensures UndoAll(Strip(m, lost), vin, undos) == Strip(UndoAll(m, vin, undos), lost)
    ensures UndoAllClean(Strip(m, lost), vin, undos) == UndoAllClean(m, vin, undos)
    decreases |vin|
  {
    if vin != [] {
      UndoAllStripped(m, lost, vin[1..], undos[1..]);
      UndoOneStripped(UndoAll(m, vin[1..], undos[1..]), lost, vin[0].prevout, undos[0]);
    }
  }

  lemma {:induction false} UndoAllRestores(m: Plain, vin: seq<TxIn>)
    requires Good(m) && Spendable(m, vin)
    ensures UndoAll(SpendAll(m, vin).0, vin, SpendAll(m, vin).1) == Strip(m, LostByAll(m, vin))
    ensures UndoAllClean(SpendAll(m, vin).0, vin, SpendAll(m, vin).1)
    decreases |vin|
  {
    if vin == [] {
      assert Strip(m, {}) == m;
    } else {
      var out := vin[0].prevout;
      var m1, undo := SpendOne(m, out).0, SpendOne(m, out).1;
      var lost := LostByAll(m1, vin[1..]);
      SpendOneGood(m, out);
      UndoAllRestores(m1, vin[1..]);
      UndoOneStripped(m1, lost, out, undo);
      UndoOneRestores(m, out);
      StripTwice(m, LostByOne(m, out), lost);
      assert SpendAll(m, vin).1[1..] == SpendAll(m1, vin[1..]).1;
    }
  }

  /** Inputs that are available and pairwise different can all be spent. */
  predicate HaveInputs(m: Plain, tx: Tx) {
    forall i :: 0 <= i < |Inputs(tx)| ==>
      tx.vin[i].prevout.hash in m && m[tx.vin[i].prevout.hash].IsAvailable(tx.vin[i].prevout.n)
  }

  predicate DistinctInputs(vin: seq<TxIn>) {
    forall i, j :: 0 <= i < j < |vin| ==> vin[i].prevout != vin[j].prevout
  }

  lemma SpendOneLeavesOthers(m: Plain, out: OutPoint, other: OutPoint)
    requires out != other && CanSpend(PlainGet(m, other.hash), other.n)
    ensures CanSpend(PlainGet(SpendOne(m, out).0, other.hash), other.n)
  {
    var c := PlainGet(m, out.hash);
    if CanSpend(c, out.n) && out.hash == other.hash {
      var t := SpendOut(c, out.n).0.vout;
      var t' := Trim(t);
      assert c.vout[out.n := NULL_OUT][other.n] == c.vout[other.n];
    }
  }

  lemma {:induction false} AvailableIsSpendable(m: Plain, vin: seq<TxIn>)
    requires DistinctInputs(vin)
    requires forall i :: 0 <= i < |vin| ==> CanSpend(PlainGet(m, vin[i].prevout.hash), vin[i].prevout.n)
    ensures Spendable(m, vin)
    decreases |vin|
  {
    if vin != [] {
      var m1 := SpendOne(m, vin[0].prevout).0;
      forall i | 0 <= i < |vin[1..]| ensures CanSpend(PlainGet(m1, vin[1..][i].prevout.hash), vin[1..][i].prevout.n) {
        SpendOneLeavesOthers(m, vin[0].prevout, vin[i + 1].prevout);
      }
      AvailableIsSpendable(m1, vin[1..]);
    }
  }

  // ----- a block

  function Connect(m: Plain, txs: seq<Tx>, nHeight: int): (r: (Plain, seq<seq<InUndo>>))
    ensures Shapes(txs, r.1)
    decreases |txs|
  {
    if txs == [] then (m, []) else
      var (m1, undo) := UpdateCoins(m, txs[0], nHeight);
      var (m', undos) := Connect(m1, txs[1..], nHeight);
      assert ([undo] + undos)[1..] == undos;
      (m', [undo] + undos)
  }

  /** The block's undo data fits its transactions. */
  predicate Shapes(txs: seq<Tx>, undos: seq<seq<InUndo>>)
    decreases |txs|
  {
    if txs == [] then undos == [] else undos != [] && |undos[0]| == |Inputs(txs[0])| && Shapes(txs[1..], undos[1..])
  }

  /** The transactions are undone last one first. */
  function Disconnect(m: Plain, txs: seq<Tx>, undos: seq<seq<InUndo>>): Plain
    requires Shapes(txs, undos)
    decreases |txs|
  {
    if txs == [] then m else UndoTx(Disconnect(m, txs[1..], undos[1..]), txs[0], undos[0])
  }

  /** What `fClean` reports: the outputs found were those created, and no undo step was surprised. */
  predicate DisconnectClean(m: Plain, txs: seq<Tx>, undos: seq<seq<InUndo>>, nHeight: int)
    requires Shapes(txs, undos)
    decreases |txs|
  {
    txs == [] || (DisconnectClean(m, txs[1..], undos[1..], nHeight)
                  && UndoTxClean(Disconnect(m, txs[1..], undos[1..]), txs[0], undos[0], nHeight))
  }

  /** What the validity rules demand of each transaction in its turn: an id with nothing unspent, no
      null output, inputs that are there, none repeated. */
  predicate Applicable(m: Plain, tx: Tx) {
    && tx.txid !in m
    && (forall i :: 0 <= i < |tx.vout| ==> !tx.vout[i].IsNull())
    && HaveInputs(m, tx) && DistinctInputs(Inputs(tx))
  }

  predicate Connectable(m: Plain, txs: seq<Tx>, nHeight: int)
    decreases |txs|
  {
    txs == [] || (Applicable(m, txs[0]) && Connectable(UpdateCoins(m, txs[0], nHeight).0, txs[1..], nHeight))
  }

  /** The ids whose last output the block spends. */
  function Lost(m: Plain, txs: seq<Tx>, nHeight: int): set<Hash>
    decreases |txs|
  {
    if txs == [] then {}
    else LostByAll(m, Inputs(txs[0])) + Lost(UpdateCoins(m, txs[0], nHeight).0, txs[1..], nHeight)
  }

  /** A coinstake that leaves coins behind: the kind of transaction that has a flag to lose. */
  predicate HasFlag(tx: Tx, nHeight: int) {
    tx.IsCoinStake() && !FromTx(tx, nHeight).IsPruned()
  }

  /** No coinstake of the block has its last output spent by a later transaction of the block. */
  predicate FlagsKept(m: Plain, txs: seq<Tx>, nHeight: int)
    decreases |txs|
  {
    txs == [] ||
    var m1 := UpdateCoins(m, txs[0], nHeight).0;
    (HasFlag(txs[0], nHeight) ==> txs[0].txid !in Lost(m1, txs[1..], nHeight)) && FlagsKept(m1, txs[1..], nHeight)
  }

  lemma UpdateCoinsGood(m: Plain, tx: Tx, nHeight: int)
    requires Good(m) && Applicable(m, tx) && nHeight > 0
    ensures Good(UpdateCoins(m, tx, nHeight).0) && Spendable(m, Inputs(tx))
  {
    SpendAllGood(m, Inputs(tx));
    AvailableIsSpendable(m, Inputs(tx));
    FromTxClean(tx, nHeight);
    SetGood(SpendAll(m, Inputs(tx)).0, tx.txid, FromTx(tx, nHeight));
  }

  /** The output that a map shows at an index, null if none can be spent there. */
  function Output(m: Plain, out: OutPoint): TxOut {
    var c := PlainGet(m, out.hash);
    if CanSpend(c, out.n) then c.vout[out.n] else NULL_OUT
  }

  /** Height, version and flags of an entry. */
  function Metadata(c: Coins): Coins {
    c.(vout := [])
  }

  lemma SpentElsewhere(c: Coins, n: nat, i: nat)
    requires CanSpend(c, n) && i != n
    ensures var c' := SpendOut(c, n).0;
      (CanSpend(c', i) <==> CanSpend(c, i)) && (CanSpend(c, i) ==> c'.vout[i] == c.vout[i]) && !CanSpend(c', n)
  {
    var spent := c.vout[n := NULL_OUT];
    var t := Trim(spent);
    assert i < |c.vout| ==> spent[i] == c.vout[i];
    assert i < |t| ==> t[i] == spent[i];
    assert n < |t| ==> t[n] == spent[n];
  }

  lemma SpendOneExactly(m: Plain, out: OutPoint)
    requires CanSpend(PlainGet(m, out.hash), out.n)
    ensures forall o: OutPoint :: Output(SpendOne(m, out).0, o) == if o == out then NULL_OUT else Output(m, o)
    ensures var m' := SpendOne(m, out).0; m'.Keys <= m.Keys && forall h :: h in m' ==> Metadata(m'[h]) == Metadata(m[h])
  {
    var m' := SpendOne(m, out).0;
    var c' := SpendOut(m[out.hash], out.n).0;
    SpendOutIsTrimmed(m[out.hash], out.n);
    hide SpendOut, Trim, CanSpend;
    forall o: OutPoint ensures Output(m', o) == if o == out then NULL_OUT else Output(m, o) {
      if o.hash == out.hash {
        SetGet(m, out.hash, c');
        NothingInNone(o.n);
        if o != out {
          SpentElsewhere(m[out.hash], out.n, o.n);
        } else {
          SpentHere(m[out.hash], out.n);
        }
        PrunedHasNone(c', o.n);
      }
    }
  }

  lemma SpendOutIsTrimmed(c: Coins, n: nat)
    requires CanSpend(c, n)
    ensures var c' := SpendOut(c, n).0; Cleanup(c') == c' && Metadata(c') == Metadata(c)
  {
    var t := Trim(c.vout[n := NULL_OUT]);
    TrimUnique(t, |t|);
    assert t[..|t|] == t;
  }

  lemma SpentHere(c: Coins, n: nat)
    requires CanSpend(c, n)
    ensures !CanSpend(SpendOut(c, n).0, n)
  {
    var spent := c.vout[n := NULL_OUT];
    assert n < |Trim(spent)| ==> Trim(spent)[n] == spent[n];
  }

  lemma NothingInNone(n: nat)
    ensures !CanSpend(NO_COINS, n)
  {
  }

  lemma PrunedHasNone(c: Coins, n: nat)
    ensures c.IsPruned() ==> !CanSpend(c, n)
  {
  }

  predicate Among(vin: seq<TxIn>, o: OutPoint) {
    exists i :: 0 <= i < |vin| && vin[i].prevout == o
  }

  lemma {:induction false} SpendAllExactly(m: Plain, vin: seq<TxIn>)
    requires Spendable(m, vin)
    ensures forall o: OutPoint :: Output(SpendAll(m, vin).0, o) == if Among(vin, o) then NULL_OUT else Output(m, o)
    ensures var m' := SpendAll(m, vin).0; m'.Keys <= m.Keys && forall h :: h in m' ==> Metadata(m'[h]) == Metadata(m[h])
    decreases |vin|
  {
    if vin != [] {
      var m1 := SpendOne(m, vin[0].prevout).0;
      SpendOneExactly(m, vin[0].prevout);
      SpendAllExactly(m1, vin[1..]);
      hide SpendOne, Output, Metadata, Among;
      forall o: OutPoint ensures Output(SpendAll(m, vin).0, o) == if Among(vin, o) then NULL_OUT else Output(m, o) {
        AmongFirst(vin, o);
      }
    }
  }

  lemma AmongFirst(vin: seq<TxIn>, o: OutPoint)
    requires vin != []
    ensures Among(vin, o) <==> vin[0].prevout == o || Among(vin[1..], o)
  {
    if i :| 1 <= i < |vin| && vin[i].prevout == o {
      assert vin[1..][i - 1].prevout == o;
    }
  }

  lemma SetOutputs(m: Plain, txid: Hash, c: Coins)
    requires Cleanup(c) == c
    ensures forall o: OutPoint :: Output(PlainSet(m, txid, c), o) ==
              if o.hash != txid then Output(m, o) else if CanSpend(c, o.n) then c.vout[o.n] else NULL_OUT
    ensures var m' := PlainSet(m, txid, c);
      m'.Keys <= m.Keys + {txid} && (txid in m' ==> m'[txid] == c) && forall h :: h != txid && h in m' ==> h in m && m'[h] == m[h]
  {
    forall o: OutPoint ensures Output(PlainSet(m, txid, c), o) ==
      if o.hash != txid then Output(m, o) else if CanSpend(c, o.n) then c.vout[o.n] else NULL_OUT
    {
      PrunedHasNone(c, o.n);
      NothingInNone(o.n);
    }
  }

  /** What a transaction does to the unspent outputs: those it spends are gone, its own that can ever be
      spent are there, and every other one is what it was; so is what else is known of every entry. */
  lemma UpdateCoinsExactly(m: Plain, tx: Tx, nHeight: int)
    requires Good(m) && Applicable(m, tx) && nHeight > 0
    ensures var m' := UpdateCoins(m, tx, nHeight).0;
      && (forall o: OutPoint :: Output(m', o) ==
            if o.hash == tx.txid then (if o.n < |tx.vout| && !tx.vout[o.n].IsUnspendable() then tx.vout[o.n] else NULL_OUT)
            else if Among(Inputs(tx), o) then NULL_OUT else Output(m, o))
      && m'.Keys <= m.Keys + {tx.txid}
      && (forall h :: h in m' && h != tx.txid ==> Metadata(m'[h]) == Metadata(m[h]))
      && (tx.txid in m' ==> Metadata(m'[tx.txid]) == Coins(tx.IsCoinBase(), tx.IsCoinStake(), [], nHeight, tx.nVersion))
  {
    UpdateCoinsGood(m, tx, nHeight);
    SpendAllExactly(m, Inputs(tx));
    var m1, c := SpendAll(m, Inputs(tx)).0, FromTx(tx, nHeight);
    CreatedOutputs(tx, nHeight);
    SetOutputs(m1, tx.txid, c);
    hide Good, Applicable, Inputs, SpendAll, FromTx, Output, Among, PlainSet, CanSpend, Metadata, TxOut.IsUnspendable;
  }

  lemma CreatedOutputs(tx: Tx, nHeight: int)
    requires forall i :: 0 <= i < |tx.vout| ==> !tx.vout[i].IsNull()
    ensures var c := FromTx(tx, nHeight);
      && Cleanup(c) == c && Metadata(c) == Coins(tx.IsCoinBase(), tx.IsCoinStake(), [], nHeight, tx.nVersion)
      && forall n: nat :: (if CanSpend(c, n) then c.vout[n] else NULL_OUT) ==
                          (if n < |tx.vout| && !tx.vout[n].IsUnspendable() then tx.vout[n] else NULL_OUT)
  {
    FromTxExactly(tx, nHeight);
    FromTxClean(tx, nHeight);
    hide FromTx, Cleanup, TxOut.IsUnspendable;
  }

  /** Entries hold no unspendable output.  For such a one the comparison tells exactly whether the coins
      found are those that the transaction created. */
  lemma OutputsMatchExactly(found: Coins, tx: Tx, nHeight: int)
    requires found.Clean() && forall i :: 0 <= i < |found.vout| ==> !found.vout[i].IsUnspendable()
    requires forall i :: 0 <= i < |tx.vout| ==> !tx.vout[i].IsNull()
    requires tx.nVersion >= 0
    ensures OutputsMatch(found, tx, nHeight) <==> found == FromTx(tx, nHeight) || (found.IsPruned() && FromTx(tx, nHeight).IsPruned())
  {
    FromTxClean(tx, nHeight);
    assert NullUnspendable(found.vout) == found.vout;
    TrimUnique(found.vout, |found.vout|);
    assert found.vout[..|found.vout|] == found.vout;
    hide FromTx;
  }

  lemma {:induction false} SpendAllAddsNone(m: Plain, vin: seq<TxIn>, txid: Hash)
    requires txid !in m
    ensures txid !in SpendAll(m, vin).0
    decreases |vin|
  {
    if vin != [] {
      SpendAllAddsNone(SpendOne(m, vin[0].prevout).0, vin[1..], txid);
    }
  }

  /** Undoing a transaction, on coins that have already lost some flags. */
  lemma UndoTxRestores(m: Plain, tx: Tx, nHeight: int, lost: set<Hash>)
    requires Good(m) && Applicable(m, tx) && nHeight > 0
    ensures var (m', undos) := UpdateCoins(m, tx, nHeight);
      && UndoTx(Strip(m', lost), tx, undos) == Strip(m, LostByAll(m, Inputs(tx)) + lost)
      && (UndoTxClean(Strip(m', lost), tx, undos, nHeight) <==> (HasFlag(tx, nHeight) ==> tx.txid !in lost))
  {
    UpdateCoinsGood(m, tx, nHeight);
    var m1, undos := SpendAll(m, Inputs(tx)).0, SpendAll(m, Inputs(tx)).1;
    SpendAllAddsNone(m, Inputs(tx), tx.txid);
    StripWithout(m1, tx.txid, FromTx(tx, nHeight), lost);
    UndoAllStripped(m1, lost, Inputs(tx), undos);
    UndoAllRestores(m, Inputs(tx));
    StripTwice(m, LostByAll(m, Inputs(tx)), lost);
    OutputsMatchStripped(m1, tx, nHeight, lost);
  }

  lemma StripWithout(m: Plain, txid: Hash, c: Coins, lost: set<Hash>)
    requires txid !in m
    ensures Strip(PlainSet(m, txid, c), lost) - {txid} == Strip(m, lost)
  {
  }

  lemma OutputsMatchStripped(m: Plain, tx: Tx, nHeight: int, lost: set<Hash>)
    requires tx.txid !in m && forall i :: 0 <= i < |tx.vout| ==> !tx.vout[i].IsNull()
    ensures var m' := PlainSet(m, tx.txid, FromTx(tx, nHeight));
      OutputsMatch(PlainGet(Strip(m', lost), tx.txid), tx, nHeight) <==> (HasFlag(tx, nHeight) ==> tx.txid !in lost)
  {
    var c := FromTx(tx, nHeight);
    FromTxClean(tx, nHeight);
    var found := PlainGet(Strip(PlainSet(m, tx.txid, c), lost), tx.txid);
    if c.IsPruned() {
      assert found == NO_COINS;
    } else {
      assert found == if tx.txid in lost then c.(fCoinStake := false) else c;
      assert ClearUnspendable(c.(fCoinStake := false)) == c.(fCoinStake := false);
    }
  }

  /** Disconnecting a block just connected gives back every entry: outputs, coinbase flag, height
      and version.  Only the coinstake flag of an entry whose last output the block spent is lost.
      And the block is reported clean exactly when that happened to none of its own coinstakes. */
  lemma {:induction false} DisconnectUndoesConnect(m: Plain, txs: seq<Tx>, nHeight: int)
    requires Good(m) && Connectable(m, txs, nHeight) && nHeight > 0
    ensures var (m', undos) := Connect(m, txs, nHeight);
      && Disconnect(m', txs, undos) == Strip(m, Lost(m, txs, nHeight))
      && (DisconnectClean(m', txs, undos, nHeight) <==> FlagsKept(m, txs, nHeight))
    decreases |txs|
  {
    if txs == [] {
      assert Strip(m, {}) == m;
    } else {
      var m1, undo := UpdateCoins(m, txs[0], nHeight).0, UpdateCoins(m, txs[0], nHeight).1;
      UpdateCoinsGood(m, txs[0], nHeight);
      DisconnectUndoesConnect(m1, txs[1..], nHeight);
      UndoTxRestores(m, txs[0], nHeight, Lost(m1, txs[1..], nHeight));
      assert Connect(m, txs, nHeight).1[1..] == Connect(m1, txs[1..], nHeight).1;
    }
  }

  // ----- the undo data of a block just connected

  /** Every undo step finds what it expects: the condition under which the data fits the coins. */
  predicate Expected(m: Plain, txs: seq<Tx>, undos: seq<seq<InUndo>>)
    requires Shapes(txs, undos)
    decreases |txs|
  {
    txs == [] || (Expected(m, txs[1..], undos[1..])
                  && UndoAllClean(Disconnect(m, txs[1..], undos[1..]) - {txs[0].txid}, Inputs(txs[0]), undos[0]))
  }

  /** It fits the coins the block leaves. */
  lemma {:induction false} ConnectExpected(m: Plain, txs: seq<Tx>, nHeight: int)
    requires Good(m) && Connectable(m, txs, nHeight) && nHeight > 0
    ensures Expected(Connect(m, txs, nHeight).0, txs, Connect(m, txs, nHeight).1)
    decreases |txs|
  {
    if txs != [] {
      var m1, undo := UpdateCoins(m, txs[0], nHeight).0, UpdateCoins(m, txs[0], nHeight).1;
      UpdateCoinsGood(m, txs[0], nHeight);
      ConnectExpected(m1, txs[1..], nHeight);
      DisconnectUndoesConnect(m1, txs[1..], nHeight);
      UndoTxExpected(m, txs[0], nHeight, Lost(m1, txs[1..], nHeight));
      assert Connect(m, txs, nHeight).1[1..] == Connect(m1, txs[1..], nHeight).1;
    }
  }

  lemma UndoTxExpected(m: Plain, tx: Tx, nHeight: int, lost: set<Hash>)
    requires Good(m) && Applicable(m, tx) && nHeight > 0
    ensures var (m', undos) := UpdateCoins(m, tx, nHeight);
      UndoAllClean(Strip(m', lost) - {tx.txid}, Inputs(tx), undos)
  {
    UpdateCoinsGood(m, tx, nHeight);
    var m1, undos := SpendAll(m, Inputs(tx)).0, SpendAll(m, Inputs(tx)).1;
    SpendAllAddsNone(m, Inputs(tx), tx.txid);
    StripWithout(m1, tx.txid, FromTx(tx, nHeight), lost);
    UndoAllStripped(m1, lost, Inputs(tx), undos);
    UndoAllRestores(m, Inputs(tx));
  }

  predicate NoneNull(undos: seq<InUndo>) {
    forall i :: 0 <= i < |undos| ==> !undos[i].txout.IsNull()
  }

  lemma {:induction false} SpentOutputs(m: Plain, vin: seq<TxIn>)
    requires Spendable(m, vin)
    ensures NoneNull(SpendAll(m, vin).1)
    decreases |vin|
  {
    if vin != [] {
      SpentOutputs(SpendOne(m, vin[0].prevout).0, vin[1..]);
    }
  }

  /** It holds an output for each input that spends one, and nothing else. */
  lemma {:induction false} ConnectUndos(m: Plain, txs: seq<Tx>, nHeight: int)
    requires Good(m) && Connectable(m, txs, nHeight) && nHeight > 0
    ensures var undos := Connect(m, txs, nHeight).1;
      |undos| == |txs| && forall i :: 0 <= i < |txs| ==> NoneNull(undos[i]) && |undos[i]| == |Inputs(txs[i])|
    decreases |txs|
  {
    if txs != [] {
      UpdateCoinsGood(m, txs[0], nHeight);
      SpentOutputs(m, Inputs(txs[0]));
      hide NoneNull;
      ConnectUndos(UpdateCoins(m, txs[0], nHeight).0, txs[1..], nHeight);
    }
  }

  lemma StripChanges(m: Plain, lost: set<Hash>)
    ensures Strip(m, lost) == m <==> forall txid :: txid in m && txid in lost ==> !m[txid].fCoinStake
  {
    if Strip(m, lost) == m {
      forall txid | txid in m && txid in lost ensures !m[txid].fCoinStake {
        assert Strip(m, lost)[txid] == m[txid];
      }
    }
  }

  /** So the coins come back exactly as they were if and only if no coinstake among them was spent
      to its last output. */
  lemma RestoredExactlyWhen(m: Plain, txs: seq<Tx>, nHeight: int)
    requires Good(m) && Connectable(m, txs, nHeight) && nHeight > 0
    ensures Disconnect(Connect(m, txs, nHeight).0, txs, Connect(m, txs, nHeight).1) == m
      <==> forall txid :: txid in m && txid in Lost(m, txs, nHeight) ==> !m[txid].fCoinStake
  {
    DisconnectUndoesConnect(m, txs, nHeight);
    StripChanges(m, Lost(m, txs, nHeight));
  }

  // ----- a block that loses a flag

  const SCRIPT: seq<Byte> := [0x51]

  /** A coinstake of two outputs, the first one empty as the rules want it. */
  function StakeTx(txid: Hash, vin: seq<TxIn>, nValue: int): Tx {
    Tx(txid, vin, [TxOut(0, []), TxOut(nValue, SCRIPT)], 1)
  }

  /** It leaves both outputs behind. */
  lemma StakeCoins(txid: Hash, vin: seq<TxIn>, nValue: nat, nHeight: int)
    requires vin != [] && !vin[0].prevout.IsNull()
    ensures var tx := StakeTx(txid, vin, nValue);
      && tx.IsCoinStake() && !tx.IsCoinBase() && !tx.IsZerocoinSpend()
      && FromTx(tx, nHeight) == Coins(false, true, tx.vout, nHeight, 1)
  {
    var tx := StakeTx(txid, vin, nValue);
    assert NullUnspendable(tx.vout) == tx.vout;
    TrimUnique(tx.vout, 2);
    assert tx.vout[..2] == tx.vout;
  }

  /** Spending both outputs prunes the coins. */
  lemma StakeSpent(m: Plain, txid: Hash, vin: seq<TxIn>)
    requires txid in m && m[txid].Clean() && |m[txid].vout| == 2 && CanSpend(m[txid], 0) && CanSpend(m[txid], 1)
    requires |vin| == 2 && vin[0].prevout == OutPoint(txid, 1) && vin[1].prevout == OutPoint(txid, 0)
    ensures txid in LostByAll(m, vin)
  {
    var c := m[txid];
    var c1 := SpendOut(c, 1).0;
    TrimUnique(c.vout[1 := NULL_OUT], 1);
    assert c1.vout == c.vout[..1];
    var m1 := SpendOne(m, vin[0].prevout).0;
    TrimUnique(c1.vout, 1);
    assert m1[txid] == c1;
    TrimUnique(c1.vout[0 := NULL_OUT], 0);
    assert txid in LostByOne(m1, vin[1].prevout);
    assert vin[1..][0] == vin[1];
  }

  /** A coinbase and a transaction after it, connected. */
  lemma TwoConnected(m: Plain, base: Tx, next: Tx, nHeight: int)
    requires base.IsCoinBase() && Applicable(m, base)
    requires Applicable(UpdateCoins(m, base, nHeight).0, next)
    ensures Connectable(m, [base, next], nHeight)
    ensures LostByAll(UpdateCoins(m, base, nHeight).0, Inputs(next)) <= Lost(m, [base, next], nHeight)
  {
    var txs := [base, next];
    assert txs[1..] == [next] && txs[1..][1..] == [];
  }

  /** The coinbase of a proof-of-stake block, which pays nothing. */
  function EmptyBase(txid: Hash): Tx {
    Tx(txid, [TxIn(OutPoint(0, 0xffffffff), SCRIPT)], [TxOut(0, [])], 1)
  }

  lemma EmptyBaseAdds(m: Plain, txid: Hash, nHeight: int)
    requires txid !in m
    ensures var tx := EmptyBase(txid);
      && tx.IsCoinBase() && !SpendsCoins(tx) && Applicable(m, tx)
      && UpdateCoins(m, tx, nHeight).0 == m[txid := Coins(true, false, tx.vout, nHeight, 1)]
  {
    var tx := EmptyBase(txid);
    assert NullUnspendable(tx.vout) == tx.vout;
    TrimUnique(tx.vout, 1);
    assert tx.vout[..1] == tx.vout;
  }

  /** The inputs that spend both outputs of a coinstake, last one first. */
  function SpendBoth(txid: Hash): (vin: seq<TxIn>)
    ensures vin != [] && (txid != 0 ==> !vin[0].prevout.IsNull())
  {
    [TxIn(OutPoint(txid, 1), SCRIPT), TxIn(OutPoint(txid, 0), SCRIPT)]
  }

  lemma SpendBothApplicable(m: Plain, stake: Tx, txid: Hash, nHeight: int)
    requires stake == StakeTx(stake.txid, stake.vin, 500) && stake.txid != 0 && txid !in m
    requires stake.txid in m && m[stake.txid] == Coins(false, true, stake.vout, nHeight, 1)
    ensures var tx := StakeTx(txid, SpendBoth(stake.txid), 600);
      Applicable(m, tx) && Inputs(tx) == tx.vin && stake.txid in LostByAll(m, Inputs(tx))
  {
    var tx := StakeTx(txid, SpendBoth(stake.txid), 600);
    StakeCoins(txid, tx.vin, 600, nHeight);
    hide LostByAll, Trim, Tx.ContainsZerocoins, Tx.IsCoinBase, Tx.IsZerocoinSpend, Tx.IsCoinStake;
    assert !stake.vout[0].IsNull() && !stake.vout[1].IsNull();
    StakeSpent(m, stake.txid, tx.vin);
  }

  lemma OneEntryGood(txid: Hash, c: Coins)
    requires c.Clean() && !c.IsPruned() && c.nHeight > 0
    ensures Good(map[txid := c])
    ensures Strip(map[txid := c], {}) == map[txid := c]
    ensures forall lost: set<Hash> :: txid in lost ==> Strip(map[txid := c], lost) == map[txid := c.(fCoinStake := false)]
  {
  }

  /** What an old coinstake left, and a block of a coinbase and a coinstake that spends it all. */
  lemma StakeBlock(stake: Tx, base: Tx, next: Tx)
    requires stake == StakeTx(7, SpendBoth(3), 500) && base == EmptyBase(8) && next == StakeTx(9, SpendBoth(7), 600)
    ensures stake.txid == 7 && stake.IsCoinStake() && base.IsCoinBase() && !SpendsCoins(base) && next.IsCoinStake()
    ensures base.vin != [] && base.vout != [] && next.vin != [] && next.vout != []
    ensures var c := FromTx(stake, 1000);
      c.fCoinStake && c == Coins(false, true, stake.vout, 1000, 1) && c.Clean() && !c.IsPruned()
  {
    StakeCoins(7, stake.vin, 500, 1000);
    StakeCoins(9, next.vin, 600, 2000);
    assert !stake.vout[0].IsNull();
  }

  lemma StakeBlockConnects(m: Plain, stake: Tx, base: Tx, next: Tx)
    requires stake == StakeTx(7, SpendBoth(3), 500) && base == EmptyBase(8) && next == StakeTx(9, SpendBoth(7), 600)
    requires m == map[7 := Coins(false, true, stake.vout, 1000, 1)]
    ensures Connectable(m, [base, next], 2000) && 7 in Lost(m, [base, next], 2000)
  {
    EmptyBaseAdds(m, 8, 2000);
    var m1 := UpdateCoins(m, base, 2000).0;
    hide FromTx, LostByAll, Lost, Connectable, Applicable, UpdateCoins;
    SpendBothApplicable(m1, stake, 9, 1000);
    TwoConnected(m, base, next, 2000);
  }

  /** A proof-of-stake block, of a coinbase and a coinstake, over what an old coinstake left: the new one
      spends both outputs of the old one, so undoing the block loses the old one's flag. */
  lemma CoinStakeFlagIsLost() returns (m: Plain, stake: Tx, txs: seq<Tx>)
    ensures stake.IsCoinStake() && m == map[stake.txid := FromTx(stake, 1000)]
    ensures |txs| == 2 && txs[0].IsCoinBase() && !SpendsCoins(txs[0]) && txs[1].IsCoinStake()
    ensures forall i :: 0 <= i < |txs| ==> txs[i].vin != [] && txs[i].vout != []
    ensures Good(m) && Connectable(m, txs, 2000)
    ensures m[stake.txid].fCoinStake
    ensures Disconnect(Connect(m, txs, 2000).0, txs, Connect(m, txs, 2000).1) == map[stake.txid := m[stake.txid].(fCoinStake := false)]
  {
    hide *;
    stake := StakeTx(7, SpendBoth(3), 500);
    var base, next := EmptyBase(8), StakeTx(9, SpendBoth(7), 600);
    StakeBlock(stake, base, next);
    var c := FromTx(stake, 1000);
    m, txs := map[7 := c], [base, next];
    OneEntryGood(7, c);
    StakeBlockConnects(m, stake, base, next);
    DisconnectUndoesConnect(m, txs, 2000);
  }
}
