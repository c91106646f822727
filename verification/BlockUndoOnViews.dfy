/** The loops of src/main.cpp that apply a block to a coin cache and take it back, each proved against
    its account on plain maps in BlockUndo.  The ghost map `m` is what the cache shows on entry. */
module BlockUndoOnViews {
  import opened Wrappers
  import opened Coins
  import opened CoinsView
  import opened CoinsViewCaches
  import B = BlockUndo

  ghost predicate Shows(v: View, m: Plain) {
    forall txid :: Unspent(v, txid) == Find(m, txid)
  }

  /** A cache that may be used: consistent, with no modifier outstanding. */
  ghost predicate Ready(view: CCoinsViewCache)
    reads view.Repr
  {
    view.Valid() && view in view.Repr && Consistent(view.View()) && NoModifiers(view.View())
  }

  ghost predicate Showing(view: CCoinsViewCache, m: Plain)
    reads view.Repr
  {
    Ready(view) && Shows(view.View(), m)
  }

  /** Opens an entry; what it holds is what the cache showed, or pruned when it showed nothing. */
  method OpenEntry(view: CCoinsViewCache, txid: Hash, ghost m: Plain) returns (coins: CCoins)
    requires Ready(view)
    modifies view.Repr
    ensures view.Valid() && fresh(coins) && view.hasModifier && txid in view.cacheCoins && view.cacheCoins[txid].fDirty
    ensures Consistent(view.View()) && NoModifiers(view.View().base) && coins.Value().Clean()
    ensures Shows(old(view.View()), m) ==> Shows(view.View(), m) && Norm(Some(coins.Value())) == Find(m, txid)
  {
    ghost var v := view.View();
    BeginModifyKeeps(v, txid);
    coins := view.ModifyCoins(txid);
    assert EntryOk(view.View().base, txid, view.View().cacheCoins[txid]);
    assert forall t :: Unspent(view.View(), t) == Unspent(v, t);
  }

  /** Closes it again. */
  method CloseEntry(view: CCoinsViewCache, txid: Hash, coins: CCoins, ghost m: Plain)
    requires view.Valid() && view.hasModifier && txid in view.cacheCoins && view.cacheCoins[txid].fDirty && coins !in view.Repr
    requires Consistent(view.View()) && NoModifiers(view.View().base) && NullsCanonical(coins.Value())
    modifies view, coins
    ensures Ready(view)
    ensures Shows(old(view.View()), m) ==> Shows(view.View(), PlainSet(m, txid, old(coins.Value())))
  {
    ghost var v, c := view.View(), coins.Value();
    EndModifySets(v, txid, c);
    view.ReleaseModifier(txid, coins);
    if Shows(v, m) {
      forall t ensures Unspent(view.View(), t) == Find(PlainSet(m, txid, c), t) {
        PlainSetShows(m, txid, c, t);
      }
    }
  }

  /** One input: `ModifyCoins(...)->Spend(...)`. */
  method SpendInput(view: CCoinsViewCache, out: OutPoint, ghost m: Plain) returns (ret: bool, undo: InUndo)
    requires Showing(view, m) && CanSpend(PlainGet(m, out.hash), out.n)
    modifies view.Repr
    ensures ret && Showing(view, B.SpendOne(m, out).0) && undo == B.SpendOne(m, out).1
  {
    var coins := OpenEntry(view, out.hash, m);
    assert coins.Value() == m[out.hash];
    SpendOutClean(coins.Value(), out.n);
    ret, undo := coins.Spend(out.n);
    CloseEntry(view, out.hash, coins, m);
  }

  /** The turn of input `i`, on the plain maps. */
  lemma SpendStep(m: Plain, vin: seq<TxIn>, i: nat)
    requires i < |vin| && B.Spendable(m, vin[i..])
    ensures CanSpend(PlainGet(m, vin[i].prevout.hash), vin[i].prevout.n)
    ensures var (m1, undo) := B.SpendOne(m, vin[i].prevout);
      && B.Spendable(m1, vin[i + 1..])
      && B.SpendAll(m, vin[i..]).0 == B.SpendAll(m1, vin[i + 1..]).0
      && B.SpendAll(m, vin[i..]).1 == [undo] + B.SpendAll(m1, vin[i + 1..]).1
  {
    assert vin[i..][0] == vin[i] && vin[i..][1..] == vin[i + 1..];
  }

  lemma SpendNone(m: Plain)
    ensures B.SpendAll(m, []) == (m, [])
  {
  }

  method SpendInputs(view: CCoinsViewCache, vin: seq<TxIn>, ghost m: Plain) returns (vprevout: seq<InUndo>)
    requires Showing(view, m) && B.Spendable(m, vin)
    modifies view.Repr
    ensures Showing(view, B.SpendAll(m, vin).0) && vprevout == B.SpendAll(m, vin).1
  {
    hide Ready, Showing, CanSpend, B.Spendable, B.SpendOne, B.SpendAll;
    vprevout := [];
    ghost var cur := m;
    assert vin[0..] == vin;
    for i := 0 to |vin|
      invariant Showing(view, cur) && B.Spendable(cur, vin[i..])
      invariant B.SpendAll(m, vin).0 == B.SpendAll(cur, vin[i..]).0
      invariant B.SpendAll(m, vin).1 == vprevout + B.SpendAll(cur, vin[i..]).1
    {
      SpendStep(cur, vin, i);
      var ret, undo := SpendInput(view, vin[i].prevout, cur);
      assert ret;
      vprevout := vprevout + [undo];
      cur := B.SpendOne(cur, vin[i].prevout).0;
    }
    assert vin[|vin|..] == [];
    SpendNone(cur);
  }

  /** What is found of an output through the view is what the map says. */
  lemma LookupAvailable(v: View, m: Plain, out: OutPoint)
    requires Shows(v, m)
    ensures (match Lookup(v, out.hash) case None => false case Some(c) => c.IsAvailable(out.n)) == PlainGet(m, out.hash).IsAvailable(out.n)
  {
    assert Unspent(v, out.hash) == Find(m, out.hash);
  }

  /** `HaveInputs`: reading through the caches leaves what they show, and answers for the map. */
  method HaveInputs(view: CCoinsViewCache, tx: Tx, ghost m: Plain) returns (have: bool)
    requires Showing(view, m)
    modifies view.Repr
    ensures Showing(view, m)
    ensures have <==> B.HaveInputs(m, tx)
  {
    if !tx.IsCoinBase() && !tx.IsZerocoinSpend() {
      for i := 0 to |tx.vin|
        invariant Showing(view, m)
        invariant forall j :: 0 <= j < i ==> PlainGet(m, tx.vin[j].prevout.hash).IsAvailable(tx.vin[j].prevout.n)
      {
        var prevout := tx.vin[i].prevout;
        FetchKeeps(view.View(), prevout.hash);
        LookupAvailable(view.View(), m, prevout);
        var coins := view.GetCoins(prevout.hash);
        if coins.None? || !coins.value.IsAvailable(prevout.n) {
          return false;
        }
      }
    }
    have := true;
  }

  method UpdateCoins(view: CCoinsViewCache, tx: Tx, nHeight: int, ghost m: Plain) returns (vprevout: seq<InUndo>)
    requires Showing(view, m) && B.Spendable(m, B.Inputs(tx))
    requires forall i :: 0 <= i < |tx.vout| ==> !tx.vout[i].IsNull()
    modifies view.Repr
    ensures Showing(view, B.UpdateCoins(m, tx, nHeight).0)
    ensures vprevout == B.UpdateCoins(m, tx, nHeight).1
  {
    vprevout := [];
    ghost var spent := B.SpendAll(m, B.Inputs(tx)).0;
    if !tx.IsCoinBase() && !tx.IsZerocoinSpend() {
      vprevout := SpendInputs(view, tx.vin, m);
    }
    var coins := OpenEntry(view, tx.txid, spent);
    FromTxClean(tx, nHeight);
    coins.FromTxInPlace(tx, nHeight);
    CloseEntry(view, tx.txid, coins, spent);
  }

  /** The turn of transaction `i`, on the plain maps. */
  lemma ConnectStep(m: Plain, vtx: seq<Tx>, i: nat, nHeight: int)
    requires i < |vtx| && B.Good(m) && B.Connectable(m, vtx[i..], nHeight) && nHeight > 0
    ensures B.Applicable(m, vtx[i]) && B.Spendable(m, B.Inputs(vtx[i]))
    ensures !B.SpendsCoins(vtx[i]) ==> B.UpdateCoins(m, vtx[i], nHeight).1 == []
    ensures var m1 := B.UpdateCoins(m, vtx[i], nHeight).0;
      && B.Good(m1) && B.Connectable(m1, vtx[i + 1..], nHeight)
      && B.Connect(m, vtx[i..], nHeight).0 == B.Connect(m1, vtx[i + 1..], nHeight).0
      && B.Connect(m, vtx[i..], nHeight).1 == [B.UpdateCoins(m, vtx[i], nHeight).1] + B.Connect(m1, vtx[i + 1..], nHeight).1
  {
    assert vtx[i..][0] == vtx[i] && vtx[i..][1..] == vtx[i + 1..];
    B.UpdateCoinsGood(m, vtx[i], nHeight);
  }

  lemma Joined<T>(a: seq<T>, b: seq<T>, c: seq<T>)
    ensures (a + b) + c == a + (b + c) && a + [] == a && [] + a == a
  {
  }

  lemma ConnectNone(m: Plain, nHeight: int)
    ensures B.Connect(m, [], nHeight) == (m, [])
  {
  }

  /** The part of `ConnectBlock` that moves coins: the first transaction's undo data is thrown away. */
  method ConnectCoins(view: CCoinsViewCache, vtx: seq<Tx>, nHeight: int, ghost m: Plain) returns (vtxundo: seq<seq<InUndo>>)
    requires Showing(view, m) && B.Good(m) && B.Connectable(m, vtx, nHeight) && nHeight > 0
    requires vtx != [] && !B.SpendsCoins(vtx[0])
    modifies view.Repr
    ensures Showing(view, B.Connect(m, vtx, nHeight).0)
    ensures [[]] + vtxundo == B.Connect(m, vtx, nHeight).1
  {
    hide Ready, Showing, B.Good, B.Applicable, B.Spendable, B.Connect, B.Connectable, B.UpdateCoins;
    vtxundo := [];
    ghost var cur := m;
    ghost var undos: seq<seq<InUndo>> := [];
    assert vtx[0..] == vtx;
    for i := 0 to |vtx|
      invariant Showing(view, cur) && B.Good(cur) && B.Connectable(cur, vtx[i..], nHeight)
      invariant if i == 0 then undos == [] && vtxundo == [] else undos == [[]] + vtxundo
      invariant B.Connect(m, vtx, nHeight).0 == B.Connect(cur, vtx[i..], nHeight).0
      invariant B.Connect(m, vtx, nHeight).1 == undos + B.Connect(cur, vtx[i..], nHeight).1
    {
      ConnectStep(cur, vtx, i, nHeight);
      var undo := UpdateCoins(view, vtx[i], nHeight, cur);
      cur := B.UpdateCoins(cur, vtx[i], nHeight).0;
      Joined(undos, [undo], B.Connect(cur, vtx[i + 1..], nHeight).1);
      if i > 0 {
        Joined([[]], vtxundo, [undo]);
        vtxundo := vtxundo + [undo];
      }
      undos := undos + [undo];
    }
    assert vtx[|vtx|..] == [];
    ConnectNone(cur, nHeight);
  }

  // ----- taking it back

  /** What an entry looks like through the map, whatever a pruned one still carries. */
  lemma PrunedLooksAbsent(c: Coins, m: Plain, txid: Hash, n: nat, undo: InUndo)
    requires Norm(Some(c)) == Find(m, txid)
    ensures UnspendIsClean(c, n, undo) == UnspendIsClean(PlainGet(m, txid), n, undo)
    ensures UnspendIsClean(c, n, undo) ==> Unspend(c, n, undo) == Unspend(PlainGet(m, txid), n, undo)
  {
    assert c.IsPruned() || c == PlainGet(m, txid);
  }

  lemma PrunedMatchesAbsent(c: Coins, m: Plain, tx: Tx, nHeight: int)
    requires Norm(Some(c)) == Find(m, tx.txid)
    ensures B.OutputsMatch(c, tx, nHeight) == B.OutputsMatch(PlainGet(m, tx.txid), tx, nHeight)
  {
    if c.IsPruned() {
      PrunedStaysPruned(c);
      PrunedStaysPruned(PlainGet(m, tx.txid));
    }
  }

  lemma PrunedStaysPruned(c: Coins)
    requires c.IsPruned()
    ensures ClearUnspendable(c).IsPruned()
  {
    var full := NullUnspendable(c.vout);
    assert forall i :: 0 <= i < |full| ==> full[i].IsNull();
  }

  /** The undo data by transaction: none for those that spend no coins. */
  function Undos(vtx: seq<Tx>, vtxundo: seq<seq<InUndo>>): (r: seq<seq<InUndo>>)
    requires |vtxundo| + 1 == |vtx|
    ensures |r| == |vtx|
  {
    seq(|vtx|, i requires 0 <= i < |vtx| => if i == 0 || !B.SpendsCoins(vtx[i]) then [] else vtxundo[i - 1])
  }

  method UndoInput(view: CCoinsViewCache, out: OutPoint, undo: InUndo, ghost m: Plain, ghost exact: bool) returns (clean: bool)
    requires Ready(view) && (exact ==> Showing(view, m)) && !undo.txout.IsNull()
    modifies view.Repr
    ensures Ready(view)
    ensures exact ==> clean == UnspendIsClean(PlainGet(m, out.hash), out.n, undo)
    ensures exact && clean ==> Showing(view, B.UndoOne(m, out, undo))
  {
    var coins := OpenEntry(view, out.hash, m);
    ghost var c := coins.Value();
    if exact {
      PrunedLooksAbsent(c, m, out.hash, out.n, undo);
    }
    clean := coins.UnspendInPlace(out.n, undo);
    assert NullsCanonical(coins.Value());
    CloseEntry(view, out.hash, coins, m);
  }

  /** Undoes the inputs of one transaction, last one first. */
  method UndoInputs(view: CCoinsViewCache, vin: seq<TxIn>, vprevout: seq<InUndo>, ghost m: Plain, ghost exact: bool)
    returns (fClean: bool)
    requires Ready(view) && (exact ==> Showing(view, m)) && |vprevout| == |vin|
    requires forall i :: 0 <= i < |vprevout| ==> !vprevout[i].txout.IsNull()
    modifies view.Repr
    ensures Ready(view)
    ensures exact ==> fClean == B.UndoAllClean(m, vin, vprevout)
    ensures exact && fClean ==> Showing(view, B.UndoAll(m, vin, vprevout))
  {
    hide Ready, Showing;
    fClean := true;
    var j := |vin|;
    while j > 0
      invariant 0 <= j <= |vin| && Ready(view)
      invariant exact ==> fClean == B.UndoAllClean(m, vin[j..], vprevout[j..])
      invariant exact && fClean ==> Showing(view, B.UndoAll(m, vin[j..], vprevout[j..]))
    {
      j := j - 1;
      assert vin[j..][1..] == vin[j + 1..] && vprevout[j..][1..] == vprevout[j + 1..];
      ghost var cur := B.UndoAll(m, vin[j + 1..], vprevout[j + 1..]);
      var clean := UndoInput(view, vin[j].prevout, vprevout[j], cur, exact && fClean);
      fClean := fClean && clean;
    }
    assert vin[0..] == vin && vprevout[0..] == vprevout;
  }

  /** Compares and removes what one transaction created. */
  method RemoveOutputs(view: CCoinsViewCache, tx: Tx, nHeight: int, ghost m: Plain, ghost exact: bool) returns (same: bool)
    requires Ready(view) && (exact ==> Showing(view, m))
    modifies view.Repr
    ensures Ready(view)
    ensures exact ==> same == B.OutputsMatch(PlainGet(m, tx.txid), tx, nHeight) && Showing(view, m - {tx.txid})
  {
    hide Shows, B.OutputsMatch, UnspendIsClean;
    var outs := OpenEntry(view, tx.txid, m);
    if exact {
      PrunedMatchesAbsent(outs.Value(), m, tx, nHeight);
    }
    same := CompareOutputs(outs, tx, nHeight);
    outs.Clear();
    CloseEntry(view, tx.txid, outs, m);
  }

  method CompareOutputs(outs: CCoins, tx: Tx, nHeight: int) returns (same: bool)
    modifies outs
    ensures same == B.OutputsMatch(old(outs.Value()), tx, nHeight)
  {
    outs.ClearUnspendableInPlace();
    var outsBlock := FromTx(tx, nHeight);
    if outsBlock.nVersion < 0 {
      outs.nVersion := outsBlock.nVersion;
    }
    same := Coins(outs.fCoinBase, outs.fCoinStake, outs.vout, outs.nHeight, outs.nVersion).Same(outsBlock);
  }

  /** The turn of transaction `i`, on the plain maps. */
  lemma DisconnectStep(m: Plain, vtx: seq<Tx>, undos: seq<seq<InUndo>>, i: nat, nHeight: int)
    requires |undos| == |vtx| && i < |vtx| && B.Shapes(vtx[i + 1..], undos[i + 1..])
    ensures B.Shapes(vtx[i..], undos[i..]) <==> |undos[i]| == |B.Inputs(vtx[i])|
    ensures |undos[i]| == |B.Inputs(vtx[i])| ==>
      var cur := B.Disconnect(m, vtx[i + 1..], undos[i + 1..]);
      && (B.Expected(m, vtx[i..], undos[i..])
          <==> B.Expected(m, vtx[i + 1..], undos[i + 1..]) && B.UndoAllClean(cur - {vtx[i].txid}, B.Inputs(vtx[i]), undos[i]))
      && B.Disconnect(m, vtx[i..], undos[i..]) == B.UndoAll(cur - {vtx[i].txid}, B.Inputs(vtx[i]), undos[i])
      && (B.DisconnectClean(m, vtx[i..], undos[i..], nHeight)
          <==> B.DisconnectClean(m, vtx[i + 1..], undos[i + 1..], nHeight) && B.UndoTxClean(cur, vtx[i], undos[i], nHeight))
  {
    assert vtx[i..][0] == vtx[i] && vtx[i..][1..] == vtx[i + 1..];
    assert undos[i..][0] == undos[i] && undos[i..][1..] == undos[i + 1..];
  }

  lemma DisconnectNone(m: Plain, nHeight: int)
    ensures B.Shapes([], []) && B.Expected(m, [], []) && B.Disconnect(m, [], []) == m && B.DisconnectClean(m, [], [], nHeight)
    ensures forall p: Plain :: B.UndoAll(p, [], []) == p && B.UndoAllClean(p, [], [])
  {
  }

  /** The coin loop of `DisconnectBlock`.  It gives up only when the undo data has the wrong shape;
      `fClean` then tells whether every comparison along the way came out as expected. */
  method DisconnectCoins(view: CCoinsViewCache, vtx: seq<Tx>, vtxundo: seq<seq<InUndo>>, nHeight: int, ghost m: Plain)
    returns (ok: bool, fClean: bool)
    requires Ready(view) && Showing(view, m)
    requires vtx != [] && !B.SpendsCoins(vtx[0])
    requires forall i, j :: 0 <= i < |vtxundo| && 0 <= j < |vtxundo[i]| ==> !vtxundo[i][j].txout.IsNull()
    modifies view.Repr
    ensures Ready(view)
    ensures ok <==> |vtxundo| + 1 == |vtx| && B.Shapes(vtx, Undos(vtx, vtxundo))
    ensures ok && fClean ==> B.Expected(m, vtx, Undos(vtx, vtxundo))
    ensures ok && B.Expected(m, vtx, Undos(vtx, vtxundo)) ==>
      && fClean == B.DisconnectClean(m, vtx, Undos(vtx, vtxundo), nHeight)
      && Showing(view, B.Disconnect(m, vtx, Undos(vtx, vtxundo)))
  {
    hide Ready, Showing, B.Shapes, B.Expected, B.Disconnect, B.DisconnectClean, B.UndoAll, B.UndoAllClean, B.OutputsMatch;
    fClean := true;
    if |vtxundo| + 1 != |vtx| {
      return false, fClean;
    }
    ghost var undos := Undos(vtx, vtxundo);
    var i := |vtx|;
    DisconnectNone(m, nHeight);
    assert vtx[|vtx|..] == [] && undos[|vtx|..] == [];
    while i > 0
      invariant 0 <= i <= |vtx| && Ready(view) && B.Shapes(vtx[i..], undos[i..])
      invariant fClean ==> B.Expected(m, vtx[i..], undos[i..])
      invariant B.Expected(m, vtx[i..], undos[i..]) ==>
        && fClean == B.DisconnectClean(m, vtx[i..], undos[i..], nHeight)
        && Showing(view, B.Disconnect(m, vtx[i..], undos[i..]))
    {
      i := i - 1;
      var tx := vtx[i];
      DisconnectStep(m, vtx, undos, i, nHeight);
      ghost var exact := B.Expected(m, vtx[i + 1..], undos[i + 1..]);
      ghost var cur := B.Disconnect(m, vtx[i + 1..], undos[i + 1..]);
      var same := RemoveOutputs(view, tx, nHeight, cur, exact);
      fClean := fClean && same;
      if !tx.IsCoinBase() && !tx.IsZerocoinSpend() {
        var vprevout := vtxundo[i - 1];
        if |vprevout| != |tx.vin| {
          ShapesSuffix(vtx, undos, i);
          return false, fClean;
        }
        var clean := UndoInputs(view, tx.vin, vprevout, cur - {tx.txid}, exact);
        fClean := fClean && clean;
      }
    }
    assert vtx[0..] == vtx && undos[0..] == undos;
    ok := true;
  }

  lemma {:induction false} ShapesSuffix(txs: seq<Tx>, undos: seq<seq<InUndo>>, i: nat)
    requires |undos| == |txs| && i < |txs| && |undos[i]| != |B.Inputs(txs[i])|
    ensures !B.Shapes(txs, undos)
    decreases i
  {
    if i > 0 {
      ShapesSuffix(txs[1..], undos[1..], i - 1);
    }
  }

  // ----- the two together

  /** A block connected and disconnected again, on the caches: they show what they showed, but for the
      flags that are lost, and it is reported clean exactly when the block lost none of its own. */
  method ConnectAndDisconnect(view: CCoinsViewCache, vtx: seq<Tx>, nHeight: int, ghost m: Plain) returns (fClean: bool)
    requires Showing(view, m) && B.Good(m) && B.Connectable(m, vtx, nHeight) && nHeight > 0
    requires vtx != [] && !B.SpendsCoins(vtx[0])
    modifies view.Repr
    ensures Showing(view, B.Strip(m, B.Lost(m, vtx, nHeight)))
    ensures fClean <==> B.FlagsKept(m, vtx, nHeight)
  {
    hide *;
    var vtxundo := ConnectCoins(view, vtx, nHeight, m);
    ghost var m', undos := B.Connect(m, vtx, nHeight).0, B.Connect(m, vtx, nHeight).1;
    B.ConnectUndos(m, vtx, nHeight);
    B.ConnectExpected(m, vtx, nHeight);
    B.DisconnectUndoesConnect(m, vtx, nHeight);
    UndosConnected(vtx, vtxundo, undos);
    ShowingIsReady(view, m');
    var ok;
    ok, fClean := DisconnectCoins(view, vtx, vtxundo, nHeight, m');
    assert ok;
  }

  lemma ShowingIsReady(view: CCoinsViewCache, m: Plain)
    requires Showing(view, m)
    ensures Ready(view)
  {
  }

  /** The undo data written, by transaction. */
  lemma UndosConnected(vtx: seq<Tx>, vtxundo: seq<seq<InUndo>>, undos: seq<seq<InUndo>>)
    requires [[]] + vtxundo == undos && |undos| == |vtx|
    requires forall i :: 0 <= i < |vtx| ==> B.NoneNull(undos[i]) && |undos[i]| == |B.Inputs(vtx[i])|
    ensures |vtxundo| + 1 == |vtx| && Undos(vtx, vtxundo) == undos
    ensures forall i, j :: 0 <= i < |vtxundo| && 0 <= j < |vtxundo[i]| ==> !vtxundo[i][j].txout.IsNull()
  {
    forall i | 0 <= i < |vtx| ensures Undos(vtx, vtxundo)[i] == undos[i] {
      assert undos[i] == if i == 0 then [] else vtxundo[i - 1];
    }
    forall i | 0 <= i < |vtxundo| ensures B.NoneNull(vtxundo[i]) {
      assert vtxundo[i] == undos[i + 1];
    }
  }
}
