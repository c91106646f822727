/** Transaction outputs and the coins a transaction leaves behind (src/coins.h, src/coins.cpp,
    src/primitives/transaction.h, src/undo.h).  `Coins` is the value; `CCoins` is the object whose
    methods edit one in place. */
module Coins {
  import Streams

  /** A uint256: a transaction id or a block hash.  Zero is the null hash. */
  type Hash = nat

  type Byte = Streams.Byte

  const OP_RETURN: Byte := 0x6a
  const OP_ZEROCOINMINT: Byte := 0xc1
  const OP_ZEROCOINSPEND: Byte := 0xc2
  const MAX_SCRIPT_SIZE := 129000

  datatype TxOut = TxOut(nValue: int, scriptPubKey: seq<Byte>) {
    predicate IsNull() {
      nValue == -1
    }

    predicate IsEmpty() {
      nValue == 0 && scriptPubKey == []
    }

    predicate IsUnspendable() {
      (|scriptPubKey| > 0 && scriptPubKey[0] == OP_RETURN) || |scriptPubKey| > MAX_SCRIPT_SIZE
    }

    predicate IsZerocoinMint() {
      |scriptPubKey| > 0 && scriptPubKey[0] == OP_ZEROCOINMINT
    }
  }

  const NULL_OUT := TxOut(-1, [])

  datatype OutPoint = OutPoint(hash: Hash, n: nat) {
    predicate IsNull() {
      hash == 0 && n == 0xffffffff
    }
  }

  datatype TxIn = TxIn(prevout: OutPoint, scriptSig: seq<Byte>)

  datatype Tx = Tx(txid: Hash, vin: seq<TxIn>, vout: seq<TxOut>, nVersion: int) {
    predicate IsZerocoinSpend() {
      |vin| > 0 && vin[0].prevout.IsNull() && |vin[0].scriptSig| > 0 && vin[0].scriptSig[0] == OP_ZEROCOINSPEND
    }

    predicate ContainsZerocoins() {
      IsZerocoinSpend() || exists i :: 0 <= i < |vout| && vout[i].IsZerocoinMint()
    }

    predicate IsCoinBase() {
      |vin| == 1 && vin[0].prevout.IsNull() && !ContainsZerocoins()
    }

    predicate IsCoinStake() {
      |vin| > 0 && !vin[0].prevout.IsNull() && |vout| >= 2 && vout[0].IsEmpty()
    }
  }

  /** Undo data of one spent output; the metadata is filled in when it was the last one. */
  datatype InUndo = InUndo(txout: TxOut, fCoinBase: bool, fCoinStake: bool, nHeight: int, nVersion: int)

  datatype Coins = Coins(fCoinBase: bool, fCoinStake: bool, vout: seq<TxOut>, nHeight: int, nVersion: int) {
    predicate IsPruned() {
      forall i :: 0 <= i < |vout| ==> vout[i].IsNull()
    }

    predicate IsAvailable(n: nat) {
      n < |vout| && !vout[n].IsNull() && !vout[n].IsZerocoinMint()
    }

    /** The source's operator==. */
    predicate Same(that: Coins) {
      (IsPruned() && that.IsPruned()) || this == that
    }

    /** What `Cleanup` leaves alone, with every null output in the form `SetNull` gives it. */
    predicate Clean() {
      && (vout != [] ==> !vout[|vout| - 1].IsNull())
      && forall i :: 0 <= i < |vout| ==> (vout[i].IsNull() ==> vout[i] == NULL_OUT)
    }
  }

  const NO_COINS := Coins(false, false, [], 0, 0)

  /** Drops null outputs from the end. */
  function Trim(vout: seq<TxOut>): (r: seq<TxOut>)
    ensures |r| <= |vout| && r == vout[..|r|]
    ensures r != [] ==> !r[|r| - 1].IsNull()
    ensures forall i :: |r| <= i < |vout| ==> vout[i].IsNull()
  {
    if vout != [] && vout[|vout| - 1].IsNull() then Trim(vout[..|vout| - 1]) else vout
  }

  /** Nothing else has these three properties. */
  lemma TrimUnique(vout: seq<TxOut>, k: nat)
    requires k <= |vout| && (k > 0 ==> !vout[k - 1].IsNull())
    requires forall i :: k <= i < |vout| ==> vout[i].IsNull()
    ensures Trim(vout) == vout[..k]
  {
    assert |Trim(vout)| == k;
  }

  function Cleanup(c: Coins): (r: Coins)
    ensures r.IsPruned() == c.IsPruned() == (r.vout == [])
  {
    var vout := Trim(c.vout);
    assert forall i :: 0 <= i < |vout| ==> vout[i] == c.vout[i];
    c.(vout := vout)
  }

  function NullUnspendable(vout: seq<TxOut>): (r: seq<TxOut>)
    ensures |r| == |vout|
  {
    seq(|vout|, i requires 0 <= i < |vout| => if vout[i].IsUnspendable() then NULL_OUT else vout[i])
  }

  function ClearUnspendable(c: Coins): Coins {
    Cleanup(c.(vout := NullUnspendable(c.vout)))
  }

  /** The coins a transaction creates. */
  function FromTx(tx: Tx, nHeight: int): Coins {
    ClearUnspendable(Coins(tx.IsCoinBase(), tx.IsCoinStake(), tx.vout, nHeight, tx.nVersion))
  }

  predicate CanSpend(c: Coins, n: nat) {
    n < |c.vout| && !c.vout[n].IsNull()
  }

  function SpendOut(c: Coins, n: nat): (Coins, InUndo)
    requires CanSpend(c, n)
  {
    var c' := Cleanup(c.(vout := c.vout[n := NULL_OUT]));
    var undo := if |c'.vout| == 0 then InUndo(c.vout[n], c.fCoinBase, c.fCoinStake, c.nHeight, c.nVersion)
                else InUndo(c.vout[n], false, false, 0, 0);
    (c', undo)
  }

  /** `resize(size)` when the vector is shorter. */
  function Grow(vout: seq<TxOut>, size: nat): (r: seq<TxOut>)
    ensures |r| == if size > |vout| then size else |vout|
    ensures forall i :: 0 <= i < |r| ==> r[i] == if i < |vout| then vout[i] else NULL_OUT
  {
    if |vout| < size then vout + seq(size - |vout|, _ => NULL_OUT) else vout
  }

  /** Putting one spent output back. */
  function Unspend(c: Coins, n: nat, undo: InUndo): Coins {
    var c' := if undo.nHeight != 0 then Coins(undo.fCoinBase, false, [], undo.nHeight, undo.nVersion) else c;
    c'.(vout := Grow(c'.vout, n + 1)[n := undo.txout])
  }

  /** Spending an output and putting it back restores the coins, except that `fCoinStake` of coins
      whose last output was spent comes back false. */
  lemma UnspendRestores(c: Coins, n: nat)
    requires c.Clean() && CanSpend(c, n) && c.nHeight > 0
    ensures var (c', undo) := SpendOut(c, n);
      Cleanup(Unspend(c', n, undo)) == if c'.IsPruned() then c.(fCoinStake := false) else c
  {
    var vout := c.vout[n := NULL_OUT];
    Regrown(c.vout, n, vout, Trim(vout));
    TrimUnique(c.vout, |c.vout|);
  }

  /** A vector cut after its last output, once output `n` is spent, and put together again. */
  lemma Regrown(vout: seq<TxOut>, n: nat, spent: seq<TxOut>, t: seq<TxOut>)
    requires n < |vout| && !vout[|vout| - 1].IsNull()
    requires forall i :: 0 <= i < |vout| ==> (vout[i].IsNull() ==> vout[i] == NULL_OUT)
    requires spent == vout[n := NULL_OUT] && |t| <= |spent| && t == spent[..|t|]
    requires forall i :: |t| <= i < |spent| ==> spent[i].IsNull()
    ensures Grow(t, n + 1)[n := vout[n]] == vout
  {
    var last := |vout| - 1;
    if n < last {
      assert spent[last] == vout[last];
    }
    forall i | 0 <= i < |vout| && i != n ensures Grow(t, n + 1)[i] == vout[i] {
      assert spent[i] == vout[i];
    }
  }

  lemma SpendOutClean(c: Coins, n: nat)
    requires c.Clean() && CanSpend(c, n)
    ensures var c' := SpendOut(c, n).0; c'.Clean() && Cleanup(c') == c' && c'.nHeight == c.nHeight
  {
  }

  /** The undo step meets what it expects right after the spend. */
  lemma SpentThenClean(c: Coins, n: nat)
    requires CanSpend(c, n) && c.nHeight > 0
    ensures var (c', undo) := SpendOut(c, n);
      && (c'.IsPruned() <==> undo.nHeight != 0) && !c'.IsAvailable(n)
  {
    var vout := c.vout[n := NULL_OUT];
    assert forall i :: 0 <= i < |Trim(vout)| ==> Trim(vout)[i] == vout[i];
  }

  /** Created coins are clean when the transaction has no null output. */
  lemma FromTxClean(tx: Tx, nHeight: int)
    requires forall i :: 0 <= i < |tx.vout| ==> !tx.vout[i].IsNull()
    ensures FromTx(tx, nHeight).Clean()
    ensures ClearUnspendable(FromTx(tx, nHeight)) == FromTx(tx, nHeight) == Cleanup(FromTx(tx, nHeight))
  {
    var c := FromTx(tx, nHeight);
    var full := NullUnspendable(tx.vout);
    assert c.vout == full[..|c.vout|];
    assert NullUnspendable(c.vout) == c.vout;
    TrimUnique(c.vout, |c.vout|);
  }

  /** Clearing makes the unspendable outputs null and cuts what is null at the end off; it touches no
      other output. */
  lemma ClearUnspendableExactly(c: Coins)
    ensures var r := ClearUnspendable(c);
      && r.(vout := c.vout) == c && |r.vout| <= |c.vout|
      && (forall i :: 0 <= i < |c.vout| && !c.vout[i].IsUnspendable() && !c.vout[i].IsNull() ==> i < |r.vout| && r.vout[i] == c.vout[i])
      && (forall i :: 0 <= i < |r.vout| && c.vout[i].IsUnspendable() ==> r.vout[i] == NULL_OUT)
      && (forall i :: 0 <= i < |r.vout| && !c.vout[i].IsUnspendable() ==> r.vout[i] == c.vout[i])
      && (forall i :: 0 <= i < |r.vout| ==> !r.vout[i].IsUnspendable())
      && (r.vout != [] ==> !r.vout[|r.vout| - 1].IsNull())
  {
    var full, r := NullUnspendable(c.vout), ClearUnspendable(c);
    assert r.vout == full[..|r.vout|];
    forall i | 0 <= i < |c.vout| && !c.vout[i].IsUnspendable() && !c.vout[i].IsNull() ensures i < |r.vout| {
      assert full[i] == c.vout[i];
    }
  }

  /** The coins of a transaction: its own flags, height and version, and exactly its outputs that can ever
      be spent. */
  lemma FromTxExactly(tx: Tx, nHeight: int)
    ensures var c := FromTx(tx, nHeight);
      && c.fCoinBase == tx.IsCoinBase() && c.fCoinStake == tx.IsCoinStake() && c.nHeight == nHeight && c.nVersion == tx.nVersion
      && (forall n: nat :: CanSpend(c, n) <==> n < |tx.vout| && !tx.vout[n].IsNull() && !tx.vout[n].IsUnspendable())
      && (forall n: nat :: CanSpend(c, n) ==> c.vout[n] == tx.vout[n])
  {
    ClearUnspendableExactly(Coins(tx.IsCoinBase(), tx.IsCoinStake(), tx.vout, nHeight, tx.nVersion));
  }

  /** The object behind an entry or a modifier. */
  class CCoins {
    var fCoinBase: bool
    var fCoinStake: bool
    var vout: seq<TxOut>
    var nHeight: int
    var nVersion: int

    ghost function Value(): Coins
      reads this
    {
      Coins(fCoinBase, fCoinStake, vout, nHeight, nVersion)
    }

    constructor (c: Coins)
      ensures Value() == c
    {
      fCoinBase, fCoinStake, vout, nHeight, nVersion := c.fCoinBase, c.fCoinStake, c.vout, c.nHeight, c.nVersion;
    }

    method Clear()
      modifies this
      ensures Value() == NO_COINS
    {
      fCoinBase, fCoinStake, vout, nHeight, nVersion := false, false, [], 0, 0;
    }

    method CleanupInPlace()
      modifies this
      ensures Value() == Cleanup(old(Value()))
    {
      while |vout| > 0 && vout[|vout| - 1].IsNull()
        invariant |vout| <= |old(vout)| && vout == old(vout)[..|vout|]
        invariant Value() == old(Value()).(vout := vout)
        invariant forall i :: |vout| <= i < |old(vout)| ==> old(vout)[i].IsNull()
      {
        vout := vout[..|vout| - 1];
      }
      TrimUnique(old(vout), |vout|);
    }

    method ClearUnspendableInPlace()
      modifies this
      ensures Value() == ClearUnspendable(old(Value()))
    {
      for i := 0 to |vout|
        invariant |vout| == |old(vout)| && Value() == old(Value()).(vout := vout)
        invariant forall k :: 0 <= k < i ==> vout[k] == NullUnspendable(old(vout))[k]
        invariant forall k :: i <= k < |vout| ==> vout[k] == old(vout)[k]
      {
        if vout[i].IsUnspendable() {
          vout := vout[i := NULL_OUT];
        }
      }
      assert vout == NullUnspendable(old(vout));
      CleanupInPlace();
    }

    method FromTxInPlace(tx: Tx, nHeightIn: int)
      modifies this
      ensures Value() == FromTx(tx, nHeightIn)
    {
      fCoinBase, fCoinStake := tx.IsCoinBase(), tx.IsCoinStake();
      vout, nHeight, nVersion := tx.vout, nHeightIn, tx.nVersion;
      ClearUnspendableInPlace();
    }

    /** Spends output `n`, or reports that there is nothing to spend and changes nothing. */
    method Spend(n: nat) returns (ok: bool, undo: InUndo)
      modifies this
      ensures ok == CanSpend(old(Value()), n)
      ensures ok ==> (Value(), undo) == SpendOut(old(Value()), n)
      ensures !ok ==> Value() == old(Value())
    {
      undo := InUndo(NULL_OUT, false, false, 0, 0);
      if n >= |vout| || vout[n].IsNull() {
        return false, undo;
      }
      undo := undo.(txout := vout[n]);
      vout := vout[n := NULL_OUT];
      CleanupInPlace();
      if |vout| == 0 {
        undo := undo.(nHeight := nHeight, fCoinBase := fCoinBase, fCoinStake := fCoinStake, nVersion := nVersion);
      }
      ok := true;
    }

    /** The undo step of `DisconnectBlock`; reports whether it met what it expected. */
    method UnspendInPlace(n: nat, undo: InUndo) returns (clean: bool)
      modifies this
      ensures Value() == Unspend(old(Value()), n, undo)
      ensures clean == UnspendIsClean(old(Value()), n, undo)
    {
      clean := true;
      if undo.nHeight != 0 {
        clean := AllNull(vout);
        Clear();
        fCoinBase, nHeight, nVersion := undo.fCoinBase, undo.nHeight, undo.nVersion;
      } else {
        clean := !AllNull(vout);
      }
      if n < |vout| && !vout[n].IsNull() && !vout[n].IsZerocoinMint() {
        clean := false;
      }
      vout := Grow(vout, n + 1);
      vout := vout[n := undo.txout];
    }

    static predicate AllNull(vout: seq<TxOut>) {
      forall i :: 0 <= i < |vout| ==> vout[i].IsNull()
    }
  }

  predicate UnspendIsClean(c: Coins, n: nat, undo: InUndo) {
    && (undo.nHeight != 0 <==> c.IsPruned())
    && (undo.nHeight == 0 ==> !c.IsAvailable(n))
  }

  /** An undo step reported as clean is one that spending the output again takes back: nothing was
      overwritten, and nothing was added to coins that are not there.  (A Zerocoin mint in its place would
      go unnoticed.) */
  lemma CleanIffReversible(c: Coins, n: nat, undo: InUndo)
    requires c.Clean() && (if c.IsPruned() then c == NO_COINS else c.nHeight > 0) && !undo.txout.IsNull() && undo.nHeight >= 0
    requires n < |c.vout| && c.vout[n].IsZerocoinMint() ==> c.vout[n].IsNull()
    ensures var r := Unspend(c, n, undo);
      && CanSpend(r, n)
      && (UnspendIsClean(c, n, undo) <==>
            r.nHeight > 0 && var back := SpendOut(r, n).0; if c.IsPruned() then back.IsPruned() else back == c)
  {
    hide Trim, Grow;
    var r := Unspend(c, n, undo);
    var spent := r.vout[n := NULL_OUT];
    assert SpendOut(r, n).0 == r.(vout := Trim(spent));
    if undo.nHeight != 0 {
      OneGrown(n, spent);
    } else if !c.IsPruned() {
      GrownAgain(c, n, spent);
    }
  }

  lemma OneGrown(n: nat, spent: seq<TxOut>)
    requires spent == Grow([], n + 1)[n := NULL_OUT]
    ensures Trim(spent) == []
  {
    TrimUnique(spent, 0);
  }

  lemma GrownAgain(c: Coins, n: nat, spent: seq<TxOut>)
    requires c.Clean() && c.vout != [] && spent == Grow(c.vout, n + 1)[n := NULL_OUT]
    ensures Trim(spent) == c.vout <==> n >= |c.vout| || c.vout[n].IsNull()
  {
    if n >= |c.vout| || c.vout[n].IsNull() {
      assert forall i :: 0 <= i < |c.vout| ==> spent[i] == c.vout[i];
      TrimUnique(spent, |c.vout|);
      assert spent[..|c.vout|] == c.vout;
    } else {
      var t := Trim(spent);
      assert n < |t| ==> t[n] == spent[n];
    }
  }

  /** The quirk: a mint that an undo step overwrites is not reported. */
  lemma OverwrittenMintIsClean()
    ensures var c := Coins(false, false, [TxOut(5, [OP_ZEROCOINMINT])], 1, 1);
      var undo := InUndo(TxOut(7, []), false, false, 0, 0);
      UnspendIsClean(c, 0, undo) && Unspend(c, 0, undo).vout == [TxOut(7, [])]
  {
  }
}
