/** Accumulator checkpoints (src/accumulators.cpp, src/accumulatormap.cpp, and the rule of
    `ConnectBlock` in src/main.cpp).  The value of an accumulator is modelled by the multiset of the
    coins in it, since the order of exponentiation does not matter; its checksum is a parameter. */
module Accumulators {
  import opened Radix

  const N := 8
  const WORD := 0x1_0000_0000
  const ZQ_ERROR := -1

  /** The coins in an accumulator. */
  type Coinset = multiset<nat>

  /** The eight accumulators, by position in `zerocoinDenomList`. */
  type Accs = a: seq<Coinset> | |a| == N witness seq(N, _ => multiset{})

  /** A PublicCoin; its denomination is a position in `zerocoinDenomList`, or ZQ_ERROR. */
  datatype PublicCoin = PublicCoin(denom: int, value: nat)

  /** What of a block matters here.  The mints are those `BlockToPubcoinList` finds, if it succeeds. */
  datatype Block = Block(nAccumulatorCheckpoint: nat, fListed: bool, mints: seq<PublicCoin>)

  // ----- packing checksums

  /** The 32-bit word of a denomination. */
  function ParseChecksum(nChecksum: nat, pos: nat): (sum: nat)
    requires pos < N
    ensures sum < WORD
  {
    Place(WORD, nChecksum, N - 1 - pos)
  }

  /** Eight 32-bit words in a 256-bit integer, the first one highest. */
  function Pack(sums: seq<nat>): nat {
    Value(WORD, sums)
  }

  /** The first denomination in the highest word, the last one in the lowest. */
  lemma PackOrder(x: nat)
    requires x < WORD
    ensures Pack([x, 0, 0, 0, 0, 0, 0, 0]) == x * Pow(WORD, N - 1) && Pack([0, 0, 0, 0, 0, 0, 0, x]) == x
  {
    NothingPacked(7);
    assert Zeros(7) == [0, 0, 0, 0, 0, 0, 0];
    assert [x, 0, 0, 0, 0, 0, 0, 0][1..] == Zeros(7);
    assert Zeros(7) + [x] == [0, 0, 0, 0, 0, 0, 0, x];
    hide Pow, Zeros;
    ValueAppend(WORD, Zeros(7), x);
  }

  lemma {:induction false} NothingPacked(n: nat)
    ensures Value(WORD, Zeros(n)) == 0
  {
    if n > 0 {
      assert Zeros(n)[1..] == Zeros(n - 1);
      NothingPacked(n - 1);
    }
  }

  lemma ParsePacked(sums: seq<nat>, pos: nat)
    requires |sums| == N && Digital(WORD, sums) && pos < N
    ensures Pack(sums) < Pow(WORD, N) && ParseChecksum(Pack(sums), pos) == sums[pos]
  {
    DigitAt(WORD, sums, pos);
    ValueBound(WORD, sums);
  }

  lemma PackParsed(nChecksum: nat)
    requires nChecksum < Pow(WORD, N)
    ensures Pack(seq(N, pos requires 0 <= pos < N => ParseChecksum(nChecksum, pos))) == nChecksum
  {
    AllDigits(WORD, nChecksum, N, seq(N, pos requires 0 <= pos < N => ParseChecksum(nChecksum, pos)));
  }

  function Sums(checksum: Coinset -> nat, accs: Accs): (sums: seq<nat>)
    ensures |sums| == N
  {
    seq(N, d requires 0 <= d < N => checksum(accs[d]))
  }

  // ----- the mints of a chain

  function MintsOf(coins: seq<PublicCoin>, d: nat): Coinset {
    if coins == [] then multiset{}
    else MintsOf(coins[..|coins| - 1], d) + (if coins[|coins| - 1].denom == d then multiset{coins[|coins| - 1].value} else multiset{})
  }

  /** The mints of a denomination at heights from `lo` up to, but not including, `hi`. */
  function MintsBetween(chain: seq<Block>, lo: int, hi: int, d: nat): Coinset
    requires 0 <= lo && (lo < hi ==> hi <= |chain|)
    decreases hi
  {
    if hi <= lo then multiset{} else MintsBetween(chain, lo, hi - 1, d) + MintsOf(chain[hi - 1].mints, d)
  }

  function NoCoins(): Accs {
    seq(N, _ => multiset{})
  }

  function MintsUpTo(chain: seq<Block>, start: nat, hi: int): Accs
    requires start < hi ==> hi <= |chain|
  {
    seq(N, d requires 0 <= d < N => MintsBetween(chain, start, hi, d))
  }

  /** The places in a block where a value of a denomination is minted. */
  function PlacesOf(coins: seq<PublicCoin>, d: nat, value: nat): set<nat> {
    set i: nat | i < |coins| && coins[i].denom == d && coins[i].value == value
  }

  /** Every mint is counted, once for each place. */
  lemma {:induction false} MintsOfCounts(coins: seq<PublicCoin>, d: nat, value: nat)
    ensures MintsOf(coins, d)[value] == |PlacesOf(coins, d, value)|
  {
    if coins != [] {
      var k := |coins| - 1;
      MintsOfCounts(coins[..k], d, value);
      if coins[k].denom == d && coins[k].value == value {
        assert PlacesOf(coins, d, value) == PlacesOf(coins[..k], d, value) + {k};
      } else {
        assert PlacesOf(coins, d, value) == PlacesOf(coins[..k], d, value);
      }
    }
  }

  /** The same for a stretch of the chain, by height and place. */
  function PlacesBetween(chain: seq<Block>, lo: nat, hi: int, d: nat, value: nat): set<(nat, nat)>
    requires lo < hi ==> hi <= |chain|
  {
    set h: nat, i: nat | lo <= h < hi && i in PlacesOf(chain[h].mints, d, value) :: (h, i)
  }

  lemma {:induction false} MintsBetweenCounts(chain: seq<Block>, lo: nat, hi: int, d: nat, value: nat)
    requires lo < hi ==> hi <= |chain|
    ensures MintsBetween(chain, lo, hi, d)[value] == |PlacesBetween(chain, lo, hi, d, value)|
    decreases hi
  {
    if lo < hi {
      MintsBetweenCounts(chain, lo, hi - 1, d, value);
      var s := PlacesOf(chain[hi - 1].mints, d, value);
      MintsOfCounts(chain[hi - 1].mints, d, value);
      PairSize(hi - 1, s);
      PlacesAtLast(chain, lo, hi, d, value);
      hide MintsOf, PlacesOf, PlacesBetween;
    } else {
      assert PlacesBetween(chain, lo, hi, d, value) == {};
    }
  }

  function Paired(h: nat, s: set<nat>): set<(nat, nat)> {
    set i | i in s :: (h, i)
  }

  lemma PlacesAtLast(chain: seq<Block>, lo: nat, hi: int, d: nat, value: nat)
    requires lo < hi <= |chain|
    ensures var last := Paired(hi - 1, PlacesOf(chain[hi - 1].mints, d, value));
      |PlacesBetween(chain, lo, hi, d, value)| == |PlacesBetween(chain, lo, hi - 1, d, value)| + |last|
  {
    hide PlacesOf;
    var last := Paired(hi - 1, PlacesOf(chain[hi - 1].mints, d, value));
    var before := PlacesBetween(chain, lo, hi - 1, d, value);
    assert PlacesBetween(chain, lo, hi, d, value) == before + last;
    assert before !! last;
  }

  lemma {:induction false} PairSize(h: nat, s: set<nat>)
    ensures |Paired(h, s)| == |s|
    decreases |s|
  {
    if s != {} {
      var x :| x in s;
      PairSize(h, s - {x});
      assert Paired(h, s) == Paired(h, s - {x}) + {(h, x)};
    }
  }

  /** Where the mints behind the checkpoint at a height end: ten blocks before the last height
      divisible by ten. */
  function CoveredTo(start: nat, nHeight: nat): int {
    var m := nHeight - nHeight % 10;
    if m < start || m - 10 < start then start else m - 10
  }

  /** What the checkpoint at height `i` stands for. */
  function Expected(chain: seq<Block>, start: nat, i: nat): Accs
    requires i <= |chain|
  {
    MintsUpTo(chain, start, CoveredTo(start, i))
  }

  lemma {:induction false} MintsPrefix(chain: seq<Block>, b: Block, lo: nat, hi: int, d: nat)
    requires lo < hi ==> hi <= |chain|
    ensures MintsBetween(chain + [b], lo, hi, d) == MintsBetween(chain, lo, hi, d)
    decreases hi
  {
    if lo < hi {
      MintsPrefix(chain, b, lo, hi - 1, d);
    }
  }

  lemma ExpectedPrefix(chain: seq<Block>, b: Block, start: nat, i: nat)
    requires i <= |chain|
    ensures Expected(chain + [b], start, i) == Expected(chain, start, i)
  {
    forall d | 0 <= d < N ensures Expected(chain + [b], start, i)[d] == Expected(chain, start, i)[d] {
      MintsPrefix(chain, b, start, CoveredTo(start, i), d);
    }
  }

  /** Between heights divisible by ten, and before the start, nothing changes. */
  lemma ExpectedSame(chain: seq<Block>, start: nat, i: nat)
    requires 0 < i <= |chain| && (i % 10 != 0 || i < start)
    ensures Expected(chain, start, i) == Expected(chain, start, i - 1)
  {
    assert CoveredTo(start, i) == CoveredTo(start, i - 1) by {
      assert i % 10 != 0 ==> i - i % 10 == (i - 1) - (i - 1) % 10;
    }
    hide MintsUpTo, CoveredTo;
  }

  /** At a height divisible by ten the window of ten blocks is what is missing. */
  lemma ExpectedWindow(chain: seq<Block>, start: nat, i: nat)
    requires 20 <= i <= |chain| && i % 10 == 0 && i >= start
    ensures Expected(chain, start, i - 1) == MintsUpTo(chain, start, i - 20)
    ensures Expected(chain, start, i) == MintsUpTo(chain, start, i - 10)
  {
    assert (i - 1) - (i - 1) % 10 == i - 10;
    EmptyUpTo(chain, start, i - 20);
    EmptyUpTo(chain, start, i - 10);
    EmptyUpTo(chain, start, start);
  }

  lemma EmptyUpTo(chain: seq<Block>, start: nat, hi: int)
    requires start < hi ==> hi <= |chain|
    ensures hi <= start ==> MintsUpTo(chain, start, hi) == NoCoins()
  {
  }

  lemma NothingCovered(chain: seq<Block>, start: nat, i: nat)
    requires i <= |chain| && i < start
    ensures Expected(chain, start, i) == NoCoins()
  {
  }

  // ----- checksums that identify what they stand for

  /** No two values that get stored share a checksum, and none has checksum zero. */
  ghost predicate ChecksumOk(checksum: Coinset -> nat, storable: set<Coinset>) {
    && (forall a :: a in storable ==> 0 < checksum(a) < WORD)
    && (forall a, b :: a in storable && b in storable && checksum(a) == checksum(b) ==> a == b)
  }

  ghost predicate Stored(checksum: Coinset -> nat, storable: set<Coinset>, values: map<nat, Coinset>) {
    forall k :: k in values ==> values[k] in storable && checksum(values[k]) == k
  }

  /** The accumulators a checkpoint stands for: none have coins at checkpoint zero, otherwise each
      word is the key of a stored value. */
  ghost predicate Holds(values: map<nat, Coinset>, nCheckpoint: nat, accs: Accs) {
    if nCheckpoint == 0 then accs == NoCoins()
    else forall d :: 0 <= d < N ==> ParseChecksum(nCheckpoint, d) in values && values[ParseChecksum(nCheckpoint, d)] == accs[d]
  }

  /** Storing one more value leaves the others readable. */
  lemma StoreKeeps(checksum: Coinset -> nat, storable: set<Coinset>, values: map<nat, Coinset>, v: Coinset)
    requires ChecksumOk(checksum, storable) && Stored(checksum, storable, values) && v in storable
    ensures Stored(checksum, storable, values[checksum(v) := v])
    ensures forall k :: k in values ==> values[checksum(v) := v][k] == values[k]
  {
  }

  ghost predicate Extends(values: map<nat, Coinset>, values': map<nat, Coinset>) {
    forall k :: k in values ==> k in values' && values'[k] == values[k]
  }

  lemma HoldsStill(values: map<nat, Coinset>, values': map<nat, Coinset>, nCheckpoint: nat, accs: Accs)
    requires Holds(values, nCheckpoint, accs) && Extends(values, values')
    ensures Holds(values', nCheckpoint, accs)
  {
  }

  // ----- the objects

  class CZerocoinDB {
    var values: map<nat, Coinset>

    constructor ()
      ensures values == map[]
    {
      values := map[];
    }

    method ReadAccumulatorValue(nChecksum: nat) returns (ok: bool, bnValue: Coinset)
      ensures ok <==> nChecksum in values
      ensures ok ==> bnValue == values[nChecksum]
    {
      ok, bnValue := nChecksum in values, multiset{};
      if ok {
        bnValue := values[nChecksum];
      }
    }

    method WriteAccumulatorValue(nChecksum: nat, bnValue: Coinset)
      modifies this
      ensures values == old(values)[nChecksum := bnValue]
    {
      values := values[nChecksum := bnValue];
    }
  }

  class AccumulatorMap {
    var mapAccumulators: Accs

    constructor ()
      ensures mapAccumulators == NoCoins()
    {
      mapAccumulators := NoCoins();
    }

    method Reset()
      modifies this
      ensures mapAccumulators == NoCoins()
    {
      mapAccumulators := NoCoins();
    }

    /** Stops at the first checksum that is not in the database. */
    method Load(db: CZerocoinDB, nCheckpoint: nat) returns (ok: bool)
      modifies this
      ensures ok <==> forall d :: 0 <= d < N ==> ParseChecksum(nCheckpoint, d) in db.values
      ensures ok ==> forall d :: 0 <= d < N ==> mapAccumulators[d] == db.values[ParseChecksum(nCheckpoint, d)]
    {
      for d := 0 to N
        invariant forall e :: 0 <= e < d ==> ParseChecksum(nCheckpoint, e) in db.values
        invariant forall e :: 0 <= e < d ==> mapAccumulators[e] == db.values[ParseChecksum(nCheckpoint, e)]
      {
        var bnValue;
        ok, bnValue := db.ReadAccumulatorValue(ParseChecksum(nCheckpoint, d));
        if !ok {
          return;
        }
        mapAccumulators := mapAccumulators[d := bnValue];
      }
      ok := true;
    }

    method Accumulate(pubCoin: PublicCoin) returns (ok: bool)
      requires -1 <= pubCoin.denom < N
      modifies this
      ensures ok <==> pubCoin.denom != ZQ_ERROR
      ensures !ok ==> mapAccumulators == old(mapAccumulators)
      ensures ok ==> mapAccumulators == old(mapAccumulators)[pubCoin.denom := old(mapAccumulators)[pubCoin.denom] + multiset{pubCoin.value}]
    {
      if pubCoin.denom == ZQ_ERROR {
        return false;
      }
      mapAccumulators := mapAccumulators[pubCoin.denom := mapAccumulators[pubCoin.denom] + multiset{pubCoin.value}];
      ok := true;
    }

    /** `nCheckpoint << 32 | nCheckSum`, denomination by denomination. */
    method GetCheckpoint(checksum: Coinset -> nat) returns (nCheckpoint: nat)
      ensures nCheckpoint == Pack(Sums(checksum, mapAccumulators))
    {
      nCheckpoint := 0;
      ghost var sums := Sums(checksum, mapAccumulators);
      for d := 0 to N
        invariant nCheckpoint == Pack(sums[..d])
      {
        var nCheckSum := checksum(mapAccumulators[d]);
        assert sums[..d + 1] == sums[..d] + [nCheckSum];
        ValueAppend(WORD, sums[..d], nCheckSum);
        nCheckpoint := nCheckpoint * WORD + nCheckSum;
      }
      assert sums[..N] == sums;
    }
  }

  /** The coins of one block, for all denominations. */
  ghost predicate Added(before: Accs, coins: seq<PublicCoin>, after: Accs) {
    forall d :: 0 <= d < N ==> after[d] == before[d] + MintsOf(coins, d)
  }

  lemma AddedNext(before: Accs, coins: seq<PublicCoin>, i: nat, mid: Accs, after: Accs)
    requires i < |coins| && coins[i].denom < N && coins[i].denom >= 0 && Added(before, coins[..i], mid)
    requires after == mid[coins[i].denom := mid[coins[i].denom] + multiset{coins[i].value}]
    ensures Added(before, coins[..i + 1], after)
  {
    assert coins[..i + 1][..i] == coins[..i];
  }

  predicate Accumulable(b: Block) {
    b.fListed && forall i :: 0 <= i < |b.mints| ==> b.mints[i].denom != ZQ_ERROR
  }

  predicate WellFormed(b: Block) {
    forall i :: 0 <= i < |b.mints| ==> -1 <= b.mints[i].denom < N
  }

  method AccumulateAll(accs: AccumulatorMap, coins: seq<PublicCoin>) returns (ok: bool)
    requires forall i :: 0 <= i < |coins| ==> -1 <= coins[i].denom < N
    modifies accs
    ensures ok <==> forall i :: 0 <= i < |coins| ==> coins[i].denom != ZQ_ERROR
    ensures ok ==> Added(old(accs.mapAccumulators), coins, accs.mapAccumulators)
  {
    for i := 0 to |coins|
      invariant forall k :: 0 <= k < i ==> coins[k].denom != ZQ_ERROR
      invariant Added(old(accs.mapAccumulators), coins[..i], accs.mapAccumulators)
    {
      ghost var mid := accs.mapAccumulators;
      ok := accs.Accumulate(coins[i]);
      if !ok {
        return;
      }
      AddedNext(old(accs.mapAccumulators), coins, i, mid, accs.mapAccumulators);
    }
    assert coins[..|coins|] == coins;
    ok := true;
  }

  /** `DatabaseChecksums`. */
  method DatabaseChecksums(db: CZerocoinDB, checksum: Coinset -> nat, accs: Accs, ghost storable: set<Coinset>)
    requires ChecksumOk(checksum, storable) && Stored(checksum, storable, db.values)
    requires forall d :: 0 <= d < N ==> accs[d] in storable
    modifies db
    ensures Stored(checksum, storable, db.values) && Extends(old(db.values), db.values)
    ensures forall d :: 0 <= d < N ==> checksum(accs[d]) in db.values && db.values[checksum(accs[d])] == accs[d]
  {
    for d := 0 to N
      invariant Stored(checksum, storable, db.values) && Extends(old(db.values), db.values)
      invariant forall e :: 0 <= e < d ==> checksum(accs[e]) in db.values && db.values[checksum(accs[e])] == accs[e]
    {
      StoreKeeps(checksum, storable, db.values, accs[d]);
      db.WriteAccumulatorValue(checksum(accs[d]), accs[d]);
    }
  }

  /** A packed checkpoint of stored values stands for them. */
  lemma PackedHolds(checksum: Coinset -> nat, storable: set<Coinset>, values: map<nat, Coinset>, accs: Accs)
    requires ChecksumOk(checksum, storable) && (forall d :: 0 <= d < N ==> accs[d] in storable)
    requires forall d :: 0 <= d < N ==> checksum(accs[d]) in values && values[checksum(accs[d])] == accs[d]
    ensures Holds(values, Pack(Sums(checksum, accs)), accs)
  {
    var sums := Sums(checksum, accs);
    assert Digital(WORD, sums);
    forall d | 0 <= d < N ensures ParseChecksum(Pack(sums), d) == checksum(accs[d]) {
      ParsePacked(sums, d);
    }
    assert checksum(accs[0]) > 0;
    if Pack(sums) == 0 {
      ZeroParses(0);
    }
  }

  lemma ZeroParses(d: nat)
    requires d < N
    ensures ParseChecksum(0, d) == 0
  {
    PowPositive(WORD, N - 1 - d);
    DivAppend(Pow(WORD, N - 1 - d), 0, 0);
  }

  /** The active chain with the database of accumulator values.  `storable` are the values that get
      stored, whose checksums the model takes to be different and not zero. */
  class Checkpoints {
    const startHeight: nat
    const checksum: Coinset -> nat
    ghost const storable: set<Coinset>
    const zerocoinDB: CZerocoinDB
    var chain: seq<Block>

    /** Each checkpoint stands for the mints that it should. */
    ghost predicate Valid()
      reads this, zerocoinDB
    {
      && startHeight > 10 && chain != [] && (forall i :: 0 <= i < |chain| ==> WellFormed(chain[i]))
      && ChecksumOk(checksum, storable) && Stored(checksum, storable, zerocoinDB.values)
      && forall i :: 0 <= i < |chain| ==> Holds(zerocoinDB.values, chain[i].nAccumulatorCheckpoint, Expected(chain, startHeight, i))
    }

    /** The values that the next checkpoint would store. */
    ghost predicate NextStorable()
      reads this
    {
      forall d :: 0 <= d < N ==> Expected(chain, startHeight, |chain|)[d] in storable
    }

    /** The blocks whose mints the next checkpoint adds can be listed and accumulated. */
    ghost predicate WindowOk()
      reads this
    {
      forall k :: |chain| - 20 <= k < |chain| - 10 && startHeight <= k ==> Accumulable(chain[k])
    }

    /** They hold no mint at all. */
    ghost predicate WindowEmpty()
      reads this
    {
      forall k :: |chain| - 20 <= k < |chain| - 10 && startHeight <= k ==> chain[k].mints == []
    }

    ghost predicate AtWindow()
      reads this
    {
      |chain| >= startHeight && |chain| % 10 == 0
    }

    /** The one checkpoint that the next block may carry. */
    ghost function NextCheckpoint(): nat
      requires chain != []
      reads this
    {
      if AtWindow() && !WindowEmpty() then Pack(Sums(checksum, Expected(chain, startHeight, |chain|)))
      else chain[|chain| - 1].nAccumulatorCheckpoint
    }

    /** A chain of the genesis block. */
    constructor (startHeight: nat, checksum: Coinset -> nat, ghost storable: set<Coinset>, genesis: Block)
      requires startHeight > 10 && ChecksumOk(checksum, storable) && WellFormed(genesis) && genesis.nAccumulatorCheckpoint == 0
      ensures Valid() && chain == [genesis] && fresh(zerocoinDB)
      ensures this.startHeight == startHeight && this.checksum == checksum && this.storable == storable
    {
      this.startHeight, this.checksum, this.storable := startHeight, checksum, storable;
      zerocoinDB := new CZerocoinDB();
      chain := [genesis];
      NothingCovered([genesis], startHeight, 0);
    }

    /** The accumulators behind the last checkpoint. */
    method LoadPrevious() returns (ok: bool, mapAccumulators: AccumulatorMap)
      requires Valid()
      ensures ok && fresh(mapAccumulators) && mapAccumulators.mapAccumulators == Expected(chain, startHeight, |chain| - 1)
    {
      hide Expected, MintsBetween;
      var nPrevious := chain[|chain| - 1].nAccumulatorCheckpoint;
      LoadsOrZero(zerocoinDB.values, nPrevious, Expected(chain, startHeight, |chain| - 1), checksum, storable);
      mapAccumulators := new AccumulatorMap();
      ok := mapAccumulators.Load(zerocoinDB, nPrevious);
      if !ok {
        if nPrevious == 0 {
          mapAccumulators.Reset();
          ok := true;
        } else {
          return false, mapAccumulators;
        }
      }
    }

    /** The loop over the ten blocks. */
    method AccumulateWindow(mapAccumulators: AccumulatorMap) returns (ok: bool, nTotalMintsFound: nat)
      requires Valid() && |chain| >= 20 && mapAccumulators.mapAccumulators == MintsUpTo(chain, startHeight, |chain| - 20)
      modifies mapAccumulators
      ensures ok <==> WindowOk()
      ensures ok ==> mapAccumulators.mapAccumulators == MintsUpTo(chain, startHeight, |chain| - 10)
      ensures ok && nTotalMintsFound == 0 ==> mapAccumulators.mapAccumulators == old(mapAccumulators.mapAccumulators)
      ensures ok ==> (nTotalMintsFound == 0 <==> WindowEmpty())
    {
      hide Holds, ChecksumOk, Stored, Expected, MintsUpTo, MintsOf, Added, NoCoins;
      nTotalMintsFound := 0;
      var k := |chain| - 20;
      while k < |chain| - 10
        invariant |chain| - 20 <= k <= |chain| - 10 && mapAccumulators.mapAccumulators == MintsUpTo(chain, startHeight, k)
        invariant forall j :: |chain| - 20 <= j < k && startHeight <= j ==> Accumulable(chain[j])
        invariant nTotalMintsFound == 0 ==> mapAccumulators.mapAccumulators == old(mapAccumulators.mapAccumulators)
        invariant nTotalMintsFound == 0 <==> forall j :: |chain| - 20 <= j < k && startHeight <= j ==> chain[j].mints == []
      {
        if k < startHeight {
          EmptyUpTo(chain, startHeight, k);
          EmptyUpTo(chain, startHeight, k + 1);
        } else {
          if !chain[k].fListed {
            return false, nTotalMintsFound;
          }
          nTotalMintsFound := nTotalMintsFound + |chain[k].mints|;
          ghost var before := mapAccumulators.mapAccumulators;
          ok := AccumulateAll(mapAccumulators, chain[k].mints);
          if !ok {
            return;
          }
          AddedUpTo(chain, startHeight, k, before, mapAccumulators.mapAccumulators);
          AddedNothing(before, chain[k].mints, mapAccumulators.mapAccumulators);
        }
        k := k + 1;
      }
      ok := true;
    }

    /** `CalculateAccumulatorCheckpoint` for the next block. */
    method CalculateAccumulatorCheckpoint() returns (ok: bool, nCheckpoint: nat)
      requires Valid() && NextStorable()
      modifies zerocoinDB
      ensures Valid()
      ensures ok <==> (AtWindow() ==> WindowOk())
      ensures ok && |chain| >= startHeight ==> Holds(zerocoinDB.values, nCheckpoint, Expected(chain, startHeight, |chain|))
      ensures ok ==> nCheckpoint == if |chain| < startHeight then 0 else NextCheckpoint()
    {
      hide Holds, ChecksumOk, Stored, Expected, Pack, Sums, MintsUpTo, WindowOk, WindowEmpty, Extends, WellFormed;
      var nHeight := |chain|;
      if nHeight < startHeight {
        return true, 0;
      }
      if nHeight % 10 != 0 {
        ExpectedSame(chain, startHeight, nHeight);
        return true, chain[nHeight - 1].nAccumulatorCheckpoint;
      }
      nCheckpoint := 0;
      ExpectedWindow(chain, startHeight, nHeight);
      var mapAccumulators;
      ok, mapAccumulators := LoadPrevious();
      if !ok {
        return;
      }
      var nTotalMintsFound;
      ok, nTotalMintsFound := AccumulateWindow(mapAccumulators);
      if !ok {
        return;
      }
      if nTotalMintsFound == 0 {
        nCheckpoint := chain[nHeight - 1].nAccumulatorCheckpoint;
      } else {
        nCheckpoint := mapAccumulators.GetCheckpoint(checksum);
      }
      ghost var before := zerocoinDB.values;
      DatabaseChecksums(zerocoinDB, checksum, mapAccumulators.mapAccumulators, storable);
      AllHoldStill(before);
      if nTotalMintsFound > 0 {
        PackedHolds(checksum, storable, zerocoinDB.values, mapAccumulators.mapAccumulators);
      }
    }

    lemma AllHoldStill(before: map<nat, Coinset>)
      requires Extends(before, zerocoinDB.values)
      ensures forall i :: 0 <= i < |chain| && Holds(before, chain[i].nAccumulatorCheckpoint, Expected(chain, startHeight, i)) ==>
        Holds(zerocoinDB.values, chain[i].nAccumulatorCheckpoint, Expected(chain, startHeight, i))
    {
      forall i | 0 <= i < |chain| && Holds(before, chain[i].nAccumulatorCheckpoint, Expected(chain, startHeight, i))
        ensures Holds(zerocoinDB.values, chain[i].nAccumulatorCheckpoint, Expected(chain, startHeight, i))
      {
        HoldsStill(before, zerocoinDB.values, chain[i].nAccumulatorCheckpoint, Expected(chain, startHeight, i));
      }
    }

    /** The checkpoint rule of `ConnectBlock`: a block that breaks it is refused, and whatever is
        accepted leaves every checkpoint of the chain standing for the mints that it should. */
    method ConnectBlock(b: Block) returns (ok: bool)
      requires Valid() && NextStorable() && WellFormed(b)
      modifies this, zerocoinDB
      ensures Valid() && chain == (if ok then old(chain) + [b] else old(chain))
      ensures ok <==> (old(AtWindow()) ==> old(WindowOk())) && b.nAccumulatorCheckpoint == old(NextCheckpoint())
    {
      hide Holds, ChecksumOk, Stored, Expected, WindowOk, WindowEmpty;
      var nHeight := |chain|;
      if nHeight >= startHeight && nHeight % 10 == 0 {
        var nCheckpointCalculated;
        ok, nCheckpointCalculated := CalculateAccumulatorCheckpoint();
        if !ok || nCheckpointCalculated != b.nAccumulatorCheckpoint {
          return false;
        }
      } else {
        if b.nAccumulatorCheckpoint != chain[nHeight - 1].nAccumulatorCheckpoint {
          return false;
        }
        ExpectedSame(chain, startHeight, nHeight);
      }
      forall i | 0 <= i <= |chain| ensures Expected(chain + [b], startHeight, i) == Expected(chain, startHeight, i) {
        ExpectedPrefix(chain, b, startHeight, i);
      }
      chain := chain + [b];
      ok := true;
    }

    /** What the words of a checkpoint lead to in the database: each mint from the start height to
        eleven blocks before the last height divisible by ten once, and nothing else. */
    lemma CheckpointHoldsMints(h: nat, d: nat)
      requires Valid() && startHeight <= h < |chain| && h % 10 == 0 && d < N
      ensures chain[h].nAccumulatorCheckpoint != 0 ==> ParseChecksum(chain[h].nAccumulatorCheckpoint, d) in zerocoinDB.values
      ensures Inside(zerocoinDB.values, chain[h].nAccumulatorCheckpoint, d) == MintsBetween(chain, startHeight, h - 10, d)
    {
      hide Holds, Inside, Expected;
      HoldsAt(zerocoinDB.values, chain[h].nAccumulatorCheckpoint, Expected(chain, startHeight, h), d);
      ExpectedAt(chain, startHeight, h, d);
    }

    /** So it holds a value as often as it is minted at those heights. */
    lemma CheckpointCountsMints(h: nat, d: nat, value: nat)
      requires Valid() && startHeight <= h < |chain| && h % 10 == 0 && d < N
      ensures Inside(zerocoinDB.values, chain[h].nAccumulatorCheckpoint, d)[value] == |PlacesBetween(chain, startHeight, h - 10, d, value)|
    {
      CheckpointHoldsMints(h, d);
      MintsBetweenCounts(chain, startHeight, h - 10, d, value);
    }
  }

  /** The accumulator that a word of a checkpoint leads to. */
  function Inside(values: map<nat, Coinset>, nCheckpoint: nat, d: nat): Coinset
    requires d < N
  {
    var sum := ParseChecksum(nCheckpoint, d);
    if nCheckpoint != 0 && sum in values then values[sum] else multiset{}
  }

  lemma HoldsAt(values: map<nat, Coinset>, nCheckpoint: nat, accs: Accs, d: nat)
    requires Holds(values, nCheckpoint, accs) && d < N
    ensures nCheckpoint != 0 ==> ParseChecksum(nCheckpoint, d) in values
    ensures Inside(values, nCheckpoint, d) == accs[d]
  {
  }

  lemma ExpectedAt(chain: seq<Block>, start: nat, h: nat, d: nat)
    requires start <= h < |chain| && h % 10 == 0 && d < N
    ensures Expected(chain, start, h)[d] == MintsBetween(chain, start, h - 10, d)
  {
    EmptyBetween(chain, start, h - 10, d);
  }

  lemma EmptyBetween(chain: seq<Block>, start: nat, hi: int, d: nat)
    requires start < hi ==> hi <= |chain|
    ensures hi <= start ==> MintsBetween(chain, start, hi, d) == MintsBetween(chain, start, start, d) == multiset{}
  {
  }

  /** The previous checkpoint either loads, or is zero and stands for no coins. */
  lemma LoadsOrZero(values: map<nat, Coinset>, nPrevious: nat, accs: Accs, checksum: Coinset -> nat, storable: set<Coinset>)
    requires ChecksumOk(checksum, storable) && Stored(checksum, storable, values) && Holds(values, nPrevious, accs)
    ensures nPrevious == 0 ==> accs == NoCoins() && ParseChecksum(nPrevious, 0) !in values
  {
    ZeroParses(0);
  }

  lemma AddedNothing(before: Accs, coins: seq<PublicCoin>, after: Accs)
    requires Added(before, coins, after)
    ensures coins == [] ==> after == before
  {
    if coins == [] {
      forall d | 0 <= d < N ensures after[d] == before[d] {
        assert after[d] == before[d] + MintsOf(coins, d);
      }
    }
  }

  lemma AddedUpTo(chain: seq<Block>, start: nat, k: nat, before: Accs, after: Accs)
    requires start <= k < |chain| && before == MintsUpTo(chain, start, k) && Added(before, chain[k].mints, after)
    ensures after == MintsUpTo(chain, start, k + 1)
  {
  }
}
