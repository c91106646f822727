/** Computing a stake modifier (src/kernel.cpp).  The selection hash, `uint64_t` of a string literal
    and the network's constants are parameters; the chain up to `pindexPrev` is a sequence. */
module StakeModifier {
  import opened Basics

  const MODIFIER_INTERVAL := 60
  const MODIFIER_INTERVAL_RATIO := 3

  /** A CBlockIndex. */
  datatype Index = Index(hash: nat, nHeight: nat, nTime: nat, fProofOfStake: bool, fGenerated: bool, nStakeModifier: nat) {

    function StakeEntropyBit(): nat {
      hash % 2
    }
  }

  datatype Params = Params(selectionHash: (nat, nat) -> nat, modifierUpgradeBlock: int, genesisModifier: nat)

  /** A candidate: block time and block hash. */
  type Candidate = (nat, nat)

  // ----- the selection intervals

  function Section(nSection: nat): (a: nat)
    requires nSection < 64
    ensures 20 <= a <= 60
  {
    var d := 63 + (63 - nSection) * (MODIFIER_INTERVAL_RATIO - 1);
    assert 63 <= d <= 189;
    SectionBounds(d);
    MODIFIER_INTERVAL * 63 / d
  }

  lemma SectionBounds(d: nat)
    requires 63 <= d <= 189
    ensures 20 <= 3780 / d <= 60
  {
    var q := 3780 / d;
    assert q * d <= 3780 < q * d + d;
    if q < 20 {
      AtMost(q, 19, d);
    } else if q > 60 {
      AtMost(61, q, d);
    }
  }

  lemma AtMost(x: nat, y: nat, d: nat)
    requires x <= y
    ensures x * d <= y * d
  {
    assert y * d == x * d + (y - x) * d;
  }

  /** A section is the largest number of seconds that fits into its share of the interval; from round to
      round the shares grow, up to three times the first. */
  lemma SectionExactly(n: nat)
    requires n < 64
    ensures Section(n) * (63 + 2 * (63 - n)) <= 63 * MODIFIER_INTERVAL < (Section(n) + 1) * (63 + 2 * (63 - n))
    ensures n < 63 ==> Section(n) <= Section(n + 1)
    ensures Section(63) == MODIFIER_INTERVAL == MODIFIER_INTERVAL_RATIO * Section(0)
  {
    QuotientIs(3780, 63 + 2 * (63 - n));
    if n < 63 {
      SmallerDivisor(3780, 63 + 2 * (62 - n), 63 + 2 * (63 - n));
    }
  }

  lemma QuotientIs(x: nat, d: nat)
    requires d > 0
    ensures x / d * d <= x < (x / d + 1) * d
  {
    assert x == d * (x / d) + x % d;
  }

  lemma SmallerDivisor(x: nat, c: nat, d: nat)
    requires 0 < c <= d
    ensures x / d <= x / c
  {
    QuotientIs(x, c);
    QuotientIs(x, d);
    if x / c < x / d {
      AtMost(x / c + 1, x / d, c);
      AtMost(c, d, x / d);
    }
  }

  /** The sections before the `n`-th, together. */
  function SectionsUpTo(n: nat): nat
    requires n <= 64
  {
    if n == 0 then 0 else SectionsUpTo(n - 1) + Section(n - 1)
  }

  method GetStakeModifierSelectionInterval() returns (nSelectionInterval: nat)
    ensures nSelectionInterval == SectionsUpTo(64)
  {
    nSelectionInterval := 0;
    for nSection := 0 to 64
      invariant nSelectionInterval == SectionsUpTo(nSection)
    {
      nSelectionInterval := nSelectionInterval + Section(nSection);
    }
  }

  // ----- one selection

  predicate Less(a: Candidate, b: Candidate) {
    a.0 < b.0 || (a.0 == b.0 && a.1 < b.1)
  }

  predicate Sorted(v: seq<Candidate>) {
    forall i, j :: 0 <= i < j < |v| ==> Less(v[i], v[j])
  }

  /** Each candidate is in the block index under its hash, with its time. */
  predicate Indexed(mapBlockIndex: map<nat, Index>, v: seq<Candidate>) {
    forall i :: 0 <= i < |v| ==> v[i].1 in mapBlockIndex && mapBlockIndex[v[i].1].hash == v[i].1 && mapBlockIndex[v[i].1].nTime == v[i].0
  }

  /** What a block's selection compares. */
  function Selection(params: Params, b: Index, fModifierV2: bool, nStakeModifierPrev: nat): nat {
    var hashProof := if fModifierV2 || !b.fProofOfStake then b.hash else 0;
    var hashSelection := params.selectionHash(hashProof, nStakeModifierPrev);
    if b.fProofOfStake then hashSelection / 0x1_0000_0000 else hashSelection
  }

  /** Proof of stake is preferred: what its hash is compared by is less by a factor of two to the power of
      32, rounded down.  The old rules give all such blocks the same, whatever their hash. */
  lemma SelectionPrefersStake(params: Params, a: Index, b: Index, fModifierV2: bool, prev: nat)
    requires a.fProofOfStake && !b.fProofOfStake
    ensures var sa, hash := Selection(params, a, fModifierV2, prev), params.selectionHash(if fModifierV2 then a.hash else 0, prev);
      sa * 0x1_0000_0000 <= hash < (sa + 1) * 0x1_0000_0000
    ensures Selection(params, b, fModifierV2, prev) == params.selectionHash(b.hash, prev)
    ensures forall c: Index :: c.fProofOfStake && !fModifierV2 ==> Selection(params, c, fModifierV2, prev) == Selection(params, a, fModifierV2, prev)
  {
  }

  /** The rules in force are those at the first candidate. */
  predicate ModifierV2(params: Params, mapBlockIndex: map<nat, Index>, v: seq<Candidate>) {
    v != [] && v[0].1 in mapBlockIndex && mapBlockIndex[v[0].1].nHeight >= params.modifierUpgradeBlock
  }

  /** That is the earliest one there is. */
  lemma EarliestDecides(params: Params, mapBlockIndex: map<nat, Index>, v: seq<Candidate>, i: nat)
    requires Sorted(v) && Indexed(mapBlockIndex, v) && i < |v| && forall j :: 0 <= j < |v| ==> !Less(v[j], v[i])
    ensures ModifierV2(params, mapBlockIndex, v) <==> mapBlockIndex[v[i].1].nHeight >= params.modifierUpgradeBlock
  {
    var first := v[0];
    assert !Less(first, v[i]);
  }

  function SelectionOf(params: Params, mapBlockIndex: map<nat, Index>, v: seq<Candidate>, nStakeModifierPrev: nat, i: nat): nat
    requires i < |v| && Indexed(mapBlockIndex, v)
  {
    Selection(params, mapBlockIndex[v[i].1], ModifierV2(params, mapBlockIndex, v), nStakeModifierPrev)
  }

  /** Candidate `i` is the one to take: of those not taken yet that are not after `nStop`, the one with
      the least selection, the earlier of two; if there is none such, the earliest not taken. */
  ghost predicate IsChoice(params: Params, mapBlockIndex: map<nat, Index>, v: seq<Candidate>, taken: set<nat>, nStop: int, prev: nat, i: nat)
    requires Indexed(mapBlockIndex, v)
  {
    && i < |v| && v[i].1 !in taken
    && (forall j :: 0 <= j < |v| && v[j].1 !in taken ==>
          if v[i].0 <= nStop then
            v[j].0 <= nStop ==>
              var a, b := SelectionOf(params, mapBlockIndex, v, prev, i), SelectionOf(params, mapBlockIndex, v, prev, j);
              a < b || (a == b && i <= j)
          else i <= j)
  }

  /** The choice among the first `k` candidates only. */
  ghost predicate BestSoFar(params: Params, mapBlockIndex: map<nat, Index>, v: seq<Candidate>, taken: set<nat>, nStop: int, prev: nat,
                            k: nat, fSelected: bool, i: nat)
    requires Indexed(mapBlockIndex, v) && k <= |v|
  {
    if fSelected then
      && i < k && v[i].1 !in taken && (v[i].0 > nStop ==> forall j :: 0 <= j < k && v[j].1 !in taken ==> i <= j)
      && forall j :: 0 <= j < k && v[j].1 !in taken && v[i].0 <= nStop ==>
           var a, b := SelectionOf(params, mapBlockIndex, v, prev, i), SelectionOf(params, mapBlockIndex, v, prev, j);
           a < b || (a == b && i <= j)
    else forall j :: 0 <= j < k ==> v[j].1 in taken
  }

  /** `SelectBlockFromCandidates`: fails only when all candidates are taken. */
  method SelectBlockFromCandidates(params: Params, mapBlockIndex: map<nat, Index>, vSortedByTimestamp: seq<Candidate>,
                                   mapSelectedBlocks: set<nat>, nSelectionIntervalStop: int, nStakeModifierPrev: nat)
    returns (fSelected: bool, selected: Index, ghost at: nat)
    requires Sorted(vSortedByTimestamp) && Indexed(mapBlockIndex, vSortedByTimestamp)
    ensures !fSelected <==> forall j :: 0 <= j < |vSortedByTimestamp| ==> vSortedByTimestamp[j].1 in mapSelectedBlocks
    ensures fSelected ==>
      && IsChoice(params, mapBlockIndex, vSortedByTimestamp, mapSelectedBlocks, nSelectionIntervalStop, nStakeModifierPrev, at)
      && selected == mapBlockIndex[vSortedByTimestamp[at].1]
  {
    var v := vSortedByTimestamp;
    var fModifierV2, fFirstRun, hashBest := false, true, 0;
    fSelected, at, selected := false, 0, Index(0, 0, 0, false, false, 0);
    var k := 0;
    while k < |v|
      invariant 0 <= k <= |v| && (fFirstRun <==> k == 0)
      invariant k > 0 ==> fModifierV2 == ModifierV2(params, mapBlockIndex, v)
      invariant BestSoFar(params, mapBlockIndex, v, mapSelectedBlocks, nSelectionIntervalStop, nStakeModifierPrev, k, fSelected, at)
      invariant fSelected ==>
        selected == mapBlockIndex[v[at].1] && hashBest == SelectionOf(params, mapBlockIndex, v, nStakeModifierPrev, at)
    {
      var pindex := mapBlockIndex[v[k].1];
      if fSelected && pindex.nTime > nSelectionIntervalStop {
        break;
      }
      if fFirstRun {
        fModifierV2, fFirstRun := pindex.nHeight >= params.modifierUpgradeBlock, false;
      }
      if pindex.hash !in mapSelectedBlocks {
        var hashSelection := Selection(params, pindex, fModifierV2, nStakeModifierPrev);
        if fSelected && hashSelection < hashBest {
          hashBest, selected, at := hashSelection, pindex, k;
        } else if !fSelected {
          fSelected, hashBest, selected, at := true, hashSelection, pindex, k;
        }
      }
      k := k + 1;
    }
  }

  // ----- the candidates

  /** The chain as it is stored: indexed by hash, numbered by height. */
  predicate ChainIndexed(mapBlockIndex: map<nat, Index>, chain: seq<Index>) {
    forall i :: 0 <= i < |chain| ==>
      chain[i].nHeight == i && chain[i].hash in mapBlockIndex && mapBlockIndex[chain[i].hash] == chain[i]
  }

  /** Where the run of blocks at the end of the chain that are not before `nStart` begins. */
  function FirstCandidate(chain: seq<Index>, nStart: int): (k: nat)
    ensures k <= |chain|
    ensures forall i :: k <= i < |chain| ==> chain[i].nTime >= nStart
    ensures k > 0 ==> chain[k - 1].nTime < nStart
  {
    if chain == [] || chain[|chain| - 1].nTime < nStart then |chain| else FirstCandidate(chain[..|chain| - 1], nStart)
  }

  /** `c` put where it belongs. */
  function Insert(c: Candidate, v: seq<Candidate>): seq<Candidate> {
    if v == [] || Less(c, v[0]) then [c] + v else [v[0]] + Insert(c, v[1..])
  }

  /** The candidates in order; the source sorts the vector it has filled from the tip down. */
  function SortedFrom(chain: seq<Index>, k: nat): seq<Candidate>
    requires k <= |chain|
    decreases |chain| - k
  {
    if k == |chain| then [] else Insert((chain[k].nTime, chain[k].hash), SortedFrom(chain, k + 1))
  }

  lemma {:induction false} InsertSorted(c: Candidate, v: seq<Candidate>)
    requires Sorted(v) && forall i :: 0 <= i < |v| ==> v[i].1 != c.1
    ensures Sorted(Insert(c, v)) && |Insert(c, v)| == |v| + 1
    ensures forall x :: x in Insert(c, v) <==> x == c || x in v
  {
    if v != [] && !Less(c, v[0]) {
      InsertSorted(c, v[1..]);
      var r := Insert(c, v[1..]);
      forall j | 0 <= j < |r| ensures Less(v[0], r[j]) {
        assert r[j] in r;
        if r[j] != c {
          var i :| 0 <= i < |v[1..]| && v[1..][i] == r[j];
          assert v[i + 1] == r[j];
        }
      }
    } else if v != [] {
      forall j | 0 <= j < |v| ensures Less(c, v[j]) {
        assert j > 0 ==> Less(v[0], v[j]);
      }
    }
  }

  lemma {:induction false} SortedFromChain(mapBlockIndex: map<nat, Index>, chain: seq<Index>, k: nat)
    requires k <= |chain| && ChainIndexed(mapBlockIndex, chain)
    ensures Sorted(SortedFrom(chain, k)) && |SortedFrom(chain, k)| == |chain| - k
    ensures Indexed(mapBlockIndex, SortedFrom(chain, k))
    ensures forall x :: x in SortedFrom(chain, k) <==> exists i :: k <= i < |chain| && x == (chain[i].nTime, chain[i].hash)
    decreases |chain| - k
  {
    if k < |chain| {
      SortedFromChain(mapBlockIndex, chain, k + 1);
      var v, c := SortedFrom(chain, k + 1), (chain[k].nTime, chain[k].hash);
      forall i | 0 <= i < |v| ensures v[i].1 != c.1 {
        assert v[i] in v;
        var j :| k + 1 <= j < |chain| && v[i] == (chain[j].nTime, chain[j].hash);
        assert mapBlockIndex[chain[j].hash].nHeight == j && mapBlockIndex[chain[k].hash].nHeight == k;
      }
      InsertSorted(c, v);
      var r := Insert(c, v);
      forall i | 0 <= i < |r| ensures r[i].1 in mapBlockIndex && mapBlockIndex[r[i].1].hash == r[i].1 && mapBlockIndex[r[i].1].nTime == r[i].0 {
        assert r[i] in r;
        if r[i] != c {
          var j :| 0 <= j < |v| && v[j] == r[i];
        }
      }
      forall x ensures x in r <==> exists i :: k <= i < |chain| && x == (chain[i].nTime, chain[i].hash) {
        if x in v {
          var i :| k + 1 <= i < |chain| && x == (chain[i].nTime, chain[i].hash);
        }
      }
    }
  }

  // ----- the rounds

  /** The rounds played: in each the candidate at `picks[r]` was the choice, given the earlier ones. */
  ghost predicate Rounds(params: Params, mapBlockIndex: map<nat, Index>, v: seq<Candidate>, nStart: int, prev: nat, picks: seq<nat>) {
    Indexed(mapBlockIndex, v) && |picks| <= 64 && forall r :: 0 <= r < |picks| ==> RoundAt(params, mapBlockIndex, v, nStart, prev, picks, r)
  }

  ghost predicate RoundAt(params: Params, mapBlockIndex: map<nat, Index>, v: seq<Candidate>, nStart: int, prev: nat, picks: seq<nat>, r: nat)
    requires Indexed(mapBlockIndex, v) && r < |picks| <= 64
  {
    IsChoice(params, mapBlockIndex, v, Taken(v, picks[..r]), nStart + SectionsUpTo(r + 1), prev, picks[r])
  }

  /** The hashes of the candidates picked. */
  function Taken(v: seq<Candidate>, picks: seq<nat>): set<nat> {
    set r | 0 <= r < |picks| && picks[r] < |v| :: v[picks[r]].1
  }

  /** The entropy bits of the picks, first one lowest. */
  function Bits(v: seq<Candidate>, picks: seq<nat>): nat {
    if picks == [] then 0
    else Bits(v, picks[..|picks| - 1]) + (if picks[|picks| - 1] < |v| then v[picks[|picks| - 1]].1 % 2 * Pow2(|picks| - 1) else 0)
  }

  lemma {:induction false} BitsBound(v: seq<Candidate>, picks: seq<nat>)
    ensures Bits(v, picks) < Pow2(|picks|)
  {
    if picks != [] {
      BitsBound(v, picks[..|picks| - 1]);
      var last := picks[|picks| - 1];
      OneBit(if last < |v| then v[last].1 else 0, Pow2(|picks| - 1));
    }
  }

  /** Bit `r` of the modifier is that of the block picked in round `r`. */
  lemma {:induction false} BitsAt(v: seq<Candidate>, picks: seq<nat>, r: nat)
    requires r < |picks| && picks[r] < |v|
    ensures Bits(v, picks) / Pow2(r) % 2 == v[picks[r]].1 % 2
  {
    var k := |picks| - 1;
    var low := Bits(v, picks[..k]);
    BitsBound(v, picks[..k]);
    var bit := if picks[k] < |v| then v[picks[k]].1 % 2 else 0;
    assert Bits(v, picks) == low + bit * Pow2(k);
    if r == k {
      TopBit(low, bit, Pow2(k));
    } else {
      BitsAt(v, picks[..k], r);
      LowBit(low, bit, r, k);
    }
  }

  lemma TopBit(low: nat, bit: nat, p: nat)
    requires low < p && bit < 2
    ensures (low + bit * p) / p % 2 == bit
  {
    if bit == 0 {
      assert low / p == 0;
    } else {
      assert bit * p == p && (low + p) / p == 1;
    }
  }

  lemma LowBit(low: nat, bit: nat, r: nat, k: nat)
    requires r < k && bit < 2
    ensures (low + bit * Pow2(k)) / Pow2(r) % 2 == low / Pow2(r) % 2
  {
    var p, m := Pow2(r), Pow2(k - r - 1);
    assert Pow2(k - r) == 2 * m;
    hide Pow2;
    Pow2Sum(r, k - r);
    AddEven(low, bit, p, m, Pow2(k));
  }

  lemma AddEven(low: nat, bit: nat, p: nat, m: nat, weight: nat)
    requires bit < 2 && p > 0 && weight == p * (2 * m)
    ensures (low + bit * weight) / p % 2 == low / p % 2
  {
    if bit == 1 {
      AddMultiple(low, p, 2 * m);
      EvenMore(low / p, m);
      assert low + bit * weight == low + p * (2 * m);
    } else {
      assert low + bit * weight == low;
    }
  }

  lemma EvenMore(x: nat, m: nat)
    ensures (x + 2 * m) % 2 == x % 2
  {
  }

  lemma {:induction false} Pow2Sum(j: nat, k: nat)
    ensures Pow2(j + k) == Pow2(j) * Pow2(k)
  {
    if j > 0 {
      Pow2Sum(j - 1, k);
      assert 2 * (Pow2(j - 1) * Pow2(k)) == 2 * Pow2(j - 1) * Pow2(k);
    }
  }

  lemma AddMultiple(x: nat, p: nat, m: nat)
    requires p > 0
    ensures (x + p * m) / p == x / p + m
  {
    var q, r := x / p, x % p;
    assert x == p * q + r;
    assert x + p * m == p * (q + m) + r by {
      assert p * (q + m) == p * q + p * m;
    }
    DivisionIs(x + p * m, p, q + m, r);
  }

  lemma DivisionIs(x: nat, p: nat, q: nat, r: nat)
    requires r < p && x == p * q + r
    ensures x / p == q
  {
    QuotientIs(x, p);
    var d := x / p;
    if d < q {
      AtMost(d + 1, q, p);
    } else if d > q {
      AtMost(q + 1, d, p);
    }
  }

  lemma OneBit(x: nat, p: nat)
    ensures 0 <= x % 2 * p <= p
  {
    if x % 2 == 0 {
      assert x % 2 * p == 0;
    } else {
      assert x % 2 * p == p;
    }
  }

  /** With fewer picks than candidates one is left to take, so no round fails. */
  lemma OneLeft(v: seq<Candidate>, taken: set<nat>)
    requires Sorted(v) && |taken| < |v|
    requires forall i, j :: 0 <= i < j < |v| ==> v[i].1 != v[j].1
    ensures exists j :: 0 <= j < |v| && v[j].1 !in taken
  {
    if forall j :: 0 <= j < |v| ==> v[j].1 in taken {
      DistinctFit(v, taken);
    }
  }

  lemma {:induction false} DistinctFit(v: seq<Candidate>, taken: set<nat>)
    requires forall i, j :: 0 <= i < j < |v| ==> v[i].1 != v[j].1
    requires forall j :: 0 <= j < |v| ==> v[j].1 in taken
    ensures |v| <= |taken|
  {
    if v != [] {
      DistinctFit(v[1..], taken - {v[0].1});
    }
  }

  lemma {:induction false} TakenSize(v: seq<Candidate>, picks: seq<nat>)
    ensures |Taken(v, picks)| <= |picks|
  {
    if picks != [] {
      var k := |picks| - 1;
      TakenSize(v, picks[..k]);
      TakenNext(v, picks[..k], picks[k]);
      assert picks == picks[..k] + [picks[k]];
    }
  }

  lemma TakenNext(v: seq<Candidate>, picks: seq<nat>, i: nat)
    ensures Taken(v, picks + [i]) == Taken(v, picks) + (if i < |v| then {v[i].1} else {})
  {
    var all := picks + [i];
    forall h ensures h in Taken(v, all) <==> h in Taken(v, picks) + (if i < |v| then {v[i].1} else {}) {
      if h in Taken(v, picks) {
        var r :| 0 <= r < |picks| && picks[r] < |v| && v[picks[r]].1 == h;
        assert all[r] == picks[r];
      }
      if i < |v| && h == v[i].1 {
        assert all[|picks|] == i;
      }
    }
  }

  /** No block is picked twice. */
  lemma RoundsDistinct(params: Params, mapBlockIndex: map<nat, Index>, v: seq<Candidate>, nStart: int, prev: nat, picks: seq<nat>,
                       q: nat, r: nat)
    requires Rounds(params, mapBlockIndex, v, nStart, prev, picks) && q < r < |picks|
    ensures picks[q] < |v| && picks[r] < |v| && v[picks[q]].1 != v[picks[r]].1
  {
    assert RoundAt(params, mapBlockIndex, v, nStart, prev, picks, q);
    assert RoundAt(params, mapBlockIndex, v, nStart, prev, picks, r);
    assert picks[..r][q] == picks[q];
    assert v[picks[q]].1 in Taken(v, picks[..r]);
  }

  /** The last block that generated a modifier, or -1. */
  function LastGenerated(chain: seq<Index>): (i: int)
    ensures -1 <= i < |chain| && (i >= 0 ==> chain[i].fGenerated) && forall j :: i < j < |chain| ==> !chain[j].fGenerated
  {
    if chain == [] || chain[|chain| - 1].fGenerated then |chain| - 1 else LastGenerated(chain[..|chain| - 1])
  }

  /** Fails only if no block generated one, genesis included. */
  method GetLastStakeModifier(chain: seq<Index>) returns (ok: bool, nStakeModifier: nat, nModifierTime: nat)
    requires chain != []
    ensures ok <==> LastGenerated(chain) >= 0
    ensures ok ==> nStakeModifier == chain[LastGenerated(chain)].nStakeModifier && nModifierTime == chain[LastGenerated(chain)].nTime
  {
    var i := |chain| - 1;
    while i > 0 && !chain[i].fGenerated
      invariant 0 <= i < |chain| && forall j :: i < j < |chain| ==> !chain[j].fGenerated
    {
      i := i - 1;
    }
    return chain[i].fGenerated, chain[i].nStakeModifier, chain[i].nTime;
  }

  /** The rounds of `ComputeNextStakeModifier`. */
  method PlayRounds(params: Params, mapBlockIndex: map<nat, Index>, v: seq<Candidate>, nStart: int, prev: nat)
    returns (ok: bool, nStakeModifierNew: nat, ghost picks: seq<nat>)
    requires Sorted(v) && Indexed(mapBlockIndex, v)
    ensures ok && |picks| == (if |v| < 64 then |v| else 64)
    ensures Rounds(params, mapBlockIndex, v, nStart, prev, picks) && nStakeModifierNew == Bits(v, picks)
  {
    hide Section, IsChoice, Taken;
    var nStop, mapSelectedBlocks, weight := nStart, {}, 1;
    var nRounds := if |v| < 64 then |v| else 64;
    nStakeModifierNew, picks := 0, [];
    NoneTaken(v);
    for nRound := 0 to nRounds
      invariant |picks| == nRound && nStop == nStart + SectionsUpTo(nRound) && weight == Pow2(nRound)
      invariant mapSelectedBlocks == Taken(v, picks)
      invariant Rounds(params, mapBlockIndex, v, nStart, prev, picks) && nStakeModifierNew == Bits(v, picks)
    {
      nStop := nStop + Section(nRound);
      TakenSize(v, picks);
      OneLeft(v, mapSelectedBlocks);
      var fSelected, pindex;
      ghost var at;
      fSelected, pindex, at := SelectBlockFromCandidates(params, mapBlockIndex, v, mapSelectedBlocks, nStop, prev);
      if !fSelected {
        return false, nStakeModifierNew, picks;
      }
      NextRound(params, mapBlockIndex, v, nStart, prev, picks, at);
      nStakeModifierNew := nStakeModifierNew + pindex.StakeEntropyBit() * weight;
      mapSelectedBlocks := mapSelectedBlocks + {pindex.hash};
      weight := weight * 2;
      picks := picks + [at];
    }
    ok := true;
  }

  lemma NoneTaken(v: seq<Candidate>)
    ensures Taken(v, []) == {}
  {
  }

  lemma BitsNext(v: seq<Candidate>, picks: seq<nat>, at: nat)
    requires at < |v|
    ensures Bits(v, picks + [at]) == Bits(v, picks) + v[at].1 % 2 * Pow2(|picks|)
  {
    hide Pow2;
    assert (picks + [at])[..|picks|] == picks;
  }

  lemma NextRound(params: Params, mapBlockIndex: map<nat, Index>, v: seq<Candidate>, nStart: int, prev: nat, picks: seq<nat>, at: nat)
    requires Rounds(params, mapBlockIndex, v, nStart, prev, picks) && |picks| < 64 && at < |v|
    requires IsChoice(params, mapBlockIndex, v, Taken(v, picks), nStart + SectionsUpTo(|picks| + 1), prev, at)
    ensures Rounds(params, mapBlockIndex, v, nStart, prev, picks + [at])
    ensures Taken(v, picks + [at]) == Taken(v, picks) + {v[at].1}
    ensures Bits(v, picks + [at]) == Bits(v, picks) + v[at].1 % 2 * Pow2(|picks|)
  {
    hide IsChoice, SectionsUpTo, Taken, Bits, Pow2, Indexed, RoundAt;
    TakenNext(v, picks, at);
    BitsNext(v, picks, at);
    var all := picks + [at];
    forall r | 0 <= r < |all| ensures RoundAt(params, mapBlockIndex, v, nStart, prev, all, r) {
      if r < |picks| {
        SameRound(params, mapBlockIndex, v, nStart, prev, picks, at, r);
      } else {
        LastRound(params, mapBlockIndex, v, nStart, prev, picks, at);
      }
    }
  }

  lemma SameRound(params: Params, mapBlockIndex: map<nat, Index>, v: seq<Candidate>, nStart: int, prev: nat, picks: seq<nat>, at: nat, r: nat)
    requires Indexed(mapBlockIndex, v) && r < |picks| < 64 && RoundAt(params, mapBlockIndex, v, nStart, prev, picks, r)
    ensures RoundAt(params, mapBlockIndex, v, nStart, prev, picks + [at], r)
  {
    hide IsChoice, SectionsUpTo, Taken;
    assert (picks + [at])[..r] == picks[..r] && (picks + [at])[r] == picks[r];
  }

  lemma LastRound(params: Params, mapBlockIndex: map<nat, Index>, v: seq<Candidate>, nStart: int, prev: nat, picks: seq<nat>, at: nat)
    requires Indexed(mapBlockIndex, v) && |picks| < 64
    requires IsChoice(params, mapBlockIndex, v, Taken(v, picks), nStart + SectionsUpTo(|picks| + 1), prev, at)
    ensures RoundAt(params, mapBlockIndex, v, nStart, prev, picks + [at], |picks|)
  {
    hide IsChoice, SectionsUpTo, Taken;
    assert (picks + [at])[..|picks|] == picks;
  }

  /** Whether the time has come for another modifier. */
  predicate Due(tip: Index, nModifierTime: nat) {
    nModifierTime / MODIFIER_INTERVAL < tip.nTime / MODIFIER_INTERVAL
  }

  /** It has come exactly when a multiple of the interval lies between the last modifier and the tip. */
  lemma DueExactly(tip: Index, nModifierTime: nat)
    ensures Due(tip, nModifierTime) <==> exists k: nat :: nModifierTime < k * MODIFIER_INTERVAL <= tip.nTime
  {
    if Due(tip, nModifierTime) {
      var k := tip.nTime / MODIFIER_INTERVAL;
      assert nModifierTime < k * MODIFIER_INTERVAL <= tip.nTime;
    }
  }

  function SelectionStart(tip: Index): int {
    tip.nTime / MODIFIER_INTERVAL * MODIFIER_INTERVAL - SectionsUpTo(64)
  }

  /** The stop times rise from round to round, and the last one is the start of the tip's own
      modifier interval. */
  lemma StopsRise(tip: Index, r: nat)
    requires r < 64
    ensures SelectionStart(tip) + SectionsUpTo(r + 1) >= SelectionStart(tip) + SectionsUpTo(r) + 20
    ensures r == 63 ==> SelectionStart(tip) + SectionsUpTo(r + 1) == tip.nTime - tip.nTime % MODIFIER_INTERVAL
  {
    hide SectionsUpTo;
    SectionsStep(r);
  }

  lemma SectionsStep(r: nat)
    requires r < 64
    ensures SectionsUpTo(r + 1) >= SectionsUpTo(r) + 20
  {
  }

  /** `ComputeNextStakeModifier`: fails only on a chain with no generated modifier at all, never in a
      round; when a modifier is due, each of as many rounds as there are candidates, but at most 64,
      makes its own choice, and the new modifier is the entropy bits of the chosen blocks. */
  method ComputeNextStakeModifier(params: Params, mapBlockIndex: map<nat, Index>, chain: seq<Index>)
    returns (ok: bool, nStakeModifier: nat, fGenerated: bool, ghost picks: seq<nat>)
    requires ChainIndexed(mapBlockIndex, chain)
    ensures ok <==> |chain| <= 1 || LastGenerated(chain) >= 0
    ensures |chain| <= 1 ==> fGenerated && nStakeModifier == if chain == [] then 0 else params.genesisModifier
    ensures ok && |chain| > 1 ==>
      var last := chain[LastGenerated(chain)];
      && (fGenerated <==> Due(chain[|chain| - 1], last.nTime))
      && (!fGenerated ==> nStakeModifier == last.nStakeModifier)
      && (fGenerated ==> GeneratedFrom(params, mapBlockIndex, chain, last.nStakeModifier, nStakeModifier, picks))
  {
    hide GeneratedFrom, LastGenerated;
    nStakeModifier, fGenerated, picks := 0, false, [];
    if chain == [] {
      return true, 0, true, [];
    }
    var tip := chain[|chain| - 1];
    if tip.nHeight == 0 {
      return true, params.genesisModifier, true, [];
    }
    var nModifierTime;
    ok, nStakeModifier, nModifierTime := GetLastStakeModifier(chain);
    if !ok || nModifierTime / MODIFIER_INTERVAL >= tip.nTime / MODIFIER_INTERVAL {
      return;
    }
    ok, nStakeModifier, picks := GenerateModifier(params, mapBlockIndex, chain, nStakeModifier);
    fGenerated := true;
  }

  /** The part after it is known that a modifier is due. */
  method GenerateModifier(params: Params, mapBlockIndex: map<nat, Index>, chain: seq<Index>, prev: nat)
    returns (ok: bool, nStakeModifierNew: nat, ghost picks: seq<nat>)
    requires ChainIndexed(mapBlockIndex, chain) && chain != []
    ensures ok && GeneratedFrom(params, mapBlockIndex, chain, prev, nStakeModifierNew, picks)
  {
    hide Rounds, Bits, SortedFrom, FirstCandidate, ChainIndexed, SectionsUpTo, Sorted;
    var tip := chain[|chain| - 1];
    var nSelectionInterval := GetStakeModifierSelectionInterval();
    var nStart := tip.nTime / MODIFIER_INTERVAL * MODIFIER_INTERVAL - nSelectionInterval;
    var k := CollectCandidates(chain, nStart);
    var v := SortedFrom(chain, k);
    SortedFromChain(mapBlockIndex, chain, k);
    ok, nStakeModifierNew, picks := PlayRounds(params, mapBlockIndex, v, nStart, prev);
  }

  /** Goes down from the tip to the first block before the interval. */
  method CollectCandidates(chain: seq<Index>, nStart: int) returns (k: nat)
    ensures k == FirstCandidate(chain, nStart)
  {
    k := |chain|;
    assert chain[..|chain|] == chain;
    while k > 0 && chain[k - 1].nTime >= nStart
      invariant 0 <= k <= |chain| && FirstCandidate(chain[..k], nStart) == FirstCandidate(chain, nStart)
    {
      assert chain[..k][..k - 1] == chain[..k - 1];
      k := k - 1;
    }
  }

  /** What a new modifier is made of. */
  ghost predicate GeneratedFrom(params: Params, mapBlockIndex: map<nat, Index>, chain: seq<Index>, prev: nat, nStakeModifier: nat, picks: seq<nat>)
    requires chain != []
  {
    var nStart := SelectionStart(chain[|chain| - 1]);
    var v := SortedFrom(chain, FirstCandidate(chain, nStart));
    && Sorted(v) && Rounds(params, mapBlockIndex, v, nStart, prev, picks)
    && |picks| == (if |v| < 64 then |v| else 64)
    && nStakeModifier == Bits(v, picks)
  }
}
