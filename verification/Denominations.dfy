/** Choosing zerocoin mints to spend (src/denomination_functions.cpp).  A denomination is its position
    in `zerocoinDenomList`, and ZQ_ERROR is -1, so that they compare as the enumeration does. */
module Denominations {
  import opened CoinSets

  const ZQ_ERROR := -1

  type Denom = k: int | -1 <= k < N

  method GetNumberOfCoinsUsed(mapChange: Counts) returns (nChangeCount: nat)
    ensures nChangeCount == Number(mapChange, N)
  {
    nChangeCount := 0;
    for k := 0 to N
      invariant nChangeCount == Number(mapChange, k)
    {
      nChangeCount := nChangeCount + mapChange[k];
    }
  }

  method GetMaxDenomHeld(mapCoinsHeld: Counts) returns (maxDenom: Denom)
    ensures maxDenom == ZQ_ERROR || mapCoinsHeld[maxDenom] > 0
    ensures forall k :: maxDenom < k < N ==> mapCoinsHeld[k] == 0
  {
    for k := N downto 0
      invariant forall j :: k <= j < N ==> mapCoinsHeld[j] == 0
    {
      if mapCoinsHeld[k] != 0 {
        return k;
      }
    }
    return ZQ_ERROR;
  }

  method GetNextLowerDenomHeld(thisDenom: Denom, mapCoinsHeld: Counts) returns (nextValue: Denom)
    ensures nextValue == ZQ_ERROR || (nextValue < thisDenom && mapCoinsHeld[nextValue] > 0)
    ensures forall k :: nextValue < k < thisDenom ==> mapCoinsHeld[k] == 0
  {
    for k := N downto 0
      invariant forall j :: k <= j < N && j < thisDenom ==> mapCoinsHeld[j] == 0
    {
      if k < thisDenom && mapCoinsHeld[k] != 0 {
        return k;
      }
    }
    return ZQ_ERROR;
  }

  // ----- the greedy loops

  /** One denomination's turn of a selection loop that takes coins while more than `slack` less than
      one of them remains; the loops of the source differ in `slack` only. */
  method TakeCoins(r: int, a: nat, held: nat, slack: nat) returns (t: nat, rest: int)
    requires a > 0
    ensures t == Take(r - slack, a, held) && rest == r - Times(t, a)
  {
    t, rest := 0, r;
    while rest - slack >= a && t < held
      invariant t <= held && rest == r - Times(t, a) && (t > 0 ==> rest >= slack)
      decreases held - t
    {
      TimesNext(t, a);
      t := t + 1;
      rest := rest - a;
    }
    TakeIs(r - slack, a, held, t);
  }

  lemma TimesNext(t: nat, a: nat)
    ensures Times(t + 1, a) == Times(t, a) + a && Times(0, a) == 0
  {
  }

  /** The loop has settled the denominations from `k` up. */
  ghost predicate Settled(r: int, held: Counts, k: nat, rest: int, used: Counts) {
    && k <= N && Greedy(r, held, N) == Greedy(rest, held, k) + used[k..]
    && (forall i :: 0 <= i < k ==> used[i] == 0)
  }

  lemma SettleNext(r: int, held: Counts, k: nat, rest: int, used: Counts, t: nat)
    requires Settled(r, held, k + 1, rest, used) && t == Take(rest, Amount(k), held[k])
    ensures used[k] == 0 && Settled(r, held, k, rest - Times(t, Amount(k)), used[k := t])
  {
    hide Take, Amount, Times, Greedy, Worth, Number;
    GreedyStep(rest, held, k + 1);
    var front := Greedy(rest - Times(t, Amount(k)), held, k);
    assert Greedy(rest, held, k + 1) == front + [t];
    assert used[k := t][k..] == [t] + used[k + 1..];
    assert (front + [t]) + used[k + 1..] == front + ([t] + used[k + 1..]);
  }

  lemma SettleEnds(r: int, held: Counts, rest: int, used: Counts)
    requires Settled(r, held, 0, rest, used)
    ensures used == Greedy(r, held, N)
  {
    assert used[0..] == used;
  }

  lemma SettleStarts(r: int, held: Counts)
    ensures Settled(r, held, N, r, None(N))
  {
  }

  method GetSpendCoins(nValueTarget: int, mapOfDenomsHeld: Counts) returns (mapUsed: Counts)
    ensures mapUsed == Greedy(nValueTarget, mapOfDenomsHeld, N)
    ensures Within(mapUsed, mapOfDenomsHeld, N)
    ensures nValueTarget >= 0 ==> Total(mapUsed) <= nValueTarget
  {
    hide Settled, Greedy, Take, Amount, Times;
    mapUsed := None(N);
    var nRemainingValue := nValueTarget;
    SettleStarts(nValueTarget, mapOfDenomsHeld);
    for k := N downto 0
      invariant |mapUsed| == N && Settled(nValueTarget, mapOfDenomsHeld, k, nRemainingValue, mapUsed)
    {
      var t, rest := TakeCoins(nRemainingValue, Amount(k), mapOfDenomsHeld[k], 0);
      SettleNext(nValueTarget, mapOfDenomsHeld, k, nRemainingValue, mapUsed, t);
      mapUsed := mapUsed[k := t];
      nRemainingValue := rest;
    }
    SettleEnds(nValueTarget, mapOfDenomsHeld, nRemainingValue, mapUsed);
    GreedyFits(nValueTarget, mapOfDenomsHeld, N);
  }

  /** The selection reaches the largest sum not above the target that the held coins can make, and
      with the fewest coins that make it. */
  lemma SpendCoinsBest(nValueTarget: int, mapOfDenomsHeld: Counts, other: Counts)
    requires Within(other, mapOfDenomsHeld, N) && Total(other) <= nValueTarget
    ensures var mapUsed: Counts := Greedy(nValueTarget, mapOfDenomsHeld, N);
      && Total(other) <= Total(mapUsed) <= nValueTarget && Within(mapUsed, mapOfDenomsHeld, N)
      && (Total(other) == Total(mapUsed) ==> Number(mapUsed, N) <= Number(other, N))
  {
    GreedyBest(nValueTarget, mapOfDenomsHeld, N, other);
    GreedyFits(nValueTarget, mapOfDenomsHeld, N);
  }

  method GetChange(nValueTarget: int) returns (mapChange: Counts)
    ensures mapChange == Change(nValueTarget)
    ensures nValueTarget >= 0 ==> Total(mapChange) == nValueTarget - nValueTarget % COIN
  {
    hide Settled, Greedy, Take, Amount, Times;
    mapChange := None(N);
    var nRemainingValue := nValueTarget;
    ghost var plenty := Plenty(nValueTarget);
    SettleStarts(nValueTarget, plenty);
    for k := N downto 0
      invariant |mapChange| == N && nRemainingValue <= nValueTarget
      invariant Settled(nValueTarget, plenty, k, nRemainingValue, mapChange)
    {
      ghost var before := nRemainingValue;
      var nValue, t := Amount(k), 0;
      TimesNext(0, nValue);
      while nRemainingValue >= nValue
        invariant nRemainingValue == before - Times(t, nValue) && t >= 0 && (t > 0 ==> nRemainingValue >= 0)
        decreases nRemainingValue
      {
        TimesNext(t, nValue);
        t, nRemainingValue := t + 1, nRemainingValue - nValue;
      }
      EnoughCoins(before, nValue, t, nValueTarget);
      TakeIs(before, nValue, plenty[k], t);
      SettleNext(nValueTarget, plenty, k, before, mapChange, t);
      mapChange := mapChange[k := t];
    }
    SettleEnds(nValueTarget, plenty, nRemainingValue, mapChange);
    if nValueTarget >= 0 {
      ChangeMakes(nValueTarget);
    }
  }

  lemma EnoughCoins(r: int, a: nat, t: nat, target: int)
    requires a > 0 && (t > 0 ==> Times(t, a) <= r) && r <= target
    ensures t <= if target < 0 then 0 else target
  {
    Ones(t, a);
  }

  // ----- mints

  /** A CZerocoinMint, as far as selection looks at it. */
  datatype Mint = Mint(denom: nat, isUsed: bool, serial: nat) {

    predicate Offers(k: nat)
      requires k < N
    {
      !isUsed && denom == DENOMS[k]
    }
  }

  /** How many unused mints there are of a denomination. */
  function Count(mints: seq<Mint>, k: nat): nat
    requires k < N
  {
    if mints == [] then 0 else (if mints[0].Offers(k) then 1 else 0) + Count(mints[1..], k)
  }

  function Unused(mints: seq<Mint>): Counts {
    seq(N, k requires 0 <= k < N => Count(mints, k))
  }

  lemma {:induction false} CountPrefix(mints: seq<Mint>, k: nat, i: nat)
    requires k < N && i < |mints|
    ensures Count(mints[..i + 1], k) == Count(mints[..i], k) + (if mints[i].Offers(k) then 1 else 0)
    ensures Count(mints[..i], k) <= Count(mints, k)
  {
    if i == 0 {
      assert mints[..1][1..] == [] && mints[..0] == [];
    } else {
      CountPrefix(mints[1..], k, i - 1);
      assert mints[..i + 1][1..] == mints[1..][..i] && mints[..i][1..] == mints[1..][..i - 1];
    }
  }

  /** One denomination's turn in `getIdealSpends`. */
  method TakeMints(r: int, listMints: seq<Mint>, k: nat) returns (t: nat, rest: int)
    requires k < N
    ensures t == Take(r, Amount(k), Count(listMints, k)) && rest == r - Times(t, Amount(k))
  {
    hide Amount, Times, Take;
    t, rest := 0, r;
    TimesNext(0, Amount(k));
    var i := 0;
    assert listMints[..0] == [];
    while i < |listMints|
      invariant 0 <= i <= |listMints| && t == Count(listMints[..i], k)
      invariant rest == r - Times(t, Amount(k)) && (t > 0 ==> rest >= 0)
    {
      CountPrefix(listMints, k, i);
      if !listMints[i].isUsed {
        if rest >= Amount(k) && DENOMS[k] == listMints[i].denom {
          TimesNext(t, Amount(k));
          t, rest := t + 1, rest - Amount(k);
        }
        if rest < Amount(k) {
          AtMostCount(listMints, k, i, t);
          break;
        }
      }
      i := i + 1;
    }
    if i == |listMints| {
      assert listMints[..i] == listMints;
    }
    TakeIs(r, Amount(k), Count(listMints, k), t);
  }

  lemma AtMostCount(mints: seq<Mint>, k: nat, i: nat, t: nat)
    requires k < N && i < |mints| && t <= Count(mints[..i + 1], k)
    ensures t <= Count(mints, k)
  {
    if i + 1 < |mints| {
      CountPrefix(mints, k, i + 1);
    } else {
      assert mints[..i + 1] == mints;
    }
  }

  /** True exactly when unused mints can pay the amount exactly. */
  method GetIdealSpends(nValueTarget: int, listMints: seq<Mint>) returns (exact: bool, mapOfDenomsUsed: Counts)
    ensures mapOfDenomsUsed == Greedy(nValueTarget, Unused(listMints), N)
    ensures exact <==> CanPay(Unused(listMints), nValueTarget)
    ensures exact ==> Total(mapOfDenomsUsed) == nValueTarget
  {
    hide Settled, Greedy, Take, Amount, Times;
    ghost var held := Unused(listMints);
    mapOfDenomsUsed := None(N);
    var nRemainingValue := nValueTarget;
    SettleStarts(nValueTarget, held);
    NoneWorth(None(N), N);
    for k := N downto 0
      invariant |mapOfDenomsUsed| == N && Settled(nValueTarget, held, k, nRemainingValue, mapOfDenomsUsed)
      invariant Total(mapOfDenomsUsed) == nValueTarget - nRemainingValue
    {
      var t, rest := TakeMints(nRemainingValue, listMints, k);
      SettleNext(nValueTarget, held, k, nRemainingValue, mapOfDenomsUsed, t);
      SetWorth(mapOfDenomsUsed, k, t, N);
      mapOfDenomsUsed := mapOfDenomsUsed[k := t];
      nRemainingValue := rest;
    }
    SettleEnds(nValueTarget, held, nRemainingValue, mapOfDenomsUsed);
    exact := nRemainingValue == 0;
    PaysExactly(nValueTarget, held);
  }

  lemma {:induction false} SetWorth(c: Counts, k: nat, t: nat, n: nat)
    requires k < N && n <= N && c[k] == 0
    ensures Worth(c[k := t], n) == Worth(c, n) + (if k < n then Times(t, Amount(k)) else 0)
    ensures Number(c[k := t], n) == Number(c, n) + (if k < n then t else 0)
  {
    hide Amount, Times;
    if n > 0 {
      SetWorth(c, k, t, n - 1);
      ZeroTimes(Amount(n - 1));
    }
  }

  ghost predicate CanPay(held: Counts, r: int) {
    exists u: Counts :: Within(u, held, N) && Total(u) == r
  }

  lemma PaysExactly(r: int, held: Counts)
    ensures Total(Greedy(r, held, N)) == r <==> CanPay(held, r)
  {
    GreedyFits(r, held, N);
    if CanPay(held, r) {
      var u: Counts :| Within(u, held, N) && Total(u) == r;
      GreedyBest(r, held, N, u);
    }
  }

  // ----- picking the mints

  /** The first `n` unused mints of a denomination, in list order. */
  function FirstOf(mints: seq<Mint>, k: nat, n: nat): seq<Mint>
    requires k < N
  {
    if mints == [] || n == 0 then []
    else if mints[0].Offers(k) then [mints[0]] + FirstOf(mints[1..], k, n - 1)
    else FirstOf(mints[1..], k, n)
  }

  /** What the passes over the list pick for one denomination: when a pass does not suffice, the same
      mints come again. */
  function Picked(mints: seq<Mint>, k: nat, n: nat): seq<Mint>
    requires k < N && (n > 0 ==> Count(mints, k) > 0)
    decreases n
  {
    if n <= Count(mints, k) then FirstOf(mints, k, n)
    else FirstOf(mints, k, n) + Picked(mints, k, n - Count(mints, k))
  }

  predicate Offered(mints: seq<Mint>, used: Counts) {
    forall k :: 0 <= k < N && used[k] > 0 ==> Count(mints, k) > 0
  }

  /** The mints picked for the denominations from `k` up, largest first. */
  function Spends(mints: seq<Mint>, used: Counts, k: nat): seq<Mint>
    requires k <= N && Offered(mints, used)
    decreases N - k
  {
    if k == N then [] else Spends(mints, used, k + 1) + Picked(mints, k, used[k])
  }

  /** One pass over the list for one denomination. */
  method Pass(listMints: seq<Mint>, k: nat, nWanted: nat) returns (vPicked: seq<Mint>, nLeft: nat)
    requires k < N
    ensures vPicked == FirstOf(listMints, k, nWanted)
    ensures nLeft == if nWanted <= Count(listMints, k) then 0 else nWanted - Count(listMints, k)
  {
    vPicked, nLeft := [], nWanted;
    assert listMints[0..] == listMints;
    for i := 0 to |listMints|
      invariant FirstOf(listMints, k, nWanted) == vPicked + FirstOf(listMints[i..], k, nLeft)
      invariant nWanted - Count(listMints, k) == nLeft - Count(listMints[i..], k) || (nLeft == 0 && nWanted <= Count(listMints, k))
    {
      assert listMints[i..][0] == listMints[i] && listMints[i..][1..] == listMints[i + 1..];
      if !listMints[i].isUsed && DENOMS[k] == listMints[i].denom && nLeft > 0 {
        vPicked := vPicked + [listMints[i]];
        nLeft := nLeft - 1;
      }
    }
  }

  /** A denomination wanted with no unused mint of it would keep the source's loop going forever. */
  method GetSpends(listMints: seq<Mint>, mapOfDenomsUsed: Counts) returns (vSelectedMints: seq<Mint>, nCoinsSpentValue: int, left: Counts)
    requires Offered(listMints, mapOfDenomsUsed)
    ensures vSelectedMints == Spends(listMints, mapOfDenomsUsed, 0)
    ensures nCoinsSpentValue == Total(mapOfDenomsUsed) && left == None(N)
  {
    hide Amount, Times, FirstOf, Count;
    vSelectedMints, nCoinsSpentValue, left := [], 0, mapOfDenomsUsed;
    for k := N downto 0
      invariant vSelectedMints == Spends(listMints, mapOfDenomsUsed, k)
      invariant nCoinsSpentValue == Total(mapOfDenomsUsed) - Worth(mapOfDenomsUsed, k)
      invariant left == mapOfDenomsUsed[..k] + None(N - k)
    {
      ghost var done := vSelectedMints;
      ghost var wanted := mapOfDenomsUsed[k];
      TimesNext(0, Amount(k));
      while left[k] > 0
        invariant |left| == N && 0 <= left[k] <= wanted && left == left[k := left[k]] && mapOfDenomsUsed[..k] == left[..k]
        invariant left[k + 1..] == None(N - k - 1)
        invariant done + Picked(listMints, k, wanted) == vSelectedMints + Picked(listMints, k, left[k])
        invariant nCoinsSpentValue == Total(mapOfDenomsUsed) - Worth(mapOfDenomsUsed, k + 1) + Times(wanted - left[k], Amount(k))
        decreases left[k]
      {
        var vPicked, nLeft := Pass(listMints, k, left[k]);
        PickedNext(listMints, k, left[k]);
        PassWorth(listMints, k, left[k], |vPicked|);
        TimesMinus(wanted - nLeft, wanted - left[k], Amount(k));
        vSelectedMints := vSelectedMints + vPicked;
        nCoinsSpentValue := nCoinsSpentValue + |vPicked| * Amount(k);
        left := left[k := nLeft];
      }
      PickedNone(listMints, k);
    }
  }

  lemma PickedNone(mints: seq<Mint>, k: nat)
    requires k < N
    ensures Picked(mints, k, 0) == []
  {
  }

  lemma PickedNext(mints: seq<Mint>, k: nat, n: nat)
    requires k < N && n > 0 && Count(mints, k) > 0
    ensures Picked(mints, k, n) == FirstOf(mints, k, n) + Picked(mints, k, if n <= Count(mints, k) then 0 else n - Count(mints, k))
  {
  }

  lemma {:induction false} PassWorth(mints: seq<Mint>, k: nat, n: nat, size: nat)
    requires k < N && size == |FirstOf(mints, k, n)|
    ensures size == (if n <= Count(mints, k) then n else Count(mints, k))
    ensures size * Amount(k) == Times(size, Amount(k))
  {
    FirstOfShape(mints, k, n);
  }

  lemma {:induction false} FirstOfShape(mints: seq<Mint>, k: nat, n: nat)
    requires k < N
    ensures |FirstOf(mints, k, n)| == (if n <= Count(mints, k) then n else Count(mints, k))
    ensures forall m :: m in FirstOf(mints, k, n) ==> m in mints && m.Offers(k)
  {
    if mints != [] && n > 0 {
      FirstOfShape(mints[1..], k, if mints[0].Offers(k) then n - 1 else n);
    }
  }
}
