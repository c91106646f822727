/** Which mints a payment spends and what change it gives back (src/denomination_functions.cpp:
    `minimizeChange`, `calculateChange`, `SelectMintsFromList`). */
module MintSelection {
  import opened Basics
  import opened CoinSets
  import opened Denominations

  // ----- the mints picked

  /** What the mints are worth together. */
  function ValueOf(mints: seq<Mint>): nat {
    if mints == [] then 0 else COIN * mints[0].denom + ValueOf(mints[1..])
  }

  lemma {:induction false} ValueOfConcat(a: seq<Mint>, b: seq<Mint>)
    ensures ValueOf(a + b) == ValueOf(a) + ValueOf(b)
  {
    if a == [] {
      assert a + b == b;
    } else {
      ValueOfConcat(a[1..], b);
      assert (a + b)[1..] == a[1..] + b;
    }
  }

  lemma {:induction false} ValueOfSame(mints: seq<Mint>, k: nat)
    requires k < N && forall i :: 0 <= i < |mints| ==> mints[i].denom == DENOMS[k]
    ensures ValueOf(mints) == Times(|mints|, Amount(k))
  {
    if mints == [] {
      ZeroTimes(Amount(k));
    } else {
      ValueOfSame(mints[1..], k);
      TimesNext(|mints| - 1, Amount(k));
    }
  }

  lemma {:induction false} FirstOfDistinct(mints: seq<Mint>, k: nat, n: nat)
    requires k < N && Distinct(mints)
    ensures Distinct(FirstOf(mints, k, n))
  {
    if mints != [] && n > 0 {
      var rest := mints[1..];
      assert mints[0] !in rest;
      FirstOfDistinct(rest, k, if mints[0].Offers(k) then n - 1 else n);
      FirstOfShape(rest, k, if mints[0].Offers(k) then n - 1 else n);
    }
  }

  /** The mint every pass begins with. */
  lemma {:induction false} FirstOfFirst(mints: seq<Mint>, k: nat, n: nat)
    requires k < N && n > 0 && Count(mints, k) > 0
    ensures FirstOf(mints, k, n) != [] && FirstOf(mints, k, 1) != [] && FirstOf(mints, k, n)[0] == FirstOf(mints, k, 1)[0]
  {
    if !mints[0].Offers(k) {
      FirstOfFirst(mints[1..], k, n);
    }
  }

  lemma {:induction false} PickedShape(mints: seq<Mint>, k: nat, n: nat)
    requires k < N && (n > 0 ==> Count(mints, k) > 0)
    ensures |Picked(mints, k, n)| == n && forall m :: m in Picked(mints, k, n) ==> m in mints && m.Offers(k)
    ensures n > 0 ==> FirstOf(mints, k, 1) != [] && Picked(mints, k, n)[0] == FirstOf(mints, k, 1)[0]
    decreases n
  {
    FirstOfShape(mints, k, n);
    if n > 0 {
      FirstOfFirst(mints, k, n);
    }
    if n > Count(mints, k) {
      PickedShape(mints, k, n - Count(mints, k));
    }
  }

  lemma PickedDistinct(mints: seq<Mint>, k: nat, n: nat)
    requires k < N && Distinct(mints) && (n > 0 ==> Count(mints, k) > 0)
    ensures Distinct(Picked(mints, k, n)) <==> n <= Count(mints, k)
  {
    if n <= Count(mints, k) {
      FirstOfDistinct(mints, k, n);
    } else {
      var c := Count(mints, k);
      FirstOfShape(mints, k, n);
      FirstOfFirst(mints, k, n);
      PickedShape(mints, k, n - c);
      var p := Picked(mints, k, n);
      assert p[0] == p[c];
    }
  }

  lemma {:induction false} SpendsWorth(mints: seq<Mint>, used: Counts, k: nat)
    requires k <= N && Offered(mints, used)
    ensures ValueOf(Spends(mints, used, k)) == Total(used) - Worth(used, k)
    ensures |Spends(mints, used, k)| == Number(used, N) - Number(used, k)
    decreases N - k
  {
    hide Amount, Times, Picked, Count, Mint.Offers, FirstOf, ValueOf;
    if k == N {
      ValueOfNone();
    } else {
      SpendsWorth(mints, used, k + 1);
      var later, p := Spends(mints, used, k + 1), Picked(mints, k, used[k]);
      PickedShape(mints, k, used[k]);
      OffersDenom(p, k);
      ValueOfSame(p, k);
      ValueOfConcat(later, p);
    }
  }

  lemma {:induction false} SpendsOffered(mints: seq<Mint>, used: Counts, k: nat)
    requires k <= N && Offered(mints, used)
    ensures forall m :: m in Spends(mints, used, k) ==> m in mints && exists j :: k <= j < N && m.Offers(j)
    decreases N - k
  {
    hide Picked, Count, Mint.Offers, FirstOf;
    if k < N {
      SpendsOffered(mints, used, k + 1);
      PickedShape(mints, k, used[k]);
    }
  }

  lemma {:induction false} SpendsDiffer(mints: seq<Mint>, used: Counts, k: nat)
    requires k <= N && Distinct(mints) && Offered(mints, used)
    ensures Distinct(Spends(mints, used, k)) <==> forall j :: k <= j < N ==> used[j] <= Count(mints, j)
    decreases N - k
  {
    hide Picked, Count, Mint.Offers, FirstOf, Distinct, Offered;
    if k == N {
      NoneDistinct();
    } else {
      SpendsDiffer(mints, used, k + 1);
      OfferedAt(mints, used, k);
      var later, p := Spends(mints, used, k + 1), Picked(mints, k, used[k]);
      PickedShape(mints, k, used[k]);
      PickedDistinct(mints, k, used[k]);
      SpendsOffered(mints, used, k + 1);
      NoneCommon(later, p, k);
      DistinctConcat(later, p);
    }
  }

  lemma NoneCommon(later: seq<Mint>, p: seq<Mint>, k: nat)
    requires k < N && forall m :: m in p ==> m.Offers(k)
    requires forall m :: m in later ==> exists j :: k + 1 <= j < N && m.Offers(j)
    ensures forall m :: m in later ==> m !in p
  {
    hide Mint.Offers;
    forall m | m in later ensures m !in p {
      var j :| k + 1 <= j < N && m.Offers(j);
      if m in p {
        DenomsDiffer(m, k, j);
      }
    }
  }

  lemma NoneDistinct()
    ensures Distinct<Mint>([])
  {
  }

  lemma OfferedAt(mints: seq<Mint>, used: Counts, k: nat)
    requires k < N && Offered(mints, used)
    ensures used[k] > 0 ==> Count(mints, k) > 0
  {
  }

  /** The mints spent are unused ones of the list, worth what the map says; they are all different
      exactly when the map asks for no more of any denomination than there are unused mints of it. */
  lemma SpendsAreMints(mints: seq<Mint>, used: Counts, k: nat)
    requires k <= N && Distinct(mints) && Offered(mints, used)
    ensures ValueOf(Spends(mints, used, k)) == Total(used) - Worth(used, k)
    ensures |Spends(mints, used, k)| == Number(used, N) - Number(used, k)
    ensures forall m :: m in Spends(mints, used, k) ==> m in mints && exists j :: k <= j < N && m.Offers(j)
    ensures Distinct(Spends(mints, used, k)) <==> forall j :: k <= j < N ==> used[j] <= Count(mints, j)
  {
    hide *;
    SpendsWorth(mints, used, k);
    SpendsOffered(mints, used, k);
    SpendsDiffer(mints, used, k);
  }

  /** A mint picked twice: two are asked for, and the list has one. */
  lemma MintSpentTwice()
    ensures var mints, used: Counts := [Mint(1, false, 7)], [2, 0, 0, 0, 0, 0, 0, 0];
      Distinct(mints) && Offered(mints, used) && Spends(mints, used, 0) == [mints[0], mints[0]]
  {
    var m := Mint(1, false, 7);
    var mints, used: Counts := [m], [2, 0, 0, 0, 0, 0, 0, 0];
    assert m.Offers(0);
    hide Mint.Offers;
    OnlyMint(m);
    hide Picked, Count;
    NoneAbove(mints, used, 1);
  }

  lemma OnlyMint(m: Mint)
    requires m.Offers(0)
    ensures Count([m], 0) == 1 && Picked([m], 0, 2) == [m, m]
  {
    assert [m][1..] == [] && Count([], 0) == 0;
    assert FirstOf([m], 0, 1) == [m] && FirstOf([m], 0, 2) == [m];
    assert Picked([m], 0, 1) == [m];
  }

  lemma {:induction false} NoneAbove(mints: seq<Mint>, used: Counts, k: nat)
    requires k <= N && Offered(mints, used) && forall j :: k <= j < N ==> used[j] == 0
    ensures Spends(mints, used, k) == []
    decreases N - k
  {
    if k < N {
      NoneAbove(mints, used, k + 1);
    }
  }

  lemma DenomsDiffer(m: Mint, i: nat, j: nat)
    requires i < j < N && m.Offers(i)
    ensures !m.Offers(j)
  {
  }

  lemma ValueOfNone()
    ensures ValueOf([]) == 0
  {
  }

  lemma OffersDenom(p: seq<Mint>, k: nat)
    requires k < N && forall m :: m in p ==> m.Offers(k)
    ensures forall i :: 0 <= i < |p| ==> p[i].denom == DENOMS[k]
  {
    assert forall i :: 0 <= i < |p| ==> p[i] in p;
  }

  lemma DistinctConcat(a: seq<Mint>, b: seq<Mint>)
    requires forall m :: m in a ==> m !in b
    ensures Distinct(a + b) <==> Distinct(a) && Distinct(b)
  {
    if Distinct(a + b) {
      forall i, j | 0 <= i < j < |a| ensures a[i] != a[j] {
        assert (a + b)[i] == a[i] && (a + b)[j] == a[j];
      }
      forall i, j | 0 <= i < j < |b| ensures b[i] != b[j] {
        assert (a + b)[|a| + i] == b[i] && (a + b)[|a| + j] == b[j];
      }
    }
    if Distinct(a) && Distinct(b) {
      forall i, j | 0 <= i < j < |a + b| ensures (a + b)[i] != (a + b)[j] {
        if i < |a| <= j {
          assert a[i] in a && b[j - |a|] in b;
        }
      }
    }
  }

  // ----- fewer coins in change

  /** The held coins of the denominations up to `top`. */
  function UpTo(held: Counts, top: Denom): Counts {
    seq(N, k requires 0 <= k < N => if k <= top then held[k] else 0)
  }

  /** The first selection of `minimizeChange`: stays short of the target. */
  function Short(r: int, held: Counts, top: Denom): Counts {
    Greedy(r - 1, UpTo(held, top), N)
  }

  /** No single further coin covers what a selection leaves open. */
  predicate Stuck(r: int, held: Counts, used: Counts) {
    forall k :: 0 <= k < N && used[k] < held[k] ==> Amount(k) <= r - Total(used)
  }

  /** What both sides have in common taken off a selection. */
  function WithoutOverlap(used: Counts, change: Counts): Counts {
    seq(N, k requires 0 <= k < N => if used[k] < change[k] then 0 else used[k] - change[k])
  }

  lemma {:induction false} OverlapWorth(used: Counts, change: Counts, n: nat)
    requires n <= N
    ensures Worth(used, n) - Worth(change, n) <= Worth(WithoutOverlap(used, change), n) <= Worth(used, n)
  {
    hide Amount, Times;
    if n > 0 {
      OverlapWorth(used, change, n - 1);
      var a, x, y := Amount(n - 1), used[n - 1], change[n - 1];
      if x < y {
        TimesLess(x, y, a);
        ZeroTimes(a);
      } else {
        TimesMinus(x, y, a);
      }
    }
  }

  /** One coin more, of the smallest denomination from `k` up that has one left and is worth more than
      `rest`; none when there is nothing left to cover, unless `k` itself will do. */
  function Covering(rest: int, used: Counts, held: Counts, k: nat): Counts
    requires k <= N
    decreases N - k
  {
    if k == N then used
    else if Amount(k) > rest && used[k] < held[k] then used[k := used[k] + 1]
    else if rest < 0 then used
    else Covering(rest, used, held, k + 1)
  }

  /** The alternative that `minimizeChange` comes to. */
  function Alternative(r: int, held: Counts, top: Denom): Counts {
    var covering := CoveringSelection(r, held, top);
    Greedy(Total(WithoutOverlap(covering, Change(Total(covering) - r))), held, N)
  }

  /** The selection after the second loop of `minimizeChange`. */
  function CoveringSelection(r: int, held: Counts, top: Denom): Counts {
    var short := Short(r, held, top);
    Covering(r - Total(short), short, held, 0)
  }

  /** What a selection and its change have in common. */
  function Common(used: Counts, change: Counts): Counts {
    seq(N, k requires 0 <= k < N => if used[k] < change[k] then used[k] else change[k])
  }

  function ChangeCount(used: Counts, r: int): nat {
    Number(Change(Total(used) - r), N)
  }

  /** It is taken only if it gives fewer coins in change and spends few enough. */
  predicate Better(alt: Counts, r: int, nChangeCount: nat, nMaxNumberOfSpends: int) {
    ChangeCount(alt, r) < nChangeCount && Number(alt, N) <= nMaxNumberOfSpends
  }

  /** The second loop of `minimizeChange`: the smallest coin that covers the rest, if there is one. */
  method AddCoveringCoin(nRemainingValue: int, used: Counts, held: Counts, ghost r: int)
    returns (rest: int, used': Counts)
    requires Within(used, held, N) && nRemainingValue == r - Total(used)
    ensures used' == Covering(nRemainingValue, used, held, 0)
    ensures Within(used', held, N) && rest == r - Total(used')
    ensures nRemainingValue > 0 ==> if Stuck(r, held, used) then used' == used else Total(used') > r
  {
    rest, used' := nRemainingValue, used;
    for k := 0 to N
      invariant used' == used && rest == nRemainingValue
      invariant Covering(rest, used, held, 0) == Covering(rest, used, held, k)
      invariant forall j :: 0 <= j < k && used[j] < held[j] ==> Amount(j) <= nRemainingValue
    {
      if Amount(k) > rest && used'[k] < held[k] {
        OneMore(used, k, N);
        used' := used'[k := used'[k] + 1];
        rest := rest - Amount(k);
      }
      if rest < 0 {
        break;
      }
    }
  }

  lemma {:induction false} OneMore(c: Counts, k: nat, n: nat)
    requires k < N && n <= N
    ensures Worth(c[k := c[k] + 1], n) == Worth(c, n) + (if k < n then Amount(k) else 0)
  {
    hide Amount, Times;
    if n > 0 {
      OneMore(c, k, n - 1);
      TimesNext(c[n - 1], Amount(n - 1));
    }
  }

  /** The third loop, one denomination at a time. */
  method RemoveFrom(used: Counts, k: nat, change: nat, AmountUsed: int) returns (used': Counts, rest: int)
    requires k < N && AmountUsed == Total(used)
    ensures used' == used[k := if used[k] < change then 0 else used[k] - change] && rest == Total(used')
  {
    used', rest := used, AmountUsed;
    var nChange := change;
    while nChange > 0 && used'[k] > 0
      invariant 0 <= nChange <= change && |used'| == N && 0 <= used'[k] && used' == used[k := used'[k]]
      invariant used[k] + nChange == used'[k] + change && rest == Total(used')
      decreases nChange
    {
      ghost var before := used';
      used' := used'[k := used'[k] - 1];
      OneMore(used', k, N);
      assert used'[k := used'[k] + 1] == before;
      nChange := nChange - 1;
      rest := rest - Amount(k);
    }
  }

  method RemoveOverlap(used: Counts, change: Counts, AmountUsed: int) returns (used': Counts, rest: int)
    requires AmountUsed == Total(used)
    ensures used' == WithoutOverlap(used, change) && rest == Total(used')
  {
    used', rest := used, AmountUsed;
    for k := 0 to N
      invariant |used'| == N && rest == Total(used')
      invariant forall j :: 0 <= j < N ==> used'[j] == if j < k then WithoutOverlap(used, change)[j] else used[j]
    {
      used', rest := RemoveFrom(used', k, change[k], rest);
    }
  }

  /** The first loop, over the denominations up to `top`; it keeps something open. */
  method SelectShort(nValueTarget: int, held: Counts, top: Denom) returns (used: Counts, rest: int)
    ensures used == Short(nValueTarget, held, top) && rest == nValueTarget - Total(used)
    ensures Within(used, UpTo(held, top), N) && (nValueTarget > 0 ==> rest > 0)
  {
    hide Settled, Greedy, Take, Amount, Times;
    ghost var capped := UpTo(held, top);
    used, rest := None(N), nValueTarget;
    SettleStarts(nValueTarget - 1, capped);
    NoneWorth(None(N), N);
    for k := N downto 0
      invariant |used| == N && Settled(nValueTarget - 1, capped, k, rest - 1, used) && rest == nValueTarget - Total(used)
    {
      var t, left := 0, rest;
      if k <= top {
        t, left := TakeCoins(rest, Amount(k), held[k], 1);
      } else {
        NothingHeld(rest - 1, Amount(k));
        ZeroTimes(Amount(k));
      }
      SettleNext(nValueTarget - 1, capped, k, rest - 1, used, t);
      SetWorth(used, k, t, N);
      used := used[k := t];
      rest := left;
    }
    SettleEnds(nValueTarget - 1, capped, rest - 1, used);
    GreedyFits(nValueTarget - 1, capped, N);
  }

  lemma WithinUpTo(u: Counts, held: Counts, top: Denom)
    requires Within(u, UpTo(held, top), N)
    ensures Within(u, held, N)
  {
  }

  /** Taking the overlap off leaves the target covered, and the greedy selection hits what is left
      exactly, because that can be paid from the held coins. */
  lemma OverlapCovers(r: int, held: Counts, covering: Counts)
    requires Within(covering, held, N)
    ensures var used := WithoutOverlap(covering, Change(Total(covering) - r));
      && (Total(covering) >= r ==> Total(used) >= r)
      && Total(Greedy(Total(used), held, N)) == Total(used)
  {
    hide Amount, Times, Greedy, Change;
    var d := Total(covering) - r;
    var used := WithoutOverlap(covering, Change(d));
    OverlapWorth(covering, Change(d), N);
    if d >= 0 {
      ChangeMakes(d);
    }
    GreedyBest(Total(used), held, N, used);
    GreedyFits(Total(used), held, N);
  }

  /** The first loop of `minimizeChange`: no selection of the smaller coins that stays short of the target
      is worth more. */
  lemma ShortIsBest(r: int, held: Counts, top: Denom, u: Counts)
    requires r > 0 && Within(u, UpTo(held, top), N) && Total(u) < r
    ensures var short := Short(r, held, top);
      && Within(short, UpTo(held, top), N) && Total(short) < r && Total(u) <= Total(short)
      && (Total(u) == Total(short) ==> Number(short, N) <= Number(u, N))
  {
    hide Greedy, UpTo;
    GreedyBest(r - 1, UpTo(held, top), N, u);
    GreedyFits(r - 1, UpTo(held, top), N);
  }

  /** The second loop: one coin is added, of the smallest denomination that has one left and covers what is
      open; if none does, nothing changes. */
  lemma {:induction false} CoveringExactly(rest: int, used: Counts, held: Counts, k: nat) returns (i: nat)
    requires k <= N && rest >= 0 && Within(used, held, N)
    ensures k <= i <= N && forall j :: k <= j < i && used[j] < held[j] ==> Amount(j) <= rest
    ensures i < N ==> used[i] < held[i] && Amount(i) > rest
    ensures Covering(rest, used, held, k) == if i == N then used else used[i := used[i] + 1]
    ensures Within(Covering(rest, used, held, k), held, N)
    decreases N - k
  {
    hide Amount;
    if k == N || (Amount(k) > rest && used[k] < held[k]) {
      i := k;
    } else {
      i := CoveringExactly(rest, used, held, k + 1);
    }
  }

  lemma {:induction false} CommonWorth(used: Counts, change: Counts, n: nat)
    requires n <= N
    ensures Worth(WithoutOverlap(used, change), n) == Worth(used, n) - Worth(Common(used, change), n)
    ensures Number(WithoutOverlap(used, change), n) == Number(used, n) - Number(Common(used, change), n)
  {
    hide Amount, Times;
    if n > 0 {
      CommonWorth(used, change, n - 1);
      var x := Common(used, change)[n - 1];
      TimesMinus(used[n - 1], x, Amount(n - 1));
    }
  }

  /** Change less some of its coins is the change on so much less. */
  lemma ChangeLess(d: int, common: Counts)
    requires Within(common, Change(d), N)
    ensures Number(Change(d - Total(common)), N) == Number(Change(d), N) - Number(common, N)
  {
    hide Amount, Times, Worth, Number, Greedy, Plenty;
    var change, w := Change(d), Total(common);
    var less := Minus(change, common, N);
    MinusWorth(change, common, N, N);
    if d >= 0 {
      ChangeMakes(d);
      WithinWorth(common, change, N);
      WholeCoins(common, N);
      SamePart(d, w);
      ChangeIsFewest(d - w, less);
      var more: Counts := seq(N, k requires 0 <= k < N => Change(d - w)[k] + common[k]);
      assert Minus(more, common, N) == Change(d - w);
      MinusWorth(more, common, N, N);
      ChangeIsFewest(d, more);
    } else {
      NoChange(d);
      WithinWorth(common, change, N);
      NumberWithin(common, change, N);
      NoChange(d - w);
    }
  }

  lemma SamePart(d: nat, w: nat)
    requires w <= d && w % COIN == 0
    ensures (d - w) % COIN == d % COIN
  {
  }

  lemma {:induction false} NumberWithin(c: seq<nat>, d: seq<nat>, n: nat)
    requires n <= N && Within(c, d, n)
    ensures Number(c, n) <= Number(d, n)
  {
    if n > 0 {
      NumberWithin(c, d, n - 1);
    }
  }

  /** The coins in change that are left once a covering selection and its change have what they share
      taken off. */
  function GainedCount(r: int, held: Counts, top: Denom): int {
    var covering := CoveringSelection(r, held, top);
    var change := Change(Total(covering) - r);
    Number(change, N) - Number(Common(covering, change), N)
  }

  /** What the third loop gains: the alternative is worth the covering selection less the coins that it
      has in common with its change, and its change is that change less the same coins. */
  lemma AlternativeGain(r: int, held: Counts, top: Denom)
    requires r > 0
    ensures var covering := CoveringSelection(r, held, top);
      var change := Change(Total(covering) - r);
      var common := Common(covering, change);
      && Within(covering, held, N)
      && Total(Alternative(r, held, top)) == Total(covering) - Total(common)
      && ChangeCount(Alternative(r, held, top), r) == Number(change, N) - Number(common, N) == GainedCount(r, held, top)
  {
    hide Amount, Times, Worth, Number, Greedy, Plenty, Change, Covering, UpTo;
    var short := Short(r, held, top);
    GreedyFits(r - 1, UpTo(held, top), N);
    WithinUpTo(short, held, top);
    var i := CoveringExactly(r - Total(short), short, held, 0);
    var covering := CoveringSelection(r, held, top);
    var change := Change(Total(covering) - r);
    OverlapCovers(r, held, covering);
    CommonWorth(covering, change, N);
    ChangeLess(Total(covering) - r, Common(covering, change));
  }

  lemma NothingHeld(r: int, a: nat)
    requires a > 0
    ensures Take(r, a, 0) == 0
  {
  }

  lemma AlternativeIs(r: int, held: Counts, top: Denom, short: Counts, covering: Counts)
    requires short == Short(r, held, top) && covering == Covering(r - Total(short), short, held, 0)
    ensures Alternative(r, held, top) == Greedy(Total(WithoutOverlap(covering, Change(Total(covering) - r))), held, N)
  {
    hide Greedy, Change, Covering, Short;
  }

  lemma AlternativeCount(r: int, held: Counts, top: Denom)
    requires r > 0
    ensures Number(Change(Total(Alternative(r, held, top)) - r), N) == GainedCount(r, held, top)
  {
    AlternativeGain(r, held, top);
  }

  /** An alternative selection that gives fewer coins in change than `nChangeCount`, or, if that is not
      found, the selection that was there. */
  method MinimizeChange(nMaxNumberOfSpends: int, nChangeCount: nat, nextToMaxDenom: Denom, nValueTarget: int,
                        mapOfDenomsHeld: Counts, mapOfDenomsUsed: Counts)
    returns (count: nat, used: Counts)
    ensures var alt := Alternative(nValueTarget, mapOfDenomsHeld, nextToMaxDenom);
      (count, used) == if Better(alt, nValueTarget, nChangeCount, nMaxNumberOfSpends) then (ChangeCount(alt, nValueTarget), alt)
                       else (nChangeCount, mapOfDenomsUsed)
    ensures || (count == nChangeCount && used == mapOfDenomsUsed)
            || (&& count < nChangeCount && count == Number(Change(Total(used) - nValueTarget), N)
                && Within(used, mapOfDenomsHeld, N) && Number(used, N) <= nMaxNumberOfSpends
                && (nValueTarget > 0 ==> || Total(used) >= nValueTarget
                                         || Stuck(nValueTarget, mapOfDenomsHeld, Short(nValueTarget, mapOfDenomsHeld, nextToMaxDenom))))
    ensures nValueTarget > 0 && Number(Alternative(nValueTarget, mapOfDenomsHeld, nextToMaxDenom), N) <= nMaxNumberOfSpends ==>
      count <= GainedCount(nValueTarget, mapOfDenomsHeld, nextToMaxDenom)
  {
    hide GainedCount, Greedy, Change, Amount, Times, Stuck, UpTo, Covering, Short, Number, Alternative, Worth;
    var nRemainingValue: int;
    used, nRemainingValue := SelectShort(nValueTarget, mapOfDenomsHeld, nextToMaxDenom);
    ghost var short := used;
    WithinUpTo(used, mapOfDenomsHeld, nextToMaxDenom);
    nRemainingValue, used := AddCoveringCoin(nRemainingValue, used, mapOfDenomsHeld, nValueTarget);
    ghost var covering := used;
    var AmountUsed := nValueTarget - nRemainingValue;
    var mapAltChange := GetChange(AmountUsed - nValueTarget);
    used, AmountUsed := RemoveOverlap(used, mapAltChange, AmountUsed);
    OverlapCovers(nValueTarget, mapOfDenomsHeld, covering);
    AlternativeIs(nValueTarget, mapOfDenomsHeld, nextToMaxDenom, short, covering);
    used := GetSpendCoins(AmountUsed, mapOfDenomsHeld);
    var nCoinCount := GetNumberOfCoinsUsed(used);
    mapAltChange := GetChange(AmountUsed - nValueTarget);
    var AltChangeCount := GetNumberOfCoinsUsed(mapAltChange);
    if AltChangeCount < nChangeCount && nCoinCount <= nMaxNumberOfSpends {
      count := AltChangeCount;
    } else {
      used, count := mapOfDenomsUsed, nChangeCount;
    }
    if nValueTarget > 0 {
      AlternativeCount(nValueTarget, mapOfDenomsHeld, nextToMaxDenom);
    }
  }

  // ----- the naive selection

  /** How many coins of value `a` it takes to cover `r`, of `held`. */
  function Need(r: int, a: nat, held: nat): (t: nat)
    requires a > 0
    ensures t <= held
  {
    if r <= 0 then 0 else
      var q := (r + a - 1) / a;
      if held < q then held else q
  }

  /** From the largest denomination down, coins until the amount is covered. */
  function Cover(r: int, held: seq<nat>, n: nat): (used: seq<nat>)
    requires n <= |held| && n <= N
    ensures |used| == n
    decreases n
  {
    if n == 0 then [] else
      var t := Need(r, Amount(n - 1), held[n - 1]);
      Cover(r - Times(t, Amount(n - 1)), held, n - 1) + [t]
  }

  /** It covers the amount with the fewest coins that can. */
  lemma {:induction false} CoverFewest(r: int, held: seq<nat>, n: nat, u: seq<nat>)
    requires n <= |held| && n <= N && Within(u, held, n) && Worth(u, n) >= r
    ensures Number(Cover(r, held, n), n) <= Number(u, n)
    decreases n
  {
    hide Amount, Times, Need, Worth, Number, Cover;
    if n > 0 {
      var a := Amount(n - 1);
      var t, x := Need(r, a, held[n - 1]), u[n - 1];
      NeedBounds(r, a, held[n - 1]);
      CoverNumber(r, held, n);
      OneLevel(u, n);
      TimesLess(0, x, a);
      ZeroTimes(a);
      if x >= t {
        if x > t {
          TimesStep(t, x, a);
          CoverNone(r - Times(t, a), held, n - 1);
          NoneWorth(None(n - 1), n - 1);
        } else {
          CoverFewest(r - Times(t, a), held, n - 1, u);
        }
      } else {
        FewerOnTop(r, held, n, u, a, t);
      }
    } else {
      CoverNone(r, held, 0);
      NoneWorth(None(0), 0);
    }
  }

  lemma OneLevel(u: seq<nat>, n: nat)
    requires 0 < n <= |u| && n <= N
    ensures Worth(u, n) == Worth(u, n - 1) + Times(u[n - 1], Amount(n - 1)) && Number(u, n) == Number(u, n - 1) + u[n - 1]
  {
  }

  lemma CoverNumber(r: int, held: seq<nat>, n: nat)
    requires 0 < n <= |held| && n <= N
    ensures var t := Need(r, Amount(n - 1), held[n - 1]);
      Number(Cover(r, held, n), n) == Number(Cover(r - Times(t, Amount(n - 1)), held, n - 1), n - 1) + t
  {
    hide Amount, Times, Need, Worth;
    var t := Need(r, Amount(n - 1), held[n - 1]);
    var rest := Cover(r - Times(t, Amount(n - 1)), held, n - 1);
    assert Cover(r, held, n) == rest + [t];
    hide Cover;
    SamePrefix(rest, rest + [t], n - 1);
  }

  lemma NeedBounds(r: int, a: nat, held: nat)
    requires a > 0
    ensures var t := Need(r, a, held); (t < held ==> r <= Times(t, a)) && (t > 0 ==> r > Times(t - 1, a))
  {
    hide Times;
    if r > 0 {
      RoundedUp(r, a);
      var q, t := (r + a - 1) / a, Need(r, a, held);
      if t > 0 {
        TimesLess(t, q, a);
        TimesNext(t - 1, a);
      }
    } else {
      ZeroTimes(a);
    }
  }

  /** With fewer of the largest coins there are so many more of the others. */
  lemma FewerOnTop(r: int, held: seq<nat>, n: nat, u: seq<nat>, a: nat, t: nat)
    requires 0 < n <= |held| && n <= N && Within(u, held, n) && a == Amount(n - 1) && u[n - 1] < t == Need(r, a, held[n - 1])
    requires Worth(u, n - 1) + Times(u[n - 1], a) >= r && r > Times(t - 1, a)
    ensures Number(Cover(r - Times(t, a), held, n - 1), n - 1) + t <= Number(u, n - 1) + u[n - 1]
    decreases n, 0
  {
    hide Amount, Times, Need, Worth, Number, Cover;
    var k := t - u[n - 1];
    TimesMinus(t, u[n - 1], a);
    if r >= Times(t, a) {
      var v := Contain(u, n - 1, k);
      var w := Minus(u, v, n - 1);
      MinusWorth(u, v, n - 1, n - 1);
      CoverFewest(r - Times(t, a), held, n - 1, w);
    } else {
      TimesNext(t - 1, a);
      TimesMinus(t - 1, u[n - 1], a);
      var v := Contain(u, n - 1, k - 1);
      MinusWorth(u, v, n - 1, n - 1);
      WorthNeedsCoins(Minus(u, v, n - 1), n - 1);
      CoverNone(r - Times(t, a), held, n - 1);
      NoneWorth(None(n - 1), n - 1);
    }
  }

  lemma {:induction false} WorthNeedsCoins(c: seq<nat>, n: nat)
    requires n <= |c| && n <= N
    ensures Worth(c, n) > 0 ==> Number(c, n) > 0
  {
    hide Amount;
    if n > 0 {
      WorthNeedsCoins(c, n - 1);
      ZeroTimes(Amount(n - 1));
    }
  }

  /** `t` is what a loop takes that stops only when the coins run out or the amount is covered. */
  lemma NeedIs(r: int, a: nat, held: nat, t: nat)
    requires a > 0 && t <= held && (t > 0 ==> r > Times(t, a) - a) && (t == held || r <= Times(t, a))
    ensures t == Need(r, a, held)
  {
    hide Times;
    if r > 0 {
      var q := (r + a - 1) / a;
      RoundedUp(r, a);
      if q < t {
        TimesStep(q, t, a);
      } else if t < q {
        TimesStep(t, q, a);
      }
    } else if t > 0 {
      Ones(t - 1, a);
      TimesNext(t - 1, a);
    }
  }

  lemma RoundedUp(r: int, a: nat)
    requires r > 0 && a > 0
    ensures r <= Times((r + a - 1) / a, a) < r + a
  {
    var x := r + a - 1;
    assert x == a * (x / a) + x % a;
  }

  lemma NeedCovers(r: int, a: nat, held: nat)
    requires a > 0
    ensures var t := Need(r, a, held); r <= Times(t, a) || t == held
  {
    if r > 0 {
      var q := (r + a - 1) / a;
      assert q * a >= r;
    } else {
      ZeroTimes(a);
    }
  }

  lemma CoverStep(r: int, held: seq<nat>, n: nat)
    requires 0 < n <= |held| && n <= N
    ensures var a := Amount(n - 1);
      var t := Need(r, a, held[n - 1]);
      var rest := Cover(r - Times(t, a), held, n - 1);
      && Cover(r, held, n) == rest + [t]
      && Worth(Cover(r, held, n), n) == Worth(rest, n - 1) + Times(t, a)
  {
    hide Amount, Times, Need, Number;
    var a := Amount(n - 1);
    var t := Need(r, a, held[n - 1]);
    var rest := Cover(r - Times(t, a), held, n - 1);
    assert Cover(r, held, n) == rest + [t];
    hide Cover;
    SamePrefix(rest, rest + [t], n - 1);
  }

  /** It covers the amount if the held coins can, and takes them all if they cannot. */
  lemma {:induction false} CoverCovers(r: int, held: seq<nat>, n: nat)
    requires n <= |held| && n <= N
    ensures Within(Cover(r, held, n), held, n)
    ensures r <= Worth(held, n) ==> r <= Worth(Cover(r, held, n), n)
    ensures Worth(Cover(r, held, n), n) <= Worth(held, n)
    decreases n
  {
    hide Amount, Times, Need, Cover;
    if n > 0 {
      var a := Amount(n - 1);
      var t := Need(r, a, held[n - 1]);
      var rest := Cover(r - Times(t, a), held, n - 1);
      CoverStep(r, held, n);
      CoverCovers(r - Times(t, a), held, n - 1);
      NeedCovers(r, a, held[n - 1]);
      TimesLess(t, held[n - 1], a);
      assert forall i :: 0 <= i < n - 1 ==> (rest + [t])[i] == rest[i];
    }
  }

  /** No coin that is left over covers what a short selection leaves open. */
  predicate StuckBelow(r: int, held: seq<nat>, used: seq<nat>, n: nat)
    requires n <= |held| && n <= |used| && n <= N
  {
    forall k :: 0 <= k < n && used[k] < held[k] ==> Amount(k) <= r - Worth(used, n)
  }

  /** If the alternative selection gets stuck, the naive one pays the exact amount. */
  lemma {:induction false} StuckIsExact(r: int, held: seq<nat>, n: nat)
    requires n <= |held| && n <= N && 1 <= r <= Worth(held, n)
    requires StuckBelow(r, held, Greedy(r - 1, held, n), n)
    ensures Worth(Cover(r, held, n), n) == r
    decreases n
  {
    hide Amount, Times, Take, Need, Greedy, Cover;
    if n > 0 {
      var a, h := Amount(n - 1), held[n - 1];
      var t := Take(r - 1, a, h);
      var short := Greedy(r - 1 - Times(t, a), held, n - 1);
      GreedyStep(r - 1, held, n);
      CoverStep(r, held, n);
      assert Greedy(r - 1, held, n)[n - 1] == t;
      ShortTakes(r, a, h, t);
      if t == h {
        forall k | 0 <= k < n - 1 && short[k] < held[k] ensures Amount(k) <= r - Times(t, a) - Worth(short, n - 1) {
          assert Greedy(r - 1, held, n)[k] == short[k];
        }
        StuckIsExact(r - Times(t, a), held, n - 1);
      } else {
        TimesNext(t, a);
        CoverNothing(r - Times(t + 1, a), held, n - 1);
      }
    }
  }

  /** A selection that stays short takes all there is, or one coin less than would cover the rest. */
  lemma ShortTakes(r: int, a: nat, held: nat, t: nat)
    requires a > 0 && r >= 1 && t == Take(r - 1, a, held)
    ensures t == held ==> Need(r, a, held) == held && Times(t, a) < r
    ensures t < held ==> r - Times(t, a) <= a && Times(t, a) < r
    ensures t < held && r - Times(t, a) == a ==> Need(r, a, held) == t + 1
  {
    ZeroTimes(a);
    TimesNext(t, a);
    if t < held {
      if r - 1 - Times(t, a) >= a {
        Fits(r - 1, a, t + 1);
      }
      if r - Times(t, a) == a {
        NeedIs(r, a, held, t + 1);
      }
    } else if t > 0 {
      NeedIs(r, a, held, t);
    }
  }

  lemma CoverNothing(r: int, held: seq<nat>, n: nat)
    requires r <= 0 && n <= |held| && n <= N
    ensures Worth(Cover(r, held, n), n) == 0
  {
    CoverNone(r, held, n);
    NoneWorth(None(n), n);
  }

  /** The smallest denomination held that is worth more than the target. */
  method MinDenomOverTarget(nValueTarget: int, held: Counts) returns (d: Denom)
    ensures d == OverTarget(nValueTarget, held, 0)
  {
    for k := 0 to N
      invariant OverTarget(nValueTarget, held, 0) == OverTarget(nValueTarget, held, k)
    {
      if nValueTarget < Amount(k) && held[k] > 0 {
        return k;
      }
    }
    return ZQ_ERROR;
  }

  function OverTarget(r: int, held: Counts, k: nat): (d: Denom)
    requires k <= N
    ensures d == ZQ_ERROR || (k <= d && held[d] > 0 && r < Amount(d))
    ensures forall j :: k <= j < (if d == ZQ_ERROR then N else d) && held[j] > 0 ==> Amount(j) <= r
    decreases N - k
  {
    if k == N then ZQ_ERROR else if r < Amount(k) && held[k] > 0 then k else OverTarget(r, held, k + 1)
  }

  /** What `calculateChange` spends before it looks for something better: one coin if one is enough,
      the largest coins otherwise. */
  function Naive(r: int, held: Counts): Counts {
    var d := OverTarget(r, held, 0);
    if d != ZQ_ERROR then None(N)[d := 1] else Cover(r, held, N)
  }

  lemma SingleWorth(d: nat)
    requires d < N
    ensures Total(None(N)[d := 1]) == Amount(d)
  {
    NoneWorth(None(N), N);
    SetWorth(None(N), d, 1, N);
    TimesNext(0, Amount(d));
  }

  lemma NaiveFits(r: int, held: Counts)
    ensures Within(Naive(r, held), held, N)
    ensures r <= Total(held) ==> r <= Total(Naive(r, held))
    ensures Total(held) < r ==> Total(Naive(r, held)) < r
  {
    hide Amount, Times, Cover, OverTarget;
    var d := OverTarget(r, held, 0);
    if d != ZQ_ERROR {
      SingleWorth(d);
      WithinWorth(None(N)[d := 1], held, N);
    } else {
      CoverCovers(r, held, N);
    }
  }

  ghost predicate CoverSettled(r: int, held: Counts, k: nat, rest: int, used: Counts) {
    && k <= N && Cover(r, held, N) == Cover(rest, held, k) + used[k..]
    && (forall i :: 0 <= i < k ==> used[i] == 0)
  }

  lemma CoverStarts(r: int, held: Counts)
    ensures CoverSettled(r, held, N, r, None(N))
  {
  }

  lemma CoverNext(r: int, held: Counts, k: nat, rest: int, used: Counts, t: nat)
    requires CoverSettled(r, held, k + 1, rest, used) && t == Need(rest, Amount(k), held[k])
    ensures used[k] == 0 && CoverSettled(r, held, k, rest - Times(t, Amount(k)), used[k := t])
  {
    hide Need, Amount, Times, Cover;
    CoverStep(rest, held, k + 1);
    var front := Cover(rest - Times(t, Amount(k)), held, k);
    assert used[k := t][k..] == [t] + used[k + 1..];
    assert (front + [t]) + used[k + 1..] == front + ([t] + used[k + 1..]);
  }

  lemma EmptyCover(r: int, held: seq<nat>)
    ensures Cover(r, held, 0) == []
  {
  }

  lemma {:induction false} CoverNone(r: int, held: seq<nat>, n: nat)
    requires (r <= 0 || n == 0) && n <= |held| && n <= N
    ensures Cover(r, held, n) == None(n)
    decreases n
  {
    hide Amount, Times, Cover;
    if n > 0 {
      CoverStep(r, held, n);
      ZeroTimes(Amount(n - 1));
      CoverNone(r, held, n - 1);
    } else {
      EmptyCover(r, held);
    }
  }

  lemma CoverEnds(r: int, held: Counts, k: nat, rest: int, used: Counts)
    requires CoverSettled(r, held, k, rest, used) && (rest <= 0 || k == 0)
    ensures used == Cover(r, held, N)
  {
    hide Cover, Amount, Times, Need;
    CoverNone(rest, held, k);
    assert used == used[..k] + used[k..];
  }

  method CoverTarget(nValueTarget: int, held: Counts) returns (used: Counts, AmountUsed: int, nCoinCount: nat)
    ensures used == Cover(nValueTarget, held, N) && AmountUsed == Total(used) && nCoinCount == Number(used, N)
  {
    hide CoverSettled, Cover, Need, Amount, Times;
    used, AmountUsed, nCoinCount := None(N), 0, 0;
    var nRemainingValue := nValueTarget;
    NoneWorth(None(N), N);
    CoverStarts(nValueTarget, held);
    var k := N;
    while k > 0
      invariant 0 <= k <= N && |used| == N && CoverSettled(nValueTarget, held, k, nRemainingValue, used)
      invariant AmountUsed == Total(used) && nCoinCount == Number(used, N)
    {
      k := k - 1;
      var before := nRemainingValue;
      var nValue, t := Amount(k), 0;
      TimesNext(0, nValue);
      while nRemainingValue > 0 && t < held[k]
        invariant 0 <= t <= held[k] && nRemainingValue == before - Times(t, nValue)
        invariant t > 0 ==> before > Times(t, nValue) - nValue
        decreases held[k] - t
      {
        TimesNext(t, nValue);
        t, nRemainingValue := t + 1, nRemainingValue - nValue;
      }
      NeedIs(before, nValue, held[k], t);
      CoverNext(nValueTarget, held, k, before, used, t);
      SetWorth(used, k, t, N);
      used := used[k := t];
      AmountUsed, nCoinCount := AmountUsed + (before - nRemainingValue), nCoinCount + t;
      if nRemainingValue < 0 {
        break;
      }
    }
    CoverEnds(nValueTarget, held, k, nRemainingValue, used);
  }

  /** A single coin above the target rules out that the alternative gets stuck. */
  lemma NotStuck(r: int, held: Counts, top: Denom, d: nat)
    requires top < d < N && held[d] > 0 && r < Amount(d)
    ensures !Stuck(r, held, Short(r, held, top))
  {
    hide Amount, Greedy;
    GreedyFits(r - 1, UpTo(held, top), N);
    var short := Short(r, held, top);
    assert short[d] <= UpTo(held, top)[d] == 0;
  }

  /** With all held coins eligible, it gets stuck only when the naive selection is exact. */
  lemma StuckNaive(r: int, held: Counts, top: Denom)
    requires 1 <= r <= Total(held) && (forall k :: top < k < N ==> held[k] == 0)
    requires Stuck(r, held, Short(r, held, top))
    ensures Total(Cover(r, held, N)) == r
  {
    hide Greedy, Amount, Cover;
    assert UpTo(held, top) == held;
    StuckIsExact(r, held, N);
  }

  /** The highest denomination below `n` of which there is a coin. */
  function HighestHeld(held: Counts, n: nat): (d: Denom)
    requires n <= N
    ensures d < n && (d == ZQ_ERROR || held[d] > 0)
    ensures forall k :: d < k < n ==> held[k] == 0
  {
    if n == 0 then ZQ_ERROR else if held[n - 1] > 0 then n - 1 else HighestHeld(held, n - 1)
  }

  /** The selection that `calculateChange` settles on.  The alternative to a single coin may use only
      smaller ones.  If change need not be minimal, it must not take more coins than the naive one. */
  function Chosen(nMaxNumberOfSpends: int, fMinimizeChange: bool, r: int, held: Counts): Counts {
    var naive := Naive(r, held);
    var d := OverTarget(r, held, 0);
    var alt := Alternative(r, held, TopHeld(r, held));
    var better := Better(alt, r, ChangeCount(naive, r), nMaxNumberOfSpends);
    if d != ZQ_ERROR then
      if fMinimizeChange && better then alt else naive
    else
      if better && (fMinimizeChange || Number(alt, N) <= Number(naive, N)) then alt else naive
  }

  /** The largest denomination that the alternative may use. */
  function TopHeld(r: int, held: Counts): Denom {
    var d := OverTarget(r, held, 0);
    HighestHeld(held, if d != ZQ_ERROR then d else N)
  }

  lemma ChosenGain(nMaxNumberOfSpends: int, r: int, held: Counts)
    requires r > 0
    ensures Number(Alternative(r, held, TopHeld(r, held)), N) <= nMaxNumberOfSpends ==>
      Number(Change(Total(Chosen(nMaxNumberOfSpends, true, r, held)) - r), N) <= GainedCount(r, held, TopHeld(r, held))
  {
    hide GainedCount, Alternative, Naive, OverTarget;
    ChosenIsBetter(nMaxNumberOfSpends, true, r, held);
  }

  /** What decides: the alternative is taken only if it gives fewer coins in change, within the limit, and
      then its count is what taking off the overlap gains; if change need not be minimal it must also not
      spend more coins. */
  lemma ChosenIsBetter(nMaxNumberOfSpends: int, fMinimizeChange: bool, r: int, held: Counts)
    requires r > 0
    ensures var naive, d, top := Naive(r, held), OverTarget(r, held, 0), TopHeld(r, held);
      var used := Chosen(nMaxNumberOfSpends, fMinimizeChange, r, held);
      && (fMinimizeChange && Number(Alternative(r, held, top), N) <= nMaxNumberOfSpends ==> ChangeCount(used, r) <= GainedCount(r, held, top))
      && ChangeCount(used, r) <= ChangeCount(naive, r)
      && (used != naive ==>
            && ChangeCount(used, r) < ChangeCount(naive, r) && ChangeCount(used, r) == GainedCount(r, held, top)
            && Number(used, N) <= nMaxNumberOfSpends
            && (!fMinimizeChange ==> d == ZQ_ERROR && Number(used, N) <= Number(naive, N)))
  {
    hide Naive, OverTarget, Alternative, ChangeCount, GainedCount, Number;
    AlternativeGain(r, held, TopHeld(r, held));
  }

  /** The selection is within what is held and covers the target whenever what is held can; the
      count returned is that of the change on the excess, and no more than the naive one needs. */
  method CalculateChange(nMaxNumberOfSpends: int, fMinimizeChange: bool, nValueTarget: int, mapOfDenomsHeld: Counts)
    returns (nChange: nat, used: Counts)
    ensures used == Chosen(nMaxNumberOfSpends, fMinimizeChange, nValueTarget, mapOfDenomsHeld)
    ensures Within(used, mapOfDenomsHeld, N)
    ensures nChange == Number(Change(Total(used) - nValueTarget), N)
    ensures 0 < nValueTarget <= Total(mapOfDenomsHeld) ==> Total(used) >= nValueTarget
    ensures nChange <= Number(Change(Total(Naive(nValueTarget, mapOfDenomsHeld)) - nValueTarget), N)
    ensures nValueTarget > 0 && fMinimizeChange ==>
      var top := TopHeld(nValueTarget, mapOfDenomsHeld);
      Number(Alternative(nValueTarget, mapOfDenomsHeld, top), N) <= nMaxNumberOfSpends ==> nChange <= GainedCount(nValueTarget, mapOfDenomsHeld, top)
  {
    hide Amount, Times, Change, Cover, OverTarget, Short, Stuck, Alternative, Number, GainedCount;
    var minDenomOverTarget := MinDenomOverTarget(nValueTarget, mapOfDenomsHeld);
    NaiveFits(nValueTarget, mapOfDenomsHeld);
    if minDenomOverTarget != ZQ_ERROR {
      used := None(N)[minDenomOverTarget := 1];
      SingleWorth(minDenomOverTarget);
      var mapChange := GetChange(Amount(minDenomOverTarget) - nValueTarget);
      nChange := GetNumberOfCoinsUsed(mapChange);
      if fMinimizeChange {
        var nextToMaxDenom := GetNextLowerDenomHeld(minDenomOverTarget, mapOfDenomsHeld);
        NotStuck(nValueTarget, mapOfDenomsHeld, nextToMaxDenom, minDenomOverTarget);
        var newChangeCount, newUsed := MinimizeChange(nMaxNumberOfSpends, nChange, nextToMaxDenom, nValueTarget, mapOfDenomsHeld, used);
        if newChangeCount < nChange {
          if nValueTarget > 0 {
            ChosenGain(nMaxNumberOfSpends, nValueTarget, mapOfDenomsHeld);
          }
          return newChangeCount, newUsed;
        }
        used := None(N)[minDenomOverTarget := 1];
      }
    } else {
      var AmountUsed, nCoinCount;
      used, AmountUsed, nCoinCount := CoverTarget(nValueTarget, mapOfDenomsHeld);
      var mapChange := GetChange(AmountUsed - nValueTarget);
      var nMaxChangeCount := GetNumberOfCoinsUsed(mapChange);
      var maxDenomHeld := GetMaxDenomHeld(mapOfDenomsHeld);
      var minUsed;
      nChange, minUsed := MinimizeChange(nMaxNumberOfSpends, nMaxChangeCount, maxDenomHeld, nValueTarget, mapOfDenomsHeld, used);
      if 0 < nValueTarget <= Total(mapOfDenomsHeld) && Stuck(nValueTarget, mapOfDenomsHeld, Short(nValueTarget, mapOfDenomsHeld, maxDenomHeld)) {
        StuckNaive(nValueTarget, mapOfDenomsHeld, maxDenomHeld);
        NoChange(0);
      }
      var nNumSpends := GetNumberOfCoinsUsed(minUsed);
      if !fMinimizeChange && nCoinCount < nNumSpends {
        return nMaxChangeCount, used;
      }
      used := minUsed;
    }
    if nValueTarget > 0 && fMinimizeChange {
      ChosenGain(nMaxNumberOfSpends, nValueTarget, mapOfDenomsHeld);
    }
  }

  /** `SelectMintsFromList`, given a map that counts the unused mints. */
  method SelectMintsFromList(nValueTarget: int, nMaxNumberOfSpends: int, fMinimizeChange: bool, listMints: seq<Mint>, mapOfDenomsHeld: Counts)
    returns (vSelectedMints: seq<Mint>, nSelectedValue: int, nCoinsReturned: nat, nNeededSpends: nat)
    requires mapOfDenomsHeld == Unused(listMints) && Distinct(listMints)
    ensures Distinct(vSelectedMints) && forall m :: m in vSelectedMints ==> m in listMints && !m.isUsed
    ensures nValueTarget > 0 && vSelectedMints != [] ==>
      && nSelectedValue == ValueOf(vSelectedMints) >= nValueTarget
      && nCoinsReturned == Number(Change(nSelectedValue - nValueTarget), N)
    ensures nValueTarget > 0 && CanPay(mapOfDenomsHeld, nValueTarget) && nNeededSpends == 0 ==>
      nSelectedValue == ValueOf(vSelectedMints) == nValueTarget && nCoinsReturned == 0 && |vSelectedMints| <= nMaxNumberOfSpends
    ensures nNeededSpends > 0 ==> CanPay(mapOfDenomsHeld, nValueTarget) && nNeededSpends > nMaxNumberOfSpends
    ensures nValueTarget > Total(mapOfDenomsHeld) ==> vSelectedMints == []
    ensures nNeededSpends > 0 || !CanPay(mapOfDenomsHeld, nValueTarget) ==>
      var used := Chosen(nMaxNumberOfSpends, fMinimizeChange, nValueTarget, mapOfDenomsHeld);
      && nCoinsReturned == ChangeCount(used, nValueTarget)
      && (nCoinsReturned == 0 ==> vSelectedMints == [])
      && (nCoinsReturned > 0 ==> Offered(listMints, used) && vSelectedMints == Spends(listMints, used, 0))
  {
    hide Amount, Times, Change, Cover, Greedy, CanPay, Spends, Count, Naive, Chosen;
    nNeededSpends, nSelectedValue := 0, 0;
    TooLittle(nValueTarget, mapOfDenomsHeld);
    var fCanMeetExactly, mapOfDenomsUsed := GetIdealSpends(nValueTarget, listMints);
    if fCanMeetExactly {
      nCoinsReturned := 0;
      GreedyFits(nValueTarget, mapOfDenomsHeld, N);
      PayableSpends(listMints, mapOfDenomsUsed);
      var left;
      vSelectedMints, nSelectedValue, left := GetSpends(listMints, mapOfDenomsUsed);
      if |vSelectedMints| <= nMaxNumberOfSpends {
        NoChange(0);
        return;
      }
      nNeededSpends := |vSelectedMints|;
    }
    nCoinsReturned, mapOfDenomsUsed := CalculateChange(nMaxNumberOfSpends, fMinimizeChange, nValueTarget, mapOfDenomsHeld);
    if nCoinsReturned == 0 {
      vSelectedMints := [];
    } else {
      PayableSpends(listMints, mapOfDenomsUsed);
      var left;
      vSelectedMints, nSelectedValue, left := GetSpends(listMints, mapOfDenomsUsed);
    }
  }

  /** With too little held nothing pays exactly, and the naive selection asks for no change. */
  lemma TooLittle(r: int, held: Counts)
    ensures Total(held) < r ==> !CanPay(held, r) && Number(Change(Total(Naive(r, held)) - r), N) == 0
  {
    if Total(held) < r {
      forall u: Counts | Within(u, held, N) ensures Total(u) != r {
        WithinWorth(u, held, N);
      }
      NaiveFits(r, held);
      NoChange(Total(Naive(r, held)) - r);
    }
  }

  /** A selection within the unused mints can be picked, from different unused mints, at its worth. */
  lemma PayableSpends(listMints: seq<Mint>, used: Counts)
    requires Within(used, Unused(listMints), N) && Distinct(listMints)
    ensures Offered(listMints, used)
    ensures var picked := Spends(listMints, used, 0);
      && Distinct(picked) && ValueOf(picked) == Total(used) && |picked| == Number(used, N)
      && forall m :: m in picked ==> m in listMints && !m.isUsed
  {
    assert forall k :: 0 <= k < N ==> used[k] <= Unused(listMints)[k] == Count(listMints, k);
    SpendsAreMints(listMints, used, 0);
  }
}
