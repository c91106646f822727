/** Sets of coins of the eight zerocoin denominations, as counts by denomination, and the one fact
    about them that greedy selection rests on: each denomination divides the next
    (src/libzerocoin/Denominations.h, src/init.cpp). */
module CoinSets {

  const COIN := 100_000_000
  const DENOMS: seq<nat> := [1, 5, 10, 50, 100, 500, 1000, 5000]
  const N := 8

  /** A map from denominations to counts, by position in the list of denominations. */
  type Counts = c: seq<nat> | |c| == N witness [0, 0, 0, 0, 0, 0, 0, 0]

  /** `ZerocoinDenominationToAmount`. */
  function Amount(k: nat): (a: nat)
    requires k < N
    ensures a > 0
  {
    COIN * DENOMS[k]
  }

  function Ratio(k: nat): (r: nat)
    requires k + 1 < N
    ensures r >= 1 && Amount(k + 1) == r * Amount(k)
  {
    if k % 2 == 0 then 5 else 2
  }

  /** `x` coins of value `a`. */
  function Times(x: int, a: int): (p: int)
    ensures x >= 0 && a >= 0 ==> p >= 0
  {
    x * a
  }

  function None(n: nat): (c: seq<nat>)
    ensures |c| == n
  {
    seq(n, _ => 0)
  }

  /** The value of the coins of the first `n` denominations. */
  function Worth(c: seq<nat>, n: nat): nat
    requires n <= |c| && n <= N
  {
    if n == 0 then 0 else Worth(c, n - 1) + Times(c[n - 1], Amount(n - 1))
  }

  /** Their number. */
  function Number(c: seq<nat>, n: nat): nat
    requires n <= |c| && n <= N
  {
    if n == 0 then 0 else Number(c, n - 1) + c[n - 1]
  }

  function Total(c: Counts): nat {
    Worth(c, N)
  }

  /** No more of any of the first `n` denominations. */
  predicate Within(c: seq<nat>, d: seq<nat>, n: nat) {
    n <= |c| && n <= |d| && forall i :: 0 <= i < n ==> c[i] <= d[i]
  }

  lemma {:induction false} SamePrefix(c: seq<nat>, d: seq<nat>, n: nat)
    requires n <= |c| && n <= |d| && n <= N && forall i :: 0 <= i < n ==> c[i] == d[i]
    ensures Worth(c, n) == Worth(d, n) && Number(c, n) == Number(d, n)
  {
    if n > 0 {
      SamePrefix(c, d, n - 1);
    }
  }

  lemma {:induction false} NoneWorth(c: seq<nat>, n: nat)
    requires n <= |c| && n <= N && forall i :: 0 <= i < n ==> c[i] == 0
    ensures Worth(c, n) == 0 && Number(c, n) == 0
  {
    if n > 0 {
      NoneWorth(c, n - 1);
    }
  }

  lemma TimesLess(x: int, y: int, a: nat)
    requires x <= y
    ensures Times(x, a) <= Times(y, a)
  {
    assert y * a == x * a + (y - x) * a;
  }

  lemma TimesStep(x: int, y: int, a: nat)
    requires x < y
    ensures Times(x, a) + a <= Times(y, a)
  {
    TimesLess(x + 1, y, a);
    assert (x + 1) * a == x * a + a;
  }

  lemma ZeroTimes(a: int)
    ensures Times(0, a) == 0
  {
  }

  lemma TimesMinus(x: int, y: int, a: int)
    ensures Times(x - y, a) == Times(x, a) - Times(y, a)
  {
  }

  lemma {:induction false} WithinWorth(c: seq<nat>, d: seq<nat>, n: nat)
    requires Within(c, d, n) && n <= N
    ensures Worth(c, n) <= Worth(d, n)
  {
    if n > 0 {
      WithinWorth(c, d, n - 1);
      TimesLess(c[n - 1], d[n - 1], Amount(n - 1));
    }
  }

  function Minus(c: seq<nat>, v: seq<nat>, n: nat): (r: seq<nat>)
    requires Within(v, c, n)
    ensures |r| == n
  {
    seq(n, i requires 0 <= i < n => c[i] - v[i])
  }

  lemma {:induction false} MinusWorth(c: seq<nat>, v: seq<nat>, n: nat, m: nat)
    requires Within(v, c, n) && m <= n <= N
    ensures Worth(Minus(c, v, n), m) == Worth(c, m) - Worth(v, m)
    ensures Number(Minus(c, v, n), m) == Number(c, m) - Number(v, m)
  {
    hide Amount, Times;
    if m > 0 {
      MinusWorth(c, v, n, m - 1);
      var a := Amount(m - 1);
      TimesMinus(c[m - 1], v[m - 1], a);
    }
  }

  /** Coins smaller than denomination `k` that are worth at least `m` of it contain some that are
      worth exactly `m` of it, and these are at least `m` coins. */
  lemma {:induction false} Contain(c: seq<nat>, k: nat, m: nat) returns (v: seq<nat>)
    requires k <= |c| && k < N && Worth(c, k) >= Times(m, Amount(k))
    ensures |v| == k && Within(v, c, k) && Worth(v, k) == Times(m, Amount(k)) && Number(v, k) >= m
  {
    hide Amount, Times;
    if k == 0 {
      v := [];
      NoCoins(m, Amount(0));
    } else {
      var a := Amount(k - 1);
      var need := Smaller(k, m);
      var t := if c[k - 1] < need then c[k - 1] else need;
      TimesMinus(need, t, a);
      var w := Contain(c, k - 1, need - t);
      v := w + [t];
      SamePrefix(w, v, k - 1);
    }
  }

  lemma NoCoins(m: nat, a: nat)
    requires a > 0 && Times(m, a) <= 0
    ensures m == 0 && Times(m, a) == 0
  {
    if m > 0 {
      TimesLess(1, m, a);
    }
  }

  /** `m` of a denomination are that many of the next smaller one. */
  lemma Smaller(k: nat, m: nat) returns (need: nat)
    requires 0 < k < N
    ensures need >= m && Times(m, Amount(k)) == Times(need, Amount(k - 1))
    ensures Times(0, Amount(k - 1)) == 0
  {
    var a, r := Amount(k - 1), Ratio(k - 1);
    need := m * r;
    assert m * (r * a) == need * a;
    TimesLess(1, r, m);
  }

  // ----- greedy selection

  /** How many coins of value `a` fit into `r`, of `held`. */
  function Take(r: int, a: nat, held: nat): (t: nat)
    requires a > 0
    ensures t <= held && (t > 0 ==> Times(t, a) <= r)
  {
    if r < a then 0 else
      var q := r / a;
      assert q * a <= r;
      var t := if held < q then held else q;
      TimesLess(t, q, a);
      t
  }

  lemma Fits(r: int, a: nat, t: nat)
    requires a > 0 && Times(t, a) <= r
    ensures r / a >= t
  {
    var q := r / a;
    if q < t {
      TimesStep(q, t, a);
    }
  }

  /** `t` is what a loop takes that stops only when the coins run out or no longer fit. */
  lemma TakeIs(r: int, a: nat, held: nat, t: nat)
    requires a > 0 && t <= held && (t > 0 ==> Times(t, a) <= r) && (t == held || r - Times(t, a) < a)
    ensures t == Take(r, a, held)
  {
    var g := Take(r, a, held);
    if g < t {
      Fits(r, a, t);
    } else if t < g {
      TimesStep(t, g, a);
    }
  }

  lemma TakesAll(r: int, a: nat, held: nat, t: nat)
    requires a > 0 && t <= held && Times(t, a) <= r
    ensures t <= Take(r, a, held)
  {
    Fits(r, a, t);
  }

  /** From the largest denomination down, as many coins as are held and fit. */
  function Greedy(r: int, held: seq<nat>, n: nat): (used: seq<nat>)
    requires n <= |held| && n <= N
    ensures |used| == n
    decreases n
  {
    if n == 0 then [] else
      var t := Take(r, Amount(n - 1), held[n - 1]);
      Greedy(r - Times(t, Amount(n - 1)), held, n - 1) + [t]
  }

  lemma GreedyStep(r: int, held: seq<nat>, n: nat)
    requires 0 < n <= |held| && n <= N
    ensures var a := Amount(n - 1);
      var g := Take(r, a, held[n - 1]);
      var rest := Greedy(r - Times(g, a), held, n - 1);
      && Worth(Greedy(r, held, n), n) == Worth(rest, n - 1) + Times(g, a)
      && Number(Greedy(r, held, n), n) == Number(rest, n - 1) + g
      && Greedy(r, held, n) == rest + [g]
  {
    hide Amount, Take, Times;
    var a := Amount(n - 1);
    var g := Take(r, a, held[n - 1]);
    var rest := Greedy(r - Times(g, a), held, n - 1);
    assert Greedy(r, held, n) == rest + [g];
    hide Greedy;
    SamePrefix(rest, rest + [g], n - 1);
  }

  lemma {:induction false} GreedyFits(r: int, held: seq<nat>, n: nat)
    requires n <= |held| && n <= N
    ensures Within(Greedy(r, held, n), held, n)
    ensures Worth(Greedy(r, held, n), n) <= if r < 0 then 0 else r
    decreases n
  {
    hide Amount, Times, Take, Greedy;
    if n > 0 {
      var a := Amount(n - 1);
      var t := Take(r, a, held[n - 1]);
      var rest := Greedy(r - Times(t, a), held, n - 1);
      GreedyFits(r - Times(t, a), held, n - 1);
      GreedyStep(r, held, n);
      ZeroTimes(a);
      assert forall i :: 0 <= i < n - 1 ==> (rest + [t])[i] == rest[i];
    }
  }

  /** What is left when smaller coins worth `m` of denomination `k` are traded for that many of it. */
  lemma Exchange(u: seq<nat>, k: nat, m: nat) returns (u': seq<nat>)
    requires k <= |u| && k < N && Worth(u, k) >= Times(m, Amount(k))
    ensures |u'| == k && Within(u', u, k)
    ensures Worth(u', k) == Worth(u, k) - Times(m, Amount(k)) && Number(u', k) + m <= Number(u, k)
  {
    hide Amount, Times;
    var v := Contain(u, k, m);
    u' := Minus(u, v, k);
    MinusWorth(u, v, k, k);
  }

  /** No selection from what is held that stays within `r` is worth more than the greedy one, and
      none that is worth as much has fewer coins. */
  lemma {:induction false} GreedyBest(r: int, held: seq<nat>, n: nat, u: seq<nat>)
    requires n <= |held| && n <= N && Within(u, held, n) && Worth(u, n) <= r
    ensures Worth(u, n) <= Worth(Greedy(r, held, n), n)
    ensures Worth(u, n) == Worth(Greedy(r, held, n), n) ==> Number(Greedy(r, held, n), n) <= Number(u, n)
    decreases n
  {
    hide Amount, Take, Times, Greedy;
    if n > 0 {
      var k := n - 1;
      var a, t := Amount(k), u[k];
      var g := Take(r, a, held[k]);
      GreedyStep(r, held, n);
      var rest := Greedy(r - Times(g, a), held, k);
      TakesAll(r, a, held[k], t);
      TimesMinus(g, t, a);
      if Worth(u, k) >= Times(g - t, a) {
        var u' := Exchange(u, k, g - t);
        GreedyBest(r - Times(g, a), held, k, u');
      }
    }
  }

  /** Change without limit on the supply; no coin of it is worth less than one. */
  function Change(r: int): Counts {
    Greedy(r, Plenty(r), N)
  }

  function Plenty(r: int): Counts {
    seq(N, _ => if r < 0 then 0 else r)
  }

  lemma {:induction false} WithinPlenty(u: Counts, n: nat, r: int)
    requires n <= N && Worth(u, n) <= r
    ensures Within(u, Plenty(r), n)
  {
    if n > 0 {
      WithinPlenty(u, n - 1, r);
      Ones(u[n - 1], Amount(n - 1));
    }
  }

  lemma Ones(x: nat, a: nat)
    requires a > 0
    ensures Times(x, a) >= x
  {
    TimesLess(1, a, x);
    assert a * x == x * a;
  }

  /** Change makes the amount, down to a whole coin of the smallest denomination, and does so with
      the fewest coins there can be. */
  lemma ChangeIsFewest(r: nat, u: Counts)
    requires Total(u) == r - r % COIN
    ensures Total(Change(r)) == r - r % COIN && Number(Change(r), N) <= Number(u, N)
  {
    hide Amount, Worth, Number, Greedy, Plenty;
    WithinPlenty(u, N, r);
    GreedyBest(r, Plenty(r), N, u);
    GreedyFits(r, Plenty(r), N);
    WholeCoins(Change(r), N);
    WholePart(r, Total(Change(r)));
  }

  lemma WholePart(r: nat, w: int)
    requires r - r % COIN <= w <= r && w % COIN == 0
    ensures w == r - r % COIN
  {
  }

  lemma {:induction false} WholeCoins(u: seq<nat>, n: nat)
    requires n <= |u| && n <= N
    ensures Worth(u, n) % COIN == 0
  {
    if n > 0 {
      WholeCoins(u, n - 1);
      assert Times(u[n - 1], Amount(n - 1)) == COIN * (u[n - 1] * DENOMS[n - 1]);
    }
  }

  /** Any amount can be made with coins of the smallest denomination. */
  lemma OnlyOnes(r: nat) returns (u: Counts)
    ensures Total(u) == r - r % COIN
  {
    u := None(N)[0 := r / COIN];
    OnesWorth(u, N, r / COIN);
  }

  lemma {:induction false} OnesWorth(u: Counts, n: nat, x: nat)
    requires 1 <= n <= N && u[0] == x && forall i :: 1 <= i < N ==> u[i] == 0
    ensures Worth(u, n) == x * COIN
  {
    if n > 1 {
      OnesWorth(u, n - 1, x);
    } else {
      assert Amount(0) == COIN;
    }
  }

  lemma ChangeMakes(r: nat)
    ensures Total(Change(r)) == r - r % COIN
  {
    var u := OnlyOnes(r);
    ChangeIsFewest(r, u);
  }

  lemma NoChange(r: int)
    requires r <= 0
    ensures Change(r) == None(N) && Number(Change(r), N) == 0
  {
    NoneGreedy(r, Plenty(r), N);
    NoneWorth(Change(r), N);
  }

  lemma {:induction false} NoneGreedy(r: int, held: seq<nat>, n: nat)
    requires r <= 0 && n <= |held| && n <= N
    ensures Greedy(r, held, n) == None(n)
    decreases n
  {
    hide Amount, Times;
    if n > 0 {
      NoneGreedy(r, held, n - 1);
      ZeroTimes(Amount(n - 1));
    }
  }
}
