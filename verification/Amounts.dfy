/** The compact form of amounts (`CTxOutCompressor`, src/compressor.cpp): on the naturals compression
    and decompression are inverse to each other; in 64-bit arithmetic exactly the amounts whose
    compressed form fits survive. */
module Amounts {
  import opened Streams

  const TWO_TO_THE_64 := 0x1_0000_0000_0000_0000

  /** The largest amount without a trailing zero whose compressed form is below two to the power of 64. */
  const MAX_AMOUNT := 2049638230412172402

  function Pow10(e: nat): (p: nat)
    ensures p > 0
  {
    if e == 0 then 1 else 10 * Pow10(e - 1)
  }

  /** An amount without its last `e` zeros, together with `e`. */
  function Pack(n: nat, e: nat): nat
    requires n > 0 && e <= 9 && (e < 9 ==> n % 10 != 0)
  {
    if e < 9 then 1 + (n / 10 * 9 + n % 10 - 1) * 10 + e else 1 + (n - 1) * 10 + 9
  }

  /** Up to nine zeros are stripped. */
  function Strip(n: nat, e: nat): nat
    requires n > 0 && e <= 9
  {
    if n % 10 == 0 && e < 9 then Strip(n / 10, e + 1) else Pack(n, e)
  }

  function Compressed(n: nat): nat {
    if n == 0 then 0 else Strip(n, 0)
  }

  /** The digits that come before the zeros. */
  function Front(x: nat): (n: nat)
    requires x > 0
    ensures n > 0 && ((x - 1) % 10 < 9 ==> n % 10 != 0)
  {
    var y := (x - 1) / 10;
    if (x - 1) % 10 < 9 then y / 9 * 10 + y % 9 + 1 else y + 1
  }

  function Decompressed(x: nat): nat {
    if x == 0 then 0 else Front(x) * Pow10((x - 1) % 10)
  }

  lemma PackFront(n: nat, e: nat)
    requires n > 0 && e <= 9 && (e < 9 ==> n % 10 != 0)
    ensures Pack(n, e) > 0 && (Pack(n, e) - 1) % 10 == e && Front(Pack(n, e)) == n
  {
    var m, d := n / 10, n % 10;
    if e < 9 {
      var y := 9 * m + d - 1;
      assert Pack(n, e) == 10 * y + e + 1;
      hide Pack, Front;
      TenthOf(Pack(n, e), y, e);
      NinthOf(y, m, d - 1);
      FrontOf(Pack(n, e), y, e);
    } else {
      TenthOf(Pack(n, e), n - 1, 9);
    }
  }

  lemma FrontPack(x: nat)
    requires x > 0
    ensures Pack(Front(x), (x - 1) % 10) == x
  {
    var y, e := (x - 1) / 10, (x - 1) % 10;
    assert x == 10 * y + e + 1;
    if e < 9 {
      var t, r := y / 9, y % 9;
      assert y == 9 * t + r;
      LastDigit(10 * t + r + 1, t, r + 1);
    }
  }

  lemma LastDigit(n: nat, m: nat, d: nat)
    requires n == 10 * m + d && d < 10
    ensures n / 10 == m && n % 10 == d
  {
  }

  lemma PackDecompressed(n: nat, e: nat)
    requires n > 0 && e <= 9 && (e < 9 ==> n % 10 != 0)
    ensures Pack(n, e) > 0 && Decompressed(Pack(n, e)) == n * Pow10(e)
  {
    hide Pack, Front;
    PackFront(n, e);
  }

  /** A zero less in front is one more behind. */
  lemma ShiftZero(n: nat, e: nat)
    requires n % 10 == 0
    ensures n / 10 * Pow10(e + 1) == n * Pow10(e)
  {
    var m, p := n / 10, Pow10(e);
    assert n == 10 * m && Pow10(e + 1) == 10 * p;
    assert m * (10 * p) == 10 * m * p;
  }

  lemma {:induction false} StripInverse(n: nat, e: nat)
    requires n > 0 && e <= 9
    ensures Strip(n, e) > 0 && Decompressed(Strip(n, e)) == n * Pow10(e)
    decreases 9 - e
  {
    hide Decompressed, Pack, Pow10;
    if n % 10 == 0 && e < 9 {
      StripInverse(n / 10, e + 1);
      ShiftZero(n, e);
    } else {
      PackDecompressed(n, e);
    }
  }

  lemma {:induction false} StripZeros(n: nat, k: nat, e: nat)
    requires n > 0 && k + e <= 9
    ensures n * Pow10(k) > 0 && Strip(n * Pow10(k), e) == Strip(n, e + k)
  {
    hide Pack, Pow10;
    if k > 0 {
      var m := n * Pow10(k - 1);
      OneZeroMore(n, k);
      StripZeros(n, k - 1, e + 1);
      StripOne(m, e);
    } else {
      NoZeros(n);
    }
  }

  lemma OneZeroMore(n: nat, k: nat)
    requires k > 0
    ensures n * Pow10(k) == 10 * (n * Pow10(k - 1))
  {
    var p := Pow10(k - 1);
    assert n * (10 * p) == 10 * (n * p);
  }

  lemma StripOne(m: nat, e: nat)
    requires m > 0 && e < 9
    ensures Strip(10 * m, e) == Strip(m, e + 1)
  {
    hide Pack;
    TenTimes(m);
  }

  lemma TenTimes(m: nat)
    ensures 10 * m % 10 == 0 && 10 * m / 10 == m
  {
  }

  /** On all naturals the two are inverse to each other. */
  lemma DecompressCompress(n: nat)
    ensures Decompressed(Compressed(n)) == n
  {
    if n > 0 {
      StripInverse(n, 0);
    }
  }

  lemma CompressDecompress(x: nat)
    ensures Compressed(Decompressed(x)) == x
  {
    if x > 0 {
      var e := (x - 1) % 10;
      StripZeros(Front(x), e, 0);
      FrontPack(x);
    }
  }

  /** A number before `k` zeros, none but the last of nine of which may belong to it. */
  lemma CompressedZeros(n: nat, k: nat)
    requires n > 0 && k <= 9 && (k < 9 ==> n % 10 != 0)
    ensures Compressed(n * Pow10(k)) == Pack(n, k)
  {
    StripZeros(n, k, 0);
    hide Pack, Pow10;
  }

  /** One unit, a hundredth of a coin, a coin, fifty coins, and twenty-one million. */
  lemma AmountExamples()
    ensures Compressed(0) == 0 && Compressed(1) == 1 && Compressed(1000000) == 7 && Compressed(100000000) == 9
    ensures Compressed(5000000000) == 0x32 && Compressed(2100000000000000) == 0x1406f40
  {
    Millions();
    hide Pow10;
    CompressedZeros(1, 0);
    CompressedZeros(1, 6);
    CompressedZeros(1, 8);
    CompressedZeros(5, 9);
    CompressedZeros(2100000, 9);
    hide Compressed;
  }

  lemma Millions()
    ensures Pow10(0) == 1 && Pow10(6) == 1000000 && Pow10(8) == 100000000 && Pow10(9) == 1000000000
  {
    assert Pow10(3) == 1000 && Pow10(6) == 1000 * Pow10(3) && Pow10(8) == 100 * Pow10(6) && Pow10(9) == 10 * Pow10(8);
  }

  // ----- which amounts survive 64-bit arithmetic

  /** The compressed amount fits into 64 bits. */
  predicate Fits(n: nat) {
    n <= MAX_AMOUNT || n % 10 == 0
  }

  lemma {:induction false} StripBound(n: nat, e: nat)
    requires n > 0 && e <= 9
    ensures 0 < Strip(n, e) <= 10 * n
    decreases 9 - e
  {
    if n % 10 == 0 && e < 9 {
      StripBound(n / 10, e + 1);
    }
  }

  lemma FitsExactly(n: nat)
    requires n < TWO_TO_THE_64
    ensures Compressed(n) < TWO_TO_THE_64 <==> Fits(n)
  {
    if n > 0 && n % 10 == 0 {
      StripBound(n / 10, 1);
    }
  }

  /** How many zeros are read when the compressed amount overflows `q` times. */
  function WrappedZeros(q: nat): nat {
    4 * q % 10
  }

  /** A tenth of what is then missing, the zeros counted in. */
  function Missing(q: nat): nat {
    q * 1844674407370955161 + q - 4 * q / 10
  }

  lemma MissingIs(q: nat)
    ensures q * TWO_TO_THE_64 + WrappedZeros(q) == 10 * Missing(q)
  {
  }

  /** How far the digits read then lie below the amount, or one more. */
  function Offset(q: nat): nat {
    Missing(q) / 9 * 10 + Missing(q) % 9
  }

  /** What is read back of an amount whose compressed form overflows `q` times. */
  lemma Overflown(n: nat, q: nat)
    requires n % 10 != 0 && 1 <= q <= 8 && q * TWO_TO_THE_64 <= Pack(n, 0)
    ensures var x := Pack(n, 0) - q * TWO_TO_THE_64;
      && x > 0 && (x - 1) % 10 == WrappedZeros(q)
      && (Front(x) == n - Offset(q) || Front(x) == n - Offset(q) - 1)
  {
    hide Missing, Front, Pack;
    MissingIs(q);
    PackedSize(n);
    var y := 9 * (n / 10) + n % 10 - 1 - Missing(q);
    TenthOf(Pack(n, 0) - q * TWO_TO_THE_64, y, WrappedZeros(q));
    DigitsRead(n, Pack(n, 0) - q * TWO_TO_THE_64, Missing(q), WrappedZeros(q));
  }

  lemma DigitsRead(n: nat, x: nat, k: nat, e: nat)
    requires n % 10 != 0 && x > 0 && e < 9 && x == 10 * (9 * (n / 10) + n % 10 - 1 - k) + e + 1
    ensures Front(x) == n - (k / 9 * 10 + k % 9) || Front(x) == n - (k / 9 * 10 + k % 9) - 1
  {
    var y := 9 * (n / 10) + n % 10 - 1 - k;
    TenthOf(x, y, e);
    FrontOf(x, y, e);
    NinthOf(y, n / 10 - k / 9, n % 10 - 1 - k % 9);
  }

  lemma PackedSize(n: nat)
    requires n % 10 != 0
    ensures Pack(n, 0) == 90 * (n / 10) + 10 * (n % 10) - 9
  {
  }

  lemma TenthOf(x: int, y: int, e: nat)
    requires x == 10 * y + e + 1 && e < 10
    ensures (x - 1) / 10 == y && (x - 1) % 10 == e
  {
  }

  lemma FrontOf(x: nat, y: nat, e: nat)
    requires x > 0 && (x - 1) / 10 == y && (x - 1) % 10 == e < 9
    ensures Front(x) == y / 9 * 10 + y % 9 + 1
  {
  }

  lemma NinthOf(y: int, t: int, r: int)
    requires y == 9 * t + r && -9 < r < 9
    ensures if r >= 0 then y / 9 == t && y % 9 == r else y / 9 == t - 1 && y % 9 == r + 9
  {
  }

  /** An inverse of `Pow10(e) - 1` modulo two to the power of 64, for the `e` that occur. */
  function Inverse(e: nat): nat {
    if e == 2 then 12670490878911611211 else if e == 4 then 13458245626333751279
    else if e == 6 then 1672254362768354751 else 300153063250403071
  }

  /** The one amount that is congruent to itself less `c`, followed by `e` zeros. */
  function Root(e: nat, c: nat): nat {
    Inverse(e) * (Pow10(e) * c) % TWO_TO_THE_64
  }

  lemma Associate(a: int, b: int, c: int)
    ensures a * b * c == a * (b * c)
  {
  }

  lemma Distribute(a: int, x: int, y: int)
    ensures a * (x + y) == a * x + a * y && (x + y) * a == x * a + y * a
  {
  }

  /** From `x = 1 + u w`, `x n = a + b w`: `a` and `n` are congruent. */
  lemma Congruent(x: int, n: int, a: int, b: int, u: int, w: int)
    requires x == 1 + u * w && x * n == a + b * w
    ensures a == n + (u * n - b) * w
  {
    Distribute(n, 1, u * w);
    Associate(u, w, n);
    Associate(u, n, w);
    Swapped(n, w);
    Distribute(w, u * n - b, b);
  }

  lemma Swapped(a: int, b: int)
    ensures a * b == b * a
  {
  }

  lemma LessItself(n: int, c: int, p: int, r: int)
    requires (n - c) * p == n + r
    ensures (p - 1) * n == p * c + r
  {
    Distribute(p, n - c, c);
    Distribute(n, p - 1, 1);
    Swapped(p, n);
    Swapped(p, c);
  }

  lemma RootIsUnique(n: nat, c: nat, p: nat, inv: nat, u: int, j: int)
    requires n < TWO_TO_THE_64 && inv * (p - 1) == 1 + u * TWO_TO_THE_64
    requires (n - c) * p == n + j * TWO_TO_THE_64
    ensures n == inv * (p * c) % TWO_TO_THE_64
  {
    var w := TWO_TO_THE_64;
    LessItself(n, c, p, j * w);
    Associate(inv, p - 1, n);
    Distribute(inv, p * c, j * w);
    Associate(inv, j, w);
    Congruent(inv * (p - 1), n, inv * (p * c), inv * j, u, w);
    Remainder(inv * (p * c), n, u * n - inv * j);
  }

  lemma InverseIs(e: nat)
    requires e == 2 || e == 4 || e == 6 || e == 8
    ensures Inverse(e) * (Pow10(e) - 1) % TWO_TO_THE_64 == 1
  {
    SmallPowers();
    hide Pow10;
  }

  lemma RootOf(n: nat, c: nat, e: nat)
    requires e == 2 || e == 4 || e == 6 || e == 8
    requires n < TWO_TO_THE_64 && n >= c && (n - c) * Pow10(e) % TWO_TO_THE_64 == n
    ensures n == Root(e, c)
  {
    InverseIs(e);
    hide Inverse, Pow10;
    var p, inv := Pow10(e), Inverse(e);
    RootIsUnique(n, c, p, inv, inv * (p - 1) / TWO_TO_THE_64, (n - c) * p / TWO_TO_THE_64);
  }

  /** The two amounts to rule out for each number of times the compressed amount may overflow. */
  function Candidates(q: nat): (nat, nat) {
    match q
    case 1 => (15288550632769423584, 10300052185393623248)
    case 2 => (14480868974329830400, 14781022037580233472)
    case 3 => (1925417731599313468, 14595908610510924680)
    case 4 => (14161661572577611840, 15833915935345966592)
    case 6 => (4486081875444583760, 17944327501778335040)
    case 7 => (4266028162630124288, 4566181225880527360)
    case 8 => (7432526512302726184, 1656273317504785780)
    case _ => (0, 0)
  }

  lemma RootIs(q: nat, e: nat, p: nat, inv: nat, c: nat, root: nat, k: nat)
    requires WrappedZeros(q) == e && Pow10(e) == p && Inverse(e) == inv
    requires inv * (p * c) == root + k * TWO_TO_THE_64 && root < TWO_TO_THE_64
    ensures Root(WrappedZeros(q), c) == root
  {
    hide Pow10, Inverse, WrappedZeros;
    Remainder(inv * (p * c), root, k);
  }

  lemma Remainder(a: nat, r: nat, k: int)
    requires a == r + k * TWO_TO_THE_64 && r < TWO_TO_THE_64
    ensures a % TWO_TO_THE_64 == r
  {
  }

  lemma Offsets()
    ensures Offset(1) == 2049638230412172402 && WrappedZeros(1) == 4
    ensures Offset(2) == 4099276460824344804 && WrappedZeros(2) == 8
    ensures Offset(3) == 6148914691236517205 && WrappedZeros(3) == 2
    ensures Offset(4) == 8198552921648689607 && WrappedZeros(4) == 6
    ensures Offset(6) == 12297829382473034411 && WrappedZeros(6) == 4
    ensures Offset(7) == 14347467612885206813 && WrappedZeros(7) == 8
    ensures Offset(8) == 16397105843297379214 && WrappedZeros(8) == 2
  {
    assert Missing(1) == 1844674407370955162;
    assert Missing(2) == 3689348814741910324;
    assert Missing(3) == 5534023222112865485;
    assert Missing(4) == 7378697629483820647;
    assert Missing(6) == 11068046444225730970;
    assert Missing(7) == 12912720851596686132;
    assert Missing(8) == 14757395258967641293;
    hide Missing;
  }

  lemma SmallPowers()
    ensures Pow10(2) == 100 && Pow10(4) == 10000 && Pow10(6) == 1000000 && Pow10(8) == 100000000
  {
    assert Pow10(2) == 100 && Pow10(4) == 10000;
  }

  lemma FirstRoot(q: nat)
    requires 1 <= q <= 8 && q != 5
    ensures Root(WrappedZeros(q), Offset(q)) == Candidates(q).0
  {
    SmallPowers();
    Offsets();
    hide Pow10, Root, Offset, WrappedZeros;
    match q
    case 1 => RootIs(1, 4, 10000, 13458245626333751279, 2049638230412172402, 15288550632769423584, 14953606251481945867176);
    case 2 => RootIs(2, 8, 100000000, 300153063250403071, 4099276460824344804, 14480868974329830400, 6670068072231179356278725);
    case 3 => RootIs(3, 2, 100, 12670490878911611211, 6148914691236517205, 1925417731599313468, 422349695963720373677);
    case 4 => RootIs(4, 6, 1000000, 1672254362768354751, 8198552921648689607, 14161661572577611840, 743224161230379889323260);
    case 6 => RootIs(6, 4, 10000, 13458245626333751279, 12297829382473034411, 4486081875444583760, 89721637508891675195765);
    case 7 => RootIs(7, 8, 100000000, 300153063250403071, 14347467612885206813, 4266028162630124288, 23345238252809127745348407);
    case 8 => RootIs(8, 2, 100, 12670490878911611211, 16397105843297379214, 7432526512302726184, 1126265855903254329851);
  }

  lemma SecondRoot(q: nat)
    requires 1 <= q <= 8 && q != 5
    ensures Root(WrappedZeros(q), Offset(q) + 1) == Candidates(q).1
  {
    SmallPowers();
    Offsets();
    hide Pow10, Root, Offset, WrappedZeros;
    match q
    case 1 => RootIs(1, 4, 10000, 13458245626333751279, 2049638230412172403, 10300052185393623248, 14953606251481945874472);
    case 2 => RootIs(2, 8, 100000000, 300153063250403071, 4099276460824344805, 14781022037580233472, 6670068072231179357905858);
    case 3 => RootIs(3, 2, 100, 12670490878911611211, 6148914691236517206, 14595908610510924680, 422349695963720373745);
    case 4 => RootIs(4, 6, 1000000, 1672254362768354751, 8198552921648689608, 15833915935345966592, 743224161230379889413913);
    case 6 => RootIs(6, 4, 10000, 13458245626333751279, 12297829382473034412, 17944327501778335040, 89721637508891675203060);
    case 7 => RootIs(7, 8, 100000000, 300153063250403071, 14347467612885206814, 4566181225880527360, 23345238252809127746975540);
    case 8 => RootIs(8, 2, 100, 12670490878911611211, 16397105843297379215, 1656273317504785780, 1126265855903254329920);
  }

  /** Neither of them overflows so often, unless it ends in a zero. */
  lemma RootsDiffer(q: nat, n: nat)
    requires 1 <= q <= 8 && (n == Candidates(q).0 || n == Candidates(q).1)
    ensures n % 10 == 0 || !(q * TWO_TO_THE_64 <= 90 * (n / 10) + 10 * (n % 10) - 9 < (q + 1) * TWO_TO_THE_64)
  {
  }

  /** What is read back of an amount that overflows is a different amount, also where the reading
      overflows in its turn. */
  lemma OverflownDiffers(n: nat, q: nat)
    requires n < TWO_TO_THE_64 && n % 10 != 0 && 1 <= q <= 8
    requires q * TWO_TO_THE_64 <= Pack(n, 0) < (q + 1) * TWO_TO_THE_64
    ensures Decompressed(Pack(n, 0) - q * TWO_TO_THE_64) % TWO_TO_THE_64 != n
  {
    hide Pack, Front, Offset, Root, Pow10, Candidates;
    var x, e := Pack(n, 0) - q * TWO_TO_THE_64, WrappedZeros(q);
    Overflown(n, q);
    var c := n - Front(x);
    if Front(x) * Pow10(e) % TWO_TO_THE_64 == n {
      if q == 5 {
        NoZeros(Front(x));
        OffsetPositive(q);
      } else {
        RootOf(n, c, e);
        FirstRoot(q);
        SecondRoot(q);
        RootsDiffer(q, n);
        PackedSize(n);
      }
    }
  }

  lemma NoZeros(front: nat)
    ensures front * Pow10(0) == front
  {
  }

  lemma OffsetPositive(q: nat)
    requires q > 0
    ensures Offset(q) > 0
  {
  }

  /** In 64-bit arithmetic, compression followed by decompression gives back exactly the amounts whose
      compressed form fits. */
  lemma AmountRoundTrip(n: nat)
    requires n < TWO_TO_THE_64
    ensures Decompressed(Compressed(n) % TWO_TO_THE_64) % TWO_TO_THE_64 == n <==> Fits(n)
  {
    hide Strip, Decompressed, Pack;
    FitsExactly(n);
    if Fits(n) {
      DecompressCompress(n);
      SmallMod(Compressed(n), TWO_TO_THE_64);
      SmallMod(n, TWO_TO_THE_64);
    } else {
      OverflowCount(n);
      OverflownDiffers(n, Compressed(n) / TWO_TO_THE_64);
    }
  }

  lemma OverflowCount(n: nat)
    requires n < TWO_TO_THE_64 && !Fits(n)
    ensures Compressed(n) == Pack(n, 0) && 1 <= Compressed(n) / TWO_TO_THE_64 <= 8
    ensures var q := Compressed(n) / TWO_TO_THE_64;
      && q * TWO_TO_THE_64 <= Compressed(n) < (q + 1) * TWO_TO_THE_64
      && Compressed(n) % TWO_TO_THE_64 == Compressed(n) - q * TWO_TO_THE_64
  {
    FitsExactly(n);
  }

  /** The least amount that is lost; the network allows amounts up to 2114819199000000000. */
  lemma AmountIsLost()
    ensures var n := 2049638230412172403;
      Compressed(n) == TWO_TO_THE_64 + 5 && Decompressed(Compressed(n) % TWO_TO_THE_64) == 10000
    ensures !Fits(2049638230412172403) && forall n: nat :: n < 2049638230412172403 ==> Fits(n)
  {
    assert Pow10(4) == 10000;
  }
}
