/** Positional notation: the value of a digit string, the digits of a value, and how many digits of
    one base are sure to hold a value written in another. */
module Radix {

  function Pow(b: nat, e: nat): nat {
    if e == 0 then 1 else b * Pow(b, e - 1)
  }

  predicate Digital(base: nat, s: seq<nat>) {
    forall i :: 0 <= i < |s| ==> s[i] < base
  }

  /** The number that `s` writes, most significant digit first. */
  function Value(base: nat, s: seq<nat>): nat {
    if s == [] then 0 else s[0] * Pow(base, |s| - 1) + Value(base, s[1..])
  }

  /** The digits of `v`, without leading zeros. */
  function Digits(base: nat, v: nat): (s: seq<nat>)
    requires base >= 2
    ensures Digital(base, s)
  {
    if v == 0 then [] else Digits(base, v / base) + [v % base]
  }

  function Zeros(n: nat): (s: seq<nat>)
    ensures |s| == n
  {
    seq(n, _ => 0)
  }

  /** How many zeros `s` begins with. */
  function Leading(s: seq<nat>): (n: nat)
    ensures n <= |s| && (forall i :: 0 <= i < n ==> s[i] == 0) && (n < |s| ==> s[n] != 0)
  {
    if s == [] || s[0] != 0 then 0 else Leading(s[1..]) + 1
  }

  /** From one base to another, each leading zero on its own. */
  function Convert(source: nat, target: nat, s: seq<nat>): seq<nat>
    requires target >= 2
  {
    Zeros(Leading(s)) + Digits(target, Value(source, s))
  }

  // ----- powers

  lemma {:induction false} PowPositive(b: nat, e: nat)
    requires b > 0
    ensures Pow(b, e) > 0
  {
    if e > 0 {
      PowPositive(b, e - 1);
      assert b * Pow(b, e - 1) > 0;
    }
  }

  lemma {:induction false} PowAdd(b: nat, m: nat, n: nat)
    ensures Pow(b, m + n) == Pow(b, m) * Pow(b, n)
  {
    if m > 0 {
      PowAdd(b, m - 1, n);
      Associate(b, Pow(b, m - 1), Pow(b, n));
    }
  }

  lemma {:induction false} PowPow(b: nat, m: nat, n: nat)
    ensures Pow(Pow(b, m), n) == Pow(b, m * n)
  {
    if n == 0 {
      assert m * n == 0;
    } else {
      PowPow(b, m, n - 1);
      PowAdd(b, m, m * (n - 1));
      assert m * n == m + m * (n - 1);
    }
  }

  /** More of the same base, or the same of a greater one, is no less. */
  lemma PowMonotone(b: nat, m: nat, n: nat)
    requires b > 0 && m <= n
    ensures Pow(b, m) <= Pow(b, n)
  {
    PowAdd(b, m, n - m);
    PowPositive(b, n - m);
    Grow(Pow(b, m), Pow(b, n - m));
  }

  lemma Grow(x: nat, k: nat)
    requires k > 0
    ensures x <= x * k
  {
    assert x * k == x + x * (k - 1);
  }

  lemma {:induction false} PowOfLess(a: nat, b: nat, n: nat)
    requires a <= b
    ensures Pow(a, n) <= Pow(b, n)
    ensures a < b && n > 0 ==> Pow(a, n) < Pow(b, n)
  {
    if n > 0 {
      PowOfLess(a, b, n - 1);
      var x, y := Pow(a, n - 1), Pow(b, n - 1);
      assert a * x <= a * y <= b * y by {
        MulLess(a, x, y);
        MulLess(y, a, b);
      }
      if a < b {
        PowPositive(b, n - 1);
        assert b * y == a * y + (b - a) * y;
        Grow(y, b - a);
      }
    }
  }

  lemma Shrink(x: int, k: int)
    requires x >= 0 && k > 0
    ensures x * -k <= -x
  {
    Grow(x, k);
    assert x * -k == -(x * k);
  }

  lemma MulLess(k: nat, x: nat, y: nat)
    requires x <= y
    ensures k * x <= k * y && x * k <= y * k
  {
    assert k * y == k * x + k * (y - x);
  }

  lemma PowSwap(a: nat, m: nat, p: nat)
    ensures Pow(Pow(a, m), p) == Pow(Pow(a, p), m)
  {
    PowPow(a, m, p);
    PowPow(a, p, m);
    assert p * m == m * p;
  }

  /** Two powers compared through a power of each: if `p` digits of base `a` are worth no more than
      `q` of base `b`, then `m` of `a` are worth no more than `n` of `b` once n/m is at least q/p. */
  lemma PowCompare(a: nat, p: nat, b: nat, q: nat, m: nat, n: nat)
    requires b > 0 && p > 0 && Pow(a, p) <= Pow(b, q) && q * m <= n * p
    ensures Pow(a, m) <= Pow(b, n)
  {
    hide Pow;
    PowSwap(a, m, p);
    PowOfLess(Pow(a, p), Pow(b, q), m);
    PowPow(b, q, m);
    PowMonotone(b, q * m, n * p);
    PowPow(b, n, p);
    RootOfLess(Pow(a, m), Pow(b, n), p);
  }

  lemma RootOfLess(x: nat, y: nat, p: nat)
    requires p > 0 && Pow(x, p) <= Pow(y, p)
    ensures x <= y
  {
    hide Pow;
    if y < x {
      PowOfLess(y, x, p);
    }
  }

  // ----- values

  lemma {:induction false} ValueBound(base: nat, s: seq<nat>)
    requires Digital(base, s)
    ensures Value(base, s) < Pow(base, |s|)
  {
    if s != [] {
      ValueBound(base, s[1..]);
      var p := Pow(base, |s| - 1);
      MulLess(p, s[0] + 1, base);
      assert s[0] * p + p == (s[0] + 1) * p;
    }
  }

  lemma {:induction false} ValueAppend(base: nat, s: seq<nat>, d: nat)
    ensures Value(base, s + [d]) == base * Value(base, s) + d
  {
    if s == [] {
      assert s + [d] == [d];
    } else {
      hide Value, Pow;
      ValueAppend(base, s[1..], d);
      assert (s + [d])[0] == s[0] && (s + [d])[1..] == s[1..] + [d];
      ValueSplit(base, s);
      ValueSplit(base, s + [d]);
      PowSplit(base, |s|);
      ShiftSum(base, s[0], Pow(base, |s| - 1), Value(base, s[1..]), d);
    }
  }

  lemma PowSplit(b: nat, e: nat)
    requires e > 0
    ensures Pow(b, e) == b * Pow(b, e - 1)
  {
  }

  lemma ShiftSum(base: nat, x: nat, p: nat, v: nat, d: nat)
    ensures x * (base * p) + (base * v + d) == base * (x * p + v) + d
  {
    assert x * (base * p) == base * (x * p);
    assert base * (x * p + v) == base * (x * p) + base * v;
  }

  lemma {:induction false} ValueZeros(base: nat, n: nat, s: seq<nat>)
    ensures Value(base, Zeros(n) + s) == Value(base, s)
  {
    if n == 0 {
      assert Zeros(n) + s == s;
    } else {
      ValueZeros(base, n - 1, s);
      assert (Zeros(n) + s)[1..] == Zeros(n - 1) + s;
    }
  }

  lemma {:induction false} LeadingZeros(n: nat, s: seq<nat>)
    requires s == [] || s[0] != 0
    ensures Leading(Zeros(n) + s) == n
  {
    if n == 0 {
      assert Zeros(n) + s == s;
    } else {
      LeadingZeros(n - 1, s);
      assert (Zeros(n) + s)[1..] == Zeros(n - 1) + s;
    }
  }

  lemma {:induction false} DigitsValue(base: nat, v: nat)
    requires base >= 2
    ensures Value(base, Digits(base, v)) == v
    ensures v > 0 ==> Digits(base, v) != [] && Digits(base, v)[0] != 0
  {
    if v > 0 {
      DivMod(base, v);
      DigitsValue(base, v / base);
      ValueAppend(base, Digits(base, v / base), v % base);
    }
  }

  lemma FirstDigit(base: nat, s: seq<nat>)
    requires s != [] && s[0] != 0
    ensures Value(base, s) >= Pow(base, |s| - 1)
  {
    Grow(Pow(base, |s| - 1), s[0]);
  }

  /** A number has one way to be written without leading zeros. */
  lemma {:induction false} DigitsUnique(base: nat, s: seq<nat>)
    requires base >= 2 && Digital(base, s) && (s != [] ==> s[0] != 0)
    ensures Digits(base, Value(base, s)) == s
  {
    if s != [] {
      var k := |s| - 1;
      var last, init := s[k], s[..k];
      assert s == init + [last];
      ValueAppend(base, init, last);
      DigitsUnique(base, init);
      FirstDigit(base, s);
      PowPositive(base, k);
      var v := Value(base, s);
      DivAppend(base, Value(base, init), last);
      assert Digits(base, v) == Digits(base, v / base) + [v % base];
    }
  }

  lemma DivAppend(base: nat, q: nat, d: nat)
    requires d < base
    ensures (base * q + d) / base == q && (base * q + d) % base == d
  {
    var x := base * q + d;
    DivMod(base, x);
    var more := x / base - q;
    assert base * more == d - x % base by {
      assert base * (x / base) == base * q + base * more;
    }
    if more > 0 {
      Grow(base, more);
    } else if more < 0 {
      Shrink(base, -more);
    }
  }

  lemma DivMod(base: nat, v: nat)
    requires base > 0
    ensures v == base * (v / base) + v % base && 0 <= v % base < base
    ensures base >= 2 && v > 0 ==> v / base < v
  {
  }

  /** Dividing twice. */
  lemma DivDiv(x: nat, a: nat, b: nat)
    requires a > 0 && b > 0
    ensures a * b > 0 && x / a / b == x / (a * b)
  {
    Grow(a, b);
    DivProduct(x, a, b, a * b);
  }

  lemma DivProduct(x: nat, a: nat, b: nat, m: nat)
    requires a > 0 && b > 0 && m == a * b && m > 0
    ensures x / a / b == x / m
  {
    var q, r := x / m, x % m;
    DivMod(m, x);
    DivMod(a, r);
    var s, t := r / a, r % a;
    Smaller(a, b, m, s, r);
    Recombine(x, a, b, m, q, r, s, t);
    Nested(x, a, b, q, s, t);
  }

  lemma Recombine(x: nat, a: nat, b: nat, m: nat, q: nat, r: nat, s: nat, t: nat)
    requires m == a * b && x == m * q + r && r == a * s + t
    ensures x == a * (b * q + s) + t
  {
    Associate(a, b, q);
    Distribute(a, b * q, s);
  }

  lemma Distribute(a: nat, x: nat, y: nat)
    ensures a * (x + y) == a * x + a * y
  {
  }

  lemma Associate(a: nat, b: nat, c: nat)
    ensures a * b * c == a * (b * c)
  {
  }

  lemma Smaller(a: nat, b: nat, m: nat, s: nat, r: nat)
    requires r < m == a * b && a * s <= r
    ensures s < b
  {
    if s >= b {
      MulLess(a, b, s);
    }
  }

  lemma Nested(x: nat, a: nat, b: nat, q: nat, s: nat, t: nat)
    requires t < a && s < b && x == a * (b * q + s) + t
    ensures x / a / b == q
  {
    DivAppend(a, b * q + s, t);
    DivAppend(b, q, s);
  }

  /** The digit of `v` that has `k` digits after it. */
  function Place(base: nat, v: nat, k: nat): (d: nat)
    requires base > 0
    ensures d < base
  {
    PowPositive(base, k);
    v / Pow(base, k) % base
  }

  /** The digits of a number can be read off it. */
  lemma {:induction false} DigitAt(base: nat, s: seq<nat>, pos: nat)
    requires base > 0 && Digital(base, s) && pos < |s|
    ensures Place(base, Value(base, s), |s| - 1 - pos) == s[pos]
  {
    hide Value;
    var k := |s| - 1;
    var init, last := s[..k], s[k];
    assert s == init + [last];
    ValueAppend(base, init, last);
    DivAppend(base, Value(base, init), last);
    if pos < k {
      DigitAt(base, init, pos);
      PowPositive(base, k - 1 - pos);
      DivDiv(Value(base, s), base, Pow(base, k - 1 - pos));
    }
  }

  /** A number that `k` digits can hold is the value of its digits, place by place. */
  lemma AllDigits(base: nat, v: nat, k: nat, s: seq<nat>)
    requires base >= 2 && v < Pow(base, k) && |s| == k
    requires forall i :: 0 <= i < k ==> s[i] == Place(base, v, k - 1 - i)
    ensures Value(base, s) == v
  {
    hide Value, Pow, Place;
    var d := Digits(base, v);
    DigitsValue(base, v);
    if |d| > k {
      FirstDigit(base, d);
      PowMonotone(base, k, |d| - 1);
    }
    var t := Zeros(k - |d|) + d;
    ValueZeros(base, k - |d|, d);
    forall i | 0 <= i < k ensures t[i] == s[i] {
      DigitAt(base, t, i);
    }
    assert t == s;
  }

  /** Conversion there and back. */
  lemma ConvertInverse(a: nat, b: nat, s: seq<nat>)
    requires a >= 2 && b >= 2 && Digital(a, s)
    ensures Digital(b, Convert(a, b, s))
    ensures Convert(b, a, Convert(a, b, s)) == s
  {
    hide Pow;
    var z := Leading(s);
    var rest := s[z..];
    assert s == Zeros(z) + rest;
    ValueZeros(a, z, rest);
    DigitsUnique(a, rest);
    var v := Value(a, rest);
    var d := Digits(b, v);
    DigitsValue(b, v);
    LeadingZeros(z, d);
    ValueZeros(b, z, d);
  }

  /** Digits with their zeros stripped are the digits of their value. */
  lemma StripZeros(base: nat, s: seq<nat>, k: nat)
    requires base >= 2 && Digital(base, s) && k <= |s|
    requires forall i :: 0 <= i < k ==> s[i] == 0
    requires k < |s| ==> s[k] != 0
    ensures s[k..] == Digits(base, Value(base, s))
  {
    assert s == Zeros(k) + s[k..];
    ValueZeros(base, k, s[k..]);
    DigitsUnique(base, s[k..]);
  }

  // ----- multiplying in place

  lemma ValueFrom(base: nat, s: seq<nat>, i: nat)
    requires 0 < i <= |s|
    ensures Value(base, s[i - 1..]) == s[i - 1] * Pow(base, |s| - i) + Value(base, s[i..])
    ensures Pow(base, |s| - (i - 1)) == base * Pow(base, |s| - i)
  {
    var tail := s[i - 1..];
    assert tail[0] == s[i - 1] && tail[1..] == s[i..] && |tail| - 1 == |s| - i;
    hide Value;
    ValueSplit(base, tail);
    var k := |s| - i;
    assert Pow(base, k + 1) == base * Pow(base, k);
  }

  lemma ValueSplit(base: nat, s: seq<nat>)
    requires s != []
    ensures Value(base, s) == s[0] * Pow(base, |s| - 1) + Value(base, s[1..])
  {
    hide Pow;
  }

  /** One step of long multiplication from the right, `p` being the weight of the place. */
  lemma CarryStep(base: nat, mul: nat, add: nat, was: nat, carry: nat, p: nat, tail: nat, wasTail: nat)
    requires base > 0 && tail + carry * p == mul * wasTail + add
    ensures (carry + mul * was) % base * p + tail + (carry + mul * was) / base * (base * p) == mul * (was * p + wasTail) + add
  {
    var c := carry + mul * was;
    assert c == c % base + c / base * base;
    assert c % base * p + c / base * (base * p) == c * p by {
      assert c / base * (base * p) == c / base * base * p;
    }
    assert c * p == carry * p + mul * (was * p) by {
      assert mul * was * p == mul * (was * p);
    }
    assert mul * (was * p + wasTail) == mul * (was * p) + mul * wasTail;
  }

  lemma ValueNone(base: nat)
    ensures Value(base, []) == 0 && Pow(base, 0) == 1
  {
  }

  /** `buf` becomes `mul` times itself plus `add`, as far as it holds that; the rest is the carry. */
  method MultiplyAdd(buf: array<nat>, base: nat, mul: nat, add: nat) returns (carry: nat)
    requires base >= 2 && Digital(base, buf[..])
    modifies buf
    ensures Digital(base, buf[..])
    ensures Value(base, buf[..]) + carry * Pow(base, buf.Length) == mul * Value(base, old(buf[..])) + add
  {
    hide Pow, Value;
    carry := add;
    ValueNone(base);
    ghost var was := buf[..];
    assert buf[buf.Length..] == [] && was[buf.Length..] == [];
    assert carry * 1 == carry && mul * 0 == 0;
    var i := buf.Length;
    while i > 0
      invariant 0 <= i <= buf.Length && Digital(base, buf[..])
      invariant forall k :: 0 <= k < i ==> buf[k] == was[k]
      invariant Value(base, buf[i..]) + carry * Pow(base, buf.Length - i) == mul * Value(base, was[i..]) + add
    {
      ghost var tail := buf[i..];
      CarryStep(base, mul, add, was[i - 1], carry, Pow(base, buf.Length - i), Value(base, tail), Value(base, was[i..]));
      ValueFrom(base, was, i);
      i := i - 1;
      carry := carry + mul * buf[i];
      buf[i] := carry % base;
      carry := carry / base;
      ValueFrom(base, buf[..], i + 1);
      assert buf[..][i + 1..] == tail && buf[..][i..] == buf[i..];
    }
    assert buf[0..] == buf[..] && was[0..] == was;
  }
}
