/** Compact forms of amounts, scripts and outputs (src/compressor.cpp, src/compressor.h). */
module Compressor {
  import opened Basics
  import opened Wrappers
  import opened Streams
  import opened Amounts

  // ----- amounts

  /** In 64-bit arithmetic; the expression in the source wraps around as a whole. */
  method CompressAmount(nAmount: nat) returns (x: nat)
    requires nAmount < TWO_TO_THE_64
    ensures x == Compressed(nAmount) % TWO_TO_THE_64
    ensures x == Compressed(nAmount) <==> Fits(nAmount)
  {
    if nAmount == 0 {
      return 0;
    }
    hide Decompressed, Pow10;
    FitsExactly(nAmount);
    if Fits(nAmount) {
      SmallMod(Compressed(nAmount), TWO_TO_THE_64);
    }
    var n, e := nAmount, 0;
    while n % 10 == 0 && e < 9
      invariant n > 0 && 0 <= e <= 9 && Strip(n, e) == Strip(nAmount, 0)
      decreases 9 - e
    {
      n, e := n / 10, e + 1;
    }
    if e < 9 {
      var d := n % 10;
      assert 1 <= d <= 9;
      n := n / 10;
      x := (1 + (n * 9 + d - 1) * 10 + e) % TWO_TO_THE_64;
    } else {
      x := (1 + (n - 1) * 10 + 9) % TWO_TO_THE_64;
    }
  }

  lemma WrapTenTimes(a: nat)
    ensures a % TWO_TO_THE_64 * 10 % TWO_TO_THE_64 == a * 10 % TWO_TO_THE_64
  {
    assert a == a / TWO_TO_THE_64 * TWO_TO_THE_64 + a % TWO_TO_THE_64;
  }

  method DecompressAmount(nAmount: nat) returns (n: nat)
    requires nAmount < TWO_TO_THE_64
    ensures n == Decompressed(nAmount) % TWO_TO_THE_64
  {
    if nAmount == 0 {
      return 0;
    }
    var x := nAmount - 1;
    var e := x % 10;
    x := x / 10;
    n := 0;
    if e < 9 {
      var d := x % 9 + 1;
      x := x / 9;
      n := (x * 10 + d) % TWO_TO_THE_64;
    } else {
      n := (x + 1) % TWO_TO_THE_64;
    }
    n := AppendZeros(Front(nAmount), n, e);
  }

  /** The loop at the end of it. */
  method AppendZeros(ghost front: nat, n: nat, e: nat) returns (r: nat)
    requires n == front % TWO_TO_THE_64
    ensures r == front * Pow10(e) % TWO_TO_THE_64
  {
    r := n;
    var left := e;
    assert front * Pow10(0) == front;
    while left > 0
      invariant 0 <= left <= e && r == front * Pow10(e - left) % TWO_TO_THE_64
    {
      WrapTenTimes(front * Pow10(e - left));
      AppendZero(front, e - left);
      r := r * 10 % TWO_TO_THE_64;
      left := left - 1;
    }
  }

  lemma AppendZero(front: nat, k: nat)
    ensures front * Pow10(k) * 10 == front * Pow10(k + 1)
  {
    assert front * (10 * Pow10(k)) == front * Pow10(k) * 10;
  }

  // ----- scripts

  const OP_DUP: Byte := 0x76
  const OP_EQUAL: Byte := 0x87
  const OP_EQUALVERIFY: Byte := 0x88
  const OP_HASH160: Byte := 0xa9
  const OP_CHECKSIG: Byte := 0xac

  /** What the elliptic curve library says: whether 65 bytes are a valid public key, and which key
      has a given x coordinate and parity. */
  datatype Curve = Curve(fullyValid: seq<Byte> -> bool, decompress: seq<Byte> -> Option<seq<Byte>>)

  /** A valid key is the one with its own x coordinate and parity. */
  ghost predicate CurveOk(curve: Curve) {
    forall key: seq<Byte> :: |key| == 65 && key[0] == 4 && curve.fullyValid(key) ==>
      curve.decompress([2 + key[64] % 2] + key[1..33]) == Some(key)
  }

  predicate IsToKeyID(script: seq<Byte>) {
    |script| == 25 && script[0] == OP_DUP && script[1] == OP_HASH160 && script[2] == 20
    && script[23] == OP_EQUALVERIFY && script[24] == OP_CHECKSIG
  }

  predicate IsToScriptID(script: seq<Byte>) {
    |script| == 23 && script[0] == OP_HASH160 && script[1] == 20 && script[22] == OP_EQUAL
  }

  predicate IsToShortKey(script: seq<Byte>) {
    |script| == 35 && script[0] == 33 && script[34] == OP_CHECKSIG && (script[1] == 2 || script[1] == 3)
  }

  predicate IsToLongKey(curve: Curve, script: seq<Byte>) {
    |script| == 67 && script[0] == 65 && script[66] == OP_CHECKSIG && script[1] == 4 && curve.fullyValid(script[1..66])
  }

  /** `Compress`: six forms of script have a short one. */
  function ShortScript(curve: Curve, script: seq<Byte>): Option<seq<Byte>> {
    if IsToKeyID(script) then Some([0] + script[3..23])
    else if IsToScriptID(script) then Some([1] + script[2..22])
    else if IsToShortKey(script) then Some([script[1]] + script[2..34])
    else if IsToLongKey(curve, script) then Some([4 + script[65] % 2] + script[2..34])
    else None
  }

  function GetSpecialSize(nSize: nat): nat {
    if nSize == 0 || nSize == 1 then 20 else if 2 <= nSize <= 5 then 32 else 0
  }

  /** `Decompress`: fails on bytes that are no key. */
  function LongScript(curve: Curve, nSize: nat, vch: seq<Byte>): (r: Option<seq<Byte>>)
    requires nSize < 6 && |vch| == GetSpecialSize(nSize)
  {
    if nSize == 0 then Some([OP_DUP, OP_HASH160, 20] + vch + [OP_EQUALVERIFY, OP_CHECKSIG])
    else if nSize == 1 then Some([OP_HASH160, 20] + vch + [OP_EQUAL])
    else if nSize <= 3 then Some([33, nSize] + vch + [OP_CHECKSIG])
    else
      match curve.decompress([nSize - 2] + vch)
      case None => None
      case Some(key) => Some([65] + key + [OP_CHECKSIG])
  }

  function ScriptBytes(curve: Curve, script: seq<Byte>): seq<Byte> {
    match ShortScript(curve, script)
    case Some(compr) => compr
    case None => VarInt(|script| + 6) + script
  }

  function Take(s: seq<Byte>, n: nat): Parsed<seq<Byte>> {
    if n <= |s| then Parsed(s[..n], s[n..]) else Failure
  }

  /** A script that cannot be decompressed stays what it was. */
  function ParseScript(curve: Curve, s: seq<Byte>, was: seq<Byte>): Parsed<seq<Byte>> {
    match ParseVarInt(s, Pow2(32))
    case Failure => Failure
    case Parsed(nSize, rest) =>
      if nSize < 6 then
        match Take(rest, GetSpecialSize(nSize))
        case Failure => Failure
        case Parsed(vch, rest') =>
          match LongScript(curve, nSize, vch)
          case None => Parsed(was, rest')
          case Some(script) => Parsed(script, rest')
      else Take(rest, nSize - 6)
  }

  /** Every short form is expanded to the script it came from. */
  lemma ShortThenLong(curve: Curve, script: seq<Byte>)
    requires CurveOk(curve) && ShortScript(curve, script).Some?
    ensures var compr := ShortScript(curve, script).value;
      && compr != [] && compr[0] < 6 && |compr| - 1 == GetSpecialSize(compr[0])
      && LongScript(curve, compr[0], compr[1..]) == Some(script)
  {
    var compr := ShortScript(curve, script).value;
    var vch := compr[1..];
    if IsToKeyID(script) {
      assert script == [OP_DUP, OP_HASH160, 20] + script[3..23] + [OP_EQUALVERIFY, OP_CHECKSIG];
    } else if IsToScriptID(script) {
      assert script == [OP_HASH160, 20] + script[2..22] + [OP_EQUAL];
    } else if IsToShortKey(script) {
      assert script == [33, script[1]] + script[2..34] + [OP_CHECKSIG];
    } else {
      var key := script[1..66];
      assert key[1..33] == script[2..34] && key[64] == script[65];
      assert script == [65] + key + [OP_CHECKSIG];
    }
  }

  /** What is written for a script: a byte for its kind and the hash or x coordinate, 21 or 33 bytes in
      all, for six kinds; otherwise its length plus six, and the script. */
  lemma ScriptForms(curve: Curve, script: seq<Byte>, hash: seq<Byte>, x: seq<Byte>, y: seq<Byte>)
    requires |hash| == 20 && |x| == 32 && |y| == 32
    ensures script == [OP_DUP, OP_HASH160, 20] + hash + [OP_EQUALVERIFY, OP_CHECKSIG] ==> ScriptBytes(curve, script) == [0] + hash
    ensures script == [OP_HASH160, 20] + hash + [OP_EQUAL] ==> ScriptBytes(curve, script) == [1] + hash
    ensures script == [33, 2] + x + [OP_CHECKSIG] ==> ScriptBytes(curve, script) == [2] + x
    ensures script == [33, 3] + x + [OP_CHECKSIG] ==> ScriptBytes(curve, script) == [3] + x
    ensures script == [65, 4] + x + y + [OP_CHECKSIG] && curve.fullyValid([4] + x + y) ==>
      ScriptBytes(curve, script) == [if y[31] % 2 == 0 then 4 else 5] + x
  {
    if script == [OP_DUP, OP_HASH160, 20] + hash + [OP_EQUALVERIFY, OP_CHECKSIG] {
      assert script[3..23] == hash;
    } else if script == [OP_HASH160, 20] + hash + [OP_EQUAL] {
      assert script[2..22] == hash;
    } else if script == [33, 2] + x + [OP_CHECKSIG] || script == [33, 3] + x + [OP_CHECKSIG] {
      assert script[2..34] == x;
    } else if script == [65, 4] + x + y + [OP_CHECKSIG] {
      assert script[1..66] == [4] + x + y && script[2..34] == x && script[65] == y[31];
    }
  }

  /** How much longer or shorter that makes a script. */
  lemma ScriptLengths(curve: Curve, script: seq<Byte>)
    ensures ShortScript(curve, script).Some? ==> |ScriptBytes(curve, script)| == if |script| <= 25 then 21 else 33
    ensures ShortScript(curve, script).None? ==>
      && (|script| <= 121 <==> |ScriptBytes(curve, script)| == 1 + |script|)
      && (121 < |script| <= 16505 <==> |ScriptBytes(curve, script)| == 2 + |script|)
  {
    VarIntLength(|script| + 6);
    hide VarInt;
  }

  lemma OneByte(k: nat, rest: seq<Byte>)
    requires k < 128
    ensures ParseVarInt([k] + rest, Pow2(32)) == Parsed(k, rest)
  {
    Pow2Split(32, 7);
    assert Pow2(7) == 128 && Pow2(25) >= 1;
    VarIntRoundTrip(k, rest, Pow2(32));
  }

  lemma ScriptRoundTrip(curve: Curve, script: seq<Byte>, rest: seq<Byte>, was: seq<Byte>)
    requires CurveOk(curve) && |script| + 6 < Pow2(32)
    ensures ParseScript(curve, ScriptBytes(curve, script) + rest, was) == Parsed(script, rest)
  {
    hide Pow2, ParseVarInt, ShortScript, LongScript, VarInt, CurveOk;
    match ShortScript(curve, script)
    case Some(compr) =>
      ShortThenLong(curve, script);
      OneByte(compr[0], compr[1..] + rest);
      assert compr + rest == [compr[0]] + (compr[1..] + rest);
      assert (compr[1..] + rest)[..|compr| - 1] == compr[1..] && (compr[1..] + rest)[|compr| - 1..] == rest;
    case None =>
      VarIntRoundTrip(|script| + 6, script + rest, Pow2(32));
      assert (VarInt(|script| + 6) + script) + rest == VarInt(|script| + 6) + (script + rest);
      assert (script + rest)[..|script|] == script && (script + rest)[|script|..] == rest;
  }
}
