/** The serialized form of coins (`CCoins::Serialize` and `Unserialize`, src/coins.h). */
module CoinCodec {
  import opened Basics
  import opened Streams
  import opened Amounts
  import opened Compressor
  import opened Coins

  // ----- outputs

  /** A 64-bit pattern read as a signed amount. */
  function ToAmount(x: nat): int {
    if x < 0x8000_0000_0000_0000 then x else x - TWO_TO_THE_64
  }

  predicate IsAmount(n: int) {
    -0x8000_0000_0000_0000 <= n < 0x8000_0000_0000_0000
  }

  predicate Writable(out: TxOut) {
    IsAmount(out.nValue) && |out.scriptPubKey| + 6 < Pow2(32)
  }

  /** The amount comes back. */
  predicate Survives(out: TxOut) {
    Fits(out.nValue % TWO_TO_THE_64)
  }

  /** What comes back of an amount. */
  function KeptAmount(n: int): int {
    ToAmount(Decompressed(Compressed(n % TWO_TO_THE_64) % TWO_TO_THE_64) % TWO_TO_THE_64)
  }

  lemma AmountKept(n: int)
    requires IsAmount(n)
    ensures KeptAmount(n) == n <==> Fits(n % TWO_TO_THE_64)
  {
    hide Compressed, Decompressed, Fits;
    AmountRoundTrip(n % TWO_TO_THE_64);
    assert ToAmount(n % TWO_TO_THE_64) == n;
  }

  /** What comes back of an output that is there, and of all. */
  function KeptOut(out: TxOut): TxOut {
    if out.IsNull() then out else out.(nValue := KeptAmount(out.nValue))
  }

  function KeptOuts(vout: seq<TxOut>): (r: seq<TxOut>)
    ensures |r| == |vout|
  {
    seq(|vout|, i requires 0 <= i < |vout| => KeptOut(vout[i]))
  }

  function OutBytes(curve: Curve, out: TxOut): seq<Byte> {
    VarInt(Compressed(out.nValue % TWO_TO_THE_64) % TWO_TO_THE_64) + ScriptBytes(curve, out.scriptPubKey)
  }

  function ParseOut(curve: Curve, s: seq<Byte>): Parsed<TxOut> {
    match ParseVarInt(s, TWO_TO_THE_64)
    case Failure => Failure
    case Parsed(nVal, rest) =>
      match ParseScript(curve, rest, [])
      case Failure => Failure
      case Parsed(script, rest') => Parsed(TxOut(ToAmount(Decompressed(nVal) % TWO_TO_THE_64), script), rest')
  }

  lemma OutParsed(curve: Curve, out: TxOut, rest: seq<Byte>)
    requires CurveOk(curve) && Writable(out)
    ensures ParseOut(curve, OutBytes(curve, out) + rest) == Parsed(out.(nValue := KeptAmount(out.nValue)), rest)
  {
    hide ParseVarInt, VarInt, Compressed, Decompressed, ScriptBytes, ParseScript, Pow2, CurveOk;
    var x := Compressed(out.nValue % TWO_TO_THE_64) % TWO_TO_THE_64;
    SmallMod(x, TWO_TO_THE_64);
    VarIntRoundTrip(x, ScriptBytes(curve, out.scriptPubKey) + rest, TWO_TO_THE_64);
    ScriptRoundTrip(curve, out.scriptPubKey, rest, []);
    assert OutBytes(curve, out) + rest == VarInt(x) + (ScriptBytes(curve, out.scriptPubKey) + rest);
  }

  /** An output comes back unchanged exactly when its amount fits. */
  lemma OutRoundTrip(curve: Curve, out: TxOut, rest: seq<Byte>)
    requires CurveOk(curve) && Writable(out)
    ensures ParseOut(curve, OutBytes(curve, out) + rest) == Parsed(out, rest) <==> Survives(out)
  {
    hide ParseOut, OutBytes, KeptAmount, CurveOk, Fits;
    OutParsed(curve, out, rest);
    AmountKept(out.nValue);
  }

  /** The outputs that are there, in order. */
  function OutsBytes(curve: Curve, vout: seq<TxOut>): seq<Byte> {
    if vout == [] then [] else (if vout[0].IsNull() then [] else OutBytes(curve, vout[0])) + OutsBytes(curve, vout[1..])
  }

  function ParseOuts(curve: Curve, s: seq<Byte>, vAvail: seq<bool>): Parsed<seq<TxOut>>
    decreases |vAvail|
  {
    if vAvail == [] then Parsed([], s)
    else
      match (if vAvail[0] then ParseOut(curve, s) else Parsed(NULL_OUT, s))
      case Failure => Failure
      case Parsed(out, rest) =>
        match ParseOuts(curve, rest, vAvail[1..])
        case Failure => Failure
        case Parsed(outs, rest') => Parsed([out] + outs, rest')
  }

  /** Whether output `i` is there. */
  predicate Avail(vout: seq<TxOut>, i: nat) {
    i < |vout| && !vout[i].IsNull()
  }

  predicate Matches(vAvail: seq<bool>, vout: seq<TxOut>) {
    |vAvail| >= |vout| && forall i :: 0 <= i < |vAvail| ==> vAvail[i] == Avail(vout, i)
  }

  predicate Storable(vout: seq<TxOut>) {
    forall i :: 0 <= i < |vout| ==> if vout[i].IsNull() then vout[i] == NULL_OUT else Writable(vout[i])
  }

  function Nulls(n: nat): (r: seq<TxOut>)
    ensures |r| == n
  {
    seq(n, _ => NULL_OUT)
  }

  lemma {:induction false} OutsParsed(curve: Curve, vout: seq<TxOut>, vAvail: seq<bool>, rest: seq<Byte>)
    requires CurveOk(curve) && Storable(vout) && Matches(vAvail, vout)
    ensures ParseOuts(curve, OutsBytes(curve, vout) + rest, vAvail) == Parsed(KeptOuts(vout) + Nulls(|vAvail| - |vout|), rest)
    decreases |vAvail|
  {
    hide ParseOut, OutBytes, Writable, KeptAmount, CurveOk;
    if vAvail == [] {
      assert OutsBytes(curve, vout) + rest == rest;
    } else if vout == [] {
      OutsParsed(curve, [], vAvail[1..], rest);
      assert vAvail[0] == Avail(vout, 0);
      assert OutsBytes(curve, []) + rest == rest;
      assert [NULL_OUT] + (KeptOuts([]) + Nulls(|vAvail| - 1)) == KeptOuts([]) + Nulls(|vAvail|);
    } else {
      var more := OutsBytes(curve, vout[1..]) + rest;
      OutsParsed(curve, vout[1..], vAvail[1..], rest);
      assert vAvail[0] == Avail(vout, 0);
      if vAvail[0] {
        OutParsed(curve, vout[0], more);
        assert OutsBytes(curve, vout) + rest == OutBytes(curve, vout[0]) + more;
      } else {
        assert OutsBytes(curve, vout) + rest == more;
      }
      assert KeptOuts(vout) == [KeptOut(vout[0])] + KeptOuts(vout[1..]);
      assert [KeptOut(vout[0])] + (KeptOuts(vout[1..]) + Nulls(|vAvail| - |vout|)) == KeptOuts(vout) + Nulls(|vAvail| - |vout|);
    }
  }

  // ----- the bit mask

  function ByteOf(bits: seq<bool>): nat {
    if bits == [] then 0 else (if bits[0] then 1 else 0) + 2 * ByteOf(bits[1..])
  }

  function BitsOf(b: nat, n: nat): (bits: seq<bool>)
    ensures |bits| == n
  {
    if n == 0 then [] else [b % 2 == 1] + BitsOf(b / 2, n - 1)
  }

  lemma {:induction false} BitsOfByte(bits: seq<bool>)
    ensures ByteOf(bits) < Pow2(|bits|) && BitsOf(ByteOf(bits), |bits|) == bits
    ensures ByteOf(bits) == 0 <==> forall i :: 0 <= i < |bits| ==> !bits[i]
  {
    if bits != [] {
      hide Pow2;
      BitsOfByte(bits[1..]);
      assert forall i :: 1 <= i < |bits| ==> bits[i] == bits[1..][i - 1];
      assert bits == [bits[0]] + bits[1..];
      FirstBit(ByteOf(bits[1..]), if bits[0] then 1 else 0, |bits|);
    } else {
      assert Pow2(0) == 1;
    }
  }

  lemma FirstBit(x: nat, bit: nat, n: nat)
    requires bit < 2 && n > 0 && x < Pow2(n - 1)
    ensures (bit + 2 * x) % 2 == bit && (bit + 2 * x) / 2 == x && bit + 2 * x < Pow2(n)
  {
  }

  /** The availability of the eight outputs that mask byte `b` stands for. */
  function MaskBits(vout: seq<TxOut>, b: nat): (bits: seq<bool>)
    ensures |bits| == 8
  {
    seq(8, i requires 0 <= i < 8 => Avail(vout, 2 + b * 8 + i))
  }

  function MaskByte(vout: seq<TxOut>, b: nat): Byte {
    BitsOfByte(MaskBits(vout, b));
    assert Pow2(8) == 256;
    ByteOf(MaskBits(vout, b))
  }

  /** The mask bytes up to the last one that is not zero, of the first `n`. */
  function MaskSize(vout: seq<TxOut>, n: nat): (size: nat)
    ensures size <= n
  {
    if n == 0 then 0 else if MaskByte(vout, n - 1) != 0 then n else MaskSize(vout, n - 1)
  }

  function MaskCode(vout: seq<TxOut>, n: nat): (code: nat)
    ensures code <= n
  {
    if n == 0 then 0 else MaskCode(vout, n - 1) + (if MaskByte(vout, n - 1) != 0 then 1 else 0)
  }

  /** How many mask bytes `CalcMaskSize` looks at. */
  function Groups(vout: seq<TxOut>): (n: nat)
    ensures 2 + n * 8 >= |vout| && (n > 0 ==> 2 + (n - 1) * 8 < |vout|)
  {
    if |vout| <= 2 then 0 else (|vout| - 2 + 7) / 8
  }

  function Mask(vout: seq<TxOut>): (mask: seq<Byte>)
  {
    seq(MaskSize(vout, Groups(vout)), b requires 0 <= b < MaskSize(vout, Groups(vout)) => MaskByte(vout, b))
  }

  function NonZero(mask: seq<Byte>): nat {
    if mask == [] then 0 else (if mask[0] != 0 then 1 else 0) + NonZero(mask[1..])
  }

  /** Reads mask bytes until `n` of them were not zero. */
  function ParseMask(s: seq<Byte>, n: nat): Parsed<seq<bool>>
    decreases |s|
  {
    if n == 0 then Parsed([], s)
    else if s == [] then Failure
    else
      match ParseMask(s[1..], if s[0] != 0 then n - 1 else n)
      case Failure => Failure
      case Parsed(bits, rest) => Parsed(BitsOf(s[0], 8) + bits, rest)
  }

  function AllBits(mask: seq<Byte>): (bits: seq<bool>)
    ensures |bits| == 8 * |mask|
  {
    if mask == [] then [] else BitsOf(mask[0], 8) + AllBits(mask[1..])
  }

  lemma {:induction false} LastIsCounted(mask: seq<Byte>)
    requires mask != [] && mask[|mask| - 1] != 0
    ensures NonZero(mask) > 0
  {
    if |mask| > 1 {
      LastIsCounted(mask[1..]);
    }
  }

  /** Knowing only how many mask bytes are not zero, the reader takes exactly those that were written. */
  lemma {:induction false} MaskRoundTrip(mask: seq<Byte>, rest: seq<Byte>)
    requires mask != [] ==> mask[|mask| - 1] != 0
    ensures ParseMask(mask + rest, NonZero(mask)) == Parsed(AllBits(mask), rest)
  {
    if mask == [] {
      assert mask + rest == rest;
    } else {
      LastIsCounted(mask);
      MaskRoundTrip(mask[1..], rest);
      assert (mask + rest)[1..] == mask[1..] + rest;
    }
  }

  lemma {:induction false} MaskCodeCounts(vout: seq<TxOut>, n: nat)
    ensures MaskCode(vout, n) == NonZero(seq(n, b requires 0 <= b < n => MaskByte(vout, b)))
  {
    if n > 0 {
      MaskCodeCounts(vout, n - 1);
      var front := seq(n - 1, b requires 0 <= b < n - 1 => MaskByte(vout, b));
      assert seq(n, b requires 0 <= b < n => MaskByte(vout, b)) == front + [MaskByte(vout, n - 1)];
      NonZeroAppend(front, MaskByte(vout, n - 1));
    }
  }

  lemma {:induction false} NonZeroAppend(mask: seq<Byte>, b: Byte)
    ensures NonZero(mask + [b]) == NonZero(mask) + (if b != 0 then 1 else 0)
  {
    if mask != [] {
      NonZeroAppend(mask[1..], b);
      assert (mask + [b])[1..] == mask[1..] + [b];
    } else {
      assert mask + [b] == [b];
    }
  }

  lemma {:induction false} MaskSizeIsLast(vout: seq<TxOut>, n: nat)
    ensures MaskSize(vout, n) > 0 ==> MaskByte(vout, MaskSize(vout, n) - 1) != 0
    ensures forall b :: MaskSize(vout, n) <= b < n ==> MaskByte(vout, b) == 0
    ensures MaskCode(vout, n) == MaskCode(vout, MaskSize(vout, n))
  {
    if n > 0 && MaskByte(vout, n - 1) == 0 {
      MaskSizeIsLast(vout, n - 1);
    }
  }

  /** The bits read are the availability of the outputs, and no output lies beyond them. */
  lemma {:induction false} AllBitsAvail(vout: seq<TxOut>, mask: seq<Byte>, b: nat)
    requires forall k :: 0 <= k < |mask| ==> mask[k] == MaskByte(vout, b + k)
    ensures forall i :: 0 <= i < 8 * |mask| ==> AllBits(mask)[i] == Avail(vout, 2 + b * 8 + i)
  {
    if mask != [] {
      assert forall k :: 0 <= k < |mask[1..]| ==> mask[1..][k] == MaskByte(vout, b + 1 + k);
      AllBitsAvail(vout, mask[1..], b + 1);
      BitsOfByte(MaskBits(vout, b));
      assert mask[0] == MaskByte(vout, b + 0);
      forall i | 0 <= i < 8 * |mask| ensures AllBits(mask)[i] == Avail(vout, 2 + b * 8 + i) {
        if i >= 8 {
          assert AllBits(mask)[i] == AllBits(mask[1..])[i - 8];
        } else {
          assert AllBits(mask)[i] == MaskBits(vout, b)[i];
        }
      }
    }
  }

  // ----- coins

  /** A VARINT of type `int`: a negative one is written as a single byte. */
  function IntBytes(n: int): seq<Byte> {
    if n < 0 then [n % 128] else VarInt(n)
  }

  /** What of it comes back. */
  function Kept(n: int): int {
    if n < 0 then n % 128 else n
  }

  function ParseInt(s: seq<Byte>): Parsed<int> {
    match ParseVarInt(s, Pow2(32))
    case Failure => Failure
    case Parsed(x, rest) => Parsed(if x < Pow2(31) then x else x - Pow2(32), rest)
  }

  predicate IsInt32(n: int) {
    n < Pow2(31) && -n <= Pow2(31)
  }

  lemma IntRoundTrip(n: int, rest: seq<Byte>)
    requires IsInt32(n)
    ensures ParseInt(IntBytes(n) + rest) == Parsed(Kept(n), rest)
  {
    hide ParseVarInt, VarInt;
    assert Pow2(32) == 2 * Pow2(31);
    if n < 0 {
      OneByte(n % 128, rest);
      Pow2Split(31, 7);
      assert Pow2(7) == 128;
    } else {
      VarIntRoundTrip(n, rest, Pow2(32));
    }
  }

  function Flag(f: bool, weight: nat): nat {
    if f then weight else 0
  }

  /** `nCode`: the flags, and how many mask bytes are not zero, less one when it cannot be none. */
  function Code(c: Coins): nat
    requires !c.IsPruned()
  {
    var fFirst, fSecond := Avail(c.vout, 0), Avail(c.vout, 1);
    NotPrunedCode(c);
    16 * (MaskCode(c.vout, Groups(c.vout)) - (if fFirst || fSecond then 0 else 1))
    + Flag(c.fCoinBase, 1) + Flag(c.fCoinStake, 2) + Flag(fFirst, 4) + Flag(fSecond, 8)
  }

  /** The assertion in `Serialize`: coins that are not pruned have something to write. */
  lemma NotPrunedCode(c: Coins)
    requires !c.IsPruned()
    ensures Avail(c.vout, 0) || Avail(c.vout, 1) || MaskCode(c.vout, Groups(c.vout)) > 0
  {
    var i :| 0 <= i < |c.vout| && !c.vout[i].IsNull();
    if i >= 2 {
      var b := (i - 2) / 8;
      MaskBitSet(c.vout, b, i);
      CodePositive(c.vout, Groups(c.vout), b);
    }
  }

  lemma MaskBitSet(vout: seq<TxOut>, b: nat, i: nat)
    requires Avail(vout, i) && 2 + b * 8 <= i < 2 + b * 8 + 8
    ensures MaskByte(vout, b) != 0
  {
    var k := i - (2 + b * 8);
    BitsOfByte(MaskBits(vout, b));
    assert MaskBits(vout, b)[k] == Avail(vout, 2 + b * 8 + k);
  }

  lemma {:induction false} CodePositive(vout: seq<TxOut>, n: nat, b: nat)
    requires b < n && MaskByte(vout, b) != 0
    ensures MaskCode(vout, n) > 0
  {
    if b < n - 1 {
      CodePositive(vout, n - 1, b);
    }
  }

  function CoinsBytes(curve: Curve, c: Coins): seq<Byte>
    requires !c.IsPruned()
  {
    IntBytes(c.nVersion) + (VarInt(Code(c)) + (Mask(c.vout) + (OutsBytes(curve, c.vout) + IntBytes(c.nHeight))))
  }

  function Bit(x: nat, weight: nat): bool
    requires weight > 0
  {
    x / weight % 2 == 1
  }

  function MaskCount(nCode: nat): nat {
    nCode / 16 + (if Bit(nCode, 4) || Bit(nCode, 8) then 0 else 1)
  }

  /** Outputs and height, once it is known which outputs are there. */
  function ParseTail(curve: Curve, s: seq<Byte>, vAvail: seq<bool>): Parsed<(seq<TxOut>, int)> {
    match ParseOuts(curve, s, vAvail)
    case Failure => Failure
    case Parsed(vout, rest) =>
      match ParseInt(rest)
      case Failure => Failure
      case Parsed(nHeight, rest') => Parsed((vout, nHeight), rest')
  }

  function ParseBody(curve: Curve, s: seq<Byte>, nCode: nat): Parsed<(seq<TxOut>, int)> {
    match ParseMask(s, MaskCount(nCode))
    case Failure => Failure
    case Parsed(bits, rest) => ParseTail(curve, rest, [Bit(nCode, 4), Bit(nCode, 8)] + bits)
  }

  function ParseCoins(curve: Curve, s: seq<Byte>): Parsed<Coins> {
    match ParseInt(s)
    case Failure => Failure
    case Parsed(nVersion, rest) =>
      match ParseVarInt(rest, Pow2(32))
      case Failure => Failure
      case Parsed(nCode, rest') =>
        match ParseBody(curve, rest', nCode)
        case Failure => Failure
        case Parsed((vout, nHeight), end) => Parsed(Cleanup(Coins(Bit(nCode, 1), Bit(nCode, 2), vout, nHeight, nVersion)), end)
  }

  lemma CodeBits(c: Coins)
    requires !c.IsPruned()
    ensures var nCode := Code(c);
      && Bit(nCode, 1) == c.fCoinBase && Bit(nCode, 2) == c.fCoinStake
      && Bit(nCode, 4) == Avail(c.vout, 0) && Bit(nCode, 8) == Avail(c.vout, 1)
      && MaskCount(nCode) == MaskCode(c.vout, Groups(c.vout))
      && nCode < 16 * (Groups(c.vout) + 1)
  {
    hide MaskCode, Groups, Avail;
    NotPrunedCode(c);
    var fFirst, fSecond := Avail(c.vout, 0), Avail(c.vout, 1);
    var k := MaskCode(c.vout, Groups(c.vout)) - (if fFirst || fSecond then 0 else 1);
    FourFlags(k, c.fCoinBase, c.fCoinStake, fFirst, fSecond);
  }

  lemma FourFlags(k: nat, a: bool, b: bool, c: bool, d: bool)
    ensures var x := 16 * k + Flag(a, 1) + Flag(b, 2) + Flag(c, 4) + Flag(d, 8);
      && Bit(x, 1) == a && Bit(x, 2) == b && Bit(x, 4) == c && Bit(x, 8) == d && x / 16 == k && x < 16 * (k + 1)
  {
    hide Bit;
    var x := 16 * k + Flag(a, 1) + Flag(b, 2) + Flag(c, 4) + Flag(d, 8);
    LowestFlag(x, 8 * k + Flag(b, 1) + Flag(c, 2) + Flag(d, 4), a);
    SecondFlag(x, 4 * k + Flag(c, 1) + Flag(d, 2), b, Flag(a, 1));
    ThirdFlag(x, 2 * k + Flag(d, 1), c, Flag(a, 1) + Flag(b, 2));
    FourthFlag(x, k, d, Flag(a, 1) + Flag(b, 2) + Flag(c, 4));
  }

  lemma LowestFlag(x: nat, h: nat, f: bool)
    requires x == 2 * h + Flag(f, 1)
    ensures Bit(x, 1) == f
  {
  }

  lemma SecondFlag(x: nat, h: nat, f: bool, low: nat)
    requires x == 4 * h + Flag(f, 2) + low && low < 2
    ensures Bit(x, 2) == f
  {
    assert x / 2 == 2 * h + Flag(f, 1);
  }

  lemma ThirdFlag(x: nat, h: nat, f: bool, low: nat)
    requires x == 8 * h + Flag(f, 4) + low && low < 4
    ensures Bit(x, 4) == f
  {
    assert x / 4 == 2 * h + Flag(f, 1);
  }

  lemma FourthFlag(x: nat, h: nat, f: bool, low: nat)
    requires x == 16 * h + Flag(f, 8) + low && low < 8
    ensures Bit(x, 8) == f && x / 16 == h
  {
    assert x / 8 == 2 * h + Flag(f, 1);
  }

  lemma MaskParsed(vout: seq<TxOut>, rest: seq<Byte>)
    ensures ParseMask(Mask(vout) + rest, MaskCode(vout, Groups(vout))) == Parsed(AllBits(Mask(vout)), rest)
  {
    hide MaskByte, ParseMask, AllBits, NonZero, MaskSize, MaskCode, Groups;
    var n := Groups(vout);
    MaskSizeIsLast(vout, n);
    var size := MaskSize(vout, n);
    MaskCodeCounts(vout, size);
    assert Mask(vout) == seq(size, b requires 0 <= b < size => MaskByte(vout, b));
    MaskRoundTrip(Mask(vout), rest);
  }

  /** What the reader takes to be there is there. */
  lemma MaskMatches(c: Coins)
    requires c.Clean() && !c.IsPruned()
    ensures Matches([Avail(c.vout, 0), Avail(c.vout, 1)] + AllBits(Mask(c.vout)), c.vout)
  {
    hide MaskByte, AllBits, MaskSize;
    var vout := c.vout;
    LastIsMasked(vout);
    AllBitsAvail(vout, Mask(vout), 0);
    var vAvail := [Avail(vout, 0), Avail(vout, 1)] + AllBits(Mask(vout));
    forall i | 0 <= i < |vAvail| ensures vAvail[i] == Avail(vout, i) {
      if i >= 2 {
        assert vAvail[i] == AllBits(Mask(vout))[i - 2];
        assert AllBits(Mask(vout))[i - 2] == Avail(vout, 2 + 0 * 8 + (i - 2));
      }
    }
  }

  /** The last output is there, so its mask byte is the last one. */
  lemma LastIsMasked(vout: seq<TxOut>)
    requires vout != [] && !vout[|vout| - 1].IsNull()
    ensures MaskSize(vout, Groups(vout)) == Groups(vout)
  {
    var n := Groups(vout);
    if n > 0 {
      MaskBitSet(vout, n - 1, |vout| - 1);
    }
  }

  /** Coins written and read back: everything returns, except that an amount that does not fit or a
      negative version or height does not; the reader stops exactly where the writer did. */
  lemma CoinsParsed(curve: Curve, c: Coins, rest: seq<Byte>)
    requires CurveOk(curve) && c.Clean() && !c.IsPruned() && Storable(c.vout)
    requires |c.vout| < Pow2(28) && IsInt32(c.nVersion) && IsInt32(c.nHeight)
    ensures ParseCoins(curve, CoinsBytes(curve, c) + rest)
            == Parsed(Cleanup(c.(vout := KeptOuts(c.vout), nVersion := Kept(c.nVersion), nHeight := Kept(c.nHeight))), rest)
  {
    hide ParseInt, IntBytes, ParseVarInt, VarInt, Code, Mask, MaskCode, AllBits, OutsBytes, ParseOuts, ParseMask, Groups,
      Storable, Matches, CurveOk, Bit, MaskCount, Trim, Pow2, IsInt32, KeptOuts, Avail, Kept, Nulls;
    var outs, height := OutsBytes(curve, c.vout), IntBytes(c.nHeight);
    var s4 := height + rest;
    var s3 := outs + s4;
    var s2 := Mask(c.vout) + s3;
    var s1 := VarInt(Code(c)) + s2;
    assert CoinsBytes(curve, c) + rest == IntBytes(c.nVersion) + s1;
    IntRoundTrip(c.nVersion, s1);
    CodeBits(c);
    CodeFits(c);
    VarIntRoundTrip(Code(c), s2, Pow2(32));
    MaskParsed(c.vout, s3);
    var vAvail := [Avail(c.vout, 0), Avail(c.vout, 1)] + AllBits(Mask(c.vout));
    MaskMatches(c);
    OutsParsed(curve, c.vout, vAvail, s4);
    IntRoundTrip(c.nHeight, rest);
    TrimNulls(KeptOuts(c.vout), |vAvail| - |c.vout|);
  }

  lemma TrimNulls(vout: seq<TxOut>, n: nat)
    ensures Trim(vout + Nulls(n)) == Trim(vout)
  {
    var k := |Trim(vout)|;
    assert forall i :: 0 <= i < |vout| ==> (vout + Nulls(n))[i] == vout[i];
    TrimUnique(vout + Nulls(n), k);
  }

  /** Trimming what comes back of the outputs gives them back exactly when each one survives. */
  lemma OutsKept(vout: seq<TxOut>)
    requires Storable(vout) && Trim(vout) == vout
    ensures Trim(KeptOuts(vout)) == vout <==> forall i :: 0 <= i < |vout| && !vout[i].IsNull() ==> Survives(vout[i])
  {
    hide KeptAmount, Fits;
    forall i | 0 <= i < |vout| && !vout[i].IsNull()
      ensures KeptOuts(vout)[i] == vout[i] <==> Survives(vout[i])
    {
      AmountKept(vout[i].nValue);
    }
    var kept := KeptOuts(vout);
    assert Trim(kept) == vout ==> kept == vout;
    assert kept == vout <==> forall i :: 0 <= i < |vout| && !vout[i].IsNull() ==> kept[i] == vout[i];
  }

  lemma CodeFits(c: Coins)
    requires !c.IsPruned() && |c.vout| < Pow2(28) && Code(c) < 16 * (Groups(c.vout) + 1)
    ensures Code(c) < Pow2(32)
  {
    Pow2Split(32, 4);
    assert Pow2(4) == 16;
    hide Code, Pow2;
    assert Groups(c.vout) + 1 <= |c.vout| + 1;
  }

  /** The round trip is the identity exactly on coins with no negative version or height and no amount
      that does not fit. */
  lemma CoinsRoundTrip(curve: Curve, c: Coins, rest: seq<Byte>)
    requires CurveOk(curve) && c.Clean() && !c.IsPruned() && Storable(c.vout)
    requires |c.vout| < Pow2(28) && IsInt32(c.nVersion) && IsInt32(c.nHeight)
    ensures ParseCoins(curve, CoinsBytes(curve, c) + rest) == Parsed(c, rest)
      <==> c.nVersion >= 0 && c.nHeight >= 0 && forall i :: 0 <= i < |c.vout| && !c.vout[i].IsNull() ==> Survives(c.vout[i])
  {
    hide ParseCoins, CoinsBytes, KeptOuts, Trim, Survives;
    CoinsParsed(curve, c, rest);
    TrimUnique(c.vout, |c.vout|);
    assert c.vout[..|c.vout|] == c.vout;
    OutsKept(c.vout);
  }

  /** A version that is lost: -1 comes back as 127. */
  lemma NegativeVersionIsLost(curve: Curve)
    requires CurveOk(curve)
    ensures var c := Coins(true, false, [TxOut(1, [])], 1, -1);
      && c.Clean() && !c.IsPruned() && ParseCoins(curve, CoinsBytes(curve, c)) == Parsed(c.(nVersion := 127), [])
  {
    hide ParseCoins, CoinsBytes, KeptOuts, Trim, CurveOk, Pow2;
    var c := Coins(true, false, [TxOut(1, [])], 1, -1);
    assert !c.vout[0].IsNull();
    SmallPowers();
    CoinsParsed(curve, c, []);
    assert CoinsBytes(curve, c) + [] == CoinsBytes(curve, c);
    TrimUnique(c.vout, 1);
    OutsKept(c.vout);
  }

  lemma SmallPowers()
    ensures Pow2(28) >= 256 && Pow2(31) >= 256 && Pow2(32) >= 256
  {
    assert Pow2(8) == 256;
    hide Pow2;
    Pow2Split(28, 8);
    Pow2Split(31, 8);
    Pow2Split(32, 8);
  }

  // ----- the examples of the format

  /** One output left, the second, to a key hash: version 1, the bit for the second output, no mask, the
      amount 60000000000 in two bytes, the script in one byte and the hash, height 203998 in three. */
  lemma SecondOutputExample(curve: Curve, keyHash: seq<Byte>)
    requires |keyHash| == 20
    ensures var script := [OP_DUP, OP_HASH160, 20] + keyHash + [OP_EQUALVERIFY, OP_CHECKSIG];
      var c := Coins(false, false, [NULL_OUT, TxOut(60000000000, script)], 203998, 1);
      && !c.IsPruned()
      && CoinsBytes(curve, c) == [0x01] + [0x08] + [0x83, 0x58] + ([0x00] + keyHash) + [0x8b, 0xb8, 0x5e]
  {
    var script := [OP_DUP, OP_HASH160, 20] + keyHash + [OP_EQUALVERIFY, OP_CHECKSIG];
    var out := TxOut(60000000000, script);
    var c := Coins(false, false, [NULL_OUT, out], 203998, 1);
    assert !c.vout[1].IsNull();
    KeyHashBytes(curve, keyHash);
    SecondOutputOnly(curve, c, out);
    ExampleNumbers();
    ExampleOut(curve, out, keyHash);
    hide VarInt, ScriptBytes, Code, Mask, OutsBytes, Compressed, OutBytes, Coins.IsPruned;
    var head, tail := [0x83, 0x58] + ([0x00] + keyHash), [0x8b, 0xb8, 0x5e];
    assert CoinsBytes(curve, c) == [0x01] + ([0x08] + ([] + (head + tail)));
    FourParts([0x01], [0x08], [0x83, 0x58], [0x00] + keyHash, tail);
  }

  lemma ExampleOut(curve: Curve, out: TxOut, keyHash: seq<Byte>)
    requires out.nValue == 60000000000 && ScriptBytes(curve, out.scriptPubKey) == [0x00] + keyHash
    requires Compressed(60000000000) == 600 && VarInt(600) == [0x83, 0x58]
    ensures OutBytes(curve, out) == [0x83, 0x58] + ([0x00] + keyHash)
  {
    hide VarInt, ScriptBytes, Compressed;
    SmallMod(60000000000, TWO_TO_THE_64);
    SmallMod(600, TWO_TO_THE_64);
  }

  lemma FourParts(a: seq<Byte>, b: seq<Byte>, c: seq<Byte>, d: seq<Byte>, e: seq<Byte>)
    ensures a + (b + ([] + ((c + d) + e))) == a + b + c + d + e
  {
  }

  lemma KeyHashBytes(curve: Curve, keyHash: seq<Byte>)
    requires |keyHash| == 20
    ensures ScriptBytes(curve, [OP_DUP, OP_HASH160, 20] + keyHash + [OP_EQUALVERIFY, OP_CHECKSIG]) == [0x00] + keyHash
  {
    var script := [OP_DUP, OP_HASH160, 20] + keyHash + [OP_EQUALVERIFY, OP_CHECKSIG];
    assert script[3..23] == keyHash;
  }

  lemma SecondOutputOnly(curve: Curve, c: Coins, out: TxOut)
    requires c.vout == [NULL_OUT, out] && !out.IsNull() && !c.fCoinBase && !c.fCoinStake && !c.IsPruned()
    ensures Code(c) == 8 && Mask(c.vout) == [] && OutsBytes(curve, c.vout) == OutBytes(curve, out)
  {
    hide OutBytes;
    assert Groups(c.vout) == 0;
    assert c.vout[1..] == [out] && c.vout[1..][1..] == [];
    assert OutsBytes(curve, [out]) == OutBytes(curve, out) + OutsBytes(curve, []);
  }

  lemma ExampleNumbers()
    ensures Compressed(60000000000) == 600 && VarInt(600) == [0x83, 0x58]
    ensures VarInt(1) == [0x01] && VarInt(8) == [0x08] && VarInt(203998) == [0x8b, 0xb8, 0x5e]
  {
    ExampleAmount();
    hide Compressed;
    assert HighBytes(3) == [0x83] && HighBytes(11) == [0x8b];
    assert HighBytes(1592) == HighBytes(11) + [0xb8];
  }

  lemma ExampleAmount()
    ensures Compressed(60000000000) == 600
  {
    StripZeros(60, 9, 0);
    assert Strip(60, 9) == 600;
    assert Pow10(3) == 1000 && Pow10(6) == 1000 * Pow10(3) && Pow10(9) == 1000 * Pow10(6);
    hide Strip, Pow10;
  }

  /** Outputs 4 and 16 left of seventeen: the mask bits 2 and 14, lowest bit first. */
  lemma MaskExample(a: TxOut, b: TxOut)
    requires !a.IsNull() && !b.IsNull()
    ensures var vout := Nulls(4) + [a] + Nulls(11) + [b]; Mask(vout) == [0x04, 0x40] && MaskCode(vout, Groups(vout)) == 2
  {
    var vout := Nulls(4) + [a] + Nulls(11) + [b];
    assert forall i :: 0 <= i < 18 ==> Avail(vout, i) == (i == 4 || i == 16);
    ExampleBits(vout);
    assert Groups(vout) == 2;
    ExampleSize(vout);
    hide MaskByte, Avail, MaskSize, MaskCode;
    assert Mask(vout) == [0x04, 0x40];
  }

  lemma ExampleBits(vout: seq<TxOut>)
    requires forall i :: 0 <= i < 18 ==> Avail(vout, i) == (i == 4 || i == 16)
    ensures MaskByte(vout, 0) == 4 && MaskByte(vout, 1) == 64
  {
    hide Avail;
    assert MaskBits(vout, 0) == [false, false, true, false, false, false, false, false];
    assert MaskBits(vout, 1) == [false, false, false, false, false, false, true, false];
    BytesOfBits();
    hide ByteOf, BitsOf, MaskBits;
  }

  lemma ExampleSize(vout: seq<TxOut>)
    requires MaskByte(vout, 0) == 4 && MaskByte(vout, 1) == 64
    ensures MaskSize(vout, 2) == 2 && MaskCode(vout, 2) == 2
  {
    hide MaskByte;
    assert MaskCode(vout, 0) == 0 && MaskCode(vout, 1) == 1;
  }

  lemma BytesOfBits()
    ensures ByteOf([false, false, true, false, false, false, false, false]) == 4
    ensures ByteOf([false, false, false, false, false, false, true, false]) == 64
  {
    var none := [false];
    assert ByteOf([]) == 0 && ByteOf([false]) == 0 && ByteOf([false, false]) == 0;
    assert ByteOf([true, false]) == 1 && ByteOf([false, true, false]) == 2 && ByteOf([false, false, true, false]) == 4;
    assert ByteOf([false, false, false]) == 0 && ByteOf([false, false, false, false]) == 0 && ByteOf([false, false, false, false, false]) == 0;
  }
}
