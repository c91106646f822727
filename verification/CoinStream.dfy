/** The loops that write coins to a stream and read them back (src/coins.h, src/coins.cpp,
    src/compressor.h), each proved against the codec on values. */
module CoinStream {
  import opened Basics
  import opened Wrappers
  import opened Streams
  import opened Amounts
  import opened Compressor
  import opened Coins
  import opened CoinCodec
  import Radix

  method WriteInt(os: Stream, n: int)
    requires IsInt32(n)
    modifies os
    ensures os.data == old(os.data) + IntBytes(n)
  {
    if n < 0 {
      os.Write([n % 128]);
    } else {
      assert Pow2(32) == 2 * Pow2(31);
      WriteVarInt(os, n, 32);
    }
  }

  method ReadInt(ins: Stream) returns (ok: bool, n: int)
    modifies ins
    ensures match ParseInt(old(ins.data))
            case Failure => !ok
            case Parsed(value, rest) => ok && n == value && ins.data == rest
  {
    hide Pow2, ParseVarInt;
    var x;
    ok, x := ReadVarInt(ins, 32);
    n := if x < Pow2(31) then x else x - Pow2(32);
  }

  method WriteScript(os: Stream, curve: Curve, script: seq<Byte>)
    requires |script| + 6 < Pow2(32)
    modifies os
    ensures os.data == old(os.data) + ScriptBytes(curve, script)
  {
    hide ShortScript;
    match ShortScript(curve, script)
    case Some(compr) =>
      os.Write(compr);
    case None =>
      WriteVarInt(os, |script| + 6, 32);
      os.Write(script);
  }

  method ReadScript(ins: Stream, curve: Curve, was: seq<Byte>) returns (ok: bool, script: seq<Byte>)
    modifies ins
    ensures match ParseScript(curve, old(ins.data), was)
            case Failure => !ok
            case Parsed(value, rest) => ok && script == value && ins.data == rest
  {
    hide Pow2, ParseVarInt, LongScript, GetSpecialSize;
    script := was;
    var nSize;
    ok, nSize := ReadVarInt(ins, 32);
    if !ok {
      return;
    }
    if nSize < 6 {
      var vch;
      ok, vch := ins.Read(GetSpecialSize(nSize));
      if ok {
        match LongScript(curve, nSize, vch)
        case None =>
        case Some(full) => script := full;
      }
    } else {
      ok, script := ins.Read(nSize - 6);
    }
  }

  method WriteOut(os: Stream, curve: Curve, out: TxOut)
    requires |out.scriptPubKey| + 6 < Pow2(32)
    modifies os
    ensures os.data == old(os.data) + OutBytes(curve, out)
  {
    hide ScriptBytes, VarInt, Pow2;
    var nVal := CompressAmount(out.nValue % TWO_TO_THE_64);
    SixtyFourBits();
    WriteVarInt(os, nVal, 64);
    WriteScript(os, curve, out.scriptPubKey);
  }

  lemma SixtyFourBits()
    ensures Pow2(64) == TWO_TO_THE_64
  {
    SixteenBits();
    hide Pow2;
    Pow2Split(64, 32);
    Pow2Split(32, 16);
  }

  lemma SixteenBits()
    ensures Pow2(16) == 65536
  {
    assert Pow2(8) == 256;
    Pow2Split(16, 8);
  }

  method ReadOut(ins: Stream, curve: Curve) returns (ok: bool, out: TxOut)
    modifies ins
    ensures match ParseOut(curve, old(ins.data))
            case Failure => !ok
            case Parsed(value, rest) => ok && out == value && ins.data == rest
  {
    hide ParseScript, ParseVarInt, Pow2;
    out := NULL_OUT;
    SixtyFourBits();
    var nVal;
    ok, nVal := ReadVarInt(ins, 64);
    if !ok {
      return;
    }
    ParsedBelow(old(ins.data), TWO_TO_THE_64);
    var nValue := DecompressAmount(nVal);
    var script;
    ok, script := ReadScript(ins, curve, []);
    out := TxOut(ToAmount(nValue), script);
  }

  lemma ParsedBelow(s: seq<Byte>, limit: nat)
    requires limit > 0
    ensures ParseVarInt(s, limit).Parsed? ==> ParseVarInt(s, limit).value < limit
  {
    MoreBelow(0, s, limit);
  }

  lemma {:induction false} MoreBelow(n: nat, s: seq<Byte>, limit: nat)
    requires limit > 0
    ensures ParseMore(n, s, limit).Parsed? ==> ParseMore(n, s, limit).value < limit
    decreases |s|
  {
    if s != [] && s[0] >= 0x80 {
      MoreBelow(((n * 128 + s[0] % 128) % limit + 1) % limit, s[1..], limit);
    }
  }

  // ----- the mask

  lemma {:induction false} ByteOfAppend(bits: seq<bool>, f: bool)
    ensures ByteOf(bits + [f]) == ByteOf(bits) + (if f then Pow2(|bits|) else 0)
  {
    if bits == [] {
      assert [] + [f] == [f];
    } else {
      ByteOfAppend(bits[1..], f);
      assert (bits + [f])[1..] == bits[1..] + [f];
    }
  }

  lemma MaskBitAt(vout: seq<TxOut>, b: nat, i: nat)
    requires i < 8
    ensures MaskBits(vout, b)[i] == Avail(vout, 2 + b * 8 + i)
  {
  }

  lemma NothingInByte()
    ensures ByteOf([]) == 0
  {
  }

  /** `chAvail |= 1 << i` for each output of the group that is there. */
  method MakeMaskByte(vout: seq<TxOut>, b: nat) returns (chAvail: Byte)
    ensures chAvail == MaskByte(vout, b)
  {
    assert Pow2(8) == 256;
    hide MaskBits, BitsOf, ByteOf, Pow2;
    var x := 0;
    ghost var bits := MaskBits(vout, b);
    BitsOfByte(bits);
    NothingInByte();
    for i := 0 to 8
      invariant x == ByteOf(bits[..i])
    {
      assert bits[..i + 1] == bits[..i] + [bits[i]];
      ByteOfAppend(bits[..i], bits[i]);
      MaskBitAt(vout, b, i);
      if 2 + b * 8 + i < |vout| && !vout[2 + b * 8 + i].IsNull() {
        x := x + Pow2(i);
      }
    }
    assert bits[..8] == bits;
    chAvail := x;
  }

  method CalcMaskSize(vout: seq<TxOut>) returns (nBytes: nat, nNonzeroBytes: nat)
    ensures nBytes == MaskSize(vout, Groups(vout)) && nNonzeroBytes == MaskCode(vout, Groups(vout))
  {
    var b := 0;
    nBytes, nNonzeroBytes := 0, 0;
    while 2 + b * 8 < |vout|
      invariant 0 <= b <= Groups(vout)
      invariant nBytes == MaskSize(vout, b) && nNonzeroBytes == MaskCode(vout, b)
      decreases |vout| - b
    {
      var fZero := AllZero(vout, b);
      if !fZero {
        nBytes := b + 1;
        nNonzeroBytes := nNonzeroBytes + 1;
      }
      b := b + 1;
    }
  }

  method AllZero(vout: seq<TxOut>, b: nat) returns (fZero: bool)
    ensures fZero <==> MaskByte(vout, b) == 0
  {
    fZero := true;
    BitsOfByte(MaskBits(vout, b));
    for i := 0 to 8
      invariant fZero <==> forall k :: 0 <= k < i ==> !MaskBits(vout, b)[k]
    {
      assert MaskBits(vout, b)[i] == Avail(vout, 2 + b * 8 + i);
      if 2 + b * 8 + i < |vout| && !vout[2 + b * 8 + i].IsNull() {
        fZero := false;
      }
    }
  }

  lemma {:induction false} BitAt(b: nat, n: nat, p: nat)
    requires p < n
    ensures BitsOf(b, n)[p] == (b / Pow2(p) % 2 == 1)
  {
    if p > 0 {
      BitAt(b / 2, n - 1, p - 1);
      Radix.DivDiv(b, 2, Pow2(p - 1));
    }
  }

  function Prefixed<T>(front: seq<T>, p: Parsed<seq<T>>): Parsed<seq<T>> {
    match p
    case Failure => Failure
    case Parsed(value, rest) => Parsed(front + value, rest)
  }

  lemma PrefixedNothing<T>(p: Parsed<seq<T>>)
    ensures Prefixed([], p) == p
  {
    match p
    case Failure =>
    case Parsed(value, rest) => assert [] + value == value;
  }

  lemma PrefixedTwice<T>(a: seq<T>, b: seq<T>, p: Parsed<seq<T>>)
    ensures Prefixed(a, Prefixed(b, p)) == Prefixed(a + b, p)
  {
    match p
    case Failure =>
    case Parsed(value, rest) => assert a + (b + value) == (a + b) + value;
  }

  method ReadMask(ins: Stream, nMaskCode: nat) returns (ok: bool, bits: seq<bool>)
    modifies ins
    ensures match ParseMask(old(ins.data), nMaskCode)
            case Failure => !ok
            case Parsed(value, rest) => ok && bits == value && ins.data == rest
  {
    hide BitsOf;
    var n := nMaskCode;
    bits := [];
    PrefixedNothing(ParseMask(ins.data, n));
    while n > 0
      invariant ParseMask(old(ins.data), nMaskCode) == Prefixed(bits, ParseMask(ins.data, n))
      decreases |ins.data|
    {
      var bytes;
      ghost var s := ins.data;
      ok, bytes := ins.Read(1);
      if !ok {
        return;
      }
      var chAvail := bytes[0];
      assert s[1..] == ins.data && s[0] == chAvail;
      var more := ReadBits(chAvail);
      PrefixedTwice(bits, more, ParseMask(ins.data, if chAvail != 0 then n - 1 else n));
      bits := bits + more;
      if chAvail != 0 {
        n := n - 1;
      }
    }
    ok := true;
  }

  method ReadBits(chAvail: Byte) returns (bits: seq<bool>)
    ensures bits == BitsOf(chAvail, 8)
  {
    bits := [];
    for p := 0 to 8
      invariant bits == BitsOf(chAvail, 8)[..p]
    {
      BitAt(chAvail, 8, p);
      bits := bits + [chAvail / Pow2(p) % 2 == 1];
    }
  }

  // ----- coins

  method WriteOuts(os: Stream, curve: Curve, vout: seq<TxOut>)
    requires forall i :: 0 <= i < |vout| ==> |vout[i].scriptPubKey| + 6 < Pow2(32)
    modifies os
    ensures os.data == old(os.data) + OutsBytes(curve, vout)
  {
    hide OutBytes, Pow2;
    assert vout[0..] == vout;
    for i := 0 to |vout|
      invariant old(os.data) + OutsBytes(curve, vout) == os.data + OutsBytes(curve, vout[i..])
    {
      assert vout[i..][0] == vout[i] && vout[i..][1..] == vout[i + 1..];
      if !vout[i].IsNull() {
        WriteOut(os, curve, vout[i]);
      }
    }
  }

  method ReadOuts(ins: Stream, curve: Curve, vAvail: seq<bool>) returns (ok: bool, vout: seq<TxOut>)
    modifies ins
    ensures match ParseOuts(curve, old(ins.data), vAvail)
            case Failure => !ok
            case Parsed(value, rest) => ok && vout == value && ins.data == rest
  {
    hide ParseOut;
    vout := [];
    assert vAvail[0..] == vAvail;
    PrefixedNothing(ParseOuts(curve, ins.data, vAvail));
    for i := 0 to |vAvail|
      invariant ParseOuts(curve, old(ins.data), vAvail) == Prefixed(vout, ParseOuts(curve, ins.data, vAvail[i..]))
    {
      assert vAvail[i..][0] == vAvail[i] && vAvail[i..][1..] == vAvail[i + 1..];
      var out := NULL_OUT;
      if vAvail[i] {
        ok, out := ReadOut(ins, curve);
        if !ok {
          return;
        }
      }
      PrefixedTwice(vout, [out], ParseOuts(curve, ins.data, vAvail[i + 1..]));
      vout := vout + [out];
    }
    ok := true;
  }

  method WriteMask(os: Stream, vout: seq<TxOut>, nMaskSize: nat)
    requires nMaskSize == MaskSize(vout, Groups(vout))
    modifies os
    ensures os.data == old(os.data) + Mask(vout)
  {
    hide MaskByte, MaskSize, Groups;
    for b := 0 to nMaskSize
      invariant os.data == old(os.data) + Mask(vout)[..b]
    {
      var chAvail := MakeMaskByte(vout, b);
      os.Write([chAvail]);
    }
  }

  /** `CCoins::Serialize`; its assertion never fails on coins that are not pruned. */
  method Serialize(coins: CCoins, os: Stream, curve: Curve)
    requires !coins.Value().IsPruned() && |coins.vout| < Pow2(28)
    requires IsInt32(coins.nVersion) && IsInt32(coins.nHeight)
    requires forall i :: 0 <= i < |coins.vout| ==> |coins.vout[i].scriptPubKey| + 6 < Pow2(32)
    modifies os
    ensures os.data == old(os.data) + CoinsBytes(curve, coins.Value())
  {
    hide IntBytes, VarInt, Mask, MaskCode, MaskSize, OutsBytes, Groups, IsInt32, Pow2;
    var c := Coins(coins.fCoinBase, coins.fCoinStake, coins.vout, coins.nHeight, coins.nVersion);
    var nMaskSize, nMaskCode := CalcMaskSize(c.vout);
    var fFirst := |c.vout| > 0 && !c.vout[0].IsNull();
    var fSecond := |c.vout| > 1 && !c.vout[1].IsNull();
    NotPrunedCode(c);
    assert fFirst || fSecond || nMaskCode > 0;
    var nCode := 16 * (nMaskCode - (if fFirst || fSecond then 0 else 1)) + (if c.fCoinBase then 1 else 0)
                 + (if c.fCoinStake then 2 else 0) + (if fFirst then 4 else 0) + (if fSecond then 8 else 0);
    CodeBits(c);
    CodeFits(c);
    assert nCode == Code(c);
    hide Code;
    WriteInt(os, c.nVersion);
    WriteVarInt(os, nCode, 32);
    WriteMask(os, c.vout, nMaskSize);
    WriteOuts(os, curve, c.vout);
    WriteInt(os, c.nHeight);
  }

  /** `CCoins::Unserialize`. */
  method Unserialize(coins: CCoins, ins: Stream, curve: Curve) returns (ok: bool)
    modifies coins, ins
    ensures match ParseCoins(curve, old(ins.data))
            case Failure => !ok
            case Parsed(value, rest) => ok && coins.Value() == value && ins.data == rest
  {
    hide ParseInt, ParseVarInt, ParseMask, ParseOuts, Pow2, Trim;
    var nVersion;
    ok, nVersion := ReadInt(ins);
    if !ok {
      return;
    }
    coins.nVersion := nVersion;
    var nCode;
    ok, nCode := ReadVarInt(ins, 32);
    if !ok {
      return;
    }
    coins.fCoinBase := nCode % 2 == 1;
    coins.fCoinStake := nCode / 2 % 2 == 1;
    var bits;
    ok, bits := ReadMask(ins, nCode / 16 + (if nCode / 4 % 2 == 1 || nCode / 8 % 2 == 1 then 0 else 1));
    if !ok {
      return;
    }
    var vout;
    ok, vout := ReadOuts(ins, curve, [nCode / 4 % 2 == 1, nCode / 8 % 2 == 1] + bits);
    if !ok {
      return;
    }
    coins.vout := vout;
    var nHeight;
    ok, nHeight := ReadInt(ins);
    if !ok {
      return;
    }
    coins.nHeight := nHeight;
    coins.CleanupInPlace();
  }
}
