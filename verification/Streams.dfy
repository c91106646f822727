/** Byte streams and variable-length integers (src/serialize.h). */
module Streams {
  import opened Basics

  type Byte = b: nat | b < 256

  /** What reading from the front of some bytes yields, and what is left; reading past the end fails. */
  datatype Parsed<T> = Failure | Parsed(value: T, rest: seq<Byte>)

  /** A CDataStream. */
  class Stream {
    var data: seq<Byte>

    constructor ()
      ensures data == []
    {
      data := [];
    }

    method Write(bytes: seq<Byte>)
      modifies this
      ensures data == old(data) + bytes
    {
      data := data + bytes;
    }

    method Read(n: nat) returns (ok: bool, bytes: seq<Byte>)
      modifies this
      ensures ok <==> n <= |old(data)|
      ensures if ok then bytes == old(data)[..n] && data == old(data)[n..] else data == old(data)
    {
      ok := n <= |data|;
      bytes := [];
      if ok {
        bytes, data := data[..n], data[n..];
      }
    }
  }

  // ----- variable-length integers

  /** All bytes but the last one: each has its high bit set, and stands for one more than it shows. */
  function HighBytes(n: nat): (s: seq<Byte>)
    ensures |s| >= 1
  {
    if n <= 0x7F then [n + 0x80] else HighBytes(n / 128 - 1) + [n % 128 + 0x80]
  }

  function VarInt(n: nat): (s: seq<Byte>)
    ensures |s| >= 1
  {
    if n <= 0x7F then [n] else HighBytes(n / 128 - 1) + [n % 128]
  }

  /** Reading on with `n` read so far, in integers below `limit`. */
  function ParseMore(n: nat, s: seq<Byte>, limit: nat): Parsed<nat>
    requires limit > 0
    decreases |s|
  {
    if s == [] then Failure else
      var m := (n * 128 + s[0] % 128) % limit;
      if s[0] >= 0x80 then ParseMore((m + 1) % limit, s[1..], limit) else Parsed(m, s[1..])
  }

  function ParseVarInt(s: seq<Byte>, limit: nat): Parsed<nat>
    requires limit > 0
  {
    ParseMore(0, s, limit)
  }

  lemma ParseByte(acc: nat, b: Byte, t: seq<Byte>, limit: nat)
    requires acc * 128 + b % 128 + 1 < limit || (b < 0x80 && acc * 128 + b < limit)
    ensures ParseMore(acc, [b] + t, limit) == if b >= 0x80 then ParseMore(acc * 128 + b - 0x80 + 1, t, limit) else Parsed(acc * 128 + b, t)
  {
    assert ([b] + t)[1..] == t;
    SmallMod(acc * 128 + b % 128, limit);
    if b >= 0x80 {
      SmallMod(acc * 128 + b % 128 + 1, limit);
    }
  }

  lemma SmallMod(n: nat, limit: nat)
    requires n < limit
    ensures n % limit == n
  {
  }

  lemma {:induction false} ParseHighBytes(n: nat, t: seq<Byte>, limit: nat)
    requires n + 1 < limit
    ensures ParseMore(0, HighBytes(n) + t, limit) == ParseMore(n + 1, t, limit)
  {
    hide ParseMore;
    if n <= 0x7F {
      ParseByte(0, n + 0x80, t, limit);
    } else {
      var front, last := HighBytes(n / 128 - 1), [n % 128 + 0x80];
      assert HighBytes(n) + t == front + (last + t);
      ParseHighBytes(n / 128 - 1, last + t, limit);
      ParseByte(n / 128, n % 128 + 0x80, t, limit);
    }
  }

  /** Every integer that fits is read back, and the reading stops where the writing did. */
  lemma VarIntRoundTrip(n: nat, rest: seq<Byte>, limit: nat)
    requires n < limit
    ensures ParseVarInt(VarInt(n) + rest, limit) == Parsed(n, rest)
  {
    hide ParseMore;
    if n <= 0x7F {
      ParseByte(0, n, rest, limit);
    } else {
      var front, last := HighBytes(n / 128 - 1), [n % 128];
      assert VarInt(n) + rest == front + (last + rest);
      ParseHighBytes(n / 128 - 1, last + rest, limit);
      ParseByte(n / 128, n % 128, rest, limit);
    }
  }

  /** No bytes have two readings: texts that begin with a variable-length integer begin with only one. */
  lemma VarIntPrefixFree(m: nat, n: nat, s: seq<Byte>, t: seq<Byte>)
    requires VarInt(m) + s == VarInt(n) + t
    ensures m == n && s == t
  {
    VarIntRoundTrip(m, s, m + n + 1);
    VarIntRoundTrip(n, t, m + n + 1);
  }

  /** Nothing is redundant: whatever bytes are read as an integer are the ones that it is written as, the
      integers read into being wide enough for so many bytes. */
  lemma VarIntOnto(s: seq<Byte>, limit: nat)
    requires 2 * Pow2(7 * |s|) <= limit && ParseVarInt(s, limit).Parsed?
    ensures var r := ParseVarInt(s, limit); s == VarInt(r.value) + r.rest
  {
    MoreOnto([], 0, s, limit, |s|);
    assert [] + s == s;
  }

  lemma {:induction false} MoreOnto(p: seq<Byte>, acc: nat, s: seq<Byte>, limit: nat, size: nat)
    requires if acc == 0 then p == [] else p == HighBytes(acc - 1)
    requires |p| + |s| == size && 2 * Pow2(7 * size) <= limit && acc + 2 <= 2 * Pow2(7 * |p|)
    requires ParseMore(acc, s, limit).Parsed?
    ensures var r := ParseMore(acc, s, limit); p + s == VarInt(r.value) + r.rest
    decreases |s|
  {
    assert s != [];
    hide HighBytes, VarInt, Pow2, ParseMore;
    var b, t := s[0], s[1..];
    assert s == [b] + t;
    SevenMore(|p|, size);
    ParseByte(acc, b, t, limit);
    assert p + s == (p + [b]) + t;
    if b >= 0x80 {
      NextHighByte(acc, b);
      MoreOnto(p + [b], acc * 128 + b - 0x80 + 1, t, limit, size);
    } else {
      LastByte(acc, b);
    }
  }

  lemma SevenMore(k: nat, size: nat)
    requires k < size
    ensures Pow2(7 * (k + 1)) == 128 * Pow2(7 * k) <= Pow2(7 * size)
  {
    var more, all := 7 * (k + 1), 7 * size;
    Pow2Split(more, 7);
    assert Pow2(7) == 128;
    Pow2Split(all, more);
    hide Pow2;
    NoSmaller(Pow2(more), Pow2(all - more));
  }

  lemma NoSmaller(p: nat, q: nat)
    requires q >= 1
    ensures p <= p * q
  {
  }

  lemma NextHighByte(acc: nat, b: Byte)
    requires b >= 0x80
    ensures HighBytes(acc * 128 + b - 0x80) == (if acc == 0 then [] else HighBytes(acc - 1)) + [b]
  {
    var n := acc * 128 + (b - 0x80);
    assert n / 128 == acc && n % 128 == b - 0x80;
  }

  lemma LastByte(acc: nat, b: Byte)
    requires b < 0x80
    ensures VarInt(acc * 128 + b) == (if acc == 0 then [] else HighBytes(acc - 1)) + [b]
  {
    var n := acc * 128 + b;
    assert n / 128 == acc && n % 128 == b;
  }

  /** Examples, from one byte to five. */
  lemma VarIntExamples()
    ensures VarInt(0) == [0x00] && VarInt(127) == [0x7F]
    ensures VarInt(128) == [0x80, 0x00] && VarInt(255) == [0x80, 0x7F] && VarInt(256) == [0x81, 0x00]
    ensures VarInt(16383) == [0xFE, 0x7F] && VarInt(16384) == [0xFF, 0x00]
    ensures VarInt(16511) == [0xFF, 0x7F] && VarInt(65535) == [0x82, 0xFE, 0x7F]
    ensures VarInt(0x1_0000_0000) == [0x8E, 0xFE, 0xFE, 0xFF, 0x00]
  {
    assert HighBytes(0) == [0x80] && HighBytes(1) == [0x81] && HighBytes(126) == [0xFE] && HighBytes(127) == [0xFF];
    TwoHighBytes();
    FourHighBytes();
    hide HighBytes;
    assert [0x82, 0xFE] + [0x7F] == [0x82, 0xFE, 0x7F];
    assert [0x8E, 0xFE, 0xFE, 0xFF] + [0x00] == [0x8E, 0xFE, 0xFE, 0xFF, 0x00];
  }

  /** How long an integer is, up to three bytes. */
  lemma VarIntLength(n: nat)
    ensures |VarInt(n)| == 1 <==> n < 128
    ensures |VarInt(n)| == 2 <==> 128 <= n < 16512
    ensures |VarInt(n)| == 3 <==> 16512 <= n < 2113664
  {
    if n >= 128 {
      HighLength(n / 128 - 1);
    }
  }

  lemma HighLength(n: nat)
    ensures |HighBytes(n)| == 1 <==> n < 128
    ensures |HighBytes(n)| == 2 <==> 128 <= n < 16512
  {
    if n >= 128 {
      var m := n / 128 - 1;
      assert |HighBytes(m)| == 1 <==> m < 128;
    }
  }

  lemma TwoHighBytes()
    ensures HighBytes(510) == [0x82, 0xFE] && HighBytes(2046) == [0x8E, 0xFE]
  {
    assert HighBytes(2) == [0x82] && HighBytes(14) == [0x8E];
  }

  lemma FourHighBytes()
    ensures HighBytes(33554431) == [0x8E, 0xFE, 0xFE, 0xFF]
  {
    TwoHighBytes();
    NextHighByte(2047, 0xFE);
    NextHighByte(262143, 0xFF);
    hide HighBytes;
  }

  /** The bytes of `tmp` from `len` down. */
  function Reversed(tmp: seq<Byte>): (r: seq<Byte>)
    ensures |r| == |tmp|
  {
    seq(|tmp|, i requires 0 <= i < |tmp| => tmp[|tmp| - 1 - i])
  }

  lemma {:induction false} Pow2Split(k: nat, j: nat)
    requires j <= k
    ensures Pow2(k) == Pow2(j) * Pow2(k - j)
  {
    if j > 0 {
      Pow2Split(k - 1, j - 1);
    }
  }

  /** An integer that still has `k` bits loses seven with each byte. */
  lemma DropSevenBits(n: nat, k: nat)
    requires 0x7F < n < Pow2(k)
    ensures k > 7 && 0 <= n / 128 - 1 < Pow2(k - 7)
  {
    if k <= 7 {
      Pow2Split(7, k);
      assert Pow2(7) == 128;
      assert Pow2(k) <= Pow2(k) * Pow2(7 - k);
    } else {
      Pow2Split(k, 7);
      assert Pow2(7) == 128;
    }
  }

  /** What is in the buffer so far, and the integer still to be written before it. */
  ghost predicate Buffered(value: nat, n: nat, tmp: seq<Byte>) {
    VarInt(value) == (if tmp == [] then VarInt(n) else HighBytes(n)) + Reversed(tmp)
  }

  lemma BufferNext(value: nat, n: nat, tmp: seq<Byte>)
    requires Buffered(value, n, tmp)
    ensures var b: Byte := n % 128 + (if tmp != [] then 0x80 else 0);
      && (n > 0x7F ==> Buffered(value, n / 128 - 1, tmp + [b]))
      && (n <= 0x7F ==> VarInt(value) == Reversed(tmp + [b]))
  {
    var b: Byte := n % 128 + (if tmp != [] then 0x80 else 0);
    assert Reversed(tmp + [b]) == [b] + Reversed(tmp);
    if n > 0x7F {
      assert (HighBytes(n / 128 - 1) + [b]) + Reversed(tmp) == HighBytes(n / 128 - 1) + ([b] + Reversed(tmp));
    }
  }

  /** Writes the low-order bytes into a buffer first; the buffer the source gives an integer of
      `bits` bits is always long enough. */
  method WriteVarInt(os: Stream, value: nat, bits: nat)
    requires bits > 0 && value < Pow2(bits)
    modifies os
    ensures os.data == old(os.data) + VarInt(value)
  {
    hide VarInt, HighBytes, Buffered, Pow2;
    var tmp := new Byte[(bits + 6) / 7](_ => 0);
    var len: nat, n: nat := 0, value;
    BufferEmpty(value);
    assert tmp[..0] == [];
    while n > 0x7F
      invariant 7 * len < bits && n < Pow2(bits - 7 * len)
      invariant Buffered(value, n, tmp[..len]) && os.data == old(os.data)
      decreases n
    {
      DropSevenBits(n, bits - 7 * len);
      BufferNext(value, n, tmp[..len]);
      ghost var before := tmp[..len];
      tmp[len] := n % 128 + (if len > 0 then 0x80 else 0);
      assert tmp[..len + 1] == before + [tmp[len]];
      n := n / 128 - 1;
      len := len + 1;
    }
    BufferNext(value, n, tmp[..len]);
    ghost var before := tmp[..len];
    tmp[len] := n % 128 + (if len > 0 then 0x80 else 0);
    assert tmp[..len + 1] == before + [tmp[len]] && (before == [] <==> len == 0);
    assert VarInt(value) == Reversed(tmp[..len + 1]);
    WriteBack(os, tmp, len + 1);
  }

  lemma BufferEmpty(value: nat)
    ensures Buffered(value, value, [])
  {
  }

  /** Writes the buffer out, last byte first. */
  method WriteBack(os: Stream, tmp: array<Byte>, len: nat)
    requires len <= tmp.Length
    modifies os
    ensures os.data == old(os.data) + Reversed(tmp[..len])
  {
    var i := len;
    while i > 0
      invariant 0 <= i <= len && os.data + Reversed(tmp[..i]) == old(os.data) + Reversed(tmp[..len])
    {
      i := i - 1;
      assert Reversed(tmp[..i + 1]) == [tmp[i]] + Reversed(tmp[..i]);
      os.Write([tmp[i]]);
    }
  }

  method ReadVarInt(ins: Stream, bits: nat) returns (ok: bool, n: nat)
    modifies ins
    ensures match ParseVarInt(old(ins.data), Pow2(bits))
            case Failure => !ok
            case Parsed(value, rest) => ok && n == value && ins.data == rest
  {
    n := 0;
    ghost var s := ins.data;
    while true
      invariant ParseVarInt(s, Pow2(bits)) == ParseMore(n, ins.data, Pow2(bits))
      decreases |ins.data|
    {
      var bytes;
      ok, bytes := ins.Read(1);
      if !ok {
        return false, n;
      }
      n := (n * 128 + bytes[0] % 128) % Pow2(bits);
      if bytes[0] >= 0x80 {
        n := (n + 1) % Pow2(bits);
      } else {
        return true, n;
      }
    }
  }
}
