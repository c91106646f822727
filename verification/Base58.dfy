/** Base58 text encoding (src/base58.cpp).  A C string is a Dafny string that ends at its first NUL
    or, failing one, at its end. */
module Base58 {
  import opened Radix
  import opened Wrappers

  /** Digits and letters without the lookalikes 0, O, I and l. */
  const ALPHABET := "123456789" + "ABCDEFGH" + "JKLMN" + "PQRSTUVWXYZ" + "abcdefghijk" + "mnopqrstuvwxyz"

  /** `*(psz + i)`. */
  function At(psz: string, i: nat): char {
    if i < |psz| then psz[i] else '\0'
  }

  predicate IsSpace(c: char) {
    c == ' ' || c == '\t' || c == '\n' || c == '\r' || c as int == 11 || c as int == 12
  }

  /** `strchr` on the alphabet: the index of the character, or the alphabet's length. */
  function IndexIn(alphabet: string, c: char): (i: nat)
    ensures i <= |alphabet| && (i < |alphabet| ==> alphabet[i] == c)
    ensures forall k :: 0 <= k < i ==> alphabet[k] != c
  {
    if alphabet == [] || alphabet[0] == c then 0 else IndexIn(alphabet[1..], c) + 1
  }

  predicate IsLetter(c: char) {
    c in ALPHABET
  }

  predicate AllLetters(s: string) {
    forall i :: 0 <= i < |s| ==> IsLetter(s[i])
  }

  function DigitOf(c: char): (d: nat)
    requires IsLetter(c)
    ensures d < 58 && ALPHABET[d] == c
  {
    var d := IndexIn(ALPHABET, c);
    assert d < |ALPHABET| by {
      var k :| 0 <= k < |ALPHABET| && ALPHABET[k] == c;
    }
    d
  }

  function Letters(digits: seq<nat>): (s: string)
    requires Digital(58, digits)
    ensures |s| == |digits| && AllLetters(s)
  {
    seq(|digits|, i requires 0 <= i < |digits| => ALPHABET[digits[i]])
  }

  function DigitsOf(s: string): (digits: seq<nat>)
    requires AllLetters(s)
    ensures |digits| == |s| && Digital(58, digits)
  {
    seq(|s|, i requires 0 <= i < |s| => DigitOf(s[i]))
  }

  // ----- what the two directions compute

  /** The text of a byte string: its value in base 58, and a `1` for each leading zero byte. */
  function Encoded(vch: seq<nat>): string
    requires Digital(256, vch)
  {
    Letters(Convert(256, 58, vch))
  }

  /** Examples: one byte, three bytes, and a zero byte in front. */
  lemma EncodedExamples()
    ensures Encoded([0x61]) == "2g" && Encoded([0x62, 0x62, 0x62]) == "a3gV" && Encoded([0x00, 0x61]) == "12g"
  {
    ExampleDigits();
    hide Convert;
    AlphabetCodes(0);
    AlphabetCodes(1);
    AlphabetCodes(2);
    AlphabetCodes(28);
    AlphabetCodes(33);
    AlphabetCodes(39);
  }

  lemma ExampleDigits()
    ensures Convert(256, 58, [0x61]) == [1, 39] && Convert(256, 58, [0x00, 0x61]) == [0, 1, 39]
    ensures Convert(256, 58, [0x62, 0x62, 0x62]) == [33, 2, 39, 28]
  {
    ThreeDigits(256, 0, 0, 0x61);
    ThreeDigits(256, 0x62, 0x62, 0x62);
    ExampleNumbers();
    var a, b, c := [0x61], [0x00, 0x61], [0x62, 0x62, 0x62];
    assert Leading(a) == 0 && b[1..] == a && Leading(b) == 1 && Leading(c) == 0;
    hide Value, Digits, Leading;
    assert Zeros(0) == [] && Zeros(1) == [0];
  }

  lemma ExampleNumbers()
    ensures Digits(58, 0x61) == [1, 39] && Digits(58, 0x626262) == [33, 2, 39, 28]
  {
    ThreeDigits(58, 0, 1, 39);
    ThreeDigits(58, 33, 2, 39);
    ValueAppend(58, [33, 2, 39], 28);
    assert [33, 2, 39] + [28] == [33, 2, 39, 28];
    hide Value, Digits;
    DigitsUnique(58, [1, 39]);
    DigitsUnique(58, [33, 2, 39, 28]);
  }

  lemma ThreeDigits(base: nat, x: nat, y: nat, z: nat)
    ensures Value(base, [x, y, z]) == base * (base * x + y) + z
    ensures x == 0 ==> Value(base, [y, z]) == base * y + z && (y == 0 ==> Value(base, [z]) == z)
  {
    assert Value(base, []) == 0;
    hide Value;
    ValueAppend(base, [], x);
    ValueAppend(base, [x], y);
    ValueAppend(base, [x, y], z);
    ValueAppend(base, [], y);
    ValueAppend(base, [y], z);
    ValueAppend(base, [], z);
    assert [] + [x] == [x] && [x] + [y] == [x, y] && [x, y] + [z] == [x, y, z];
    assert [] + [y] == [y] && [y] + [z] == [y, z] && [] + [z] == [z];
  }

  /** Where the white space from `i` on ends. */
  function SkipSpaces(psz: string, i: nat): (j: nat)
    requires i <= |psz|
    ensures i <= j <= |psz| && !IsSpace(At(psz, j)) && forall k :: i <= k < j ==> IsSpace(psz[k])
    decreases |psz| - i
  {
    if i < |psz| && IsSpace(psz[i]) then SkipSpaces(psz, i + 1) else i
  }

  /** Where the text from `i` on ends: at white space or at the end of the string. */
  function SkipText(psz: string, i: nat): (j: nat)
    requires i <= |psz|
    ensures i <= j <= |psz| && (At(psz, j) == '\0' || IsSpace(At(psz, j)))
    ensures forall k :: i <= k < j ==> psz[k] != '\0' && !IsSpace(psz[k])
    decreases |psz| - i
  {
    if i < |psz| && psz[i] != '\0' && !IsSpace(psz[i]) then SkipText(psz, i + 1) else i
  }

  /** The text between leading and trailing white space, if nothing else follows it. */
  function Trimmed(psz: string): Option<string> {
    var i := SkipSpaces(psz, 0);
    var j := SkipText(psz, i);
    if At(psz, SkipSpaces(psz, j)) == '\0' then Some(psz[i..j]) else None
  }

  function Decoded(psz: string): Option<seq<nat>> {
    match Trimmed(psz)
    case None => None
    case Some(text) => if AllLetters(text) then Some(Convert(58, 256, DigitsOf(text))) else None
  }

  // ----- they are inverse

  /** The alphabet by ranges of character codes. */
  function CodeOf(d: nat): nat
    requires d < 58
  {
    if d < 9 then d + 49
    else if d < 17 then d - 9 + 65
    else if d < 22 then d - 17 + 74
    else if d < 33 then d - 22 + 80
    else if d < 44 then d - 33 + 97
    else d - 44 + 109
  }

  lemma AlphabetCodes(d: nat)
    requires d < 58
    ensures |ALPHABET| == 58 && ALPHABET[d] as int == CodeOf(d)
  {
    var a, b, c := "123456789", "ABCDEFGH", "JKLMN";
    var e, f, g := "PQRSTUVWXYZ", "abcdefghijk", "mnopqrstuvwxyz";
    assert ALPHABET == a + b + c + e + f + g;
    if d < 22 {
      assert ALPHABET[d] == if d < 9 then a[d] else if d < 17 then b[d - 9] else c[d - 17];
    } else {
      assert ALPHABET[d] == if d < 33 then e[d - 22] else if d < 44 then f[d - 33] else g[d - 44];
    }
  }

  /** The alphabet is the digits and letters but for the four lookalikes, in the order of their codes. */
  lemma AlphabetExactly(c: char)
    ensures IsLetter(c) <==>
      ('0' <= c <= '9' || 'A' <= c <= 'Z' || 'a' <= c <= 'z') && c != '0' && c != 'O' && c != 'I' && c != 'l'
    ensures forall i, j :: 0 <= i < j < 58 ==> |ALPHABET| == 58 && ALPHABET[i] < ALPHABET[j]
  {
    if IsLetter(c) {
      var k :| 0 <= k < |ALPHABET| && ALPHABET[k] == c;
      AlphabetCodes(0);
      AlphabetCodes(k);
    }
    if ('0' <= c <= '9' || 'A' <= c <= 'Z' || 'a' <= c <= 'z') && c != '0' && c != 'O' && c != 'I' && c != 'l' {
      AlphabetCodes(PlaceOf(c));
      assert ALPHABET[PlaceOf(c)] == c;
    }
    forall i, j | 0 <= i < j < 58 ensures |ALPHABET| == 58 && ALPHABET[i] < ALPHABET[j] {
      AlphabetCodes(i);
      AlphabetCodes(j);
    }
  }

  /** Where an alphabet in that order has a character. */
  function PlaceOf(c: char): (d: nat)
    requires ('0' <= c <= '9' || 'A' <= c <= 'Z' || 'a' <= c <= 'z') && c != '0' && c != 'O' && c != 'I' && c != 'l'
    ensures d < 58 && CodeOf(d) == c as int
  {
    var n := c as int;
    if c <= '9' then n - 49
    else if c <= 'H' then n - 65 + 9
    else if c <= 'N' then n - 74 + 17
    else if c <= 'Z' then n - 80 + 22
    else if c <= 'k' then n - 97 + 33
    else n - 109 + 44
  }

  lemma LettersDiffer(d: nat, e: nat)
    requires d < 58 && e < 58 && ALPHABET[d] == ALPHABET[e]
    ensures d == e
  {
    AlphabetCodes(d);
    AlphabetCodes(e);
  }

  lemma LetterIsText(c: char)
    requires IsLetter(c)
    ensures c != '\0' && !IsSpace(c)
  {
    AlphabetCodes(DigitOf(c));
  }

  lemma DigitsOfLetters(digits: seq<nat>)
    requires Digital(58, digits)
    ensures DigitsOf(Letters(digits)) == digits
  {
    forall i | 0 <= i < |digits| ensures DigitsOf(Letters(digits))[i] == digits[i] {
      LettersDiffer(DigitOf(ALPHABET[digits[i]]), digits[i]);
    }
  }

  lemma LettersOfDigits(s: string)
    requires AllLetters(s)
    ensures Letters(DigitsOf(s)) == s
  {
  }

  lemma TrimmedText(s: string)
    requires AllLetters(s)
    ensures Trimmed(s) == Some(s)
  {
    forall i | 0 <= i < |s| ensures s[i] != '\0' && !IsSpace(s[i]) {
      LetterIsText(s[i]);
    }
    assert SkipSpaces(s, 0) == 0;
    assert SkipText(s, 0) == |s|;
    assert s[0..|s|] == s;
  }

  /** Decoding accepts a string exactly if, white space trimmed, it is the text of some bytes, and
      then yields these bytes. */
  lemma DecodesExactly(psz: string, vch: seq<nat>)
    requires Digital(256, vch)
    ensures Decoded(psz) == Some(vch) <==> Trimmed(psz) == Some(Encoded(vch))
  {
    ConvertInverse(256, 58, vch);
    DigitsOfLetters(Convert(256, 58, vch));
    match Trimmed(psz)
    case None =>
    case Some(text) =>
      if AllLetters(text) {
        ConvertInverse(58, 256, DigitsOf(text));
        LettersOfDigits(text);
      }
  }

  lemma EncodeThenDecode(vch: seq<nat>)
    requires Digital(256, vch)
    ensures Decoded(Encoded(vch)) == Some(vch)
  {
    TrimmedText(Encoded(vch));
    DecodesExactly(Encoded(vch), vch);
  }

  lemma DecodeThenEncode(s: string)
    requires AllLetters(s)
    ensures Decoded(s).Some? && Digital(256, Decoded(s).value) && Encoded(Decoded(s).value) == s
  {
    TrimmedText(s);
    ConvertInverse(58, 256, DigitsOf(s));
    DecodesExactly(s, Decoded(s).value);
  }

  // ----- the buffers are large enough

  lemma EncodeFits(n: nat)
    ensures Pow(256, n) <= Pow(58, n * 138 / 100 + 1)
  {
    assert Pow(256, 8) <= Pow(58, 11) by {
      PowAdd(256, 4, 4);
      PowAdd(58, 6, 5);
      assert Pow(256, 4) == 4294967296 && Pow(58, 6) == 38068692544 && Pow(58, 5) == 656356768;
    }
    PowCompare(256, 8, 58, 11, n, n * 138 / 100 + 1);
  }

  lemma DecodeFits(n: nat)
    ensures Pow(58, n) <= Pow(256, n * 733 / 1000 + 1)
  {
    PowsOf58();
    PowsOf256();
    PowersCompare();
    PowCompare(58, 71, 256, 52, n, n * 733 / 1000 + 1);
  }

  const P58_8 := 58 * 58 * 58 * 58 * 58 * 58 * 58 * 58
  const P58_16 := P58_8 * P58_8
  const P58_32 := P58_16 * P58_16
  const P58_64 := P58_32 * P58_32

  lemma PowsOf58()
    ensures Pow(58, 71) == P58_64 * 2207984167552
  {
    PowAdd(58, 4, 4);
    assert Pow(58, 4) == 11316496;
    PowAdd(58, 8, 8);
    PowAdd(58, 16, 16);
    PowAdd(58, 32, 32);
    PowAdd(58, 64, 7);
    PowAdd(58, 4, 3);
    assert Pow(58, 3) == 195112;
  }

  const P256_4 := 256 * 256 * 256 * 256
  const P256_16 := P256_4 * P256_4 * (P256_4 * P256_4)
  const P256_52 := P256_16 * P256_16 * (P256_16 * P256_4)

  lemma PowsOf256()
    ensures Pow(256, 52) == P256_52
  {
    assert Pow(256, 4) == P256_4;
    PowAdd(256, 4, 4);
    PowAdd(256, 8, 8);
    PowAdd(256, 16, 16);
    PowAdd(256, 16, 4);
    PowAdd(256, 32, 20);
  }

  lemma PowersCompare()
    ensures P58_64 * 2207984167552 <= P256_52
  {
  }

  // ----- the conversions in place

  /** A buffer with room for the value it is to hold has nothing to carry out. */
  lemma NothingCarried(base: nat, buf: seq<nat>, carry: nat, source: nat, digits: seq<nat>, room: nat)
    requires base > 0 && source > 0 && Digital(source, digits) && |digits| <= room
    requires Pow(source, room) <= Pow(base, |buf|)
    requires Value(base, buf) + carry * Pow(base, |buf|) == Value(source, digits)
    ensures carry == 0
  {
    hide Pow, Value;
    ValueBound(source, digits);
    PowMonotone(source, |digits|, room);
    if carry > 0 {
      Grow(Pow(base, |buf|), carry);
    }
  }

  lemma PrefixAppend(base: nat, s: seq<nat>, i: nat, j: nat)
    requires i <= j < |s|
    ensures Value(base, s[i..j + 1]) == base * Value(base, s[i..j]) + s[j]
  {
    assert s[i..j + 1] == s[i..j] + [s[j]];
    ValueAppend(base, s[i..j], s[j]);
  }

  /** What a buffer spells once its leading zeros are passed over. */
  lemma BufferSpells(source: nat, target: nat, digits: seq<nat>, zeroes: nat, buf: seq<nat>, it: nat)
    requires target >= 2 && Digital(target, buf)
    requires zeroes <= |digits| && (forall k :: 0 <= k < zeroes ==> digits[k] == 0) && (zeroes < |digits| ==> digits[zeroes] != 0)
    requires Value(target, buf) == Value(source, digits[zeroes..])
    requires it <= |buf| && (forall k :: 0 <= k < it ==> buf[k] == 0) && (it < |buf| ==> buf[it] != 0)
    ensures Convert(source, target, digits) == Zeros(zeroes) + buf[it..]
  {
    assert digits == Zeros(zeroes) + digits[zeroes..];
    LeadingZeros(zeroes, digits[zeroes..]);
    ValueZeros(source, zeroes, digits[zeroes..]);
    StripZeros(target, buf, it);
  }

  method FirstNonZero(buf: array<nat>) returns (it: nat)
    ensures it <= buf.Length && (forall k :: 0 <= k < it ==> buf[k] == 0) && (it < buf.Length ==> buf[it] != 0)
  {
    it := 0;
    while it != buf.Length && buf[it] == 0
      invariant it <= buf.Length && forall k :: 0 <= k < it ==> buf[k] == 0
    {
      it := it + 1;
    }
  }

  method EncodeBase58(vch: seq<nat>) returns (str: string)
    requires Digital(256, vch)
    ensures str == Encoded(vch)
  {
    hide Pow, Value, Convert, Digits, Leading;
    var zeroes, pbegin := 0, 0;
    while pbegin != |vch| && vch[pbegin] == 0
      invariant zeroes == pbegin <= |vch| && forall k :: 0 <= k < pbegin ==> vch[k] == 0
    {
      pbegin, zeroes := pbegin + 1, zeroes + 1;
    }
    var b58 := new nat[(|vch| - pbegin) * 138 / 100 + 1](_ => 0);
    EncodeFits(|vch| - pbegin);
    EmptyBuffer(58, b58[..], 256);
    assert vch[zeroes..zeroes] == [];
    while pbegin != |vch|
      invariant zeroes <= pbegin <= |vch| && Digital(58, b58[..])
      invariant Value(58, b58[..]) == Value(256, vch[zeroes..pbegin])
    {
      var carry := MultiplyAdd(b58, 58, 256, vch[pbegin]);
      PrefixAppend(256, vch, zeroes, pbegin);
      NothingCarried(58, b58[..], carry, 256, vch[zeroes..pbegin + 1], |vch| - zeroes);
      assert carry == 0;
      pbegin := pbegin + 1;
    }
    assert vch[zeroes..|vch|] == vch[zeroes..];
    var it := FirstNonZero(b58);
    BufferSpells(256, 58, vch, zeroes, b58[..], it);
    str := AppendLetters(b58, it, zeroes);
  }

  /** The end of it: a '1' for each leading zero, and the digits from `first` on. */
  method AppendLetters(b58: array<nat>, first: nat, zeroes: nat) returns (str: string)
    requires Digital(58, b58[..]) && first <= b58.Length
    ensures str == Letters(Zeros(zeroes) + b58[..][first..])
  {
    var it := first;
    str := seq(zeroes, _ => '1');
    while it != b58.Length
      invariant first <= it <= b58.Length
      invariant str == Letters(Zeros(zeroes) + b58[..][first..it])
    {
      str := str + [ALPHABET[b58[it]]];
      it := it + 1;
    }
    assert b58[..][first..b58.Length] == b58[..][first..];
  }

  lemma EmptyBuffer(base: nat, buf: seq<nat>, source: nat)
    requires forall i :: 0 <= i < |buf| ==> buf[i] == 0
    ensures Value(base, buf) == 0 == Value(source, [])
  {
    assert buf == Zeros(|buf|) + [];
    ValueZeros(base, |buf|, []);
  }

  lemma {:induction false} SpacesEnd(psz: string, i: nat, j: nat)
    requires i <= j <= |psz| && (forall k :: i <= k < j ==> IsSpace(psz[k])) && !IsSpace(At(psz, j))
    ensures SkipSpaces(psz, i) == j
    decreases j - i
  {
    if i < j {
      SpacesEnd(psz, i + 1, j);
    }
  }

  /** `strlen(psz + i)`. */
  function StrLen(psz: string, i: nat): (n: nat)
    requires i <= |psz|
    ensures i + n <= |psz| && forall k :: i <= k < i + n ==> psz[k] != '\0'
    ensures At(psz, i + n) == '\0'
    decreases |psz| - i
  {
    if i < |psz| && psz[i] != '\0' then StrLen(psz, i + 1) + 1 else 0
  }

  /** Reads letters into the buffer, up to white space or the end of the string; `start` is where
      the text begins and `first` where its leading ones end. */
  method ReadLetters(psz: string, ghost start: nat, first: nat, b256: array<nat>) returns (ok: bool, p: nat)
    requires start <= first <= |psz| && start == SkipSpaces(psz, 0)
    requires forall k :: start <= k < first ==> psz[k] != '\0' && !IsSpace(psz[k])
    requires Pow(58, StrLen(psz, first)) <= Pow(256, b256.Length) && forall i :: 0 <= i < b256.Length ==> b256[i] == 0
    modifies b256
    ensures !ok ==> Decoded(psz).None?
    ensures ok ==> first <= p == SkipText(psz, start) && AllLetters(psz[first..p])
    ensures ok ==> Digital(256, b256[..]) && Value(256, b256[..]) == Value(58, DigitsOf(psz[first..p]))
  {
    hide Pow, Value, IsLetter, Decoded;
    p := first;
    ghost var room := StrLen(psz, first);
    EmptyBuffer(256, b256[..], 58);
    assert psz[first..first] == [];
    while At(psz, p) != '\0' && !IsSpace(At(psz, p))
      invariant first <= p <= first + room && Digital(256, b256[..]) && AllLetters(psz[first..p])
      invariant forall k :: start <= k < p ==> psz[k] != '\0' && !IsSpace(psz[k])
      invariant Value(256, b256[..]) == Value(58, DigitsOf(psz[first..p]))
      decreases |psz| - p
    {
      var ch := IndexIn(ALPHABET, psz[p]);
      if ch == |ALPHABET| {
        NotALetter(psz, start, p);
        return false, p;
      }
      TextGrows(psz, first, p);
      var carry := MultiplyAdd(b256, 256, 58, ch);
      NothingCarried(256, b256[..], carry, 58, DigitsOf(psz[first..p + 1]), room);
      assert carry == 0;
      p := p + 1;
    }
    ok := true;
  }

  /** On failure the source leaves its output as it was; here nothing is said of it. */
  method DecodeBase58(psz: string) returns (ok: bool, vch: seq<nat>)
    ensures ok <==> Decoded(psz).Some?
    ensures ok ==> vch == Decoded(psz).value
  {
    hide Pow, Value, Convert, IsLetter, SkipText, SkipSpaces, StrLen;
    var p := 0;
    while At(psz, p) != '\0' && IsSpace(At(psz, p))
      invariant p <= |psz| && forall k :: 0 <= k < p ==> IsSpace(psz[k])
      decreases |psz| - p
    {
      p := p + 1;
    }
    SpacesEnd(psz, 0, p);
    ghost var start := p;
    var zeroes := 0;
    while At(psz, p) == '1'
      invariant start <= p == start + zeroes <= |psz| && forall k :: start <= k < p ==> psz[k] == '1'
      decreases |psz| - p
    {
      zeroes, p := zeroes + 1, p + 1;
    }
    ghost var first := p;
    var b256 := new nat[StrLen(psz, p) * 733 / 1000 + 1](_ => 0);
    DecodeFits(StrLen(psz, p));
    ok, p := ReadLetters(psz, start, p, b256);
    if !ok {
      return false, [];
    }
    ghost var end := p;
    while IsSpace(At(psz, p))
      invariant end <= p <= |psz| && forall k :: end <= k < p ==> IsSpace(psz[k])
      decreases |psz| - p
    {
      p := p + 1;
    }
    SpacesEnd(psz, end, p);
    if At(psz, p) != '\0' {
      return false, [];
    }
    TextIsLetters(psz, start, first, end);
    var it := FirstNonZero(b256);
    BufferSpells(58, 256, DigitsOf(psz[start..end]), zeroes, b256[..], it);
    vch := CopyFrom(b256, zeroes, it);
  }

  method CopyFrom(b256: array<nat>, zeroes: nat, first: nat) returns (vch: seq<nat>)
    requires first <= b256.Length
    ensures vch == Zeros(zeroes) + b256[..][first..]
  {
    vch := Zeros(zeroes);
    var it := first;
    while it != b256.Length
      invariant first <= it <= b256.Length && vch == Zeros(zeroes) + b256[..][first..it]
    {
      vch := vch + [b256[it]];
      it := it + 1;
    }
    assert b256[..][first..b256.Length] == b256[..][first..];
  }

  lemma OneIsZero()
    ensures IsLetter('1') && DigitOf('1') == 0
  {
    assert ALPHABET[0] == '1';
  }

  lemma NotALetter(psz: string, start: nat, p: nat)
    requires start <= p < |psz| && SkipSpaces(psz, 0) == start && p < SkipText(psz, start)
    requires IndexIn(ALPHABET, psz[p]) == |ALPHABET|
    ensures Decoded(psz).None?
  {
    var text := psz[start..SkipText(psz, start)];
    assert text[p - start] == psz[p] && !IsLetter(psz[p]);
  }

  lemma TextGrows(psz: string, first: nat, p: nat)
    requires first <= p < |psz| && AllLetters(psz[first..p]) && IndexIn(ALPHABET, psz[p]) < |ALPHABET|
    ensures AllLetters(psz[first..p + 1])
    ensures Value(58, DigitsOf(psz[first..p + 1])) == 58 * Value(58, DigitsOf(psz[first..p])) + IndexIn(ALPHABET, psz[p])
  {
    hide Value;
    var s, c := psz[first..p], psz[p];
    assert psz[first..p + 1] == s + [c];
    assert IsLetter(c) && DigitOf(c) == IndexIn(ALPHABET, c);
    assert DigitsOf(s + [c]) == DigitsOf(s) + [DigitOf(c)];
    ValueAppend(58, DigitsOf(s), DigitOf(c));
  }

  /** The text is its leading ones and the letters after them. */
  lemma TextIsLetters(psz: string, start: nat, first: nat, end: nat)
    requires start <= first <= end <= |psz| && (forall k :: start <= k < first ==> psz[k] == '1') && At(psz, first) != '1'
    requires AllLetters(psz[first..end])
    ensures AllLetters(psz[start..end])
    ensures var digits, zeroes := DigitsOf(psz[start..end]), first - start;
      && (forall k :: 0 <= k < zeroes ==> digits[k] == 0) && (zeroes < |digits| ==> digits[zeroes] != 0)
      && digits[zeroes..] == DigitsOf(psz[first..end])
  {
    hide IsLetter;
    OneIsZero();
    var text := psz[start..end];
    forall i | 0 <= i < |text| ensures IsLetter(text[i]) {
      if i >= first - start {
        assert text[i] == psz[first..end][i - (first - start)];
      }
    }
    assert text[first - start..] == psz[first..end];
  }

  // ----- with a checksum

  /** `hash` yields the first four bytes of the double hash. */
  method EncodeBase58Check(hash: seq<nat> -> seq<nat>, vchIn: seq<nat>) returns (str: string)
    requires Digital(256, vchIn) && Digital(256, hash(vchIn)) && |hash(vchIn)| == 4
    ensures str == Encoded(vchIn + hash(vchIn))
  {
    var vch := vchIn + hash(vchIn);
    str := EncodeBase58(vch);
  }

  function DecodedCheck(hash: seq<nat> -> seq<nat>, psz: string): Option<seq<nat>> {
    match Decoded(psz)
    case None => None
    case Some(vch) =>
      if |vch| >= 4 && hash(vch[..|vch| - 4]) == vch[|vch| - 4..] then Some(vch[..|vch| - 4]) else None
  }

  method DecodeBase58Check(hash: seq<nat> -> seq<nat>, psz: string) returns (ok: bool, vchRet: seq<nat>)
    ensures ok <==> DecodedCheck(hash, psz).Some?
    ensures vchRet == if ok then DecodedCheck(hash, psz).value else []
  {
    hide Decoded;
    ok, vchRet := DecodeBase58(psz);
    if !ok || |vchRet| < 4 {
      return false, [];
    }
    if hash(vchRet[..|vchRet| - 4]) != vchRet[|vchRet| - 4..] {
      return false, [];
    }
    vchRet := vchRet[..|vchRet| - 4];
  }

  /** With the checksum too, decoding accepts exactly the texts that encoding makes, up to white space. */
  lemma DecodesCheckExactly(hash: seq<nat> -> seq<nat>, psz: string, vch: seq<nat>)
    requires Digital(256, vch) && Digital(256, hash(vch)) && |hash(vch)| == 4
    ensures DecodedCheck(hash, psz) == Some(vch) <==> Trimmed(psz) == Some(Encoded(vch + hash(vch)))
  {
    hide Decoded, Encoded, Trimmed;
    var full := vch + hash(vch);
    assert full[..|full| - 4] == vch && full[|full| - 4..] == hash(vch);
    DecodesExactly(psz, full);
    match Decoded(psz)
    case None =>
    case Some(got) =>
      if |got| >= 4 {
        assert got == got[..|got| - 4] + got[|got| - 4..];
      }
  }
}
