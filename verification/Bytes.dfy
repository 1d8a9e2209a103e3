/** Bytes, fixed-width integers in either byte order, and decimal fields. */
module Bytes {
  import opened Wrappers

  type Byte = b: int | 0 <= b < 256

  type Data = seq<Byte>

  datatype Endian = Little | Big

  const U32_LIMIT: int := 0x1_0000_0000
  const U64_LIMIT: int := 0x1_0000_0000_0000_0000

  /** The four bytes of a 32-bit number, least significant first. */
  function LittleBytes(n: nat): (r: Data)
    requires n < U32_LIMIT
    ensures |r| == 4
  {
    [n % 256, n / 256 % 256, n / 65536 % 256, n / 16777216]
  }

  function LittleValue(a: Byte, b: Byte, c: Byte, d: Byte): (n: nat)
    ensures n < U32_LIMIT
  {
    a + 256 * b + 65536 * c + 16777216 * d
  }

  function EncodeU32(endian: Endian, n: nat): (r: Data)
    requires n < U32_LIMIT
    ensures |r| == 4
  {
    var b := LittleBytes(n);
    if endian == Little then b else [b[3], b[2], b[1], b[0]]
  }

  function U32(endian: Endian, s: Data, i: nat): (n: nat)
    requires i + 4 <= |s|
    ensures n < U32_LIMIT
  {
    if endian == Little then LittleValue(s[i], s[i + 1], s[i + 2], s[i + 3])
    else LittleValue(s[i + 3], s[i + 2], s[i + 1], s[i])
  }

  lemma LittleRoundTrip(n: nat)
    requires n < U32_LIMIT
    ensures var b := LittleBytes(n); LittleValue(b[0], b[1], b[2], b[3]) == n
  {
    assert n == n / 256 * 256 + n % 256;
    var m := n / 256;
    assert m == m / 256 * 256 + m % 256 && m / 256 == n / 65536;
    var k := m / 256;
    assert k == k / 256 * 256 + k % 256 && k / 256 == n / 16777216;
  }

  /** Reading what was written, wherever it stands. */
  lemma U32Reads(endian: Endian, n: nat, before: Data, after: Data)
    requires n < U32_LIMIT
    ensures U32(endian, before + EncodeU32(endian, n) + after, |before|) == n
  {
    LittleRoundTrip(n);
    var e, s := EncodeU32(endian, n), before + EncodeU32(endian, n) + after;
    assert s[|before|] == e[0] && s[|before| + 1] == e[1] && s[|before| + 2] == e[2] && s[|before| + 3] == e[3];
  }

  /** A number only depends on its own four bytes. */
  lemma U32Slice(endian: Endian, s: Data, from: nat, end: nat, i: nat)
    requires from <= end <= |s| && from + i + 4 <= end
    ensures U32(endian, s[from..end], i) == U32(endian, s, from + i)
  {
  }

  /** A slice of a slice. */
  lemma Subslice(s: Data, from: nat, end: nat, i: nat, j: nat)
    requires from <= end <= |s| && i <= j <= end - from
    ensures s[from..end][i..j] == s[from + i..from + j]
  {
    var t := s[from..end];
    assert forall k :: 0 <= k < j - i ==> t[i..j][k] == t[i + k] == s[from + i + k];
  }

  function EncodeU64(endian: Endian, n: nat): (r: Data)
    requires n < U64_LIMIT
    ensures |r| == 8
  {
    var low, high := EncodeU32(endian, n % U32_LIMIT), EncodeU32(endian, n / U32_LIMIT);
    if endian == Little then low + high else high + low
  }

  function U64(endian: Endian, s: Data, i: nat): (n: nat)
    requires i + 8 <= |s|
  {
    if endian == Little then U32(endian, s, i) + U32_LIMIT * U32(endian, s, i + 4)
    else U32(endian, s, i + 4) + U32_LIMIT * U32(endian, s, i)
  }

  lemma U64Reads(endian: Endian, n: nat, before: Data, after: Data)
    requires n < U64_LIMIT
    ensures U64(endian, before + EncodeU64(endian, n) + after, |before|) == n
  {
    hide EncodeU32, U32;
    var low, high := EncodeU32(endian, n % U32_LIMIT), EncodeU32(endian, n / U32_LIMIT);
    var s := before + EncodeU64(endian, n) + after;
    if endian == Little {
      assert s == before + low + (high + after) && s == (before + low) + high + after;
      U32Reads(endian, n % U32_LIMIT, before, high + after);
      U32Reads(endian, n / U32_LIMIT, before + low, after);
    } else {
      assert s == before + high + (low + after) && s == (before + high) + low + after;
      U32Reads(endian, n / U32_LIMIT, before, low + after);
      U32Reads(endian, n % U32_LIMIT, before + high, after);
    }
  }

  // ------------------------------------------------------------- decimal fields

  const SPACE: Byte := 32
  const UNDERSCORE: Byte := 95

  predicate IsDigitByte(b: Byte) { 48 <= b <= 57 }

  /** The ASCII characters Python counts as whitespace. */
  predicate IsSpace(b: Byte) { 9 <= b <= 13 || 28 <= b <= 32 }

  function Strip(s: Data): Data
    decreases |s|
  {
    if s != [] && IsSpace(s[0]) then Strip(s[1..])
    else if s != [] && IsSpace(s[|s| - 1]) then Strip(s[..|s| - 1])
    else s
  }

  /** Digits, with single underscores between them allowed. */
  predicate IsLiteral(s: Data) {
    s != [] && IsDigitByte(s[0]) && IsDigitByte(s[|s| - 1])
    && (forall i :: 0 <= i < |s| ==> IsDigitByte(s[i]) || s[i] == UNDERSCORE)
    && (forall i, j :: 0 <= i && j == i + 1 < |s| ==> IsDigitByte(s[i]) || IsDigitByte(s[j]))
  }

  function DigitValue(b: Byte): nat
    requires IsDigitByte(b)
  {
    var v: int := b;
    v - 48
  }

  function LiteralValue(s: Data): nat
    requires forall i :: 0 <= i < |s| ==> IsDigitByte(s[i]) || s[i] == UNDERSCORE
  {
    if s == [] then 0
    else
      var last, init := s[|s| - 1], s[..|s| - 1];
      if last == UNDERSCORE then LiteralValue(init) else LiteralValue(init) * 10 + DigitValue(last)
  }

  function Negated(n: int): (m: int)
    ensures m + n == 0
  {
    -n
  }

  /** A decimal field as the script reads it: ASCII, stripped, an optional sign, a literal. */
  function ParseInt(s: Data): Option<int> {
    if exists i :: 0 <= i < |s| && s[i] >= 128 then None
    else
      var t := Strip(s);
      var signed := t != [] && (t[0] == 43 || t[0] == 45);
      var digits := if signed then t[1..] else t;
      if !IsLiteral(digits) then None
      else if signed && t[0] == 45 then Some(Negated(LiteralValue(digits)))
      else Some(LiteralValue(digits))
  }

  /** The decimal digits of a number. */
  function Decimal(n: nat): (r: Data)
    ensures r != [] && forall i :: 0 <= i < |r| ==> IsDigitByte(r[i])
  {
    if n < 10 then [48 + n] else Decimal(n / 10) + [48 + n % 10]
  }

  lemma {:induction false} DecimalValue(n: nat)
    ensures LiteralValue(Decimal(n)) == n
  {
    if n >= 10 {
      DecimalValue(n / 10);
      var d := Decimal(n);
      assert d[..|d| - 1] == Decimal(n / 10);
      assert n == n / 10 * 10 + n % 10;
    }
  }

  function PowerOfTen(k: nat): (r: nat)
    ensures r > 0
  {
    if k == 0 then 1 else 10 * PowerOfTen(k - 1)
  }

  /** A number below the `k`-th power of ten has at most `k` digits. */
  lemma {:induction false} DigitsFit(n: nat, k: nat)
    requires n < PowerOfTen(k) && k > 0
    ensures |Decimal(n)| <= k
  {
    if n >= 10 {
      DigitsFit(n / 10, k - 1);
    }
  }

  lemma DecimalFits(n: nat, k: nat)
    requires (k == 10 && n < 10_000_000_000) || (k == 13 && n < 10_000_000_000_000)
    ensures |Decimal(n)| <= k
  {
    assert PowerOfTen(5) == 100_000;
    assert PowerOfTen(10) == 10_000_000_000;
    assert PowerOfTen(13) == 10_000_000_000_000;
    DigitsFit(n, k);
  }

  function Spaces(n: nat): Data { seq(n, _ => SPACE) }

  lemma {:induction false} StripPadding(d: Data, n: nat)
    requires d != [] && !IsSpace(d[0]) && !IsSpace(d[|d| - 1])
    ensures Strip(d + Spaces(n)) == d
  {
    var s := d + Spaces(n);
    if n == 0 {
      assert s == d;
    } else {
      assert s[|s| - 1] == SPACE && s[0] == d[0];
      assert s[..|s| - 1] == d + Spaces(n - 1);
      StripPadding(d, n - 1);
    }
  }

  /** A padded decimal reads back. */
  lemma ParsePadded(n: nat, padding: nat)
    ensures ParseInt(Decimal(n) + Spaces(padding)) == Some(n)
  {
    var d := Decimal(n);
    StripPadding(d, padding);
    DecimalValue(n);
  }

  /** A sign in front of the digits counts. */
  lemma ParseSigned(n: nat, padding: nat)
    ensures ParseInt([45] + Decimal(n) + Spaces(padding)) == Some(Negated(n))
    ensures ParseInt([43] + Decimal(n) + Spaces(padding)) == Some(n)
  {
    var d := Decimal(n);
    DecimalValue(n);
    StripPadding([45] + d, padding);
    StripPadding([43] + d, padding);
    assert ([45] + d)[1..] == d && ([43] + d)[1..] == d;
  }

  lemma {:induction false} StripHas(s: Data, i: nat)
    requires i < |s| && !IsSpace(s[i])
    ensures s[i] in Strip(s)
    decreases |s|
  {
    if IsSpace(s[0]) {
      assert s[i] == s[1..][i - 1];
      StripHas(s[1..], i - 1);
    } else if IsSpace(s[|s| - 1]) {
      assert s[i] == s[..|s| - 1][i];
      StripHas(s[..|s| - 1], i);
    }
  }

  /** What is read as a number holds a digit, and digits, underscores, signs and white space only. */
  lemma ParseAlphabet(s: Data)
    requires ParseInt(s).Some?
    ensures exists i :: 0 <= i < |s| && 48 <= s[i] <= 57
    ensures forall i :: 0 <= i < |s| ==> 48 <= s[i] <= 57 || s[i] in {9, 10, 11, 12, 13, 28, 29, 30, 31, 32, 43, 45, 95}
  {
    hide Strip, LiteralValue;
    var t := Strip(s);
    forall i | 0 <= i < |s| && !IsSpace(s[i]) ensures s[i] in t {
      StripHas(s, i);
    }
    var digits := if t[0] == 43 || t[0] == 45 then t[1..] else t;
    assert digits[0] in t;
    StripWithin(s);
    assert IsDigitByte(digits[0]) && digits[0] in s;
  }

  lemma {:induction false} StripWithin(s: Data)
    ensures forall b :: b in Strip(s) ==> b in s
    decreases |s|
  {
    if s != [] && IsSpace(s[0]) {
      StripWithin(s[1..]);
    } else if s != [] && IsSpace(s[|s| - 1]) {
      StripWithin(s[..|s| - 1]);
    }
  }

  /** The bytes of an ASCII text. */
  function Ascii(s: string): Data
    requires forall i :: 0 <= i < |s| ==> s[i] < '\U{80}'
  {
    seq(|s|, i requires 0 <= i < |s| => s[i] as int)
  }

  /** The white space of a decimal field: tab, the line breaks, the separators and the space. */
  lemma SpaceBytes(b: Byte)
    ensures IsSpace(b) <==> b in {9, 10, 11, 12, 13, 28, 29, 30, 31, 32}
  {
  }

  /** Byte order: each byte counts 256 times as much as the one behind it (big-endian) or before
      it (little-endian). */
  lemma ByteOrder(s: Data, i: nat)
    requires i + 4 <= |s|
    ensures var a: int, b: int, c: int, d: int := s[i], s[i + 1], s[i + 2], s[i + 3];
      && U32(Big, s, i) == 0x100_0000 * a + 0x1_0000 * b + 0x100 * c + d
      && U32(Little, s, i) == a + 0x100 * b + 0x1_0000 * c + 0x100_0000 * d
  {
  }
}
