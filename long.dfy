/** The part of the `long` library (signed 64-bit two's-complement integers
    built from two 32-bit halves) that src/TAI64.ts relies on, stated on
    mathematical integers: the value of a `Long` is an `Int64`, and every
    operation that can leave the range wraps modulo 2^64 explicitly. */
module Long {

  const TWO_63: int := 0x8000_0000_0000_0000
  const TWO_64: int := 0x1_0000_0000_0000_0000
  /** `Long.MAX_VALUE`, 2^63 - 1. */
  const MAX_VALUE: int := TWO_63 - 1
  /** `Long.MIN_VALUE`, -2^63. */
  const MIN_VALUE: int := -TWO_63

  /** The values a signed `Long` can hold. */
  type Int64 = x: int | MIN_VALUE <= x <= MAX_VALUE
  /** An element of the byte arrays `fromBytes` reads and `toBytes` writes. */
  type Byte = b: int | 0 <= b < 256

  // ---------------------------------------------------------------------
  // Two's-complement wrap-around

  /** The signed 64-bit value with the same low 64 bits as `x`. */
  function Wrap(x: int): (r: Int64)
    ensures (x - r) % TWO_64 == 0
  {
    var u := x % TWO_64;
    if u <= MAX_VALUE then u else u - TWO_64
  }

  /** Only one `Int64` is congruent to `x` modulo 2^64, so `Wrap` is the
      identity on the range and ignores multiples of 2^64. */
  lemma WrapUnique(x: int, y: Int64)
    requires (x - y) % TWO_64 == 0
    ensures Wrap(x) == y
  {
    var r := Wrap(x);
    var k := (x - y) / TWO_64;
    var m := (x - r) / TWO_64;
    assert x - y == k * TWO_64;
    assert x - r == m * TWO_64;
    assert r - y == (k - m) * TWO_64;
  }

  /** `add`: the sum, wrapped. */
  function Add(a: Int64, b: Int64): Int64 {
    Wrap(a + b)
  }

  /** `fromNumber` on an integer-valued number: exact inside the range,
      saturating at `MIN_VALUE` and `MAX_VALUE` outside it. */
  function FromNumber(v: int): (r: Int64)
    ensures MIN_VALUE <= v <= MAX_VALUE ==> r == v
    ensures v < MIN_VALUE ==> r == MIN_VALUE
    ensures v > MAX_VALUE ==> r == MAX_VALUE
  {
    if v <= MIN_VALUE then MIN_VALUE
    else if v + 1 >= TWO_63 then MAX_VALUE
    else v
  }

  /** `shiftRight(1)`: arithmetic shift, which rounds towards minus infinity. */
  function ShiftRight1(x: Int64): (r: Int64)
    ensures 2 * r <= x <= 2 * r + 1
  {
    x / 2
  }

  // ---------------------------------------------------------------------
  // Radix 16

  predicate IsHexDigit(c: char) {
    '0' <= c <= '9' || 'a' <= c <= 'f' || 'A' <= c <= 'F'
  }

  /** A string `fromString(_, false, 16)` reads as a number: non-empty, hex
      digits only, either case. */
  predicate IsHexString(s: string) {
    |s| > 0 && forall i :: 0 <= i < |s| ==> IsHexDigit(s[i])
  }

  predicate IsLowerHexDigit(c: char) {
    '0' <= c <= '9' || 'a' <= c <= 'f'
  }

  /** What `toString(16)` produces for a non-negative value: lower-case hex
      digits with no leading zero, except for "0" itself. */
  predicate IsCanonicalHex(s: string) {
    |s| > 0 && (forall i :: 0 <= i < |s| ==> IsLowerHexDigit(s[i])) && (s[0] == '0' ==> |s| == 1)
  }

  function DigitValue(c: char): (d: nat)
    requires IsHexDigit(c)
    ensures d < 16
  {
    if c <= '9' then c as int - '0' as int
    else if c >= 'a' then c as int - 'a' as int + 10
    else c as int - 'A' as int + 10
  }

  /** The lower-case digit for `d`. */
  function DigitChar(d: nat): (c: char)
    requires d < 16
    ensures IsLowerHexDigit(c) && DigitValue(c) == d
  {
    if d < 10 then ('0' as int + d) as char else ('a' as int + d - 10) as char
  }

  /** The number a string of hex digits denotes, most significant first. */
  function HexValue(s: string): (n: nat)
    requires forall i :: 0 <= i < |s| ==> IsHexDigit(s[i])
    ensures n < Pow(16, |s|)
  {
    if s == [] then 0 else 16 * HexValue(s[..|s| - 1]) + DigitValue(s[|s| - 1])
  }

  /** `fromString(s, false, 16)`: the digits are accumulated with wrapping
      multiplication and addition, so the result is their value modulo 2^64,
      read as signed. */
  function FromHexString(s: string): Int64
    requires IsHexString(s)
  {
    Wrap(HexValue(s))
  }

  /** `toString(16)` of a non-negative value. */
  function ToHexString(n: nat): (s: string)
    ensures IsCanonicalHex(s)
  {
    if n < 16 then [DigitChar(n)] else ToHexString(n / 16) + [DigitChar(n % 16)]
  }

  /** A digit followed by zeros prints as that digit followed by zeros. */
  lemma {:induction false} ToHexStringShift(d: nat, n: nat)
    requires 0 < d < 16
    ensures ToHexString(d * Pow(16, n)) == [DigitChar(d)] + seq(n, _ => '0')
  {
    if n > 0 {
      ToHexStringShift(d, n - 1);
      var m := d * Pow(16, n - 1);
      MulSwap(d, 16, Pow(16, n - 1));
      DivMod16(m, 0);
      assert [DigitChar(d)] + seq(n, _ => '0') == [DigitChar(d)] + seq(n - 1, _ => '0') + ['0'];
    }
  }

  lemma {:induction false} HexValueOfToHexString(n: nat)
    ensures HexValue(ToHexString(n)) == n
  {
    var s := ToHexString(n);
    assert s[..|s| - 1] == if n < 16 then [] else ToHexString(n / 16);
    if n >= 16 {
      HexValueOfToHexString(n / 16);
    }
  }

  /** A string of hex digits that does not start with '0' denotes a positive
      number. */
  lemma {:induction false} HexValuePositive(s: string)
    requires |s| > 0 && forall i :: 0 <= i < |s| ==> IsHexDigit(s[i])
    requires s[0] != '0'
    ensures HexValue(s) > 0
  {
    if |s| > 1 {
      HexValuePositive(s[..|s| - 1]);
    }
  }

  lemma {:induction false} ToHexStringOfHexValue(s: string)
    requires IsCanonicalHex(s)
    ensures ToHexString(HexValue(s)) == s
  {
    var p, c := s[..|s| - 1], s[|s| - 1];
    var v, d := HexValue(p), DigitValue(c);
    assert DigitChar(d) == c;
    if |s| > 1 {
      assert IsCanonicalHex(p);
      HexValuePositive(p);
      ToHexStringOfHexValue(p);
      DivMod16(v, d);
      assert s == p + [c];
    }
  }

  lemma DivMod16(v: nat, d: nat)
    requires d < 16
    ensures (16 * v + d) / 16 == v && (16 * v + d) % 16 == d
  {
  }

  /** The leading digit of a string of `n + 1` hex digits weighs 16^n. */
  lemma {:induction false} HexValueFront(s: string)
    requires |s| > 0 && forall i :: 0 <= i < |s| ==> IsHexDigit(s[i])
    ensures HexValue(s) == DigitValue(s[0]) * Pow(16, |s| - 1) + HexValue(s[1..])
    ensures HexValue(s[1..]) < Pow(16, |s| - 1)
  {
    if |s| == 1 {
      assert s[1..] == [];
    } else {
      var p := s[..|s| - 1];
      HexValueFront(p);
      assert p[1..] == s[1..][..|s| - 2];
      assert p[0] == s[0];
      calc {
        HexValue(s);
        16 * HexValue(p) + DigitValue(s[|s| - 1]);
        16 * (DigitValue(s[0]) * Pow(16, |s| - 2) + HexValue(p[1..])) + DigitValue(s[|s| - 1]);
        { MulSwap(16, DigitValue(s[0]), Pow(16, |s| - 2)); }
        DigitValue(s[0]) * Pow(16, |s| - 1) + 16 * HexValue(p[1..]) + DigitValue(s[|s| - 1]);
      }
    }
  }

  /** A run of one repeated digit `d` is worth `d * (16^n - 1) / 15`. */
  lemma {:induction false} HexValueRepeated(s: string, c: char)
    requires IsHexDigit(c) && forall i :: 0 <= i < |s| ==> s[i] == c
    ensures 15 * HexValue(s) == DigitValue(c) * (Pow(16, |s|) - 1)
  {
    if s != [] {
      var p, d := s[..|s| - 1], DigitValue(c);
      HexValueRepeated(p, c);
      assert HexValue(s) == 16 * HexValue(p) + d;
      assert Pow(16, |s|) == 16 * Pow(16, |p|);
      RepeatStep(HexValue(p), d, Pow(16, |p|));
    }
  }

  /** One more digit `d` in front of a run worth `d * (p - 1) / 15`. */
  lemma RepeatStep(h: int, d: int, p: int)
    requires 15 * h == d * (p - 1)
    ensures 15 * (16 * h + d) == d * (16 * p - 1)
  {
    assert d * (p - 1) == d * p - d;
    assert d * (16 * p - 1) == 16 * (d * p) - d;
  }

  /** Exchanges the outer factor with the first inner one. */
  lemma MulSwap(a: int, b: int, c: int)
    ensures a * (b * c) == b * (a * c)
  {
  }

  function Pow(b: nat, n: nat): nat {
    if n == 0 then 1 else b * Pow(b, n - 1)
  }

  lemma {:induction false} Pow16Monotonic(m: nat, n: nat)
    requires m <= n
    ensures Pow(16, m) <= Pow(16, n)
  {
    if m < n {
      Pow16Monotonic(m, n - 1);
    }
  }

  lemma {:induction false} PowAdd(b: nat, m: nat, n: nat)
    ensures Pow(b, m + n) == Pow(b, m) * Pow(b, n)
  {
    if n > 0 {
      PowAdd(b, m, n - 1);
      MulSwap(Pow(b, m), b, Pow(b, n - 1));
    }
  }

  lemma Pow16Values()
    ensures Pow(16, 15) == 0x1000_0000_0000_0000
    ensures Pow(16, 16) == TWO_64
  {
    assert Pow(16, 4) == 0x1_0000;
    PowAdd(16, 4, 4);
    PowAdd(16, 8, 4);
    assert Pow(16, 3) == 0x1000;
    PowAdd(16, 12, 3);
  }

  // ---------------------------------------------------------------------
  // Big-endian bytes

  /** The number a big-endian byte string denotes. */
  function DecodeBE(b: seq<Byte>): (n: nat)
    ensures n < Pow(256, |b|)
  {
    if b == [] then 0 else 256 * DecodeBE(b[..|b| - 1]) + b[|b| - 1]
  }

  /** The `len` low-order bytes of `n`, most significant first. */
  function EncodeBE(n: nat, len: nat): (b: seq<Byte>)
    ensures |b| == len
  {
    if len == 0 then [] else EncodeBE(n / 256, len - 1) + [n % 256]
  }

  lemma {:induction false} DecodeEncode(n: nat, len: nat)
    requires n < Pow(256, len)
    ensures DecodeBE(EncodeBE(n, len)) == n
  {
    if len > 0 {
      var b := EncodeBE(n, len);
      assert b[..len - 1] == EncodeBE(n / 256, len - 1);
      DecodeEncode(n / 256, len - 1);
    }
  }

  lemma {:induction false} EncodeDecode(b: seq<Byte>)
    ensures EncodeBE(DecodeBE(b), |b|) == b
  {
    if b != [] {
      var p := b[..|b| - 1];
      var n := DecodeBE(b);
      assert n / 256 == DecodeBE(p) && n % 256 == b[|b| - 1];
      EncodeDecode(p);
      assert b == p + [b[|b| - 1]];
    }
  }

  /** The leading byte of `n + 1` bytes weighs 256^n. */
  lemma {:induction false} DecodeFront(b: seq<Byte>)
    requires |b| > 0
    ensures DecodeBE(b) == b[0] * Pow(256, |b| - 1) + DecodeBE(b[1..])
  {
    if |b| == 1 {
      assert b[1..] == [];
    } else {
      var p := b[..|b| - 1];
      DecodeFront(p);
      assert p[1..] == b[1..][..|b| - 2];
      calc {
        DecodeBE(b);
        256 * DecodeBE(p) + b[|b| - 1];
        256 * (b[0] * Pow(256, |b| - 2) + DecodeBE(p[1..])) + b[|b| - 1];
        { MulSwap(256, b[0], Pow(256, |b| - 2)); }
        b[0] * Pow(256, |b| - 1) + 256 * DecodeBE(p[1..]) + b[|b| - 1];
      }
    }
  }

  /** The eight bytes `fromBytes` reads: indices 0 to 7, where an index past
      the end reads as `undefined`, which the bitwise operators treat as 0.
      Bytes after the eighth are not read. */
  function FirstEight(b: seq<Byte>): (r: seq<Byte>)
    ensures |r| == 8
    ensures forall i :: 0 <= i < 8 ==> r[i] == if i < |b| then b[i] else 0
    ensures |b| == 8 ==> r == b
  {
    if |b| >= 8 then b[..8] else b + seq(8 - |b|, _ => 0)
  }

  /** `fromBytes(bytes, false)`: big-endian, two's complement. */
  function FromBytes(b: seq<Byte>): Int64 {
    Wrap(DecodeBE(FirstEight(b)))
  }

  /** `toBytes()`: the 64-bit pattern of `x` as eight big-endian bytes. */
  function ToBytes(x: Int64): (b: seq<Byte>)
    ensures |b| == 8
  {
    EncodeBE(x % TWO_64, 8)
  }

  lemma Pow256Of8()
    ensures Pow(256, 8) == TWO_64
    ensures Pow(256, 7) * 128 == TWO_63
  {
  }

  /** The bytes of `MAX_VALUE`. */
  lemma MaxValueBytes()
    ensures ToBytes(MAX_VALUE) == [127, 255, 255, 255, 255, 255, 255, 255]
  {
    assert EncodeBE(0x7fff_ffff_ffff_ffff, 8) == [127, 255, 255, 255, 255, 255, 255, 255];
  }

  lemma FromBytesToBytes(x: Int64)
    ensures FromBytes(ToBytes(x)) == x
  {
    assert FirstEight(ToBytes(x)) == ToBytes(x);
    Pow256Of8();
    DecodeEncode(x % TWO_64, 8);
    WrapUnique(x % TWO_64, x);
  }

  lemma ToBytesFromBytes(b: seq<Byte>)
    requires |b| == 8
    ensures ToBytes(FromBytes(b)) == b
  {
    assert FirstEight(b) == b;
    Pow256Of8();
    var n := DecodeBE(b);
    assert FromBytes(b) % TWO_64 == n;
    EncodeDecode(b);
  }

  /** The sign of `fromBytes` is the top bit of the first byte. */
  lemma FromBytesNegative(b: seq<Byte>)
    requires |b| == 8
    ensures FromBytes(b) < 0 <==> b[0] >= 128
    ensures FromBytes(b) >= 0 ==> FromBytes(b) == DecodeBE(b)
  {
    assert FirstEight(b) == b;
    Pow256Of8();
    DecodeFront(b);
    var rest := DecodeBE(b[1..]);
    assert rest < Pow(256, 7);
    if b[0] >= 128 {
      assert b[0] * Pow(256, 7) >= 128 * Pow(256, 7);
    } else {
      assert b[0] * Pow(256, 7) <= 127 * Pow(256, 7);
    }
  }
}
