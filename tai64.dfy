/** The TAI64 label value type and its factories (src/TAI64.ts).

    A TAI64 instance wraps one signed 64-bit `label`; the private
    constructor throws `LabelRangeError` unless `0 <= label < Long.MAX_VALUE`.
    Here the constructor is the function `New`, which returns a `Result`
    instead of throwing, and the factories return what it returns. */
module Tai64 {
  import Long
  import LeapSeconds

  /** The one error the constructor raises. */
  datatype LabelRangeError = LabelRangeError

  datatype Result<T> = Ok(value: T) | Err(error: LabelRangeError)

  /** The labels the constructor accepts: [0, 2^63 - 1). */
  predicate InRange(labelValue: int) {
    0 <= labelValue < Long.MAX_VALUE
  }

  type Label = l: int | InRange(l)

  /** The argument kinds the `tai64` helper dispatches on: a `Date` (its
      `getTime()` in milliseconds), an array of bytes, a string, or nothing. */
  datatype Argument =
    | DateArg(millis: int)
    | ArrayArg(bytes: seq<Long.Byte>)
    | StringArg(text: string)
    | NoArg

  /** A TAI64 instance; `labelValue` is the source's `label` field (`label` is
      a Dafny keyword). */
  datatype TAI64 = TAI64(labelValue: Label) {

    /** `add`: a new instance `seconds` later, through the range check. */
    function Add(seconds: int): Result<TAI64> {
      New(Long.Add(labelValue, Long.FromNumber(seconds)))
    }

    /** `toHexString`. */
    function ToHexString(): string {
      Long.ToHexString(labelValue)
    }

    /** `toByteArray`. */
    function ToByteArray(): seq<Long.Byte> {
      Long.ToBytes(labelValue)
    }

    /** `compareTo`, as the test suite uses it: -1, 0 or 1 by label order. */
    function CompareTo(other: TAI64): int {
      if labelValue < other.labelValue then -1 else if labelValue > other.labelValue then 1 else 0
    }

    predicate IsBefore(other: TAI64) {
      CompareTo(other) == -1
    }

    predicate IsAfter(other: TAI64) {
      CompareTo(other) == 1
    }

    predicate IsEqual(other: TAI64) {
      CompareTo(other) == 0
    }
  }

  /** The private constructor and its range check. */
  function New(labelValue: Long.Int64): (r: Result<TAI64>)
    ensures r.Ok? <==> InRange(labelValue)
    ensures r.Ok? ==> r.value.labelValue == labelValue
  {
    if labelValue < 0 || labelValue >= Long.MAX_VALUE then Err(LabelRangeError) else Ok(TAI64(labelValue))
  }

  /** `Long.MAX_VALUE.shiftRight(1).add(1)`. */
  const EpochLabel: Long.Int64 := Long.Add(Long.ShiftRight1(Long.MAX_VALUE), 1)

  /** `EPOCH`, the label of 1970-01-01T00:00:00 TAI. */
  const EPOCH: TAI64 := TAI64(0x4000_0000_0000_0000)

  /** `fromDate`: whole UNIX seconds (rounded down), with the leap seconds
      counted, added to `EPOCH`. */
  function FromDate(millis: int): Result<TAI64> {
    var timestamp := millis / 1000;
    EPOCH.Add(timestamp + LeapSeconds.GetLeapSeconds(timestamp))
  }

  /** `fromHexString`, as written: the string's value is reduced modulo
      2^64 before the range check. */
  function FromHexString(s: string): Result<TAI64>
    requires Long.IsHexString(s)
  {
    New(Long.FromHexString(s))
  }

  /** `fromHexString` as its tests describe it: the value the string denotes
      must itself be a valid label. */
  function FromHexStringChecked(s: string): (r: Result<TAI64>)
    requires Long.IsHexString(s)
    ensures r.Ok? <==> InRange(Long.HexValue(s))
    ensures r.Ok? ==> r.value.labelValue == Long.HexValue(s)
  {
    var v := Long.HexValue(s);
    if v > Long.MAX_VALUE then Err(LabelRangeError) else New(v)
  }

  /** `fromByteArray`: only the first eight bytes count, and missing ones
      read as zero. */
  function FromByteArray(bytes: seq<Long.Byte>): Result<TAI64> {
    New(Long.FromBytes(bytes))
  }

  /** The `tai64` helper. With no argument it calls `now()`, which reads the
      clock; the clock's reading is the parameter `clockMillis`. */
  function Tai64Of(value: Argument, clockMillis: int): Result<TAI64>
    requires value.StringArg? ==> Long.IsHexString(value.text)
  {
    match value
    case DateArg(millis) => FromDate(millis)
    case ArrayArg(bytes) => FromByteArray(bytes)
    case StringArg(text) => FromHexString(text)
    case NoArg => FromDate(clockMillis)
  }

  /** The `tai64` helper with the checked reading of strings. */
  function Tai64OfChecked(value: Argument, clockMillis: int): Result<TAI64>
    requires value.StringArg? ==> Long.IsHexString(value.text)
  {
    match value
    case StringArg(text) => FromHexStringChecked(text)
    case _ => Tai64Of(value, clockMillis)
  }

  // ---------------------------------------------------------------------
  // EPOCH

  /** `EPOCH` is what the constructor makes of `MAX_VALUE >> 1 + 1`, which is
      2^62, and it is displayed as the tests expect. */
  lemma EpochLabelIs2To62()
    ensures EpochLabel == 0x4000_0000_0000_0000
    ensures New(EpochLabel) == Ok(EPOCH)
  {
  }

  lemma EpochHexString()
    ensures EPOCH.ToHexString() == "4000000000000000"
  {
    Long.Pow16Values();
    Long.ToHexStringShift(4, 15);
  }

  lemma EpochByteArray()
    ensures EPOCH.ToByteArray() == [64, 0, 0, 0, 0, 0, 0, 0]
  {
    assert Long.EncodeBE(0x4000_0000_0000_0000, 8) == [64, 0, 0, 0, 0, 0, 0, 0];
  }

  /** The encodings of `EPOCH` read back as `EPOCH`. */
  lemma EpochFromEncodings()
    ensures FromHexString("4000000000000000") == Ok(EPOCH)
    ensures FromByteArray([64, 0, 0, 0, 0, 0, 0, 0]) == Ok(EPOCH)
  {
    EpochHexString();
    HexRoundTrip(EPOCH);
    EpochByteArray();
    ByteRoundTrip(EPOCH);
  }

  // ---------------------------------------------------------------------
  // add

  /** `add` succeeds exactly when the mathematical sum is a valid label, and
      then yields it: neither the saturation of `fromNumber` nor the 64-bit
      wrap of `add` can bring an out-of-range sum back into range. */
  lemma AddSucceedsIff(x: TAI64, seconds: int)
    ensures x.Add(seconds).Ok? <==> InRange(x.labelValue + seconds)
    ensures x.Add(seconds).Ok? ==> x.Add(seconds).value.labelValue == x.labelValue + seconds
  {
    var s := Long.FromNumber(seconds);
    var sum := x.labelValue + s;
    var w := Long.Add(x.labelValue, s);
    if Long.MIN_VALUE <= sum <= Long.MAX_VALUE {
      Long.WrapUnique(sum, sum);
    } else {
      assert sum > Long.MAX_VALUE;
      Long.WrapUnique(sum, sum - Long.TWO_64);
      assert w < 0;
    }
  }

  // ---------------------------------------------------------------------
  // fromDate

  /** The label `fromDate` produces is `EPOCH` plus the UNIX second with its
      leap seconds added. */
  lemma FromDateLabel(millis: int)
    ensures FromDate(millis).Ok? <==> InRange(EPOCH.labelValue + LeapSeconds.AddLeapSeconds(millis / 1000))
    ensures FromDate(millis).Ok? ==>
      FromDate(millis).value.labelValue == EPOCH.labelValue + LeapSeconds.AddLeapSeconds(millis / 1000)
  {
    var t := millis / 1000;
    AddSucceedsIff(EPOCH, t + LeapSeconds.GetLeapSeconds(t));
  }

  /** Every instant a JavaScript `Date` can hold (within 8.64e15 ms of the
      UNIX epoch) has a label. */
  lemma FromDateOfValidDate(millis: int)
    requires -8_640_000_000_000_000 <= millis <= 8_640_000_000_000_000
    ensures FromDate(millis).Ok?
  {
    FromDateLabel(millis);
    LeapSeconds.OffsetBounds(millis / 1000);
  }

  /** The first second of 1970 (UTC) is `EPOCH`. */
  lemma FromDateAtEpoch(millis: int)
    requires 0 <= millis < 1000
    ensures FromDate(millis).Ok? && FromDate(millis).value == EPOCH
  {
    LeapSeconds.AddLeapSecondsBeforeTable(millis / 1000);
    FromDateLabel(millis);
  }

  /** Later dates never get earlier labels, and dates a whole second or more
      apart get different labels. */
  lemma FromDateMonotonic(m1: int, m2: int)
    requires m1 <= m2
    requires FromDate(m1).Ok? && FromDate(m2).Ok?
    ensures FromDate(m1).value.labelValue <= FromDate(m2).value.labelValue
    ensures m1 / 1000 < m2 / 1000 ==> FromDate(m1).value.IsBefore(FromDate(m2).value)
  {
    FromDateLabel(m1);
    FromDateLabel(m2);
    if m1 / 1000 < m2 / 1000 {
      LeapSeconds.AddLeapSecondsIncreasing(m1 / 1000, m2 / 1000);
    }
  }

  /** Any date from 1970-01-01T00:00:01Z on is after `EPOCH` (the test of
      `now().isAfter(EPOCH)`). */
  lemma FromDateAfterEpoch(millis: int)
    requires 1000 <= millis <= 8_640_000_000_000_000
    ensures FromDate(millis).Ok? && FromDate(millis).value.IsAfter(EPOCH)
    ensures EPOCH.IsBefore(FromDate(millis).value)
  {
    FromDateOfValidDate(millis);
    FromDateAtEpoch(0);
    FromDateMonotonic(0, millis);
  }

  // ---------------------------------------------------------------------
  // Hexadecimal strings

  /** `fromHexString(x.toHexString())` gives `x` back. */
  lemma HexRoundTrip(x: TAI64)
    ensures Long.IsHexString(x.ToHexString())
    ensures FromHexString(x.ToHexString()) == Ok(x)
  {
    Long.HexValueOfToHexString(x.labelValue);
    Long.WrapUnique(x.labelValue, x.labelValue);
  }

  /** Conversely, a canonical string (lower case, no leading zero) of at most
      16 digits that `fromHexString` accepts is exactly what `toHexString`
      prints. Longer strings wrap (`FromHexStringWrapsLongString`). */
  lemma HexStringRoundTrip(s: string)
    requires Long.IsCanonicalHex(s) && |s| <= 16
    requires Long.IsHexString(s) && FromHexString(s).Ok?
    ensures FromHexString(s).value.ToHexString() == s
  {
    var v := Long.HexValue(s);
    Long.Pow16Monotonic(|s|, 16);
    Long.Pow16Values();
    if v > Long.MAX_VALUE {
      Long.WrapUnique(v, v - Long.TWO_64);
    } else {
      Long.WrapUnique(v, v);
    }
    Long.ToHexStringOfHexValue(s);
  }

  /** A string of 16 digits is read as signed: it is rejected when its first
      digit is 8 or more (the label would be negative) and when it is
      "7fffffffffffffff" (the label would be `MAX_VALUE`); every other one is
      accepted. */
  lemma FromHexString16(s: string)
    requires |s| == 16 && Long.IsHexString(s)
    ensures FromHexString(s).Ok? <==>
      Long.DigitValue(s[0]) < 8 && Long.HexValue(s) != Long.MAX_VALUE
  {
    Long.HexValueFront(s);
    Long.Pow16Values();
    var v, d := Long.HexValue(s), Long.DigitValue(s[0]);
    assert v == d * 0x1000_0000_0000_0000 + Long.HexValue(s[1..]);
    if d >= 8 {
      Long.WrapUnique(v, v - Long.TWO_64);
      assert Long.FromHexString(s) < 0;
    } else {
      Long.WrapUnique(v, v);
      assert Long.FromHexString(s) == v;
    }
  }

  /** `MAX_VALUE` in hex is rejected, as the test suite expects. */
  lemma FromHexStringRejectsMax()
    ensures Long.IsHexString("7fffffffffffffff") && FromHexString("7fffffffffffffff").Err?
  {
    var s := "7fffffffffffffff";
    Long.HexValueFront(s);
    Long.HexValueRepeated(s[1..], 'f');
    Long.Pow16Values();
    FromHexString16(s);
  }

  /** A hex string of 16 digits with the sign bit set is rejected, as the
      test suite expects. */
  lemma FromHexStringRejectsNegative()
    ensures Long.IsHexString("ffffffffffffffff") && FromHexString("ffffffffffffffff").Err?
  {
    FromHexString16("ffffffffffffffff");
  }

  /** A string of 17 digits whose value, 2^64, is far above `MAX_VALUE`
      wraps to 0 and is accepted as the label 0. */
  lemma FromHexStringWrapsLongString()
    ensures Long.IsHexString("10000000000000000")
    ensures Long.HexValue("10000000000000000") > Long.MAX_VALUE
    ensures FromHexString("10000000000000000") == Ok(TAI64(0))
    ensures FromHexStringChecked("10000000000000000").Err?
  {
    var s := "10000000000000000";
    Long.HexValueFront(s);
    Long.HexValueRepeated(s[1..], '0');
    Long.Pow16Values();
    Long.WrapUnique(Long.TWO_64, 0);
  }

  /** Up to 16 digits, which covers every string `toHexString` produces, the
      checked reading and the one as written agree. */
  lemma FromHexStringCheckedAgrees(s: string)
    requires Long.IsHexString(s) && |s| <= 16
    ensures FromHexStringChecked(s) == FromHexString(s)
  {
    var v := Long.HexValue(s);
    Long.Pow16Monotonic(|s|, 16);
    Long.Pow16Values();
    if v > Long.MAX_VALUE {
      Long.WrapUnique(v, v - Long.TWO_64);
    } else {
      Long.WrapUnique(v, v);
    }
  }

  // ---------------------------------------------------------------------
  // Byte arrays

  /** `toByteArray` gives eight bytes, the first below 128 (the label is never
      negative), and `fromByteArray` reads them back as the same label. */
  lemma ByteRoundTrip(x: TAI64)
    ensures |x.ToByteArray()| == 8 && x.ToByteArray()[0] < 128
    ensures FromByteArray(x.ToByteArray()) == Ok(x)
  {
    Long.FromBytesToBytes(x.labelValue);
    Long.FromBytesNegative(x.ToByteArray());
  }

  /** Conversely, eight bytes that `fromByteArray` accepts are exactly what
      `toByteArray` returns for the result. */
  lemma ByteArrayRoundTrip(bytes: seq<Long.Byte>)
    requires |bytes| == 8 && FromByteArray(bytes).Ok?
    ensures FromByteArray(bytes).value.ToByteArray() == bytes
  {
    Long.ToBytesFromBytes(bytes);
  }

  /** `fromByteArray` rejects exactly the arrays whose first byte has its top
      bit set (a negative label) and the array of `MAX_VALUE`. */
  lemma FromByteArraySucceedsIff(bytes: seq<Long.Byte>)
    requires |bytes| == 8
    ensures FromByteArray(bytes).Ok? <==>
      bytes[0] < 128 && bytes != [127, 255, 255, 255, 255, 255, 255, 255]
  {
    Long.FromBytesNegative(bytes);
    Long.ToBytesFromBytes(bytes);
    Long.FromBytesToBytes(Long.MAX_VALUE);
    Long.MaxValueBytes();
  }

  /** An array of another length reads as its first eight bytes, padded with
      zero bytes at the end when it is shorter. */
  lemma FromByteArrayOtherLengths(bytes: seq<Long.Byte>)
    ensures |bytes| > 8 ==> FromByteArray(bytes) == FromByteArray(bytes[..8])
    ensures |bytes| < 8 ==>
      FromByteArray(bytes) == FromByteArray(bytes + seq(8 - |bytes|, _ => 0))
  {
    if |bytes| > 8 {
      assert Long.FirstEight(bytes) == Long.FirstEight(bytes[..8]);
    } else if |bytes| < 8 {
      var padded: seq<Long.Byte> := bytes + seq(8 - |bytes|, _ => 0);
      assert Long.FirstEight(bytes) == Long.FirstEight(padded);
    }
  }

  // ---------------------------------------------------------------------
  // Comparison (exercised by the test suite)

  /** Exactly one of before, after and equal holds, `isEqual` is equality of
      the values, and swapping the operands swaps before and after. */
  lemma CompareToTotalOrder(x: TAI64, y: TAI64)
    ensures (x.IsBefore(y) && !x.IsAfter(y) && !x.IsEqual(y)) ||
            (!x.IsBefore(y) && x.IsAfter(y) && !x.IsEqual(y)) ||
            (!x.IsBefore(y) && !x.IsAfter(y) && x.IsEqual(y))
    ensures x.IsEqual(y) <==> x == y
    ensures x.IsBefore(y) <==> y.IsAfter(x)
    ensures x.CompareTo(y) == -y.CompareTo(x)
  {
  }

  lemma CompareToTransitive(x: TAI64, y: TAI64, z: TAI64)
    requires x.IsBefore(y) && y.IsBefore(z)
    ensures x.IsBefore(z)
  {
  }

  // ---------------------------------------------------------------------
  // The `tai64` helper

  /** The checked helper differs from the helper as written only on strings
      of more than 16 digits. */
  lemma Tai64OfCheckedAgrees(value: Argument, clockMillis: int)
    requires value.StringArg? ==> Long.IsHexString(value.text) && |value.text| <= 16
    ensures Tai64OfChecked(value, clockMillis) == Tai64Of(value, clockMillis)
  {
    if value.StringArg? {
      FromHexStringCheckedAgrees(value.text);
    }
  }

  /** The helper as written accepts the 17-digit string that wraps to 0; the
      checked helper rejects it. */
  lemma Tai64OfWrapsLongString(clockMillis: int)
    ensures Long.IsHexString("10000000000000000")
    ensures Tai64Of(StringArg("10000000000000000"), clockMillis) == Ok(TAI64(0))
    ensures Tai64OfChecked(StringArg("10000000000000000"), clockMillis).Err?
  {
    FromHexStringWrapsLongString();
  }

  /** Whatever the argument kind, the helper agrees with the factory for it:
      bytes and strings printed from a label come back as that label, and no
      argument means the clock's date. */
  lemma Tai64OfRoundTrips(x: TAI64, clockMillis: int)
    ensures Tai64Of(ArrayArg(x.ToByteArray()), clockMillis) == Ok(x)
    ensures Long.IsHexString(x.ToHexString()) && Tai64Of(StringArg(x.ToHexString()), clockMillis) == Ok(x)
    ensures Tai64Of(NoArg, clockMillis) == Tai64Of(DateArg(clockMillis), clockMillis)
  {
    ByteRoundTrip(x);
    HexRoundTrip(x);
    Long.HexValueOfToHexString(x.labelValue);
  }
}
