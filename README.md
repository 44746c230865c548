# tai64 — a verified model of TAI64 labels and the leap-second table

This project models the core of the `tai64` TypeScript library in Dafny:

- **Leap seconds** (`leap_seconds.dfy`, module `LeapSeconds`). The library
  keeps a table of 28 rows from 1972 to 2017, latest first: the starting
  offset of 1972 and the 27 leap seconds after it. Each
  row holds the UNIX second from which TAI is ahead of UTC, and the
  cumulative offset in seconds. `addLeapSeconds` turns a UNIX timestamp into
  one with the leap seconds counted. It does this with `Array.prototype.find`
  for the first row whose threshold has passed. `removeLeapSeconds` is the
  inverse lookup. `getLeapSeconds` is what `addLeapSeconds` adds.
- **The `long` library** (`long.dfy`, module `Long`). This is the part of the
  signed 64-bit integer type that the TAI64 class relies on. It is stated on
  mathematical integers, with the two's-complement wrap-around written out.
  It covers `add`, `fromNumber`, `shiftRight(1)`, `fromString(_, false, 16)`,
  `toString(16)`, `fromBytes` and `toBytes`.
- **TAI64 labels** (`tai64.dfy`, module `Tai64`). This covers:
  - the `TAI64` value type and its private constructor, which raises
    `LabelRangeError` unless `0 <= label < Long.MAX_VALUE`;
  - the `EPOCH` constant (2^62);
  - the factories `fromDate`, `fromHexString` and `fromByteArray`;
  - `add`, `toHexString` and `toByteArray`;
  - the comparisons the test suite uses;
  - the `tai64` helper that dispatches on its argument's kind.

Every operation is pure, so the model is made of datatypes, functions and
lemmas. A thrown `LabelRangeError` becomes the `Err` case of a `Result`.
`now()` reads the clock. In the model the clock's reading is a parameter
(`clockMillis`) of the dispatcher `Tai64Of`.

The label range follows the code. The constructor rejects
`label >= Long.MAX_VALUE`, so the accepted range is [0, 2^63 - 1), and
2^63 - 1 itself is refused (src/TAI64.ts:59; the tests at
test/TAI64.test.ts:44-49 and 77-82 expect exactly this).

`getLeapSeconds` is imported by src/TAI64.ts from a module that is not part
of this model. It is modelled as the offset `addLeapSeconds` applies:
`GetLeapSeconds(t) == AddLeapSeconds(t) - t`.

`compareTo`, `isBefore`, `isAfter` and `isEqual` do not appear in
src/TAI64.ts. The test suite calls them, so they are modelled from the tests
as comparisons of the labels.

## Model

| member | source | states |
|---|---|---|
| `LeapSeconds.Find` | src/leapSeconds.ts:73 | `find` returns the first index whose row satisfies the predicate. No earlier row satisfies it. The length of the table stands for `undefined`. |
| `LeapSeconds.FindIsFirst` | src/leapSeconds.ts:73 | Any index that is the first row satisfying the predicate is what `find` returns. |
| `LeapSeconds.TableThresholdsDescend` | src/leapSeconds.ts:35-64 | The table has 28 rows, and their thresholds strictly decrease. |
| `LeapSeconds.TableOffsetsStep` | src/leapSeconds.ts:35-64 | Each row's offset is one more than the next row's. |
| `LeapSeconds.TableShape` | src/leapSeconds.ts:35-64 | `Table` is the source's array, row by row. The table is well formed: descending, one leap second per row, no negative offset. Its first row is (2017-01-01, 37) and its last is (1972-01-01, 10). |
| `LeapSeconds.TableOffsets` | src/leapSeconds.ts:35-64 | Row `i` has offset `37 - i`. |
| `LeapSeconds.DescendingPairwise` | src/leapSeconds.ts:35-64 | In a descending table, any two rows `i < j` have decreasing thresholds. Their offsets differ by `j - i`. |
| `LeapSeconds.OffsetRange` | src/leapSeconds.ts:35-64 | In a well-formed table every offset lies between 0 and the first row's offset. |
| `LeapSeconds.Holds` | src/leapSeconds.ts:73-85 | Defined by its body: the two callbacks passed to `find`, `timestamp >= ts` and `timestamp - offset >= ts`. Their meaning is stated by `AddInIsLatest` and `RemoveInAddIn`. |
| `LeapSeconds.AddLeapSecondsIn` | src/leapSeconds.ts:72-75 | Defined by its body: the body of `addLeapSeconds` over any table. Its properties are the `AddIn…` lemmas below. |
| `LeapSeconds.RemoveLeapSecondsIn` | src/leapSeconds.ts:83-88 | Defined by its body: the body of `removeLeapSeconds` over any table. Its properties are `RemoveInGap` and `RemoveInAddIn`. |
| `LeapSeconds.AddLeapSeconds` | src/leapSeconds.ts:72-75 | Defined by its body: `AddLeapSecondsIn` over `Table`. Stated by `AddLeapSecondsBetween`, `GetLeapSecondsIsLatest`, `AddLeapSecondsIncreasing` and `OffsetBounds`. |
| `LeapSeconds.RemoveLeapSeconds` | src/leapSeconds.ts:83-88 | Defined by its body: `RemoveLeapSecondsIn` over `Table`. Stated by `RemoveAddLeapSeconds` and `RemoveLeapSecondsInGap`. |
| `LeapSeconds.AddInBetween` | src/leapSeconds.ts:72-75 | Over any descending table, a timestamp between row `i`'s threshold and row `i-1`'s gets row `i`'s offset. |
| `LeapSeconds.AddInBefore` | src/leapSeconds.ts:72-75 | Over any descending table, a timestamp before the earliest threshold is unchanged (`find` gives `undefined`, so 0 is added). |
| `LeapSeconds.OffsetInBounds` | src/leapSeconds.ts:72-88 | Over any well-formed table, both lookups move a timestamp by 0 up to the latest offset, in their respective directions. |
| `LeapSeconds.AddInIsLatest` | src/leapSeconds.ts:72-75 | Over any descending table, `addLeapSeconds` adds the offset of the latest row whose threshold has passed, or 0. This is checked against the reference definition `IsLatestOffset`. |
| `LeapSeconds.RemoveInGap` | src/leapSeconds.ts:83-88 | Over any well-formed table, `removeLeapSeconds` leaves unchanged the first `offset` seconds after the earliest threshold. |
| `LeapSeconds.AddInIncreasing` | src/leapSeconds.ts:72-75 | Over any well-formed table, `addLeapSeconds` is strictly increasing. |
| `LeapSeconds.RemoveInAddIn` | src/leapSeconds.ts:72-88 | Over any well-formed table, `removeLeapSeconds` undoes `addLeapSeconds`. |
| `LeapSeconds.AddLeapSecondsBetween` | src/leapSeconds.ts:72-75 | Between two thresholds of the real table, `addLeapSeconds` adds the earlier row's offset. |
| `LeapSeconds.AddLeapSecondsBeforeTable` | src/leapSeconds.ts:72-75 | Before 1972-01-01, `addLeapSeconds` returns its argument. This is also the test's 1969 case. |
| `LeapSeconds.AddLeapSecondsAfterTable` | src/leapSeconds.ts:72-75 | From 2017-01-01 on, `addLeapSeconds` adds 37. |
| `LeapSeconds.OffsetBounds` | src/leapSeconds.ts:72-88 | `addLeapSeconds` adds between 0 and 37 seconds, and `removeLeapSeconds` takes off between 0 and 37. |
| `LeapSeconds.GetLeapSeconds` | src/TAI64.ts:26 | `getLeapSeconds(t)` lies in [0, 37] and is exactly what `addLeapSeconds(t)` adds to `t`. |
| `LeapSeconds.GetLeapSecondsIsLatest` | src/leapSeconds.ts:72-75 | `getLeapSeconds(t)` is the offset of the latest leap second at or before `t`, or 0 before 1972. |
| `LeapSeconds.AddLeapSecondsIncreasing` | src/leapSeconds.ts:72-75 | Later UNIX seconds map to strictly later timestamps with leap seconds counted. |
| `LeapSeconds.AddLeapSecondsInjective` | src/leapSeconds.ts:72-75 | Distinct UNIX seconds never get the same timestamp with leap seconds counted. |
| `LeapSeconds.RemoveAddLeapSeconds` | src/leapSeconds.ts:72-88 | `removeLeapSeconds(addLeapSeconds(t)) == t` for every `t`. |
| `LeapSeconds.RemoveLeapSecondsInGap` | src/leapSeconds.ts:83-88 | The ten seconds from 1972-01-01 that `addLeapSeconds` never produces are returned unchanged by `removeLeapSeconds`. |
| `LeapSeconds.RemoveLeapSecondsNotMonotonic` | src/leapSeconds.ts:83-88 | Because of that gap, `removeLeapSeconds` is not monotonic. It is also not a right inverse of `addLeapSeconds` there. |
| `LeapSeconds.GetLeapSecondsAround1988` | test/LeapSeconds.test.ts:39-61 | Throughout 1985-07-01 to 1990-01-01, `getLeapSeconds` is 23 before 1988-01-01 and 24 from then on. |
| `LeapSeconds.GetLeapSecondsFrom1972` | src/leapSeconds.ts:62-63 | From 1972-01-01 to the 1972-07-01 leap second, `getLeapSeconds` is 10. |
| `Long.Wrap` | src/TAI64.ts:68 | The signed 64-bit result differs from the mathematical value by a multiple of 2^64. |
| `Long.WrapUnique` | src/TAI64.ts:68 | Only one signed 64-bit value is congruent to a given integer modulo 2^64. |
| `Long.Add` | src/TAI64.ts:68 | Defined by its body: the sum, wrapped by `Wrap`. Stated by `Tai64.AddSucceedsIff`. |
| `Long.FromNumber` | src/TAI64.ts:67 | `Long.fromNumber` is exact inside the 64-bit range and saturates at `MIN_VALUE`/`MAX_VALUE` outside it. |
| `Long.ShiftRight1` | src/TAI64.ts:30 | `shiftRight(1)` halves, rounding down. |
| `Long.DigitValue` | src/TAI64.ts:45 | A hex digit of either case denotes a value below 16. |
| `Long.DigitChar` | src/TAI64.ts:74 | The digit `toString(16)` prints is lower case and denotes the digit value. |
| `Long.HexValue` | src/TAI64.ts:45 | A string of `n` hex digits denotes a number below 16^n. |
| `Long.FromHexString` | src/TAI64.ts:45 | Defined by its body: the string's value, wrapped to 64 bits. Stated by `Tai64.FromHexString16` and `Tai64.FromHexStringWrapsLongString`. |
| `Long.ToHexString` | src/TAI64.ts:74 | `toString(16)` of a non-negative value is lower-case hex with no leading zero. |
| `Long.HexValueOfToHexString` | src/TAI64.ts:74 | The digits `toString(16)` prints denote the value printed. |
| `Long.ToHexStringOfHexValue` | src/TAI64.ts:74 | A canonical hex string is what `toString(16)` prints for the value it denotes. |
| `Long.HexValuePositive` | src/TAI64.ts:45 | A string of hex digits, in either case, whose first digit is not `0` denotes a positive number. |
| `Long.ToHexStringShift` | src/TAI64.ts:74 | A digit times 16^n prints as that digit followed by n zeros. |
| `Long.DecodeBE` | src/TAI64.ts:51 | `n` big-endian bytes denote a number below 256^n. |
| `Long.EncodeBE` | src/TAI64.ts:78 | Encoding to `len` bytes gives exactly `len` bytes. |
| `Long.DecodeEncode` | src/TAI64.ts:78 | Decoding the bytes of a number that fits gives the number back. |
| `Long.EncodeDecode` | src/TAI64.ts:51 | Encoding the value of a byte string at its own length gives the bytes back. |
| `Long.FirstEight` | src/TAI64.ts:51 | `fromBytes` reads indices 0 to 7. Missing ones read as 0, later ones are ignored, and eight bytes are read as they are. |
| `Long.FromBytes` | src/TAI64.ts:51 | Defined by its body: the big-endian value of the eight bytes read, wrapped to 64 bits. Stated by `FromBytesNegative` and the two byte round trips. |
| `Long.ToBytes` | src/TAI64.ts:78 | `toBytes()` gives eight bytes. Their content is stated by `FromBytesToBytes` and `ToBytesFromBytes`. |
| `Long.MaxValueBytes` | test/TAI64.test.ts:77-82 | The bytes of `MAX_VALUE` are `[127, 255, …, 255]`. |
| `Long.FromBytesToBytes` | src/TAI64.ts:77-79 | `fromBytes(toBytes(x)) == x` for every 64-bit value. |
| `Long.ToBytesFromBytes` | src/TAI64.ts:50-54 | `toBytes(fromBytes(b)) == b` for every eight bytes. |
| `Long.FromBytesNegative` | src/TAI64.ts:50-54 | Eight bytes read as negative exactly when the top bit of the first byte is set. Otherwise they read as their unsigned value. |
| `Tai64.New` | src/TAI64.ts:58-64 | The constructor succeeds exactly when `0 <= label < MAX_VALUE`, and then keeps the label. Otherwise it raises `LabelRangeError`. |
| `Tai64.EpochLabelIs2To62` | src/TAI64.ts:30 | `EpochLabel`, which is `MAX_VALUE.shiftRight(1).add(1)`, is 2^62, and the constructor accepts it as the constant `EPOCH`. |
| `Tai64.EpochHexString` | test/TAI64.test.ts:192-197 | `EPOCH.toHexString()` is `"4000000000000000"`. |
| `Tai64.EpochByteArray` | test/TAI64.test.ts:184-189 | `EPOCH.toByteArray()` is `[64, 0, 0, 0, 0, 0, 0, 0]`. |
| `Tai64.EpochFromEncodings` | test/TAI64.test.ts:36-75 | Both encodings of `EPOCH` read back as `EPOCH`. |
| `Tai64.TAI64.Add` | src/TAI64.ts:66-71 | Defined by its body: `fromNumber`, the wrapping `add`, then the constructor. Stated by `AddSucceedsIff`. |
| `Tai64.AddSucceedsIff` | src/TAI64.ts:66-71 | `add(seconds)` succeeds exactly when `label + seconds` is a valid label, and then yields it. Neither saturation nor wrap-around lets an out-of-range sum through. |
| `Tai64.FromDate` | src/TAI64.ts:38-42 | Defined by its body: `EPOCH.add(timestamp + getLeapSeconds(timestamp))` with `timestamp` the second rounded down. Stated by the `FromDate…` lemmas below. |
| `Tai64.FromDateLabel` | src/TAI64.ts:38-42 | `fromDate` gives `EPOCH` plus `addLeapSeconds` of the whole UNIX second, rounded down, and fails exactly when that is out of range. |
| `Tai64.FromDateOfValidDate` | src/TAI64.ts:38-42 | Every date a JavaScript `Date` can hold has a label. |
| `Tai64.FromDateAtEpoch` | src/TAI64.ts:38-42 | The first second of 1970 (UTC) maps to `EPOCH`. |
| `Tai64.FromDateMonotonic` | src/TAI64.ts:38-42 | Later dates never get earlier labels. Dates in different seconds get strictly ordered labels. |
| `Tai64.FromDateAfterEpoch` | test/TAI64.test.ts:92-98 | Any date from 1970-01-01T00:00:01Z on is after `EPOCH`, and `EPOCH` is before it. |
| `Tai64.FromHexString` | src/TAI64.ts:44-48 | Defined by its body: the wrapped value of the string, through the constructor. Stated by `FromHexString16`, `HexRoundTrip` and `FromHexStringWrapsLongString`. |
| `Tai64.TAI64.ToHexString` | src/TAI64.ts:73-75 | Defined by its body: `toString(16)` of the label. Stated by `HexRoundTrip`, `HexStringRoundTrip` and `EpochHexString`. |
| `Tai64.HexRoundTrip` | src/TAI64.ts:44-75 | `fromHexString(x.toHexString())` is `x`. |
| `Tai64.HexStringRoundTrip` | src/TAI64.ts:44-75 | A canonical string of at most 16 digits that `fromHexString` accepts is what `toHexString` prints for the result. |
| `Tai64.FromHexString16` | src/TAI64.ts:44-48 | A 16-digit string is accepted exactly when its first digit is below 8 and it is not `MAX_VALUE`. |
| `Tai64.FromHexStringRejectsMax` | test/TAI64.test.ts:44-49 | `"7fffffffffffffff"` is rejected. |
| `Tai64.FromHexStringRejectsNegative` | test/TAI64.test.ts:51-56 | `"ffffffffffffffff"` is rejected. |
| `Tai64.FromHexStringWrapsLongString` | src/TAI64.ts:44-48 | As written, `"10000000000000000"` (2^64) is accepted as the label 0. The checked reading rejects it. |
| `Tai64.FromHexStringChecked` | test/TAI64.test.ts:44-56 | The intended `fromHexString` accepts exactly the strings whose value is a valid label, and yields that value. |
| `Tai64.FromHexStringCheckedAgrees` | src/TAI64.ts:44-48 | On strings of at most 16 digits, the checked reading and the code as written agree. |
| `Tai64.FromByteArray` | src/TAI64.ts:50-54 | Defined by its body: `fromBytes` of the array, through the constructor. Stated by `FromByteArraySucceedsIff` and `FromByteArrayOtherLengths`. |
| `Tai64.TAI64.ToByteArray` | src/TAI64.ts:77-79 | Defined by its body: `toBytes()` of the label. Stated by `ByteRoundTrip`, `ByteArrayRoundTrip` and `EpochByteArray`. |
| `Tai64.ByteRoundTrip` | src/TAI64.ts:50-79 | `toByteArray` gives eight bytes with the first below 128, and `fromByteArray` reads them back as `x`. |
| `Tai64.ByteArrayRoundTrip` | src/TAI64.ts:50-79 | Eight bytes that `fromByteArray` accepts are what `toByteArray` prints for the result. |
| `Tai64.FromByteArraySucceedsIff` | src/TAI64.ts:50-61 | Eight bytes are rejected exactly when the first has its top bit set, or when they are the bytes of `MAX_VALUE`. |
| `Tai64.FromByteArrayOtherLengths` | src/TAI64.ts:50-54 | A longer array reads as its first eight bytes. A shorter one reads as if padded with zero bytes. |
| `Tai64.TAI64.CompareTo` | test/TAI64.test.ts:161-182 | Defined by its body: -1, 1 or 0 by label order. Stated by `CompareToTotalOrder`. |
| `Tai64.TAI64.IsBefore` | test/TAI64.test.ts:115-136 | Defined by its body: `compareTo` is -1. Stated by `CompareToTotalOrder` and `CompareToTransitive`. |
| `Tai64.TAI64.IsAfter` | test/TAI64.test.ts:92-113 | Defined by its body: `compareTo` is 1. Stated by `CompareToTotalOrder`. |
| `Tai64.TAI64.IsEqual` | test/TAI64.test.ts:138-159 | Defined by its body: `compareTo` is 0. Stated by `CompareToTotalOrder`. |
| `Tai64.CompareToTotalOrder` | test/TAI64.test.ts:92-182 | Exactly one of before/after/equal holds. `isEqual` is equality, and swapping operands swaps before and after and negates `compareTo`. |
| `Tai64.CompareToTransitive` | test/TAI64.test.ts:92-136 | `isBefore` is transitive. |
| `Tai64.Tai64Of` | src/TAI64.ts:82-92 | Defined by its body: a `Date` goes to `fromDate`, an array to `fromByteArray`, a string to `fromHexString` as written, and no argument to `fromDate` of the clock. Stated by `Tai64OfRoundTrips` and `Tai64OfWrapsLongString`. |
| `Tai64.Tai64OfChecked` | test/TAI64.test.ts:44-56 | Defined by its body: the helper with strings read by `FromHexStringChecked`. Stated by `Tai64OfCheckedAgrees` and `Tai64OfWrapsLongString`. |
| `Tai64.Tai64OfCheckedAgrees` | src/TAI64.ts:82-92 | The checked helper and the helper as written agree on every argument except strings of more than 16 digits. |
| `Tai64.Tai64OfWrapsLongString` | src/TAI64.ts:87-88 | The helper as written accepts `"10000000000000000"` as the label 0, and the checked helper rejects it. |
| `Tai64.Tai64OfRoundTrips` | src/TAI64.ts:82-92 | The helper reads back printed bytes and strings as the same label. With no argument it is `fromDate` of the clock. |

## Left out

- `now()` reads the system clock. The clock's reading is the parameter `clockMillis` of `Tai64Of`, and `now()` is `Tai64Of(NoArg, clockMillis)`.
- JavaScript numbers are doubles. Timestamps and `add`'s argument are modelled as integers, so a fractional, infinite or NaN argument to `add` is not modelled. (`Long.fromNumber` of NaN is 0.)
- `new Date(...)` parsing and `getTime()` are not modelled. A `Date` is its millisecond count, and `Math.floor(ms / 1000)` is Dafny's `/`, which rounds down for negative counts as well.
- `Tai64.FromHexString`: requires a non-empty string of hex digits. `Long.fromString` on an empty string throws a different error, on a leading `-` it reads a negative value, a `-` elsewhere makes it throw, a `+` at the start of a chunk is read as positive by `parseInt`, and on other characters it depends on `parseInt`; none of these is modelled.
- `Tai64.FromByteArray`: elements are bytes (0–255). Larger or negative numbers in the array are not modelled: the bitwise operators in `Long.fromBytes` would OR them into the neighbouring bytes (only the first byte of each 4-byte half is truncated).
- `Long` is modelled by the values it holds, not by its two 32-bit halves. Its other methods and unsigned mode are not part of this model.
- The `LabelRangeError` class (`./LabelRangeError`) is not part of this model. It is the single error value `LabelRangeError`.
- `fromUnix` and `toString` are exercised by the test suite but are not in src/TAI64.ts, so they are not modelled.

## Findings

| source | as written | input that shows it | evidently intended | confidence | as-written member | corrected member |
|---|---|---|---|---|---|---|
| src/TAI64.ts:44-48 | `Long.fromString` reduces the string's value modulo 2^64 before the constructor's range check, so a string of more than 16 digits can wrap back into range | `"10000000000000000"` (2^64) is accepted as the label 0 | the tests at test/TAI64.test.ts:44-56 expect a value above 2^63 - 1 to be rejected | medium; not executed | `Tai64.FromHexStringWrapsLongString` (on `Tai64.FromHexString`) | `Tai64.FromHexStringChecked`, used by the checked helper `Tai64OfChecked` (`Tai64Of` keeps the code as written); `Tai64.FromHexStringCheckedAgrees` shows the two agree on every string of at most 16 digits |
