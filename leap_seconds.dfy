/** The historical leap-second table and the two lookups built on it
    (src/leapSeconds.ts). Timestamps are whole seconds; JavaScript numbers
    are exact integers in the range these functions are used on, so they are
    modelled as `int`. */
module LeapSeconds {

  /** One row of the table: from UNIX second `threshold` on, TAI is ahead of
      UTC by `offset` seconds (the cumulative number of leap seconds). */
  datatype Entry = Entry(threshold: int, offset: int)

  /** The table, latest leap second first. */
  const Table: seq<Entry> := [
    Entry(1483228800, 37),
    Entry(1435708800, 36),
    Entry(1341100800, 35),
    Entry(1230768000, 34),
    Entry(1136073600, 33),
    Entry(915148800, 32),
    Entry(867715200, 31),
    Entry(820454400, 30),
    Entry(773020800, 29),
    Entry(741484800, 28),
    Entry(709948800, 27),
    Entry(662688000, 26),
    Entry(631152000, 25),
    Entry(567993600, 24),
    Entry(489024000, 23),
    Entry(425865600, 22),
    Entry(394329600, 21),
    Entry(362793600, 20),
    Entry(315532800, 19),
    Entry(283996800, 18),
    Entry(252460800, 17),
    Entry(220924800, 16),
    Entry(189302400, 15),
    Entry(157766400, 14),
    Entry(126230400, 13),
    Entry(94694400, 12),
    Entry(78796800, 11),
    Entry(63072000, 10)
  ]

  /** 1972-01-01T00:00:00Z, the threshold of the earliest entry. */
  const FirstThreshold: int := 63072000
  /** 2017-01-01T00:00:00Z, the threshold of the latest entry. */
  const LastThreshold: int := 1483228800
  /** The cumulative offset of the latest entry. */
  const MaxOffset: int := 37

  /** Consecutive entries have strictly descending thresholds, and each
      entry adds exactly one leap second to the one after it. */
  predicate Descending(s: seq<Entry>) {
    forall i :: 0 <= i < |s| - 1 ==>
      s[i].threshold > s[i + 1].threshold && s[i].offset == s[i + 1].offset + 1
  }

  /** `Array.prototype.find`: the index of the first element of `s` that
      satisfies `p`, or `|s|` when none does (`undefined` in the source). */
  function Find(s: seq<Entry>, p: Predicate): (i: nat)
    ensures i <= |s|
    ensures i < |s| ==> Holds(p, s[i])
    ensures forall j :: 0 <= j < i ==> !Holds(p, s[j])
  {
    if s == [] then 0
    else if Holds(p, s[0]) then 0
    else 1 + Find(s[1..], p)
  }

  /** A table the lookups are meant for: sorted latest first, one leap second
      per entry, and no negative offset. */
  predicate WellFormed(s: seq<Entry>) {
    Descending(s) && (|s| > 0 ==> s[|s| - 1].offset >= 0)
  }

  /** The offset of the entry `find` returned, or 0 when it returned nothing. */
  function OffsetAt(s: seq<Entry>, i: nat): int
    requires i <= |s|
  {
    if i < |s| then s[i].offset else 0
  }

  /** The two predicates the source passes to `find`, as data:
      `ReachedBy(t)` holds of an entry whose leap second has happened by UNIX
      time `t`; `ReachedByTai(x)` of one whose leap second has happened by
      TAI-based time `x` once the entry's offset is taken off. */
  datatype Predicate = ReachedBy(t: int) | ReachedByTai(x: int)

  predicate Holds(p: Predicate, e: Entry) {
    match p
    case ReachedBy(t) => t >= e.threshold
    case ReachedByTai(x) => x - e.offset >= e.threshold
  }

  /** The body of `addLeapSeconds`, over a given table. */
  function AddLeapSecondsIn(s: seq<Entry>, t: int): int {
    t + OffsetAt(s, Find(s, ReachedBy(t)))
  }

  /** The body of `removeLeapSeconds`, over a given table. */
  function RemoveLeapSecondsIn(s: seq<Entry>, x: int): int {
    x - OffsetAt(s, Find(s, ReachedByTai(x)))
  }

  /** `addLeapSeconds`: UNIX time to the same instant with leap seconds counted. */
  function AddLeapSeconds(t: int): int {
    AddLeapSecondsIn(Table, t)
  }

  /** `removeLeapSeconds`: the inverse lookup. */
  function RemoveLeapSeconds(x: int): int {
    RemoveLeapSecondsIn(Table, x)
  }

  /** `getLeapSeconds` (imported by src/TAI64.ts from a module that is not
      part of this model): the offset `addLeapSeconds` applies at `t`. */
  function GetLeapSeconds(t: int): (r: int)
    ensures 0 <= r <= MaxOffset
    ensures AddLeapSeconds(t) == t + r
  {
    OffsetBounds(t);
    AddLeapSeconds(t) - t
  }

  // ---------------------------------------------------------------------
  // Facts about `find` and about any well-formed table

  /** `Find` is determined by its contract: the first index satisfying `p`. */
  lemma FindIsFirst(s: seq<Entry>, p: Predicate, k: nat)
    requires k <= |s|
    requires k < |s| ==> Holds(p, s[k])
    requires forall j :: 0 <= j < k ==> !Holds(p, s[j])
    ensures Find(s, p) == k
  {
  }

  /** Descending between neighbours gives descending between any two entries. */
  lemma {:induction false} DescendingPairwise(s: seq<Entry>, i: nat, j: nat)
    requires Descending(s)
    requires i < j < |s|
    ensures s[i].threshold > s[j].threshold
    ensures s[i].offset - s[j].offset == j - i
  {
    if j > i + 1 {
      DescendingPairwise(s, i, j - 1);
    }
  }

  /** Every offset of a well-formed table lies between 0 and the first one. */
  lemma OffsetRange(s: seq<Entry>, i: nat)
    requires WellFormed(s)
    requires i < |s|
    ensures 0 <= s[i].offset <= s[0].offset
  {
    if i > 0 {
      DescendingPairwise(s, 0, i);
    }
    if i < |s| - 1 {
      DescendingPairwise(s, i, |s| - 1);
    }
  }

  lemma AddInBetween(s: seq<Entry>, i: nat, t: int)
    requires Descending(s)
    requires i < |s|
    requires s[i].threshold <= t
    requires i == 0 || t < s[i - 1].threshold
    ensures AddLeapSecondsIn(s, t) == t + s[i].offset
  {
    forall j | 0 <= j < i
      ensures !Holds(ReachedBy(t), s[j])
    {
      if j < i - 1 {
        DescendingPairwise(s, j, i - 1);
      }
    }
    FindIsFirst(s, ReachedBy(t), i);
  }

  lemma AddInBefore(s: seq<Entry>, t: int)
    requires Descending(s)
    requires |s| > 0 && t < s[|s| - 1].threshold
    ensures AddLeapSecondsIn(s, t) == t
  {
    forall j | 0 <= j < |s|
      ensures !Holds(ReachedBy(t), s[j])
    {
      if j < |s| - 1 {
        DescendingPairwise(s, j, |s| - 1);
      }
    }
    FindIsFirst(s, ReachedBy(t), |s|);
  }

  lemma OffsetInBounds(s: seq<Entry>, t: int)
    requires WellFormed(s) && |s| > 0
    ensures 0 <= AddLeapSecondsIn(s, t) - t <= s[0].offset
    ensures 0 <= t - RemoveLeapSecondsIn(s, t) <= s[0].offset
  {
    OffsetRange(s, 0);
    var i := Find(s, ReachedBy(t));
    if i < |s| {
      OffsetRange(s, i);
    }
    var k := Find(s, ReachedByTai(t));
    if k < |s| {
      OffsetRange(s, k);
    }
  }

  lemma AddInIsLatest(s: seq<Entry>, t: int)
    requires Descending(s)
    ensures IsLatestOffset(s, t, AddLeapSecondsIn(s, t) - t)
  {
    var i := Find(s, ReachedBy(t));
    forall j | 0 <= j < |s| && s[j].threshold <= t
      ensures i < |s| && s[j].threshold <= s[i].threshold
    {
      if i < j {
        DescendingPairwise(s, i, j);
      }
    }
  }

  /** The `o` seconds right after the last (earliest) threshold `T`, whose
      offset is `o`, are never produced by the forward lookup, and the inverse
      passes them through unchanged. */
  lemma RemoveInGap(s: seq<Entry>, d: int)
    requires WellFormed(s) && |s| > 0
    requires 0 <= d < s[|s| - 1].offset
    ensures RemoveLeapSecondsIn(s, s[|s| - 1].threshold + d) == s[|s| - 1].threshold + d
  {
    var x := s[|s| - 1].threshold + d;
    forall j | 0 <= j < |s|
      ensures !Holds(ReachedByTai(x), s[j])
    {
      if j < |s| - 1 {
        DescendingPairwise(s, j, |s| - 1);
      }
    }
    FindIsFirst(s, ReachedByTai(x), |s|);
  }

  lemma AddInIncreasing(s: seq<Entry>, t1: int, t2: int)
    requires WellFormed(s)
    requires t1 < t2
    ensures AddLeapSecondsIn(s, t1) < AddLeapSecondsIn(s, t2)
  {
    var i1 := Find(s, ReachedBy(t1));
    var i2 := Find(s, ReachedBy(t2));
    if i1 < |s| {
      assert Holds(ReachedBy(t2), s[i1]);
      if i2 < i1 {
        DescendingPairwise(s, i2, i1);
      }
    } else if i2 < |s| {
      OffsetRange(s, i2);
    }
  }

  lemma RemoveInAddIn(s: seq<Entry>, t: int)
    requires WellFormed(s)
    ensures RemoveLeapSecondsIn(s, AddLeapSecondsIn(s, t)) == t
  {
    var i := Find(s, ReachedBy(t));
    var x := AddLeapSecondsIn(s, t);
    forall j | 0 <= j < i
      ensures !Holds(ReachedByTai(x), s[j])
    {
      assert !Holds(ReachedBy(t), s[j]);
      OffsetRange(s, j);
      if i < |s| {
        DescendingPairwise(s, j, i);
      }
    }
    FindIsFirst(s, ReachedByTai(x), i);
  }

  // ---------------------------------------------------------------------
  // The table's shape

  lemma TableThresholdsDescend()
    ensures |Table| == 28
    ensures forall i :: 0 <= i < |Table| - 1 ==> Table[i].threshold > Table[i + 1].threshold
  {
  }

  lemma TableOffsetsStep()
    ensures |Table| == 28
    ensures forall i :: 0 <= i < |Table| - 1 ==> Table[i].offset == Table[i + 1].offset + 1
  {
  }

  lemma TableShape()
    ensures |Table| == 28
    ensures WellFormed(Table)
    ensures Table[0] == Entry(LastThreshold, MaxOffset)
    ensures Table[27] == Entry(FirstThreshold, 10)
  {
    TableThresholdsDescend();
    TableOffsetsStep();
  }

  /** The offsets run from 37 down to 10 in steps of one. */
  lemma TableOffsets(i: nat)
    requires i < |Table|
    ensures Table[i].offset == MaxOffset - i
  {
    TableShape();
    if i > 0 {
      DescendingPairwise(Table, 0, i);
    }
  }

  // ---------------------------------------------------------------------
  // addLeapSeconds

  /** Between the threshold of entry `i` (inclusive) and that of the entry
      before it (exclusive), `addLeapSeconds` adds entry `i`'s offset. */
  lemma AddLeapSecondsBetween(i: nat, t: int)
    requires i < |Table|
    requires Table[i].threshold <= t
    requires i == 0 || t < Table[i - 1].threshold
    ensures AddLeapSeconds(t) == t + Table[i].offset
  {
    TableShape();
    AddInBetween(Table, i, t);
  }

  /** Before the first leap second nothing is added. */
  lemma AddLeapSecondsBeforeTable(t: int)
    requires t < FirstThreshold
    ensures AddLeapSeconds(t) == t
  {
    TableShape();
    AddInBefore(Table, t);
  }

  /** From the latest leap second on, all 37 are added. */
  lemma AddLeapSecondsAfterTable(t: int)
    requires t >= LastThreshold
    ensures AddLeapSeconds(t) == t + MaxOffset
  {
    TableShape();
    AddInBetween(Table, 0, t);
  }

  /** The offset applied is 0 or one of the table's, so it lies in [0, 37];
      likewise for the offset `removeLeapSeconds` takes off. */
  lemma OffsetBounds(t: int)
    ensures 0 <= AddLeapSeconds(t) - t <= MaxOffset
    ensures 0 <= t - RemoveLeapSeconds(t) <= MaxOffset
  {
    TableShape();
    OffsetInBounds(Table, t);
  }

  /** A reference definition of the offset at `t`, independent of the scan:
      0 when no leap second has happened yet, otherwise the offset of the
      applicable entry with the latest threshold. */
  ghost predicate IsLatestOffset(s: seq<Entry>, t: int, o: int) {
    (o == 0 && forall j :: 0 <= j < |s| ==> s[j].threshold > t) ||
    (exists i :: 0 <= i < |s| && s[i].threshold <= t && o == s[i].offset &&
       forall j :: 0 <= j < |s| && s[j].threshold <= t ==> s[j].threshold <= s[i].threshold)
  }

  /** Because the table is sorted latest first, the first entry found is the
      latest leap second that applies. */
  lemma GetLeapSecondsIsLatest(t: int)
    ensures IsLatestOffset(Table, t, GetLeapSeconds(t))
  {
    TableShape();
    AddInIsLatest(Table, t);
  }

  /** `addLeapSeconds` is strictly increasing: later UNIX times never get a
      smaller offset. */
  lemma AddLeapSecondsIncreasing(t1: int, t2: int)
    requires t1 < t2
    ensures AddLeapSeconds(t1) < AddLeapSeconds(t2)
  {
    TableShape();
    AddInIncreasing(Table, t1, t2);
  }

  // ---------------------------------------------------------------------
  // removeLeapSeconds

  /** `removeLeapSeconds` undoes `addLeapSeconds` at every UNIX time. */
  lemma RemoveAddLeapSeconds(t: int)
    ensures RemoveLeapSeconds(AddLeapSeconds(t)) == t
  {
    TableShape();
    RemoveInAddIn(Table, t);
  }

  /** Two UNIX times with the same TAI-based time are the same. */
  lemma AddLeapSecondsInjective(t1: int, t2: int)
    requires AddLeapSeconds(t1) == AddLeapSeconds(t2)
    ensures t1 == t2
  {
    RemoveAddLeapSeconds(t1);
    RemoveAddLeapSeconds(t2);
  }

  /** `removeLeapSeconds` passes the ten seconds after the first threshold
      through unchanged: `addLeapSeconds` never produces them. */
  lemma RemoveLeapSecondsInGap(d: int)
    requires 0 <= d < 10
    ensures RemoveLeapSeconds(FirstThreshold + d) == FirstThreshold + d
  {
    TableShape();
    RemoveInGap(Table, d);
  }

  /** So the inverse holds in the other direction only on values
      `addLeapSeconds` produces, and `removeLeapSeconds` is not monotonic. */
  lemma RemoveLeapSecondsNotMonotonic()
    ensures RemoveLeapSeconds(FirstThreshold + 9) > RemoveLeapSeconds(FirstThreshold + 10)
    ensures AddLeapSeconds(RemoveLeapSeconds(FirstThreshold + 9)) != FirstThreshold + 9
  {
    RemoveLeapSecondsInGap(9);
    TableShape();
    AddLeapSecondsBetween(27, FirstThreshold);
    RemoveAddLeapSeconds(FirstThreshold);
    AddLeapSecondsBetween(27, FirstThreshold + 9);
  }

  // ---------------------------------------------------------------------
  // The intervals the test suite samples

  /** The 1988 boundary is inclusive: the last seconds of 1987 carry 23 leap
      seconds, 1988-01-01T00:00:00Z (567993600) already carries the 24th. */
  lemma GetLeapSecondsAround1988(t: int)
    requires 489024000 <= t < 631152000
    ensures GetLeapSeconds(t) == if t < 567993600 then 23 else 24
  {
    if t < 567993600 {
      AddLeapSecondsBetween(14, t);
    } else {
      AddLeapSecondsBetween(13, t);
    }
  }

  /** From 1972-01-01T00:00:00Z until the second leap second, 10 are added. */
  lemma GetLeapSecondsFrom1972(t: int)
    requires FirstThreshold <= t < 78796800
    ensures GetLeapSeconds(t) == 10
  {
    TableShape();
    AddLeapSecondsBetween(27, t);
  }
}
