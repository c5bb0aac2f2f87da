/** The monthly partitions of playback_sessions (api/partition_manager.py). Times are UTC. */
module Partitions {
  import opened Options
  import opened DateTimes

  const MIN_PARTITION_YEAR := 2020
  const MAX_PARTITION_YEAR := 2100

  /** Months counted from year 0. */
  function Index(year: int, month: int): int {
    12 * year + month - 1
  }

  /** The six digits YYYYMM of a partition's name. */
  function Code(year: int, month: int): int {
    100 * year + month
  }

  function CodeAt(index: int): int {
    Code(index / 12, index % 12 + 1)
  }

  predicate ValidParams(year: int, month: int) {
    MIN_PARTITION_YEAR <= year <= MAX_PARTITION_YEAR && 1 <= month <= 12
  }

  datatype Error = ValueError

  // ---------- Ranges ----------

  function MonthStart(index: nat): (t: DateTime)
    ensures t.offset == Some(0)
  {
    DateTime(index / 12, index % 12 + 1, 1, 0, 0, 0, 0, Some(0))
  }

  function MonthOf(t: DateTime): int {
    Index(t.year, t.month)
  }

  /** `FOR VALUES FROM (first of the month) TO (first of the next)`. */
  predicate Covers(index: nat, t: DateTime) {
    !Earlier(t, MonthStart(index)) && Earlier(t, MonthStart(index + 1))
  }

  /** A month's range holds exactly the instants of that month, so ranges are disjoint. */
  lemma CoversItsMonth(index: nat, t: UtcTime)
    ensures Covers(index, t) <==> MonthOf(t) == index
  {
  }

  /** Said in instants: from the first of the month on, and before the first of the next. */
  lemma CoversInTime(index: nat, t: UtcTime)
    requires 12 <= index && Valid(MonthStart(index)) && Valid(MonthStart(index + 1))
    ensures Covers(index, t) <==> Instant(MonthStart(index)) <= Instant(t) < Instant(MonthStart(index + 1))
  {
    EarlierIsEarlier(t, MonthStart(index));
    EarlierIsEarlier(t, MonthStart(index + 1));
    hide Instant, Earlier;
  }

  // ---------- Creating ahead ----------

  /** The names of `n` months from `index` on. */
  function CodesFrom(index: int, n: nat): set<int> {
    set i | index <= i < index + n :: CodeAt(i)
  }

  /** Those of them that are not yet in the catalogue, in order. */
  function Missing(index: int, n: nat, tables: set<int>): seq<int> {
    if n == 0 then []
    else Missing(index, n - 1, tables) + (if CodeAt(index + n - 1) in tables then [] else [CodeAt(index + n - 1)])
  }

  predicate InYears(index: int) {
    Index(MIN_PARTITION_YEAR, 1) <= index <= Index(MAX_PARTITION_YEAR, 12)
  }

  /** How many months from `index` on are created before a year out of range stops the loop. */
  function Reached(index: int, monthsAhead: int): (n: nat)
    ensures n <= if monthsAhead < 0 then 0 else monthsAhead + 1
    ensures forall i :: index <= i < index + n ==> InYears(i)
  {
    if monthsAhead < 0 || !InYears(index) then 0
    else if InYears(index + monthsAhead) then monthsAhead + 1
    else Index(MAX_PARTITION_YEAR, 12) + 1 - index
  }

  // ---------- Cleaning up ----------

  /** `now - relativedelta(months=retention)`: the day is cut to the length of the month; `None` for its ValueError. */
  function Cutoff(now: UtcTime, retention: int): Option<DateTime> {
    var index := MonthOf(now) - retention;
    var year, month := index / 12, index % 12 + 1;
    if !(1 <= year <= 9999) then None
    else
      var last := DaysInMonth(year, month);
      Some(now.(year := year, month := month, day := if now.day <= last then now.day else last))
  }

  /**
    The cutoff lies `retention` months back, on the same day or the last one of its month, at the same time; there is
    none when that month lies before year 1 or after year 9999.
    */
  lemma CutoffExactly(now: UtcTime, retention: int)
    ensures var index := MonthOf(now) - retention;
            var cutoff := Cutoff(now, retention);
            && (cutoff.Some? <==> 12 <= index <= 12 * 9999 + 11)
            && (cutoff.Some? ==>
                  var c := cutoff.value;
                  && Valid(c) && MonthOf(c) == index && c.day <= now.day
                  && (c.day == now.day || c.day == DaysInMonth(c.year, c.month))
                  && c == now.(year := c.year, month := c.month, day := c.day))
  {
    var index := MonthOf(now) - retention;
    assert index == 12 * (index / 12) + index % 12;
  }

  /** A listed name whose month can be read, starts before the cutoff, and lies in the years partitions may have. */
  predicate ToDrop(cutoff: DateTime, code: int) {
    var year, month := code / 100, code % 100;
    && year >= 1 && 1 <= month <= 12
    && Earlier(DateTime(year, month, 1, 0, 0, 0, 0, Some(0)), cutoff)
    && ValidParams(year, month)
  }

  function Dropped(cutoff: DateTime, existing: seq<int>): seq<int>
    decreases |existing|
  {
    if existing == [] then []
    else
      var front, last := existing[..|existing| - 1], existing[|existing| - 1];
      Dropped(cutoff, front) + (if ToDrop(cutoff, last) then [last] else [])
  }

  class PartitionManager {
    var tables: set<int>

    constructor ()
      ensures tables == {}
    {
      tables := {};
    }

    method PartitionExists(year: int, month: int) returns (found: Result<bool, Error>)
      ensures found == if ValidParams(year, month) then Ok(Code(year, month) in tables) else Err(ValueError)
    {
      if !ValidParams(year, month) {
        return Err(ValueError);
      }
      return Ok(Code(year, month) in tables);
    }

    method CreatePartition(year: int, month: int) returns (created: Result<bool, Error>)
      modifies this
      ensures created == if ValidParams(year, month) then Ok(Code(year, month) !in old(tables)) else Err(ValueError)
      ensures created.Err? <==> !(2020 <= year <= 2100 && 1 <= month <= 12)
      ensures tables == if ValidParams(year, month) then old(tables) + {Code(year, month)} else old(tables)
    {
      var found := PartitionExists(year, month);
      if found.Err? {
        return Err(ValueError);
      }
      if found.value {
        return Ok(false);
      }
      tables := tables + {Code(year, month)};
      return Ok(true);
    }

    /** A year out of range raises; what was created before stays. */
    method EnsurePartitionsExist(now: UtcTime, monthsAhead: int) returns (created: Result<seq<int>, Error>)
      modifies this
      ensures var n := Reached(MonthOf(now), monthsAhead);
              && tables == old(tables) + CodesFrom(MonthOf(now), n)
              && (created.Err? <==> n < monthsAhead + 1)
              && (created.Ok? ==> created.value == Missing(MonthOf(now), n, old(tables)))
    {
      hide CodesFrom, Reached, ValidParams, InYears, CodeAt;
      var made: seq<int> := [];
      var i := 0;
      var index := MonthOf(now);
      NoMonths(index);
      while i < monthsAhead + 1
        invariant 0 <= i <= if monthsAhead < 0 then 0 else monthsAhead + 1
        invariant i <= Reached(index, monthsAhead)
        invariant tables == old(tables) + CodesFrom(index, i)
        invariant made == Missing(index, i, old(tables))
      {
        var year, month := (index + i) / 12, (index + i) % 12 + 1;
        OneMoreMonth(index, i);
        ReachedExactly(index, monthsAhead, i);
        var one := CreatePartition(year, month);
        if one.Err? {
          return Err(ValueError);
        }
        if one.value {
          made := made + [Code(year, month)];
        }
        i := i + 1;
      }
      return Ok(made);
    }

    method DropPartition(year: int, month: int) returns (dropped: Result<bool, Error>)
      modifies this
      ensures dropped == if ValidParams(year, month) then Ok(Code(year, month) in old(tables)) else Err(ValueError)
      ensures tables == if ValidParams(year, month) then old(tables) - {Code(year, month)} else old(tables)
    {
      var found := PartitionExists(year, month);
      if found.Err? {
        return Err(ValueError);
      }
      if !found.value {
        return Ok(false);
      }
      tables := tables - {Code(year, month)};
      return Ok(true);
    }

    /** `existing` is the catalogue as the database lists it; a name that cannot be read or dropped is skipped. */
    method CleanupOldPartitions(now: UtcTime, retention: int, existing: seq<int>)
          returns (dropped: Result<seq<int>, Error>)
      requires forall k :: 0 <= k < |existing| ==> 0 <= existing[k] <= 999_999 && existing[k] in tables
      requires forall j, k :: 0 <= j < k < |existing| ==> existing[j] != existing[k]
      modifies this
      ensures dropped.Err? <==> Cutoff(now, retention).None?
      ensures dropped.Err? ==> tables == old(tables)
      ensures dropped.Ok? ==>
                && dropped.value == Dropped(Cutoff(now, retention).value, existing)
                && tables == old(tables) - set c | c in dropped.value
    {
      var cutoff := Cutoff(now, retention);
      if cutoff.None? {
        return Err(ValueError);
      }
      var gone: seq<int> := [];
      var k := 0;
      while k < |existing|
        invariant 0 <= k <= |existing|
        invariant gone == Dropped(cutoff.value, existing[..k])
        invariant tables == old(tables) - set c | c in gone
        invariant forall j :: k <= j < |existing| ==> existing[j] in tables
      {
        var code := existing[k];
        var year, month := code / 100, code % 100;
        assert existing[..k + 1][..k] == existing[..k];
        if year >= 1 && 1 <= month <= 12 {
          if Earlier(DateTime(year, month, 1, 0, 0, 0, 0, Some(0)), cutoff.value) {
            var one := DropPartition(year, month);
            if one.Ok? && one.value {
              gone := gone + [code];
            }
          }
        }
        k := k + 1;
      }
      assert existing[..k] == existing;
      return Ok(gone);
    }
  }

  lemma NoMonths(index: int)
    ensures CodesFrom(index, 0) == {}
  {
  }

  lemma ReachedExactly(index: int, monthsAhead: int, i: nat)
    requires i <= monthsAhead && i <= Reached(index, monthsAhead)
    ensures i < Reached(index, monthsAhead) <==> InYears(index + i)
  {
  }

  lemma OneMoreMonth(index: int, n: nat)
    ensures CodesFrom(index, n + 1) == CodesFrom(index, n) + {CodeAt(index + n)}
    ensures CodeAt(index + n) !in CodesFrom(index, n)
    ensures CodeAt(index + n) == Code((index + n) / 12, (index + n) % 12 + 1)
    ensures InYears(index + n) <==> ValidParams((index + n) / 12, (index + n) % 12 + 1)
  {
  }

  // ---------- What creating and cleaning up mean ----------

  /** A partition of the catalogue that holds the instant. */
  predicate Holds(tables: set<int>, index: nat, t: DateTime) {
    CodeAt(index) in tables && Covers(index, t)
  }

  /** Every instant from now to the end of the last month created is held by exactly one partition. */
  lemma ExactlyOnePartitionHolds(now: UtcTime, monthsAhead: nat, tables: set<int>, t: UtcTime)
    requires CodesFrom(MonthOf(now), monthsAhead + 1) <= tables
    requires !Earlier(t, now) && Earlier(t, MonthStart(MonthOf(now) + monthsAhead + 1))
    ensures Holds(tables, MonthOf(t), t)
    ensures forall index: nat :: Holds(tables, index, t) ==> index == MonthOf(t)
  {
    CoversItsMonth(MonthOf(t), t);
    assert MonthOf(now) <= MonthOf(t) <= MonthOf(now) + monthsAhead;
    assert CodeAt(MonthOf(t)) in CodesFrom(MonthOf(now), monthsAhead + 1);
    forall index: nat | Holds(tables, index, t)
      ensures index == MonthOf(t)
    {
      CoversItsMonth(index, t);
    }
  }

  predicate StartsItsMonth(t: DateTime) {
    t.day == 1 && t.hour == 0 && t.minute == 0 && t.second == 0 && t.micro == 0
  }

  /**
    Which partitions a cleanup drops: those of months more than `retention` before the current one, and the month
    exactly `retention` before, unless the cleanup runs at the very start of a month.
    */
  lemma DropsExactly(now: UtcTime, retention: int, year: int, month: int)
    requires Cutoff(now, retention).Some? && 0 <= year <= 9999 && 0 <= month <= 99
    ensures ToDrop(Cutoff(now, retention).value, Code(year, month)) <==>
              && ValidParams(year, month)
              && (Index(year, month) < MonthOf(now) - retention
                  || (Index(year, month) == MonthOf(now) - retention && !StartsItsMonth(now)))
  {
  }

  /** The current month and the `retention` - 1 months before it always stay. */
  lemma RecentMonthsStay(now: UtcTime, retention: int, existing: seq<int>, index: int)
    requires Cutoff(now, retention).Some? && retention >= 1
    requires MonthOf(now) - (retention - 1) <= index <= MonthOf(now)
    ensures CodeAt(index) !in Dropped(Cutoff(now, retention).value, existing)
  {
    var year, month := index / 12, index % 12 + 1;
    assert 1 <= (MonthOf(now) - retention) / 12 <= year <= 9999;
    DropsExactly(now, retention, year, month);
    DroppedExactly(Cutoff(now, retention).value, existing, CodeAt(index));
  }

  lemma {:induction false} DroppedExactly(cutoff: DateTime, existing: seq<int>, code: int)
    ensures code in Dropped(cutoff, existing) <==> code in existing && ToDrop(cutoff, code)
    decreases |existing|
  {
    if existing != [] {
      var k := |existing| - 1;
      DroppedExactly(cutoff, existing[..k], code);
      assert existing == existing[..k] + [existing[k]];
    }
  }
}
