/**
 * How many hours a day still owes (`get_remaining_workload`) and how many
 * hours are missing over a range of days (`get_missing_entries`).
 */
module Workload {
  import opened Wrappers
  import opened Calendar
  import opened Entities
  import opened TeamworkConfig

  const WorkingDayDuration := 8

  /** Hours already logged on `date`, every matching entry counted. */
  function EntryHours(date: int, entries: seq<TimeEntry>): int {
    if entries == [] then 0
    else
      var last := entries[|entries| - 1];
      EntryHours(date, entries[..|entries| - 1]) + if last.date == date then last.hours else 0
  }

  /** Hours of time off declared under `key`, duplicates included. */
  function TimeOffHours(key: string, timesOff: seq<TimeOff>): int {
    if timesOff == [] then 0
    else
      var last := timesOff[|timesOff| - 1];
      TimeOffHours(key, timesOff[..|timesOff| - 1]) + if last.date == key then last.hours else 0
  }

  /** A full working day less logged and declared hours; negative when the day is overbooked. */
  function Balance(date: int, entries: seq<TimeEntry>, timesOff: seq<TimeOff>): int {
    WorkingDayDuration - EntryHours(date, entries) - TimeOffHours(IsoDate(date), timesOff)
  }

  /** The hours `date` still owes: its balance, never below zero. */
  function Quota(date: int, entries: seq<TimeEntry>, timesOff: seq<TimeOff>): (r: int)
    ensures r >= 0 && r >= Balance(date, entries, timesOff)
    ensures r == 0 || r == Balance(date, entries, timesOff)
  {
    var left := Balance(date, entries, timesOff);
    if left < 0 then 0 else left
  }

  predicate NonNegativeHours(entries: seq<TimeEntry>, timesOff: seq<TimeOff>) {
    && (forall i :: 0 <= i < |entries| ==> entries[i].hours >= 0)
    && (forall i :: 0 <= i < |timesOff| ==> timesOff[i].hours >= 0)
  }

  /** Start from a full day, subtract every matching entry, then every matching time off, and clamp at zero. */
  method RemainingWorkload(date: int, entries: seq<TimeEntry>, timesOff: seq<TimeOff>) returns (remaining: int)
    ensures remaining == Quota(date, entries, timesOff)
  {
    remaining := WorkingDayDuration;
    var i := 0;
    while i < |entries|
      invariant 0 <= i <= |entries|
      invariant remaining == WorkingDayDuration - EntryHours(date, entries[..i])
    {
      assert entries[..i + 1][..i] == entries[..i];
      if entries[i].date == date {
        remaining := remaining - entries[i].hours;
      }
      i := i + 1;
    }
    assert entries[..i] == entries;
    var key := IsoDate(date);
    var j := 0;
    while j < |timesOff|
      invariant 0 <= j <= |timesOff|
      invariant remaining == WorkingDayDuration - EntryHours(date, entries) - TimeOffHours(key, timesOff[..j])
    {
      assert timesOff[..j + 1][..j] == timesOff[..j];
      if timesOff[j].date == key {
        remaining := remaining - timesOff[j].hours;
      }
      j := j + 1;
    }
    assert timesOff[..j] == timesOff;
    if remaining < 0 {
      remaining := 0;
    }
  }

  lemma {:induction false} EntryHoursAppend(date: int, a: seq<TimeEntry>, b: seq<TimeEntry>)
    ensures EntryHours(date, a + b) == EntryHours(date, a) + EntryHours(date, b)
    decreases |b|
  {
    if b == [] {
      assert a + b == a;
    } else {
      assert (a + b)[..|a + b| - 1] == a + b[..|b| - 1];
      EntryHoursAppend(date, a, b[..|b| - 1]);
    }
  }

  lemma {:induction false} TimeOffHoursAppend(key: string, a: seq<TimeOff>, b: seq<TimeOff>)
    ensures TimeOffHours(key, a + b) == TimeOffHours(key, a) + TimeOffHours(key, b)
    decreases |b|
  {
    if b == [] {
      assert a + b == a;
    } else {
      assert (a + b)[..|a + b| - 1] == a + b[..|b| - 1];
      TimeOffHoursAppend(key, a, b[..|b| - 1]);
    }
  }

  lemma {:induction false} HoursNonNegative(date: int, key: string, entries: seq<TimeEntry>, timesOff: seq<TimeOff>)
    requires NonNegativeHours(entries, timesOff)
    ensures EntryHours(date, entries) >= 0 && TimeOffHours(key, timesOff) >= 0
    decreases |entries| + |timesOff|
  {
    if entries != [] {
      HoursNonNegative(date, key, entries[..|entries| - 1], timesOff);
    } else if timesOff != [] {
      HoursNonNegative(date, key, entries, timesOff[..|timesOff| - 1]);
    }
  }

  /** With non-negative hours a day never owes more than a full working day. */
  lemma QuotaBounds(date: int, entries: seq<TimeEntry>, timesOff: seq<TimeOff>)
    requires NonNegativeHours(entries, timesOff)
    ensures 0 <= Quota(date, entries, timesOff) <= WorkingDayDuration
  {
    HoursNonNegative(date, IsoDate(date), entries, timesOff);
  }

  /** Logging more hours or declaring more time off never raises what a day owes. */
  lemma QuotaMonotone(date: int, entries: seq<TimeEntry>, timesOff: seq<TimeOff>,
                      moreEntries: seq<TimeEntry>, moreTimesOff: seq<TimeOff>)
    requires NonNegativeHours(moreEntries, moreTimesOff)
    ensures Quota(date, entries + moreEntries, timesOff + moreTimesOff) <= Quota(date, entries, timesOff)
  {
    EntryHoursAppend(date, entries, moreEntries);
    TimeOffHoursAppend(IsoDate(date), timesOff, moreTimesOff);
    HoursNonNegative(date, IsoDate(date), moreEntries, moreTimesOff);
  }

  /** Each matching entry and each matching time off is subtracted in full, repeated declarations included. */
  lemma BalanceSubtractsEach(date: int, entries: seq<TimeEntry>, timesOff: seq<TimeOff>, e: TimeEntry, t: TimeOff)
    requires e.date == date && t.date == IsoDate(date)
    ensures Balance(date, entries + [e], timesOff) == Balance(date, entries, timesOff) - e.hours
    ensures Balance(date, entries, timesOff + [t]) == Balance(date, entries, timesOff) - t.hours
  {
    EntryHoursAppend(date, entries, [e]);
    TimeOffHoursAppend(IsoDate(date), timesOff, [t]);
    assert [e][..0] == [] && [t][..0] == [];
  }

  /** An entry dated on another day does not affect a day's quota. */
  lemma QuotaIgnoresOtherDays(date: int, entries: seq<TimeEntry>, timesOff: seq<TimeOff>, e: TimeEntry)
    requires e.date != date
    ensures Quota(date, entries + [e], timesOff) == Quota(date, entries, timesOff)
  {
    EntryHoursAppend(date, entries, [e]);
    assert [e][..0] == [];
  }

  /** Time off declared under another day's key does not affect a day's quota. */
  lemma QuotaIgnoresOtherTimeOff(date: int, entries: seq<TimeEntry>, timesOff: seq<TimeOff>, t: TimeOff)
    requires t.date != IsoDate(date)
    ensures Quota(date, entries, timesOff + [t]) == Quota(date, entries, timesOff)
  {
    TimeOffHoursAppend(IsoDate(date), timesOff, [t]);
    assert [t][..0] == [];
  }

  /** Time off declared for any other day, under that day's own key, does not affect a day's quota. */
  lemma QuotaIgnoresOtherDayTimeOff(date: int, entries: seq<TimeEntry>, timesOff: seq<TimeOff>, otherDay: int, h: int)
    requires otherDay != date
    ensures Quota(date, entries, timesOff + [TimeOff(IsoDate(otherDay), h)]) == Quota(date, entries, timesOff)
  {
    if IsoDate(otherDay) == IsoDate(date) {
      IsoDateInjective(otherDay, date);
    }
    QuotaIgnoresOtherTimeOff(date, entries, timesOff, TimeOff(IsoDate(otherDay), h));
  }

  /** Taking out the entry at `j` removes exactly its contribution. */
  lemma EntryHoursRemoveAt(date: int, b: seq<TimeEntry>, j: nat)
    requires j < |b|
    ensures EntryHours(date, b) == EntryHours(date, b[..j] + b[j + 1..]) + if b[j].date == date then b[j].hours else 0
  {
    assert b == b[..j] + [b[j]] + b[j + 1..];
    EntryHoursAppend(date, b[..j], [b[j]]);
    EntryHoursAppend(date, b[..j] + [b[j]], b[j + 1..]);
    EntryHoursAppend(date, b[..j], b[j + 1..]);
    assert [b[j]][..0] == [];
  }

  lemma MultisetRemoveAt<T>(b: seq<T>, j: nat)
    requires j < |b|
    ensures multiset(b[..j] + b[j + 1..]) == multiset(b) - multiset{b[j]}
  {
    assert b == b[..j] + [b[j]] + b[j + 1..];
  }

  /** Hours logged on a day depend only on which entries there are, not on their order. */
  lemma {:induction false} EntryHoursPermutation(date: int, a: seq<TimeEntry>, b: seq<TimeEntry>)
    requires multiset(a) == multiset(b)
    ensures EntryHours(date, a) == EntryHours(date, b)
    decreases |a|
  {
    if a == [] {
      assert |b| == |multiset(b)| == 0;
    } else {
      var x := a[|a| - 1];
      assert x in multiset(b);
      var j :| 0 <= j < |b| && b[j] == x;
      var front := a[..|a| - 1];
      var rest := b[..j] + b[j + 1..];
      MultisetRemoveAt(a, |a| - 1);
      assert a[..|a| - 1] + a[|a|..] == front;
      MultisetRemoveAt(b, j);
      EntryHoursPermutation(date, front, rest);
      EntryHoursRemoveAt(date, b, j);
    }
  }

  /** The order in which entries arrive does not matter. */
  lemma QuotaOrderInsensitive(date: int, a: seq<TimeEntry>, b: seq<TimeEntry>, timesOff: seq<TimeOff>)
    requires multiset(a) == multiset(b)
    ensures Quota(date, a, timesOff) == Quota(date, b, timesOff)
  {
    EntryHoursPermutation(date, a, b);
  }

  /** A declaration made with `with_time_off(key, hours)` is the whole time off counted for that key. */
  lemma QuotaAfterDeclaringTimeOff(date: int, entries: seq<TimeEntry>, timesOff: seq<TimeOff>, hours: int)
    ensures TimeOffHours(IsoDate(date), ReplaceTimeOff(timesOff, IsoDate(date), hours)) == if hours > 0 then hours else 0
  {
    var key := IsoDate(date);
    var added := if hours > 0 then [TimeOff(key, hours)] else [];
    TimeOffHoursAppend(key, WithoutDate(timesOff, key), added);
    TimeOffHoursWithout(key, timesOff);
    if hours > 0 {
      assert added[..0] == [];
    }
  }

  lemma {:induction false} TimeOffHoursWithout(key: string, timesOff: seq<TimeOff>)
    ensures TimeOffHours(key, WithoutDate(timesOff, key)) == 0
  {
    if timesOff != [] {
      var prefix := timesOff[..|timesOff| - 1];
      var last := timesOff[|timesOff| - 1];
      var tail := if last.date != key then [last] else [];
      TimeOffHoursWithout(key, prefix);
      TimeOffHoursAppend(key, WithoutDate(prefix, key), tail);
      if tail != [] {
        assert tail[..0] == [];
      }
    }
  }

  /** What a day contributes to the missing hours: its quota on a working day, nothing otherwise. */
  function DayShortfall(date: int, entries: seq<TimeEntry>, timesOff: seq<TimeOff>): (r: int)
    ensures r >= 0
    ensures !IsWorkingDay(date) ==> r == 0
  {
    if IsWorkingDay(date) then Quota(date, entries, timesOff) else 0
  }

  /** The hours missing over the days `[since, until)`. */
  function MissingHours(since: int, until: int, entries: seq<TimeEntry>, timesOff: seq<TimeOff>): int
    decreases until - since
  {
    if until <= since then 0
    else MissingHours(since, until - 1, entries, timesOff) + DayShortfall(until - 1, entries, timesOff)
  }

  /**
   * `get_missing_entries`: nothing is owed (and nothing is fetched) unless
   * `since` is before `today`; otherwise sum what each day before today owes,
   * against the entries fetched once.
   */
  method GetMissingEntries(since: int, today: int, timesOff: seq<TimeOff>,
                           fetched: Result<seq<TimeEntry>, GatewayError>)
    returns (result: Result<int, GatewayError>)
    ensures today <= since ==> result == Success(0)
    ensures since < today && fetched.Failure? ==> result == Failure(fetched.error)
    ensures since < today && fetched.Success? ==> result == Success(MissingHours(since, today, fetched.value, timesOff))
  {
    if today <= since {
      return Success(0);
    }
    if fetched.Failure? {
      return Failure(fetched.error);
    }
    var entries := fetched.value;
    var missing := 0;
    var d := since;
    while d < today
      invariant since <= d <= today
      invariant missing == MissingHours(since, d, entries, timesOff)
    {
      var remaining := RemainingWorkload(d, entries, timesOff);
      if IsWorkingDay(d) {
        missing := missing + remaining;
      }
      d := d + 1;
    }
    return Success(missing);
  }

  /** Missing hours over adjacent ranges add up. */
  lemma {:induction false} MissingHoursSplit(a: int, b: int, c: int, entries: seq<TimeEntry>, timesOff: seq<TimeOff>)
    requires a <= b <= c
    ensures MissingHours(a, c, entries, timesOff) == MissingHours(a, b, entries, timesOff) + MissingHours(b, c, entries, timesOff)
    decreases c - b
  {
    if b < c {
      MissingHoursSplit(a, b, c - 1, entries, timesOff);
    }
  }

  /** With non-negative hours, at most a full working day is missing per day of the range. */
  lemma {:induction false} MissingHoursBounds(since: int, until: int, entries: seq<TimeEntry>, timesOff: seq<TimeOff>)
    requires since <= until
    requires NonNegativeHours(entries, timesOff)
    ensures 0 <= MissingHours(since, until, entries, timesOff) <= WorkingDayDuration * (until - since)
    decreases until - since
  {
    if since < until {
      MissingHoursBounds(since, until - 1, entries, timesOff);
      QuotaBounds(until - 1, entries, timesOff);
    }
  }

  /** With nothing logged and no time off, any seven consecutive days miss five full working days. */
  lemma WeekOfMissingHours(since: int)
    ensures MissingHours(since, since + 7, [], []) == 5 * WorkingDayDuration
  {
    var s := since;
    WeekdayStep(s); WeekdayStep(s + 1); WeekdayStep(s + 2); WeekdayStep(s + 3);
    WeekdayStep(s + 4); WeekdayStep(s + 5);
    assert MissingHours(s, s + 1, [], []) == DayShortfall(s, [], []);
    assert MissingHours(s, s + 2, [], []) == MissingHours(s, s + 1, [], []) + DayShortfall(s + 1, [], []);
    assert MissingHours(s, s + 3, [], []) == MissingHours(s, s + 2, [], []) + DayShortfall(s + 2, [], []);
    assert MissingHours(s, s + 4, [], []) == MissingHours(s, s + 3, [], []) + DayShortfall(s + 3, [], []);
    assert MissingHours(s, s + 5, [], []) == MissingHours(s, s + 4, [], []) + DayShortfall(s + 4, [], []);
    assert MissingHours(s, s + 6, [], []) == MissingHours(s, s + 5, [], []) + DayShortfall(s + 5, [], []);
    assert MissingHours(s, s + 7, [], []) == MissingHours(s, s + 6, [], []) + DayShortfall(s + 6, [], []);
  }

  /** Monday 1970-01-05 to Thursday: three full days, less a four-hour absence on the Tuesday. */
  lemma MissingHoursExample()
    ensures MissingHours(4, 7, [], []) == 24
    ensures MissingHours(4, 7, [], [TimeOff(IsoDate(5), 4)]) == 20
  {
    var off := [TimeOff(IsoDate(5), 4)];
    assert off[..0] == [];
    assert TimeOffHours(IsoDate(4), off) == 0 by {
      if IsoDate(5) == IsoDate(4) { IsoDateInjective(5, 4); }
    }
    assert TimeOffHours(IsoDate(6), off) == 0 by {
      if IsoDate(5) == IsoDate(6) { IsoDateInjective(5, 6); }
    }
  }
}
