/**
 * The logic in the command-line front end: reading a duration such as
 * `8d4h`, splitting missing hours into days and hours for display, and
 * choosing the time off to list for a year or a month.
 */
module Cli {
  import opened Wrappers
  import opened Decimal
  import opened TeamworkConfig

  /** Every character of `s` from `i` up to (not including) `j` is a digit. */
  predicate DigitsBetween(s: string, i: nat, j: nat)
    requires i <= j <= |s|
  {
    forall p :: i <= p < j ==> IsDigit(s[p])
  }

  /** Length of the run of ASCII digits starting at `i`; the greedy `[0-9]+`. */
  function DigitRun(s: string, i: nat): (k: nat)
    requires i <= |s|
    ensures i + k <= |s| && DigitsBetween(s, i, i + k)
    ensures i + k < |s| ==> !IsDigit(s[i + k])
    decreases |s| - i
  {
    if i < |s| && IsDigit(s[i]) then 1 + DigitRun(s, i + 1) else 0
  }

  /** The number the digits of `s` from `i` up to `j` spell, as `str::parse` reads it. */
  function DigitsValue(s: string, i: nat, j: nat): nat
    requires i <= j <= |s| && DigitsBetween(s, i, j)
    decreases j - i
  {
    if j == i then 0 else DigitsValue(s, i, j - 1) * 10 + DigitValue(s[j - 1])
  }

  /** A matched `([0-9]+)d` or `([0-9]+)h` group: the number and the position just past the unit letter. */
  datatype Component = Component(value: nat, end: nat)

  /** The optional group `(([0-9]+)<unit>)?` tried at position `i`. */
  function MatchComponent(s: string, i: nat, unit: char): (r: Option<Component>)
    requires i <= |s|
    ensures r.Some? ==> i + 2 <= r.value.end <= |s| && s[r.value.end - 1] == unit
    ensures r.Some? ==> var k := DigitRun(s, i);
      && r.value.end == i + k + 1
      && DigitsBetween(s, i, i + k)
      && r.value.value == DigitsValue(s, i, i + k)
  {
    var k := DigitRun(s, i);
    if k > 0 && i + k < |s| && s[i + k] == unit then Some(Component(DigitsValue(s, i, i + k), i + k + 1))
    else None
  }

  /**
   * `parse_time_duration`: the pattern `(([0-9]+)d)?(([0-9]+)h)?` is matched
   * at the start of the text (it can match nothing, so the leftmost match
   * starts there); days count eight hours each and a missing part counts as
   * zero. No part at all is no duration.
   */
  function ParseTimeDuration(s: string): (r: Option<int>)
    ensures r.None? <==> MatchComponent(s, 0, 'd').None? && MatchComponent(s, 0, 'h').None?
    ensures r.Some? ==> r.value >= 0
  {
    var days := MatchComponent(s, 0, 'd');
    var pos := if days.Some? then days.value.end else 0;
    var hours := MatchComponent(s, pos, 'h');
    if days.None? && hours.None? then None
    else
      var d := if days.Some? then days.value.value else 0;
      var h := if hours.Some? then hours.value.value else 0;
      Some(d * 8 + h)
  }

  /** `digits` is written in `s` starting at position `i`. */
  predicate WrittenAt(s: string, i: nat, digits: string) {
    i + |digits| <= |s| && forall p :: 0 <= p < |digits| ==> s[i + p] == digits[p]
  }

  lemma {:induction false} DigitRunIs(s: string, i: nat, k: nat)
    requires i + k <= |s| && DigitsBetween(s, i, i + k)
    requires i + k < |s| ==> !IsDigit(s[i + k])
    ensures DigitRun(s, i) == k
    decreases k
  {
    if k > 0 {
      DigitRunIs(s, i + 1, k - 1);
    }
  }

  /** Digits written in `s` are read back as the number they spell. */
  lemma {:induction false} DigitsValueIs(s: string, i: nat, digits: string)
    requires AllDigits(digits) && WrittenAt(s, i, digits)
    ensures DigitsBetween(s, i, i + |digits|)
    ensures DigitsValue(s, i, i + |digits|) == DecimalValue(digits)
    decreases |digits|
  {
    if digits != [] {
      var init := digits[..|digits| - 1];
      DigitsValueIs(s, i, init);
      assert s[i + |init|] == digits[|init|];
    }
  }

  /** A run of digits followed by `unit` is read back as the number the digits spell. */
  lemma MatchDigits(s: string, i: nat, digits: string, unit: char)
    requires |digits| > 0 && AllDigits(digits) && !IsDigit(unit)
    requires WrittenAt(s, i, digits) && i + |digits| < |s| && s[i + |digits|] == unit
    ensures MatchComponent(s, i, unit) == Some(Component(DecimalValue(digits), i + |digits| + 1))
  {
    DigitsValueIs(s, i, digits);
    DigitRunIs(s, i, |digits|);
  }

  /** No part can start where there is no digit. */
  lemma NoMatchWithoutDigit(s: string, i: nat, unit: char)
    requires i <= |s|
    requires i == |s| || !IsDigit(s[i])
    ensures MatchComponent(s, i, unit) == None
  {
    DigitRunIs(s, i, 0);
  }

  /** The text `<days>d<hours>h`. */
  function DurationText(days: nat, hours: nat): string {
    NatToString(days) + "d" + NatToString(hours) + "h"
  }

  /** `<dd>d<hh>h`, whatever follows, reads as `dd` days and `hh` hours. */
  lemma ParseDigitsDaysAndHours(dd: string, hh: string, rest: string)
    requires |dd| > 0 && AllDigits(dd) && |hh| > 0 && AllDigits(hh)
    ensures ParseTimeDuration(dd + "d" + hh + "h" + rest) == Some(DecimalValue(dd) * 8 + DecimalValue(hh))
  {
    var s := dd + "d" + hh + "h" + rest;
    assert WrittenAt(s, 0, dd) && s[|dd|] == 'd';
    assert WrittenAt(s, |dd| + 1, hh) && s[|dd| + 1 + |hh|] == 'h';
    MatchDigits(s, 0, dd, 'd');
    MatchDigits(s, |dd| + 1, hh, 'h');
  }

  /** `rest` does not start with an hours part `<digits>h`. */
  predicate NoHoursPart(rest: string) {
    var k := DigitRun(rest, 0);
    k == 0 || k == |rest| || rest[k] != 'h'
  }

  /** A run of digits is measured the same inside a longer text. */
  lemma DigitRunShift(p: string, rest: string)
    ensures DigitRun(p + rest, |p|) == DigitRun(rest, 0)
  {
    var s := p + rest;
    var k := DigitRun(rest, 0);
    forall q | |p| <= q < |p| + k
      ensures IsDigit(s[q])
    {
      assert s[q] == rest[q - |p|];
    }
    if k < |rest| {
      assert s[|p| + k] == rest[k];
    }
    DigitRunIs(s, |p|, k);
  }

  /** No hours part matches where the text does not start with one. */
  lemma NoHoursMatch(p: string, rest: string)
    requires NoHoursPart(rest)
    ensures MatchComponent(p + rest, |p|, 'h') == None
  {
    var s := p + rest;
    var k := DigitRun(rest, 0);
    DigitRunShift(p, rest);
    if k > 0 && k < |rest| {
      assert s[|p| + k] == rest[k];
    }
  }

  /** `<dd>d`, followed by anything that does not start with `<digits>h`, reads as `dd` days. */
  lemma ParseDigitsDays(dd: string, rest: string)
    requires |dd| > 0 && AllDigits(dd)
    requires NoHoursPart(rest)
    ensures ParseTimeDuration(dd + "d" + rest) == Some(DecimalValue(dd) * 8)
  {
    var s := dd + "d" + rest;
    assert WrittenAt(s, 0, dd) && s[|dd|] == 'd';
    MatchDigits(s, 0, dd, 'd');
    assert s == (dd + "d") + rest;
    NoHoursMatch(dd + "d", rest);
  }

  /** `<hh>h`, whatever follows, reads as `hh` hours. */
  lemma ParseDigitsHours(hh: string, rest: string)
    requires |hh| > 0 && AllDigits(hh)
    ensures ParseTimeDuration(hh + "h" + rest) == Some(DecimalValue(hh))
  {
    var s := hh + "h" + rest;
    assert WrittenAt(s, 0, hh) && s[|hh|] == 'h';
    MatchDigits(s, 0, hh, 'h');
  }

  /** Days and hours are read back from their text, and whatever follows is ignored. */
  lemma ParseDaysAndHours(days: nat, hours: nat, rest: string)
    ensures ParseTimeDuration(DurationText(days, hours) + rest) == Some(days * 8 + hours)
  {
    ParseDigitsDaysAndHours(NatToString(days), NatToString(hours), rest);
    DecimalRoundTrip(days);
    DecimalRoundTrip(hours);
  }

  /** Days alone are read back when no hours part follows. */
  lemma ParseDaysOnly(days: nat, rest: string)
    requires NoHoursPart(rest)
    ensures ParseTimeDuration(NatToString(days) + "d" + rest) == Some(days * 8)
  {
    ParseDigitsDays(NatToString(days), rest);
    DecimalRoundTrip(days);
  }

  /** Hours alone are read back, and whatever follows is ignored. */
  lemma ParseHoursOnly(hours: nat, rest: string)
    ensures ParseTimeDuration(NatToString(hours) + "h" + rest) == Some(hours)
  {
    ParseDigitsHours(NatToString(hours), rest);
    DecimalRoundTrip(hours);
  }

  /** Text that does not start with a digit is no duration. */
  lemma ParseRejectsLeadingNonDigit(s: string)
    requires s == [] || !IsDigit(s[0])
    ensures ParseTimeDuration(s) == None
  {
    NoMatchWithoutDigit(s, 0, 'd');
    NoMatchWithoutDigit(s, 0, 'h');
  }

  /** A duration with days and hours. */
  lemma ParseExampleTwoParts()
    ensures ParseTimeDuration("8d4h") == Some(68)
  {
    assert NatToString(8) == "8" && NatToString(4) == "4";
    ParseDaysAndHours(8, 4, "");
    assert DurationText(8, 4) + "" == "8d4h";
  }

  /** Parts in the wrong order: the leading hours are read and the days after them are ignored. */
  lemma ParseExampleWrongOrder()
    ensures ParseTimeDuration("4h8d") == Some(4)
  {
    assert NatToString(4) == "4";
    ParseHoursOnly(4, "8d");
    assert NatToString(4) + "h" + "8d" == "4h8d";
  }

  /** A days-only and an hours-only duration, and a unit without its number. */
  lemma ParseExamplesOnePart()
    ensures ParseTimeDuration("3d") == Some(24)
    ensures ParseTimeDuration("2h") == Some(2)
    ensures ParseTimeDuration("d4h") == None
  {
    assert NatToString(3) == "3" && NatToString(2) == "2";
    ParseDaysOnly(3, "");
    assert NatToString(3) + "d" + "" == "3d";
    ParseHoursOnly(2, "");
    assert NatToString(2) + "h" + "" == "2h";
    ParseRejectsLeadingNonDigit("d4h");
  }

  /** Digits after the days that no `h` closes are ignored: `3d5x` and `3d5` both give 24. */
  lemma ParseExampleUnclosedHours()
    ensures ParseTimeDuration("3d5x") == Some(24)
    ensures ParseTimeDuration("3d5") == Some(24)
  {
    assert NatToString(3) == "3";
    DigitRunIs("5x", 0, 1);
    DigitRunIs("5", 0, 1);
    ParseDaysOnly(3, "5x");
    ParseDaysOnly(3, "5");
    assert NatToString(3) + "d" + "5x" == "3d5x";
    assert NatToString(3) + "d" + "5" == "3d5";
  }

  /**
   * The `Missing` display: `missing / 8` days and `missing % 8` hours with
   * Rust's integer operators, which round towards zero.
   */
  function SplitMissing(missing: int): (r: (int, int))
    ensures r.0 * 8 + r.1 == missing
    ensures missing >= 0 ==> r.0 >= 0 && 0 <= r.1 < 8
    ensures missing < 0 ==> r.0 <= 0 && -8 < r.1 <= 0
  {
    if missing >= 0 then (missing / 8, missing % 8)
    else (-((-missing) / 8), -((-missing) % 8))
  }

  /** Writing the split back as `<days>d<hours>h` and parsing it gives the hours back. */
  lemma SplitThenParse(missing: nat)
    ensures var (days, hours) := SplitMissing(missing);
      ParseTimeDuration(DurationText(days, hours)) == Some(missing)
  {
    var (days, hours) := SplitMissing(missing);
    ParseDaysAndHours(days, hours, "");
    assert DurationText(days, hours) + "" == DurationText(days, hours);
  }

  /** The prefix the listing filters on: the year, or the year, a dash and the month. */
  function SelectionPattern(year: Option<string>, month: Option<string>, currentYear: string): (r: string)
    ensures var y := if year.Some? then year.value else currentYear;
      && StartsWith(r, y)
      && (month.None? ==> |r| == |y|)
      && (month.Some? ==> r[|y|..] == "-" + month.value)
  {
    var y := if year.Some? then year.value else currentYear;
    if month.Some? then
      var r := y + "-" + month.value;
      assert r[..|y|] == y && r[|y|..] == "-" + month.value;
      r
    else
      assert y[..|y|] == y;
      y
  }

  /** The declarations whose date starts with `pattern`, in their original order. */
  function SelectByPrefix(timesOff: seq<TimeOff>, pattern: string): (r: seq<TimeOff>)
    ensures |r| <= |timesOff|
    ensures forall t :: t in r <==> t in timesOff && StartsWith(t.date, pattern)
  {
    if timesOff == [] then []
    else
      var last := timesOff[|timesOff| - 1];
      SelectByPrefix(timesOff[..|timesOff| - 1], pattern) + if StartsWith(last.date, pattern) then [last] else []
  }

  /** The time off listed for an optional year (default: the current one) and an optional month. */
  function TimesOffListing(timesOff: seq<TimeOff>, year: Option<string>, month: Option<string>, currentYear: string): (r: seq<TimeOff>)
    ensures var y := if year.Some? then year.value else currentYear;
      forall t :: t in r <==> t in timesOff && StartsWith(t.date, if month.Some? then y + "-" + month.value else y)
  {
    SelectByPrefix(timesOff, SelectionPattern(year, month, currentYear))
  }

  /** Selection keeps order: selecting from a concatenation concatenates the selections. */
  lemma {:induction false} SelectAppend(a: seq<TimeOff>, b: seq<TimeOff>, pattern: string)
    ensures SelectByPrefix(a + b, pattern) == SelectByPrefix(a, pattern) + SelectByPrefix(b, pattern)
    decreases |b|
  {
    if b == [] {
      assert a + b == a;
    } else {
      assert (a + b)[..|a + b| - 1] == a + b[..|b| - 1];
      SelectAppend(a, b[..|b| - 1], pattern);
    }
  }

  /** Listing a month gives the same list as listing its year and keeping that month. */
  lemma {:induction false} MonthWithinYear(timesOff: seq<TimeOff>, year: string, month: string)
    ensures SelectByPrefix(SelectByPrefix(timesOff, year), year + "-" + month) == SelectByPrefix(timesOff, year + "-" + month)
  {
    if timesOff != [] {
      var pattern := year + "-" + month;
      var prefix := timesOff[..|timesOff| - 1];
      var last := timesOff[|timesOff| - 1];
      MonthWithinYear(prefix, year, month);
      var inYear := if StartsWith(last.date, year) then [last] else [];
      assert SelectByPrefix(timesOff, year) == SelectByPrefix(prefix, year) + inYear;
      SelectAppend(SelectByPrefix(prefix, year), inYear, pattern);
      MonthStartsWithYear(last.date, year, month);
      if inYear != [] {
        assert inYear[..0] == [];
        assert SelectByPrefix(inYear, pattern) == if StartsWith(last.date, pattern) then [last] else [];
      }
    }
  }

  lemma MonthStartsWithYear(date: string, year: string, month: string)
    ensures StartsWith(date, year + "-" + month) ==> StartsWith(date, year)
  {
    if StartsWith(date, year + "-" + month) {
      assert date[..|year|] == (year + "-" + month)[..|year|];
    }
  }
}
