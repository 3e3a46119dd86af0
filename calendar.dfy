/**
 * Calendar dates as day numbers (day 0 is 1970-01-01, a Thursday), the
 * working-day predicate of the service and the date key that time-off
 * declarations are compared with.
 */
module Calendar {
  import opened Decimal

  /** Weekdays numbered from Monday = 0, as chrono's `num_days_from_monday`. */
  const Saturday := 5
  const Sunday := 6

  function Weekday(d: int): (w: int)
    ensures 0 <= w < 7
  {
    (d + 3) % 7
  }

  lemma WeekdayStep(d: int)
    ensures Weekday(d + 1) == if Weekday(d) == 6 then 0 else Weekday(d) + 1
  {
  }

  /** `is_working_day`: a day counts towards the workload unless it is a Saturday or a Sunday. */
  predicate IsWorkingDay(d: int): (b: bool)
    ensures b <==> Weekday(d) < 5
  {
    Weekday(d) != Saturday && Weekday(d) != Sunday
  }

  /** The first working day on or after `d`. */
  function NextWorkingDay(d: int): (r: int)
    ensures d <= r <= d + 2
    ensures IsWorkingDay(r)
    ensures forall k :: d <= k < r ==> !IsWorkingDay(k)
  {
    WeekdayStep(d);
    WeekdayStep(d + 1);
    if Weekday(d) == Saturday then d + 2
    else if Weekday(d) == Sunday then d + 1
    else d
  }

  /** Non-working days come only as a Saturday followed by a Sunday, and the day after them works. */
  lemma {:induction false} WeekendIsTwoDays(d: int)
    ensures !IsWorkingDay(d) && !IsWorkingDay(d + 1) ==> IsWorkingDay(d + 2)
    ensures Weekday(d) == Saturday <==> !IsWorkingDay(d) && !IsWorkingDay(d + 1)
  {
    WeekdayStep(d);
    WeekdayStep(d + 1);
  }

  /**
   * The `YYYY-MM-DD` key of a day. Only one thing about the real rendering
   * matters to the model: distinct days have distinct keys. The stand-in
   * renders the signed day number in decimal.
   */
  function IsoDate(d: int): string {
    if d < 0 then "-" + DayDigits(-d) else DayDigits(d)
  }

  /**
   * The decimal digits of a day number, most significant first. It spells the
   * same text as `NatToString` (`DayDigitsDecimal`) but carries no contract,
   * so reasoning about dates does not bring the "every character is a digit"
   * quantifier of `NatToString` into the allocation proofs.
   */
  function DayDigits(n: nat): string
    decreases n
  {
    if n < 10 then [DigitChar(n)] else DayDigits(n / 10) + [DigitChar(n % 10)]
  }

  lemma {:induction false} DayDigitsDecimal(n: nat)
    ensures DayDigits(n) == NatToString(n)
    decreases n
  {
    if n >= 10 {
      DayDigitsDecimal(n / 10);
    }
  }

  lemma IsoDateSign(d: int)
    ensures |IsoDate(d)| >= 1
    ensures IsoDate(d)[0] == '-' <==> d < 0
  {
    DayDigitsDecimal(if d < 0 then -d else d);
  }

  lemma IsoDateInjective(a: int, b: int)
    requires IsoDate(a) == IsoDate(b)
    ensures a == b
  {
    IsoDateSign(a);
    IsoDateSign(b);
    DayDigitsDecimal(if a < 0 then -a else a);
    DayDigitsDecimal(if b < 0 then -b else b);
    if a < 0 && b < 0 {
      assert NatToString(-a) == IsoDate(a)[1..];
      NatToStringInjective(-a, -b);
    } else if a >= 0 && b >= 0 {
      NatToStringInjective(a, b);
    }
  }
}
