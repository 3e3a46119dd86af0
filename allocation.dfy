/**
 * `save_time`: book a requested number of hours onto consecutive days,
 * starting at a given day and stopping at today or once the request is used
 * up, each day taking what its quota says it still owes.
 */
module Allocation {
  import opened Wrappers
  import opened Calendar
  import opened Entities
  import opened TeamworkConfig
  import opened Workload

  /** One pass of the allocation loop: the day it was on and the quota it booked there. */
  datatype Visit = Visit(date: int, quota: int)

  /** A creation request sent to the remote service for a task. */
  datatype Submission = Submission(taskId: string, input: TimeEntryInput)

  /** What is reported for an answered request. */
  datatype Report = Confirmed(id: string) | Unexpected(status: string, id: string)

  /**
   * The days the loop visits from `cursor` with `remaining` hours still to
   * place, every quota taken from the one snapshot of entries. The first day
   * is taken as it is; each later one is the first working day after the
   * previous one.
   */
  function Plan(cursor: int, today: int, remaining: int, snapshot: seq<TimeEntry>, timesOff: seq<TimeOff>): (r: seq<Visit>)
    decreases today - cursor
  {
    if cursor < today && remaining > 0 then
      var quota := Quota(cursor, snapshot, timesOff);
      [Visit(cursor, quota)] + Plan(NextWorkingDay(cursor + 1), today, remaining - quota, snapshot, timesOff)
    else
      []
  }

  /** The request for one visit: the whole quota, from 08:00, zero extra minutes. */
  function Booking(taskId: string, personId: string, description: string, v: Visit): (r: Submission)
    ensures r.taskId == taskId && r.input.personId == personId && r.input.description == description
    ensures r.input.date == v.date && r.input.hours == v.quota
    ensures r.input.time == "08:00" && r.input.minutes == "0"
  {
    Submission(taskId, TimeEntryInput(description, personId, v.date, "08:00", v.quota, "0"))
  }

  function Bookings(taskId: string, personId: string, description: string, visits: seq<Visit>): (r: seq<Submission>)
    ensures |r| == |visits|
    ensures forall i :: 0 <= i < |visits| ==> r[i] == Booking(taskId, personId, description, visits[i])
  {
    seq(|visits|, i requires 0 <= i < |visits| => Booking(taskId, personId, description, visits[i]))
  }

  lemma BookingsSnoc(taskId: string, personId: string, description: string, visits: seq<Visit>, v: Visit)
    ensures Bookings(taskId, personId, description, visits + [v]) ==
      Bookings(taskId, personId, description, visits) + [Booking(taskId, personId, description, v)]
  {
  }

  /** A reply is confirmed only when its status is "OK"; a missing identifier reads "unknown". */
  function Acknowledge(reply: CreatedReply): (r: Report)
    ensures r.Confirmed? <==> reply.status == "OK"
    ensures reply.id.Some? ==> r.id == reply.id.value
    ensures reply.id.None? ==> r.id == "unknown"
    ensures r.Unexpected? ==> r.status == reply.status
  {
    var id := if reply.id.Some? then reply.id.value else "unknown";
    if reply.status == "OK" then Confirmed(id) else Unexpected(reply.status, id)
  }

  /** The first `n` requests all got an answer. */
  ghost predicate Delivered(respond: nat -> Result<CreatedReply, GatewayError>, n: int) {
    forall k: nat :: k < n ==> respond(k).Success?
  }

  /**
   * `save_time`. The remote service is given by what it does: `account` and
   * `fetched` are the outcomes of reading the caller's account and the
   * entries since `startDate`, and `respond(k)` is its answer to the `k`-th
   * creation request. Besides the result it returns the visits made, the
   * requests sent and what was reported for each answer.
   */
  method SaveTime(taskId: string, startDate: int, hours: int, description: string, dryRun: bool,
                  timesOff: seq<TimeOff>, today: int,
                  account: Result<string, GatewayError>,
                  fetched: Result<seq<TimeEntry>, GatewayError>,
                  respond: nat -> Result<CreatedReply, GatewayError>)
    returns (result: Result<int, GatewayError>, visits: seq<Visit>, sent: seq<Submission>, reports: seq<Report>)
    ensures account.Failure? || fetched.Failure? ==> visits == [] && sent == [] && reports == []
    ensures account.Failure? ==> result == Failure(account.error)
    ensures account.Success? && fetched.Failure? ==> result == Failure(fetched.error)
    ensures account.Success? && fetched.Success? ==>
      Allocated(Plan(startDate, today, hours, fetched.value, timesOff), hours, dryRun, respond,
                Bookings(taskId, account.value, description, visits), result, visits, sent, reports)
  {
    if account.Failure? {
      return Failure(account.error), [], [], [];
    }
    if fetched.Failure? {
      return Failure(fetched.error), [], [], [];
    }
    result, visits, sent, reports :=
      BookHours(taskId, account.value, startDate, hours, description, dryRun, timesOff, today, fetched.value, respond);
  }

  /**
   * What a run of the loop over `plan` leaves behind, `bookings` being the
   * requests for the visits made: the visits are a prefix of the plan and one
   * request is sent per visit unless it is a dry run; the run succeeds
   * exactly when it is a dry run or every planned request is answered, and
   * then returns the requested hours having visited the whole plan; a
   * failure is the answer to the last request sent, every earlier one having
   * been answered; every answer received is reported, in order.
   */
  ghost predicate Allocated(plan: seq<Visit>, hours: int, dryRun: bool, respond: nat -> Result<CreatedReply, GatewayError>,
                            bookings: seq<Submission>, result: Result<int, GatewayError>,
                            visits: seq<Visit>, sent: seq<Submission>, reports: seq<Report>)
  {
    && visits <= plan
    && sent == (if dryRun then [] else bookings)
    && (result.Success? <==> dryRun || Delivered(respond, |plan|))
    && (result.Success? ==> result.value == hours && visits == plan)
    && (result.Failure? ==> |visits| > 0 && Delivered(respond, |visits| - 1) && respond(|visits| - 1) == Failure(result.error))
    && |reports| == (if result.Success? then |sent| else |sent| - 1)
    && ReportsMatch(reports, respond)
  }

  /** Each report is what was reported for the answer to the request with its number. */
  ghost predicate ReportsMatch(reports: seq<Report>, respond: nat -> Result<CreatedReply, GatewayError>) {
    forall k: nat :: k < |reports| ==> respond(k).Success? && reports[k] == Acknowledge(respond(k).value)
  }

  /** The allocation loop of `save_time`, once the account and the entries are in hand. */
  method BookHours(taskId: string, accountId: string, startDate: int, hours: int, description: string, dryRun: bool,
                   timesOff: seq<TimeOff>, today: int, snapshot: seq<TimeEntry>,
                   respond: nat -> Result<CreatedReply, GatewayError>)
    returns (result: Result<int, GatewayError>, visits: seq<Visit>, sent: seq<Submission>, reports: seq<Report>)
    ensures Allocated(Plan(startDate, today, hours, snapshot, timesOff), hours, dryRun, respond,
                      Bookings(taskId, accountId, description, visits), result, visits, sent, reports)
  {
    var cursor := startDate;
    var remaining := hours;
    visits, sent, reports := [], [], [];
    ghost var plan := Plan(startDate, today, hours, snapshot, timesOff);
    while cursor < today && remaining > 0
      invariant Progress(plan, visits, Plan(cursor, today, remaining, snapshot, timesOff), dryRun, respond,
                         Bookings(taskId, accountId, description, visits), sent, reports)
      decreases today - cursor
    {
      var quota := RemainingWorkload(cursor, snapshot, timesOff);
      var v := Visit(cursor, quota);
      var booking := Booking(taskId, accountId, description, v);
      ghost var rest := Plan(cursor, today, remaining, snapshot, timesOff);
      ghost var next := Plan(NextWorkingDay(cursor + 1), today, remaining - quota, snapshot, timesOff);
      ghost var bookings := Bookings(taskId, accountId, description, visits);
      PlanAdvance(visits, cursor, today, remaining, snapshot, timesOff);
      BookingsSnoc(taskId, accountId, description, visits, v);
      if !dryRun {
        var reply := respond(|sent|);
        if reply.Failure? {
          StepFailed(plan, visits, v, rest, next, hours, respond, bookings, booking, sent, reports);
          return Failure(reply.error), visits + [v], sent + [booking], reports;
        }
        StepKept(plan, visits, v, rest, next, dryRun, respond, bookings, booking, sent, reports);
        sent := sent + [booking];
        reports := reports + [Acknowledge(reply.value)];
      } else {
        StepKept(plan, visits, v, rest, next, dryRun, respond, bookings, booking, sent, reports);
      }
      visits := visits + [v];
      remaining := remaining - quota;
      cursor := SkipToWorkingDay(cursor + 1);
    }
    Finished(plan, visits, hours, dryRun, respond, Bookings(taskId, accountId, description, visits), sent, reports);
    result := Success(hours);
  }

  /**
   * The state of the allocation loop: the visits made so far followed by the
   * visits still planned are the whole plan; a dry run sends and reports
   * nothing; otherwise every visit made had its request sent and answered,
   * and every answer was reported.
   */
  ghost predicate Progress(plan: seq<Visit>, visits: seq<Visit>, rest: seq<Visit>, dryRun: bool,
                           respond: nat -> Result<CreatedReply, GatewayError>,
                           bookings: seq<Submission>, sent: seq<Submission>, reports: seq<Report>)
  {
    && visits + rest == plan
    && (dryRun ==> sent == [] && reports == [])
    && (!dryRun ==> sent == bookings && |sent| == |visits| && |reports| == |visits| && Delivered(respond, |visits|))
    && ReportsMatch(reports, respond)
  }

  /** A visit whose request is answered, or made in a dry run, keeps the loop's state. */
  lemma StepKept(plan: seq<Visit>, visits: seq<Visit>, v: Visit, rest: seq<Visit>, next: seq<Visit>, dryRun: bool,
                 respond: nat -> Result<CreatedReply, GatewayError>,
                 bookings: seq<Submission>, booking: Submission, sent: seq<Submission>, reports: seq<Report>)
    requires Progress(plan, visits, rest, dryRun, respond, bookings, sent, reports)
    requires visits + rest == (visits + [v]) + next
    requires !dryRun ==> respond(|sent|).Success?
    ensures Progress(plan, visits + [v], next, dryRun, respond, bookings + [booking],
                     if dryRun then sent else sent + [booking],
                     if dryRun then reports else reports + [Acknowledge(respond(|sent|).value)])
  {
    if !dryRun {
      var more := reports + [Acknowledge(respond(|sent|).value)];
      forall k: nat | k < |more|
        ensures respond(k).Success? && more[k] == Acknowledge(respond(k).value)
      {
        if k < |reports| {
          assert more[k] == reports[k];
        }
      }
    }
  }

  /** A request that fails ends the run with the failure, after the visits made so far. */
  lemma StepFailed(plan: seq<Visit>, visits: seq<Visit>, v: Visit, rest: seq<Visit>, next: seq<Visit>, hours: int,
                   respond: nat -> Result<CreatedReply, GatewayError>,
                   bookings: seq<Submission>, booking: Submission, sent: seq<Submission>, reports: seq<Report>)
    requires Progress(plan, visits, rest, false, respond, bookings, sent, reports)
    requires visits + rest == (visits + [v]) + next
    requires respond(|sent|).Failure?
    ensures Allocated(plan, hours, false, respond, bookings + [booking], Failure(respond(|sent|).error),
                      visits + [v], sent + [booking], reports)
  {
    assert plan[..|visits| + 1] == visits + [v];
    assert plan[|visits|] == v;
  }

  /** When nothing more is planned the run succeeds with the requested hours. */
  lemma Finished(plan: seq<Visit>, visits: seq<Visit>, hours: int, dryRun: bool,
                 respond: nat -> Result<CreatedReply, GatewayError>,
                 bookings: seq<Submission>, sent: seq<Submission>, reports: seq<Report>)
    requires Progress(plan, visits, [], dryRun, respond, bookings, sent, reports)
    ensures Allocated(plan, hours, dryRun, respond, bookings, Success(hours), visits, sent, reports)
  {
    assert visits + [] == visits;
  }

  /** One more visit moves the loop one step along its plan. */
  lemma PlanAdvance(visits: seq<Visit>, cursor: int, today: int, remaining: int, snapshot: seq<TimeEntry>, timesOff: seq<TimeOff>)
    requires cursor < today && remaining > 0
    ensures var quota := Quota(cursor, snapshot, timesOff);
      visits + Plan(cursor, today, remaining, snapshot, timesOff) ==
      (visits + [Visit(cursor, quota)]) + Plan(NextWorkingDay(cursor + 1), today, remaining - quota, snapshot, timesOff)
  {
    var quota := Quota(cursor, snapshot, timesOff);
    PlanStep(cursor, today, remaining, snapshot, timesOff);
    var rest := Plan(NextWorkingDay(cursor + 1), today, remaining - quota, snapshot, timesOff);
    assert (visits + [Visit(cursor, quota)]) + rest == visits + ([Visit(cursor, quota)] + rest);
  }

  lemma PlanStep(cursor: int, today: int, remaining: int, snapshot: seq<TimeEntry>, timesOff: seq<TimeOff>)
    requires cursor < today && remaining > 0
    ensures var quota := Quota(cursor, snapshot, timesOff);
      Plan(cursor, today, remaining, snapshot, timesOff) ==
      [Visit(cursor, quota)] + Plan(NextWorkingDay(cursor + 1), today, remaining - quota, snapshot, timesOff)
  {
  }

  /** Advance day by day until a working day is reached. */
  method SkipToWorkingDay(d: int) returns (cursor: int)
    ensures cursor == NextWorkingDay(d)
  {
    cursor := d;
    while !IsWorkingDay(cursor)
      invariant d <= cursor <= NextWorkingDay(d)
      decreases NextWorkingDay(d) - cursor
    {
      cursor := cursor + 1;
    }
  }

  /** Hours booked by a sequence of visits. */
  function TotalQuota(visits: seq<Visit>): int {
    if visits == [] then 0 else TotalQuota(visits[..|visits| - 1]) + visits[|visits| - 1].quota
  }

  lemma {:induction false} TotalQuotaCons(v: Visit, visits: seq<Visit>)
    ensures TotalQuota([v] + visits) == v.quota + TotalQuota(visits)
    decreases |visits|
  {
    if visits != [] {
      assert ([v] + visits)[..|visits|] == [v] + visits[..|visits| - 1];
      TotalQuotaCons(v, visits[..|visits| - 1]);
    } else {
      assert ([v] + visits)[..0] == [];
    }
  }

  /** Where the cursor stands once the visits are done. */
  function CursorAfter(start: int, visits: seq<Visit>): int {
    if visits == [] then start else NextWorkingDay(visits[|visits| - 1].date + 1)
  }

  /**
   * Every visited day lies in `[cursor, today)`, in strictly increasing order;
   * the first is `cursor` itself, whatever day of the week it is, and every
   * later one is a working day; every quota comes from the same snapshot.
   */
  lemma {:induction false} PlanShape(cursor: int, today: int, remaining: int, snapshot: seq<TimeEntry>, timesOff: seq<TimeOff>)
    ensures var plan := Plan(cursor, today, remaining, snapshot, timesOff);
      && (plan != [] ==> plan[0].date == cursor)
      && (forall i :: 0 <= i < |plan| ==> cursor <= plan[i].date < today && plan[i].quota == Quota(plan[i].date, snapshot, timesOff))
      && (forall i :: 1 <= i < |plan| ==> IsWorkingDay(plan[i].date))
      && (forall i, j :: 0 <= i < j < |plan| ==> plan[i].date < plan[j].date)
      && (forall i :: 1 <= i < |plan| ==> plan[i].date == NextWorkingDay(plan[i - 1].date + 1))
    decreases today - cursor
  {
    if cursor < today && remaining > 0 {
      var quota := Quota(cursor, snapshot, timesOff);
      var next := NextWorkingDay(cursor + 1);
      var rest := Plan(next, today, remaining - quota, snapshot, timesOff);
      PlanShape(next, today, remaining - quota, snapshot, timesOff);
      var plan := Plan(cursor, today, remaining, snapshot, timesOff);
      assert plan == [Visit(cursor, quota)] + rest;
      forall i | 1 <= i < |plan|
        ensures plan[i] == rest[i - 1] && next <= plan[i].date && IsWorkingDay(plan[i].date)
      {
        if i >= 2 {
          assert rest[i - 1].date > rest[0].date;
        }
      }
      forall i, j | 0 <= i < j < |plan|
        ensures plan[i].date < plan[j].date
      {
        if i > 0 {
          assert plan[i] == rest[i - 1] && plan[j] == rest[j - 1];
        } else {
          assert next <= plan[j].date;
        }
      }
    }
    PlanConsecutive(cursor, today, remaining, snapshot, timesOff);
  }

  /** Each visit after the first is the working day that follows the previous one. */
  lemma {:induction false} PlanConsecutive(cursor: int, today: int, remaining: int, snapshot: seq<TimeEntry>, timesOff: seq<TimeOff>)
    ensures var plan := Plan(cursor, today, remaining, snapshot, timesOff);
      && (plan != [] ==> plan[0].date == cursor)
      && (forall i :: 1 <= i < |plan| ==> plan[i].date == NextWorkingDay(plan[i - 1].date + 1))
    decreases today - cursor
  {
    if cursor < today && remaining > 0 {
      var quota := Quota(cursor, snapshot, timesOff);
      var next := NextWorkingDay(cursor + 1);
      var rest := Plan(next, today, remaining - quota, snapshot, timesOff);
      PlanConsecutive(next, today, remaining - quota, snapshot, timesOff);
      var plan := Plan(cursor, today, remaining, snapshot, timesOff);
      assert plan == [Visit(cursor, quota)] + rest;
      forall i | 1 <= i < |plan|
        ensures plan[i].date == NextWorkingDay(plan[i - 1].date + 1)
      {
        assert plan[i] == rest[i - 1];
        if i >= 2 {
          assert plan[i - 1] == rest[i - 2];
        }
      }
    }
  }

  /** Every visit starts with hours still to place. */
  lemma {:induction false} PlanBudget(cursor: int, today: int, remaining: int, snapshot: seq<TimeEntry>, timesOff: seq<TimeOff>)
    ensures var plan := Plan(cursor, today, remaining, snapshot, timesOff);
      forall i :: 0 <= i < |plan| ==> TotalQuota(plan[..i]) < remaining
    decreases today - cursor
  {
    if cursor < today && remaining > 0 {
      var quota := Quota(cursor, snapshot, timesOff);
      var v := Visit(cursor, quota);
      var rest := Plan(NextWorkingDay(cursor + 1), today, remaining - quota, snapshot, timesOff);
      PlanBudget(NextWorkingDay(cursor + 1), today, remaining - quota, snapshot, timesOff);
      PlanStep(cursor, today, remaining, snapshot, timesOff);
      var plan := [v] + rest;
      forall i | 0 <= i < |plan|
        ensures TotalQuota(plan[..i]) < remaining
      {
        if i == 0 {
          assert plan[..0] == [];
        } else {
          TotalQuotaConsPrefix(v, rest, i - 1);
          assert TotalQuota(rest[..i - 1]) < remaining - quota;
        }
      }
      assert Plan(cursor, today, remaining, snapshot, timesOff) == plan;
    }
  }

  lemma TotalQuotaConsPrefix(v: Visit, visits: seq<Visit>, n: nat)
    requires n <= |visits|
    ensures TotalQuota(([v] + visits)[..n + 1]) == v.quota + TotalQuota(visits[..n])
  {
    assert ([v] + visits)[..n + 1] == [v] + visits[..n];
    TotalQuotaCons(v, visits[..n]);
  }

  /** The loop stops short of the request only by reaching today. */
  lemma {:induction false} PlanStopsShortOnlyAtToday(cursor: int, today: int, remaining: int, snapshot: seq<TimeEntry>, timesOff: seq<TimeOff>)
    ensures var plan := Plan(cursor, today, remaining, snapshot, timesOff);
      TotalQuota(plan) < remaining ==> CursorAfter(cursor, plan) >= today
    decreases today - cursor
  {
    if cursor < today && remaining > 0 {
      var quota := Quota(cursor, snapshot, timesOff);
      var v := Visit(cursor, quota);
      var next := NextWorkingDay(cursor + 1);
      var rest := Plan(next, today, remaining - quota, snapshot, timesOff);
      PlanStopsShortOnlyAtToday(next, today, remaining - quota, snapshot, timesOff);
      PlanStep(cursor, today, remaining, snapshot, timesOff);
      TotalQuotaCons(v, rest);
      CursorAfterCons(cursor, v, rest);
    }
  }

  lemma CursorAfterCons(cursor: int, v: Visit, rest: seq<Visit>)
    requires v.date == cursor
    ensures CursorAfter(cursor, [v] + rest) == CursorAfter(NextWorkingDay(cursor + 1), rest)
  {
    if rest != [] {
      assert ([v] + rest)[|rest|] == rest[|rest| - 1];
    }
  }

  /** With non-negative hours the loop books less than one working day beyond the request. */
  lemma PlanOvershoot(cursor: int, today: int, remaining: int, snapshot: seq<TimeEntry>, timesOff: seq<TimeOff>)
    requires NonNegativeHours(snapshot, timesOff)
    ensures var plan := Plan(cursor, today, remaining, snapshot, timesOff);
      plan != [] ==> TotalQuota(plan) < remaining + WorkingDayDuration
  {
    var plan := Plan(cursor, today, remaining, snapshot, timesOff);
    if plan != [] {
      PlanBudget(cursor, today, remaining, snapshot, timesOff);
      PlanShape(cursor, today, remaining, snapshot, timesOff);
      var last := plan[|plan| - 1];
      QuotaBounds(last.date, snapshot, timesOff);
    }
  }

  /** Monday 1970-01-05, nothing logged, sixteen hours: Monday and Tuesday take eight each. */
  lemma TwoFullDaysExample()
    ensures Plan(4, 30, 16, [], []) == [Visit(4, 8), Visit(5, 8)]
  {
    assert NextWorkingDay(5) == 5 && NextWorkingDay(6) == 6;
  }

  /** Five hours already logged on the Monday, three requested: the Monday takes three and the loop stops. */
  lemma PartialDayExample(logged: TimeEntry)
    requires logged.date == 4 && logged.hours == 5
    ensures Plan(4, 30, 3, [logged], []) == [Visit(4, 3)]
  {
    assert [logged][..0] == [];
    assert EntryHours(4, [logged]) == 5;
    assert Quota(4, [logged], []) == 3;
    assert NextWorkingDay(5) == 5;
  }

  /** Starting on Friday 1970-01-09 with sixteen hours: Friday, then the weekend is skipped, then Monday. */
  lemma AcrossWeekendExample()
    ensures Plan(8, 30, 16, [], []) == [Visit(8, 8), Visit(11, 8)]
  {
    assert Weekday(9) == Saturday;
    assert NextWorkingDay(9) == 11 && NextWorkingDay(12) == 12;
  }

  /** The whole quota is booked even when less was requested: three hours asked, eight booked. */
  lemma WholeQuotaExample()
    ensures Plan(4, 30, 3, [], []) == [Visit(4, 8)]
  {
    assert NextWorkingDay(5) == 5;
  }

  /** A fully logged day is still visited, with a quota of zero, and the loop moves on. */
  lemma ZeroQuotaExample(logged: TimeEntry)
    requires logged.date == 4 && logged.hours == 8
    ensures Plan(4, 30, 8, [logged], []) == [Visit(4, 0), Visit(5, 8)]
  {
    assert [logged][..0] == [];
    assert EntryHours(4, [logged]) == 8 && EntryHours(5, [logged]) == 0;
    assert Quota(4, [logged], []) == 0 && Quota(5, [logged], []) == 8;
    assert NextWorkingDay(5) == 5 && NextWorkingDay(6) == 6;
  }

  /** A start on Saturday 1970-01-10 is not moved: the Saturday itself is booked. */
  lemma WeekendStartExample()
    ensures Plan(9, 30, 8, [], []) == [Visit(9, 8)]
  {
    assert !IsWorkingDay(9);
    assert NextWorkingDay(10) == 11;
  }
}
