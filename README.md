# Teamwork time-tracking CLI — a Dafny model of its core

The program is a command-line client for the Teamwork project-management
service. Its core does the following:

- It works out how many hours a day still owes. That is a working day of 8
  hours, less the hours already logged on that day, less any time off
  declared for it, and never below zero.
- It adds up those shortfalls over the working days from a given date up to
  today (`time-entries missing`).
- It spreads a requested number of hours over consecutive days
  (`time-entries save`). Each day is booked with its whole remaining quota,
  until today is reached or the request is used up.
- It lists the tasks most recently logged against, without duplicates.
- It keeps a local configuration: credentials, project aliases, and declared
  time off. Declaring time off replaces any earlier declaration for that date.
- It parses durations such as `8d4h`.
- It shows the missing total as days and hours.
- It filters time off by year and month.
- For the interactive menus, it flattens a task list one level deep and
  labels each entry.

The remote service is modelled by what it returns:

- `account` is the result of reading the account.
- `fetched` is the result of fetching the time entries.
- `respond(k)` is the reply to the k-th creation request.

Today's date and the current year are parameters. Dates are day numbers:
day 0 is Thursday 1970-01-01. `Calendar.IsoDate` stands in for the
`%Y-%m-%d` rendering, and all the model relies on is that it is injective.

Modules and files:

| file | module | what it holds |
|---|---|---|
| `wrappers.dfy` | `Wrappers` | `Option` and `Result` |
| `decimal.dfy` | `Decimal` | decimal text |
| `calendar.dfy` | `Calendar` | weekdays, working days, date text |
| `entities.dfy` | `Entities` | the service's records |
| `teamwork_config.dfy` | `TeamworkConfig` | the configuration |
| `workload.dfy` | `Workload` | daily quota, missing hours |
| `allocation.dfy` | `Allocation` | `save_time` |
| `recent_tasks.dfy` | `RecentTasks` | `last_used_tasks` |
| `cli.dfy` | `Cli` | duration parsing, the missing split, the time-off listing |
| `interactive.dfy` | `Interactive` | task flattening and menu labels |

Three behaviours of the code a reader might not expect; the model follows
the code:

- The allocation loop books each visited day's full quota, even a quota of
  zero, and even when the quota is more than the hours still requested. It
  does not stop on a day with no quota. `Allocation.ZeroQuotaExample` and
  `Allocation.WholeQuotaExample` show this.
- The start date is visited even when it falls on a weekend.
  `Allocation.WeekendStartExample` shows this.
- A failed creation request ends the whole run with that error. Replies that
  arrived earlier have already been reported. The run does not move on to
  the next day.

## Model

| member | source | states |
|---|---|---|
| `Calendar.IsWorkingDay` | src/teamwork_service.rs:209-211 | A day is a working day exactly when it is Monday to Friday. |
| `Calendar.NextWorkingDay` | src/teamwork_service.rs:183-186 | The skip after each visit lands on the first working day at or after its start, at most two days later. Every day skipped is a Saturday or Sunday. |
| `Calendar.WeekendIsTwoDays` | src/teamwork_service.rs:209-211 | Exactly two consecutive days of each week are not working days. A Saturday is followed by a Sunday, and the day after that works. |
| `Calendar.IsoDateInjective` | src/teamwork_service.rs:229-231 | Distinct days render to distinct `%Y-%m-%d` keys, so time off declared for one day never counts for another. |
| `Workload.Quota` | src/teamwork_service.rs:213-240 | The quota is never negative. It is never below 8 minus the day's logged hours minus its time off, and it is either 0 or exactly that balance. |
| `Workload.RemainingWorkload` | src/teamwork_service.rs:213-240 | The two subtraction loops and the final clamp compute the day's quota. |
| `Workload.QuotaBounds` | src/teamwork_service.rs:213-240 | With non-negative hours, a day's quota is between 0 and 8. |
| `Workload.QuotaMonotone` | src/teamwork_service.rs:213-240 | Logging more non-negative hours or declaring more time off never raises a quota. |
| `Workload.BalanceSubtractsEach` | src/teamwork_service.rs:218-233 | Each entry on the day and each time-off declaration for the day lowers the balance by exactly its hours. |
| `Workload.QuotaIgnoresOtherDays` | src/teamwork_service.rs:218-224 | Appending an entry dated on another day leaves the quota unchanged. |
| `Workload.QuotaIgnoresOtherTimeOff` | src/teamwork_service.rs:226-233 | Appending time off whose key is not this day's key leaves the quota unchanged. |
| `Workload.QuotaIgnoresOtherDayTimeOff` | src/teamwork_service.rs:226-233 | Time off declared for any other day, under that day's own key, leaves the quota unchanged, because distinct days have distinct keys. |
| `Workload.EntryHoursPermutation` | src/teamwork_service.rs:218-224 | Two entry lists with the same elements, in any order, give a day the same logged hours. |
| `Workload.QuotaOrderInsensitive` | src/teamwork_service.rs:217-224 | Any reordering of the fetched entries gives the same quota. |
| `Workload.QuotaAfterDeclaringTimeOff` | src/teamwork_config.rs:41-54 | After declaring `h` hours off for a day, the time off counted for that day is exactly `max(h, 0)`, whatever was declared before. |
| `Workload.DayShortfall` | src/teamwork_service.rs:121-123 | Only working days add to the missing total, and none adds a negative amount. |
| `Workload.GetMissingEntries` | src/teamwork_service.rs:108-130 | A start on or after today gives 0 without fetching. A failed fetch is passed on. Otherwise the result is the sum of the working days' quotas from the start date up to, but not including, today. |
| `Workload.MissingHoursSplit` | src/teamwork_service.rs:118-126 | The missing total over a span is the sum of the totals of its two halves. |
| `Workload.MissingHoursBounds` | src/teamwork_service.rs:118-126 | With non-negative hours, the missing total is between 0 and 8 per day of the span. |
| `Workload.WeekOfMissingHours` | src/teamwork_service.rs:108-130 | With nothing logged, any seven consecutive days are missing exactly 40 hours. |
| `Workload.MissingHoursExample` | src/teamwork_service.rs:108-130 | From a Monday to the Thursday, with nothing logged, 24 hours are missing. 4 hours of time off on the Tuesday bring it to 20. |
| `Allocation.Plan` | src/teamwork_service.rs:154-187 | The reference definition of the days the loop visits and the quota booked on each; its properties are the `Plan*` lemmas below. |
| `Allocation.Booking` | src/teamwork_service.rs:162-169 | The request for a visit names the task and the account, carries the description, the visit's day, its whole quota as hours, `08:00` and `0` minutes. |
| `Allocation.SaveTime` | src/teamwork_service.rs:132-190 | See the details after this table. |
| `Allocation.BookHours` | src/teamwork_service.rs:150-189 | The allocation loop leaves the state described for `SaveTime` once the account and entries are in hand. |
| `Allocation.StepKept` | src/teamwork_service.rs:154-187 | A visit made in a dry run, or whose request is answered, keeps the loop's state: visits made plus visits planned are the whole plan, and every answer is reported. |
| `Allocation.StepFailed` | src/teamwork_service.rs:171 | A failed request ends the run with that error, after the visits made so far. |
| `Allocation.Acknowledge` | src/teamwork_service.rs:172-179 | A reply is reported as confirmed exactly when its status is `OK`. A missing id is reported as `unknown`. Any other reply is reported with its own status. |
| `Allocation.SkipToWorkingDay` | src/teamwork_service.rs:183-186 | The inner skip loop stops at the first working day at or after its start. |
| `Allocation.PlanShape` | src/teamwork_service.rs:154-187 | The first visit is the start date, whatever weekday it is. Every later visit is a working day. Each later visit is the next working day after the previous one. Dates strictly increase and lie before today. Each quota is that day's quota in the one fetched snapshot. |
| `Allocation.PlanConsecutive` | src/teamwork_service.rs:183-186 | The plan starts at the start date, and each later visit is the first working day after the previous visit. |
| `Allocation.PlanBudget` | src/teamwork_service.rs:154-187 | Each visit starts with hours still to place. |
| `Allocation.PlanStopsShortOnlyAtToday` | src/teamwork_service.rs:154-187 | The loop ends with hours left over only by reaching today. |
| `Allocation.PlanOvershoot` | src/teamwork_service.rs:154-183 | With non-negative hours, what is booked exceeds the request by less than one working day. |
| `Allocation.TwoFullDaysExample` | src/teamwork_service.rs:154-187 | 16 hours from an empty Monday fill Monday and Tuesday with 8 hours each. |
| `Allocation.PartialDayExample` | src/teamwork_service.rs:154-183 | After 5 hours logged on a Monday, a request of 3 books only that day's 3 hours. |
| `Allocation.AcrossWeekendExample` | src/teamwork_service.rs:183-186 | 16 hours from a Friday book the Friday and the next Monday. |
| `Allocation.WholeQuotaExample` | src/teamwork_service.rs:155-183 | A request of 3 hours on an empty day books the day's full 8. |
| `Allocation.ZeroQuotaExample` | src/teamwork_service.rs:155-183 | A fully logged day is still visited, with a quota of 0, and the loop goes on. |
| `Allocation.WeekendStartExample` | src/teamwork_service.rs:146-155 | A start on a Saturday books that Saturday. |
| `Entities.EntryTask` | src/teamwork_service.rs:317-321 | An entry's task has the entry's item id and name and no sub-tasks. |
| `RecentTasks.LastUsedTasks` | src/teamwork_service.rs:88-105 | A failed fetch is passed on. See also the details after this table. |
| `RecentTasks.FirstIndex` | src/teamwork_service.rs:93-94 | Gives the position of the first occurrence of a task that is present. |
| `RecentTasks.DedupSpec` | src/teamwork_service.rs:91-102 | The fold that keeps unseen tasks yields each task once, at its first occurrence. |
| `TeamworkConfig.GetAlias` | src/teamwork_config.rs:36-39 | The result is absent exactly when no alias has the project id. Otherwise it is the first alias with that id. |
| `TeamworkConfig.AddAlias` | src/teamwork_config.rs:102-108 | The new alias is appended after all existing ones. Nothing else in the configuration changes. |
| `TeamworkConfig.SaveAlias` | src/teamwork_config.rs:94-117 | A read error is passed on, and a missing configuration gives `NoConfig`. Otherwise the result is the stored configuration with the alias appended and nothing else changed, so the project resolves to its earlier alias if it had one, or else to the new one. |
| `TeamworkConfig.AddAliasKeepsOlder` | src/teamwork_config.rs:36-39 | Appending an alias leaves every already aliased project's alias unchanged. Only a project without one gains the new alias. |
| `TeamworkConfig.FreshConfig` | src/teamwork_config.rs:83-92 | Authenticating stores the credentials with no aliases and no time off. |
| `TeamworkConfig.WithoutDate` | src/teamwork_config.rs:47 | Keeps exactly the declarations for other dates, never more than before. |
| `TeamworkConfig.WithTimeOff` | src/teamwork_config.rs:41-54 | The retain loop and the conditional push give the declarations for other dates in order, followed by the new one when its hours are positive. Credentials and aliases are unchanged. |
| `TeamworkConfig.ReplaceTimeOffSpec` | src/teamwork_config.rs:41-54 | A positive declaration leaves exactly one entry for its date, and it is the new one. A non-positive declaration removes the date. Other dates keep their declarations. |
| `TeamworkConfig.WithoutDateIdempotent` | src/teamwork_config.rs:47 | Removing a date twice is the same as removing it once. |
| `TeamworkConfig.WithTimeOffIdempotent` | src/teamwork_config.rs:41-54 | Declaring the same time off twice is the same as declaring it once. |
| `Cli.ParseTimeDuration` | src/main.rs:232-249 | The result is absent exactly when neither a `<digits>d` nor a `<digits>h` component matches at the start. A present result is never negative. |
| `Cli.DigitRun` | src/main.rs:233 | Measures the maximal run of digits from a position. |
| `Cli.MatchComponent` | src/main.rs:233 | A component matches only with at least one digit before its unit letter. The match takes the whole greedy run of digits. Its value is the number those digits spell, and it ends just after the unit letter. |
| `Cli.DigitRunIs` | src/main.rs:233 | A run of exactly `k` digits, followed by a non-digit or the end, is measured as `k`. |
| `Cli.DigitsValueIs` | src/main.rs:240-241 | Digits written in the text from a position are read as the number they spell in decimal. |
| `Cli.MatchDigits` | src/main.rs:233-241 | A run of digits followed by the unit letter matches, with the digits' value and the position just after the letter. |
| `Cli.NoMatchWithoutDigit` | src/main.rs:233 | No component matches where there is no digit. |
| `Cli.ParseDigitsDaysAndHours` | src/main.rs:232-249 | Digits, `d`, digits, `h`, followed by any text, parse to eight times the first number plus the second. |
| `Cli.DigitRunShift` | src/main.rs:233 | A run of digits is measured the same after any prefix. |
| `Cli.NoHoursMatch` | src/main.rs:233 | Where the text does not start with `<digits>h`, the hours group does not match. |
| `Cli.ParseDigitsDays` | src/main.rs:232-249 | Digits and `d`, followed by any text that does not start with `<digits>h`, parse to eight times the number; the rest is ignored. |
| `Cli.ParseDigitsHours` | src/main.rs:232-249 | Digits and `h`, followed by any text, parse to the number. |
| `Cli.ParseDaysAndHours` | src/main.rs:232-249 | `<d>d<h>h`, followed by any text, parses to `8·d + h`. |
| `Cli.ParseDaysOnly` | src/main.rs:232-249 | `<d>d`, followed by any text that does not start with `<digits>h`, parses to `8·d`. |
| `Cli.ParseHoursOnly` | src/main.rs:232-249 | `<h>h` parses to `h`. |
| `Cli.ParseRejectsLeadingNonDigit` | src/main.rs:232-249 | Text that does not start with a digit parses to nothing. |
| `Cli.ParseExampleTwoParts` | src/main.rs:232-249 | `8d4h` gives 68. |
| `Cli.ParseExampleWrongOrder` | src/main.rs:232-249 | `4h8d` gives 4, because only the leading match counts. |
| `Cli.ParseExampleUnclosedHours` | src/main.rs:232-249 | `3d5x` and `3d5` give 24: digits with no closing `h` are ignored. |
| `Cli.ParseExamplesOnePart` | src/main.rs:232-249 | `3d` gives 24 and `2h` gives 2. `d4h` gives nothing. |
| `Cli.SplitMissing` | src/main.rs:211-212 | Days times 8 plus hours is the missing total. Hours lie in `[0, 8)` for a non-negative total and in `(-8, 0]` for a negative one, as Rust's truncating operators give. |
| `Cli.SplitThenParse` | src/main.rs:211-212 | Writing the split back as `<days>d<hours>h` and parsing it gives the total back. |
| `Cli.SelectionPattern` | src/main.rs:145-152 | The pattern starts with the given year, or the current year by default. Without a month it is the year alone; with one, the year is followed by `-` and the month. |
| `Cli.SelectByPrefix` | src/main.rs:154-156 | Keeps exactly the declarations whose date starts with the pattern. |
| `Cli.TimesOffListing` | src/main.rs:142-159 | Lists exactly the declarations dated in the given year (the current year by default), or in `year-month` when a month is given. |
| `Cli.SelectAppend` | src/main.rs:154-156 | The filter keeps the declarations' order. |
| `Cli.MonthWithinYear` | src/main.rs:148-156 | Listing a month gives the year's listing narrowed to that month. |
| `Decimal.NatToString` | src/interactive.rs:143 | A count is rendered as at least one digit, as a single digit exactly below 10, and with a leading `0` only for zero itself. |
| `Decimal.DecimalRoundTrip` | src/interactive.rs:138-146 | A rendered count reads back as itself. |
| `Interactive.FlattenTasks` | src/interactive.rs:107-118 | The nested loops produce the one-level flattening: each task, then its direct sub-tasks, with length `Σ(1 + |sub-tasks|)`. |
| `Interactive.SubItems` | src/interactive.rs:112-114 | Each direct sub-task becomes a sub-item, in order. |
| `Interactive.FlattenAppend` | src/interactive.rs:107-118 | Flattening a concatenation concatenates the flattenings. |
| `Interactive.FlattenLayout` | src/interactive.rs:107-118 | Task `i` sits at offset `FlatSize(tasks[..i])` as a top-level item, directly followed by its sub-tasks as sub-items. |
| `Interactive.FlattenOneLevel` | src/interactive.rs:107-118 | Every item is a listed task, or a direct sub-task of one marked as a sub-item. Nothing deeper is pulled out. |
| `Interactive.TaskItemLabel` | src/interactive.rs:138-146 | A sub-item shows a tab, a space and its name. A task shows its name, then ` (`, then its number of sub-tasks, then ` sub tasks)`. The number is at least one digit, reads back as the count, and starts with `0` only when it is the single digit `0`. |
| `Interactive.TaskListLabel` | src/interactive.rs:154-158 | A task list shows its name, then ` (`, then its uncompleted count, then ` tasks)`. The number is at least one digit, reads back as the count, and starts with `0` only when it is the single digit `0`. |
| `Interactive.ProjectLabel` | src/interactive.rs:148-152 | A project shows its name alone. |

Details of the rows too long for the table:

- `Allocation.SaveTime`:
  - A failed account read or a failed fetch returns that error, with nothing visited and nothing sent.
  - Otherwise the visits are a prefix of the plan.
  - One request is sent per visit, booking that day's whole quota from 08:00. None is sent on a dry run.
  - The run succeeds exactly when it is a dry run or every planned request was answered.
  - On success the result is the requested hours and every planned day was visited.
  - On failure the error is the reply to the last request sent. Every earlier request was answered and reported.
- `RecentTasks.LastUsedTasks`:
  - The tasks of the fetched entries appear without duplicates, ordered by first occurrence.
  - Every task is present, and each has no sub-tasks.

## Left out

- HTTP transport, authentication headers, JSON (de)serialisation and the service's paging parameters (at most 60 entries for recent tasks, 500 otherwise) are not modelled. Each call is reduced to the `Result` it produces.
- The clock (`Utc::today`, the current year) is a parameter.
- Calendar dates are day numbers. `%Y-%m-%d` text is modelled only as an injective rendering, `Calendar.IsoDate`. Time off declared with a date text that no day renders to is therefore never counted, as in the program. Its exact characters are not modelled.
- The `%Y%m%d` date text sent in a creation request is not modelled. `Entities.TimeEntryInput` carries the day number.
- Parsing a date argument, and the panics of `.expect`/`.unwrap`, are not modelled. These cover an unparsable date, an unparsable duration, and a non-numeric `hours` or `todo-item-id` in a fetched entry. Entry hours and task ids are integers in the model.
- `Workload.Quota` and `Cli.ParseTimeDuration` use unbounded integers. The program's 32-bit `i32` overflow (for example `8·d` for a huge `d`) is not modelled.
- Reading and writing the configuration file (`get_config`, `save_config`, the home directory) is left out. `TeamworkConfig.SaveAlias` takes the outcome of reading the file as a parameter.
- The interactive prompts (selection menus, the search input, the "Go Back" command) and the console printers are left out. Only the flattening and the labels they display are modelled.
- Command-line argument parsing, command dispatch, and the progress and result lines printed to the console are left out. What `save_time` reports per reply is modelled as `Allocation.Report`.
- Project search, and listing projects, task lists and tasks, are plain remote calls with no logic of their own, so they are left out.
