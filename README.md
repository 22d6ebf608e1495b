# CarInsurance.Api — a verified model of the car and policy-expiration services

This project models the decision logic of the CarInsurance.Api backend in Dafny.
That backend keeps owners, cars, insurance policies, claims and policy-expiration
logs in a relational store. The model covers two services.

- **CarService** answers four requests:
  - it lists cars joined with their owners;
  - it says whether a car is insured on a date, using inclusive policy
    boundaries and input validation;
  - it registers a claim after an ordered chain of validations;
  - it assembles a car's history: one event per policy start, one per policy
    end and one per claim, stably sorted by date.
- **PolicyExpirationService** runs a sweep every 15 minutes, and each run looks
  back one hour. A run does work only when that hour crossed a midnight. It selects the policies that ended on the date just
  finished and that have no expiration log yet, and appends one log row for each.

The store is a Dafny class, `Models.Store`, with one sequence per table.
- A navigation property is resolved by looking its id up.
- An inserted row gets a fresh id: one more than the largest id in its table.
- `Store.Valid()` says that primary keys are unique and foreign keys resolve.
  Every state-changing operation keeps it.

Dates are .NET `DateOnly` values: a subset type of year, month and day that
cannot name an impossible day, with years 1 to 9999. They are written and read
back in the strict `yyyy-MM-dd` form, which is RFC 3339's `full-date` (section
5.6), with the day-of-month limits of section 5.7. The project proves both round
trips of that text form. The history sort needs the first of them, because it
re-reads the date text that the history builder wrote. A UTC `DateTime` is a
date plus a second of the day.

Clocks are parameters: `today` for CarService, `now` for the sweep.

Files:
- `wrappers.dfy`: `Option` and `Result`.
- `dates.dfy`: the calendar, its order, a day-number reference, the next and
  previous day, `AddYears`, `yyyy-MM-dd` formatting and parsing, and the
  one-hour step back of a `DateTime`.
- `text.dfy`: .NET white space, `Trim`, the decimal rendering of integers in
  interpolated strings, and `Contains`.
- `models.dfy`: entities, transfer objects, lookups, fresh ids and the `Store` class.
- `history_order.dfy`: the stable `OrderBy` by date.
- `car_service.dfy`: the car service.
- `policy_expiration_service.dfy`: the expiration sweep. `Sweep` is the sweep as
  a function and `ProcessExpiredPolicies` is the imperative method proved
  against it.

## Model

| member | source | states |
|---|---|---|
| Dates.DayLimits | Services/CarService.cs:46-47 | February 30 never exists; February 29 exists exactly in leap years; day 31 exists exactly in the 31-day months; day 28 always exists |
| Dates.LeIsTotalOrder | Services/CarService.cs:31 | date comparison is reflexive, antisymmetric, transitive and total |
| Dates.DayNumberOrder | Services/CarService.cs:34-38 | the calendar order agrees with an independent count of days since 0001-01-01, for both `<=` and `<` |
| Dates.DayNumberRange | Services/PolicyExpirationService.cs:23 | day numbers are non-negative and zero only for 0001-01-01 |
| Dates.NextDay | Services/CarService.cs:36-37 | the next day's day number is one more |
| Dates.PrevDay | Services/PolicyExpirationService.cs:33 | the previous day's day number is one less |
| Dates.NextDayIsSuccessor | Services/CarService.cs:36-37 | the next day is later, and no date lies strictly between a day and its successor |
| Dates.PrevDayIsPredecessor | Services/CarService.cs:36-37 | the previous day is earlier, and no date lies strictly between a day and its predecessor |
| Dates.PrevDayOfNextDay | Services/PolicyExpirationService.cs:33 | the previous day of the next day is the day itself |
| Dates.AddYears | Services/CarService.cs:29 | DateTime.AddYears keeps the month and the day, except that 29 February becomes 28 February in a common year |
| Dates.DigitsRoundTrip | Services/CarService.cs:69 | a zero-padded field of digits reads back as the number it was written from, when the number fits the width |
| Dates.DecimalValueRoundTrip | Services/CarService.cs:114 | every string of digits is the zero-padded rendering of its value |
| Dates.Format | Services/CarService.cs:69 | `yyyy-MM-dd` is ten characters, with dashes at positions 4 and 7 and digits everywhere else |
| Dates.ParseFormat | Services/CarService.cs:89-114 | reading back a formatted date gives the date: the history sort keys are the dates written at 89-112 |
| Dates.FormatParse | Services/CarService.cs:46-47 | the strict parser accepts only text that formatting produces |
| Dates.ParseIffFormat | Services/CarService.cs:46-47 | parsing gives `d` if and only if the text is the `yyyy-MM-dd` rendering of `d` |
| Dates.ParseDigits | Services/CarService.cs:46-47 | text of digit fields parses to the named date exactly when that date exists |
| Dates.ImpossibleDateRejected | CarInsurace.Api.Tests/InsuranceValidityBoundaryTests.cs:130-144 | 2024-02-30 does not parse |
| Dates.NonLeapDayRejected | Services/CarService.cs:46-47 | 2023-02-29 does not parse |
| Dates.LeapDayAccepted | Services/CarService.cs:46-47 | 2024-02-29 parses to that date |
| Dates.HourEarlier | Services/PolicyExpirationService.cs:23 | `AddHours(-1)` is exactly 3600 seconds earlier, and fails only within the first hour of 0001-01-01 |
| Dates.HourEarlierDate | Services/PolicyExpirationService.cs:23-33 | an hour back stays on the same date exactly when the time of day is 01:00 or later; otherwise it lands on the previous date |
| Text.SkipLeading | Services/CarService.cs:62 | the first index at or after `i` that is not white space |
| Text.SkipTrailing | Services/CarService.cs:62 | the end of the range once trailing white space is dropped |
| Text.TrimSpec | Services/CarService.cs:62 | `Trim` keeps an infix of the input; everything cut from either side is white space; the result neither starts nor ends with white space |
| Text.TrimBlank | Services/CarService.cs:55-62 | a string trims to empty exactly when `IsNullOrWhiteSpace` holds for it |
| Text.TrimIdempotent | Services/CarService.cs:62 | trimming twice is the same as trimming once |
| Text.NatToString | Services/CarService.cs:26 | the rendering of a number is a non-empty string of digits without a leading zero |
| Text.NatToStringRoundTrip | Services/CarService.cs:26 | the rendering of a natural number reads back as that number |
| Text.IntToStringRoundTrip | Services/PolicyExpirationService.cs:50 | a `long` in an interpolated string reads back as itself, with a minus sign for negative values |
| Text.FieldsOfMessage | Services/PolicyExpirationService.cs:50-51 | text pieced together from fixed parts and fields contains its opening phrase and each field |
| Models.FindCar | Services/CarService.cs:25 | the lookup finds a car with the id exactly when `Cars.AnyAsync(c => c.Id == id)` holds |
| Models.FindOwner | Services/CarService.cs:14-16 | the owner lookup finds an owner with the id, or reports that none has it |
| Models.NextId | Services/CarService.cs:66-67 | the fresh id of a table (claims here, expiration logs at Services/PolicyExpirationService.cs:63-66) is positive and larger than every key already stored |
| Models.Store.AddClaim | Services/CarService.cs:58-67 | exactly one claim with a fresh id is appended; the other tables are unchanged and the store stays consistent |
| Models.Store.SaveExpirationLogs | Services/PolicyExpirationService.cs:55-66 | the rows are appended in order; the other tables are unchanged and log ids stay unique |
| HistoryOrder.Insert | Services/CarService.cs:114 | insertion keeps every item: the result is the input plus the inserted item, as a multiset |
| HistoryOrder.OrderByDate | Services/CarService.cs:114 | the sorted history is a permutation of its input |
| HistoryOrder.OrderByDateSorted | Services/CarService.cs:114 | the result is in ascending date order |
| HistoryOrder.OrderByDateStable | Services/CarService.cs:114 | for every date, the items with that date keep their input order |
| HistoryOrder.InsertSorted | Services/CarService.cs:114 | inserting into a sorted list keeps it sorted |
| HistoryOrder.InsertWithDate | Services/CarService.cs:114 | insertion places the item before every item of the same date that was already present |
| CarService.ListCars | Services/CarService.cs:12-18 | one entry per car, in store order, each holding the car's fields and the name and email of an owner with the car's owner id |
| CarService.AnyCoveringPolicy | Services/CarService.cs:34-38 | true exactly when some policy of the car has `StartDate <= date <= EndDate` |
| CarService.OtherCarsIgnored | Services/CarService.cs:35 | the answer over the whole table equals the answer over the car's own policies |
| CarService.IsInsuranceValid | Services/CarService.cs:20-39 | in order: a non-positive id is rejected; an unknown car gives "Car {id} not found"; a horizon past year 9999 gives the AddYears range error; a date outside 1900-01-01 to today plus 100 years is impossible; otherwise the answer is "some covering policy of this car", and it succeeds exactly then |
| CarService.BoundariesInclusive | Services/CarService.cs:36-37 | a policy covers its first and its last day, but not the day before or the day after |
| CarService.BoundaryExamples | CarInsurace.Api.Tests/InsuranceValidityBoundaryTests.cs:42-128 | the boundary tests: valid on 2024-01-01 and 2024-12-31, invalid on 2023-12-31 and 2025-01-01, and "Car 999 not found" for car 999 |
| CarService.CarNotFound999 | CarInsurace.Api.Tests/InsuranceValidityBoundaryTests.cs:127 | the not-found text for car 999 is "Car 999 not found" |
| CarService.ValidateClaim | Services/CarService.cs:43-56 | the checks reject, in order: an unknown car, a date that does not parse, a future date, a non-positive amount and a blank description. It succeeds exactly when all pass, with the date read from the request |
| CarService.RegisterClaim | Services/CarService.cs:41-71 | a rejected request changes nothing. An accepted one appends exactly one claim, with a fresh id, the car, the parsed date, the trimmed description and the amount, and returns it with the date as `yyyy-MM-dd`. The other tables are unchanged |
| CarService.RegisteredClaimWellFormed | Services/CarService.cs:49-62 | a stored claim has a positive amount, a date no later than today that reads back from its text, and a non-empty description with no white space at either end |
| CarService.PoliciesOf | Services/CarService.cs:78-80 | exactly the car's policies, with their multiplicities |
| CarService.ClaimsOf | Services/CarService.cs:82-84 | exactly the car's claims, with their multiplicities |
| CarService.StartEvent | Services/CarService.cs:88-95 | the date text of a start event reads back as the policy's start date |
| CarService.EndEvent | Services/CarService.cs:97-104 | the date text of an end event reads back as the policy's end date |
| CarService.ClaimEvent | Services/CarService.cs:106-112 | the date text of a claim event reads back as the claim date |
| CarService.StartEvents | Services/CarService.cs:88-95 | one event per policy, in order. Each one is a "PolicyStart" event that names the policy and its provider, is not a claim, and has a date text that reads back as the start date |
| CarService.EndEvents | Services/CarService.cs:97-104 | one event per policy, in order. Each one is a "PolicyEnd" event that names the policy and its provider, is not a claim, and has a date text that reads back as the end date |
| CarService.ClaimEvents | Services/CarService.cs:106-112 | one event per claim, in order. Each one is a "Claim" event with the claim's id, description and amount and no policy id, and its date text reads back as the claim date |
| CarService.BuiltHistory | Services/CarService.cs:86-112 | the unsorted history has 2·P + C items, and each has a date text that parses |
| CarService.BuiltHistoryStart | Services/CarService.cs:88-95 | item `i` is policy `i`'s start event, keyed by its start date |
| CarService.BuiltHistoryEnd | Services/CarService.cs:97-104 | item P + `i` is policy `i`'s end event, keyed by its end date |
| CarService.BuiltHistoryClaim | Services/CarService.cs:106-112 | item 2·P + `i` is claim `i`'s event, keyed by its claim date |
| CarService.GetCarHistory | Services/CarService.cs:73-117 | an unknown car gives not-found. Otherwise the history is a permutation of the built events, sorted by date, with each date's events in build order |
| PolicyExpirationService.Target | Services/PolicyExpirationService.cs:22-33 | a midnight was crossed exactly when the time of day is before 01:00 and the date is not 0001-01-01; the target is then the previous date |
| PolicyExpirationService.ExpiredUnlogged | Services/PolicyExpirationService.cs:35-40 | a policy is selected exactly when it is in the store, ends on the target and has no log |
| PolicyExpirationService.ExpiredUnloggedUnique | Services/PolicyExpirationService.cs:35-40 | the selection from policies with distinct ids has distinct ids |
| PolicyExpirationService.ExpiredUnloggedEmpty | Services/PolicyExpirationService.cs:39 | once every policy ending on the target has a log, nothing is selected |
| PolicyExpirationService.CarOf | Services/PolicyExpirationService.cs:36 | the loaded car is in the store and is the policy's car |
| PolicyExpirationService.OwnerOf | Services/PolicyExpirationService.cs:37 | the loaded owner is in the store and owns the policy's car |
| PolicyExpirationService.ExpirationMessageNames | Services/PolicyExpirationService.cs:50-51 | the message contains "Insurance policy {id} for car {VIN}", the VIN, the owner's name, the provider and "expired on" with the `yyyy-MM-dd` end date |
| PolicyExpirationService.NewLogs | Services/PolicyExpirationService.cs:48-63 | one row per selected policy. Row `i` has id start + `i`, the `i`-th policy's id and its end date as the expiration date, and `now` as the processing time |
| PolicyExpirationService.NewLogsStep | Services/PolicyExpirationService.cs:48-63 | one more loop step appends exactly one row, for the next policy |
| PolicyExpirationService.Sweep | Services/PolicyExpirationService.cs:20-68 | a sweep appends rows exactly when it processes, and the number processed is the number of rows |
| PolicyExpirationService.SweepWindow | Services/PolicyExpirationService.cs:22-46 | no midnight crossed means nothing is added. Otherwise the added rows are those of the policies that ended on the previous date and have no log, in store order, and "no new expired policies" holds exactly when there are none |
| PolicyExpirationService.SweepLogs | Services/PolicyExpirationService.cs:48-63 | each added row has a fresh id, a policy that ended on the target and had no log, that end date, `now`, and a message naming the policy id, the VIN, the owner, the provider and "expired on" with the target date |
| PolicyExpirationService.SweepCovers | Services/PolicyExpirationService.cs:35-66 | after the sweep, every policy that ended on the target has a log |
| PolicyExpirationService.SweepIdempotent | Services/PolicyExpirationService.cs:39 | a second sweep in the same window adds nothing and reports no new expired policies |
| PolicyExpirationService.SweepKeepsOneLogPerPolicy | Services/PolicyExpirationService.cs:39 | with distinct policy ids, "at most one log per policy" holds after a sweep if it held before |
| PolicyExpirationService.SweepKeepsLogIdsUnique | Services/PolicyExpirationService.cs:63-66 | appended rows keep log ids unique |
| PolicyExpirationService.StoreNavigable | Services/PolicyExpirationService.cs:36-37 | in a consistent store every policy's car and owner can be loaded |
| PolicyExpirationService.PendingLogs | Services/PolicyExpirationService.cs:48-64 | the `foreach` loop builds exactly the sweep's rows, in order |
| PolicyExpirationService.ProcessExpiredPolicies | Services/PolicyExpirationService.cs:20-68 | the outcome is the sweep's; the log table is the old one followed by the sweep's rows; the other tables are unchanged; the store stays consistent |
| PolicyExpirationService.NoMidnightTransitionExample | CarInsurace.Api.Tests/PolicyExpirationServiceTests.cs:22-51 | at 10:30 the sweep exits early and writes nothing |
| PolicyExpirationService.ExpiredPolicyExample | CarInsurace.Api.Tests/PolicyExpirationServiceTests.cs:53-117 | at 00:30 on 2024-01-02 the policy that ended on 2024-01-01 is logged once. The row has the fresh id, policy 1, expiration date 2024-01-01 and `now`, and its message contains "Insurance policy 1 for car TEST12345", "Test Owner" and "Garanti" |
| PolicyExpirationService.PolicyOnePhrase | CarInsurace.Api.Tests/PolicyExpirationServiceTests.cs:114 | the opening phrase for policy 1 on car TEST12345 |
| PolicyExpirationService.AlreadyLoggedExample | CarInsurace.Api.Tests/PolicyExpirationServiceTests.cs:129-201 | a policy that already has a log is skipped with "no new expired policies" and nothing is written |
| PolicyExpirationService.AlreadyLoggedTestStore | CarInsurace.Api.Tests/PolicyExpirationServiceTests.cs:164-177 | the test's existing log row marks policy 1 as logged |

## Left out

- BackgroundServices/PolicyExpirationBackgroundService.cs is not part of this model. Its loop calls the sweep at intervals, swallows exceptions and stops on cancellation; this is scheduling and concurrency plumbing. One sweep is modelled, and `ClockOutOfRange` stands for the exception the loop would catch.
- Entity Framework and async are not modelled: `Include`, `AnyAsync`, `ToListAsync`, `SaveChangesAsync` and the tasks. Queries are functions over the store's sequences, and each service call runs to completion on its own.
- `ILogger` output (information, warning and error lines) is not modelled. The expiration message is computed, because it is stored in the log row.
- `DateTime.Now` and `UtcNow` become parameters (`today`, `now`). Sub-second ticks and `DateTimeKind` are dropped.
- Dates.Parse: accepts only the strict `yyyy-MM-dd` form. `DateOnly.TryParse` in claim registration and `DateOnly.Parse` in the history sort also accept culture-dependent forms; the model rejects those.
- The controller that parses the validity query's date and maps errors to HTTP results is not part of this model. Its "Invalid date format. Use YYYY-MM-DD." text is therefore not modelled; `Dates.ImpossibleDateRejected` states only that 2024-02-30 does not parse.
- `decimal` amounts are integers in the smallest currency unit; only their sign is ever tested.
- A `null` claim date or description is not modelled, because a Dafny string cannot be null. The request's fields are plain strings (Dtos/Dtos.cs:6), and the source rejects both: `TryParse` fails on a null date (Services/CarService.cs:46), and `IsNullOrWhiteSpace` holds for a null description (Services/CarService.cs:55). The model therefore leaves out those two rejection paths, and `IsBlank` is `IsNullOrWhiteSpace` on a string that is not null.
- The order of rows within a table is not modelled. A store sequence's order stands for the order in which the database returns rows, and the source leaves that unspecified: its queries at Services/CarService.cs:78-84 and Services/PolicyExpirationService.cs:35-40 have no `OrderBy`. Two claims depend on the order chosen. In `GetCarHistory`, events of one kind that share a date appear in store order. In the sweep, the ids `start + i` are given in store order. Starts still come before ends, and ends before claims, on any date, whatever the row order.
- Ids are assigned as one more than the largest id in the table. The store's own key generator is not modelled, and `SaveChanges` is taken to assign the pending expiration rows consecutive ids in insertion order.
- A claim is not required to fall inside an active policy. The source says explicitly that this rule is not implemented (Models/Claim.cs:5-7).
- `IsInsuranceValidAsync` reads the local date through `DateTime.Now.AddYears(100)`; the model takes `today` as a `DateOnly` and applies `AddYears` to it.
- PolicyExpirationService.ExpirationMessageNames: states which phrases and fields the message contains, not their order or the exact "(Owner: …) provided by" wording. The exact text is the body of `ExpirationMessage`.
- PolicyExpirationService.ExpiredPolicyExample: does not state the "Processed 1 expired policies" information line, because logging is not modelled. The outcome `Processed(1)` stands for it.
- CarService.ListCars: states that each entry holds an owner with the car's owner id; under `Store.Valid()` that owner is unique.
- The `PolicyExpirationLog` row's table-side navigation to the policy is not modelled; a row refers to its policy by id only.
