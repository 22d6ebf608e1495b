/**
 * The sweep that reports expired policies. The service runs it every 15
 * minutes, and each run looks back one hour.
 *
 * A policy ends at the midnight after its end date. A sweep run at `now`
 * looks back one hour; only when that hour crossed a midnight does it
 * select the policies that ended on the date just finished and have no
 * expiration log yet, and it appends one log per such policy, stamped with
 * `now`. Running it again inside the same window therefore adds nothing.
 */
module PolicyExpirationService {
  import opened Wrappers
  import opened Dates
  import opened Text
  import opened Models

  /** How a sweep ends; a clock so early that an hour back does not exist
      makes .NET throw, which the background loop catches. */
  datatype SweepOutcome = ClockOutOfRange | NoMidnightTransition | NoNewExpiredPolicies | Processed(count: nat)

  /** The outcome of a sweep and the log rows it appends, in order. */
  datatype SweepResult = SweepResult(outcome: SweepOutcome, added: seq<PolicyExpirationLog>)

  /** PolicyExpirationLogs.Any(log => log.PolicyId == policyId). */
  predicate HasLog(logs: seq<PolicyExpirationLog>, policyId: int) {
    exists l | l in logs :: l.policyId == policyId
  }

  /** No policy is reported twice. */
  predicate AtMostOneLogPerPolicy(logs: seq<PolicyExpirationLog>) {
    forall i, j :: 0 <= i < j < |logs| ==> logs[i].policyId != logs[j].policyId
  }

  predicate AllNavigable(policies: seq<InsurancePolicy>, cars: seq<Car>, owners: seq<Owner>) {
    forall p :: p in policies ==> Navigable(p, cars, owners)
  }

  /** The date whose midnight the last hour crossed, if it crossed one. */
  function Target(now: DateTime): (r: Option<DateOnly>)
    ensures r.Some? <==> now.secondOfDay < SecondsPerHour && now.date != MinDate
    ensures r.Some? ==> now.date != MinDate && r.value == PrevDay(now.date)
  {
    var earlier := HourEarlier(now);
    DayNumberRange(now.date);
    if earlier.None? then None
    else
      HourEarlierDate(now);
      if earlier.value.date == now.date then None else Some(earlier.value.date)
  }

  /** The query: policies ending on `target` that have no log yet, in store order. */
  function ExpiredUnlogged(policies: seq<InsurancePolicy>, logs: seq<PolicyExpirationLog>, target: DateOnly)
    : (r: seq<InsurancePolicy>)
    ensures forall p :: p in r <==> p in policies && p.endDate == target && !HasLog(logs, p.id)
  {
    if policies == [] then []
    else
      var head := if policies[0].endDate == target && !HasLog(logs, policies[0].id) then [policies[0]] else [];
      head + ExpiredUnlogged(policies[1..], logs, target)
  }

  /** Selecting from policies with distinct ids yields policies with distinct ids. */
  lemma {:induction false} ExpiredUnloggedUnique(policies: seq<InsurancePolicy>, logs: seq<PolicyExpirationLog>,
                                                 target: DateOnly)
    requires UniquePolicyIds(policies)
    ensures UniquePolicyIds(ExpiredUnlogged(policies, logs, target))
  {
    if policies != [] {
      var tail := policies[1..];
      assert UniquePolicyIds(tail) by {
        forall i, j | 0 <= i < j < |tail| ensures tail[i].id != tail[j].id {
          assert tail[i] == policies[i + 1] && tail[j] == policies[j + 1];
        }
      }
      ExpiredUnloggedUnique(tail, logs, target);
      var rest := ExpiredUnlogged(tail, logs, target);
      forall p | p in rest ensures p.id != policies[0].id {
        var k :| 0 <= k < |tail| && tail[k] == p;
        assert policies[k + 1] == p;
      }
      var r := ExpiredUnlogged(policies, logs, target);
      forall i, j | 0 <= i < j < |r| ensures r[i].id != r[j].id {
        if r[0] == policies[0] && |r| == |rest| + 1 {
          assert r[j] == rest[j - 1];
          if i > 0 { assert r[i] == rest[i - 1]; }
          else { assert rest[j - 1] in rest; }
        } else {
          assert r == rest;
        }
      }
    }
  }

  /** Once every policy ending on `target` has a log, the query finds nothing. */
  lemma ExpiredUnloggedEmpty(policies: seq<InsurancePolicy>, logs: seq<PolicyExpirationLog>, target: DateOnly)
    requires forall p :: p in policies && p.endDate == target ==> HasLog(logs, p.id)
    ensures ExpiredUnlogged(policies, logs, target) == []
  {
    if policies != [] {
      assert policies[0] in policies;
      ExpiredUnloggedEmpty(policies[1..], logs, target);
    }
  }

  /** The car a navigable policy is for. */
  function CarOf(p: InsurancePolicy, cars: seq<Car>, owners: seq<Owner>): (c: Car)
    requires Navigable(p, cars, owners)
    ensures c in cars && c.id == p.carId
  {
    FindCar(cars, p.carId).value
  }

  /** The owner of that car. */
  function OwnerOf(p: InsurancePolicy, cars: seq<Car>, owners: seq<Owner>): (o: Owner)
    requires Navigable(p, cars, owners)
    ensures o in owners && o.id == CarOf(p, cars, owners).ownerId
  {
    FindOwner(owners, CarOf(p, cars, owners).ownerId).value
  }

  /** The warning text: it names the policy, the car's VIN, the owner, the
      provider and the end date in yyyy-MM-dd form. */
  function ExpirationMessage(p: InsurancePolicy, car: Car, owner: Owner): string {
    var head := "Insurance policy " + IntToString(p.id) + " for car ";
    var tail := " expired on " + Format(p.endDate);
    head + car.vin + " (Owner: " + owner.name + ") provided by " + p.provider + tail
  }

  /** The message names the policy, the car's VIN, the owner, the provider and the end date. */
  lemma ExpirationMessageNames(p: InsurancePolicy, car: Car, owner: Owner)
    ensures var m := ExpirationMessage(p, car, owner);
            && Contains(m, "Insurance policy " + IntToString(p.id) + " for car " + car.vin)
            && Contains(m, car.vin) && Contains(m, owner.name) && Contains(m, p.provider)
            && Contains(m, " expired on " + Format(p.endDate))
  {
    FieldsOfMessage("Insurance policy " + IntToString(p.id) + " for car ", car.vin, " (Owner: ", owner.name,
                    ") provided by ", p.provider, " expired on " + Format(p.endDate));
  }

  /** The log row written for one policy. */
  function ExpirationLogFor(id: int, p: InsurancePolicy, cars: seq<Car>, owners: seq<Owner>, now: DateTime)
    : PolicyExpirationLog
    requires Navigable(p, cars, owners)
  {
    PolicyExpirationLog(id, p.id, p.endDate, now,
                        ExpirationMessage(p, CarOf(p, cars, owners), OwnerOf(p, cars, owners)))
  }

  /** The rows for the selected policies, in order: row i reports the i-th
      policy under id start + i, with its end date and the sweep's time. */
  function NewLogs(start: int, selected: seq<InsurancePolicy>, cars: seq<Car>, owners: seq<Owner>, now: DateTime)
    : (r: seq<PolicyExpirationLog>)
    requires AllNavigable(selected, cars, owners)
    ensures |r| == |selected|
    ensures forall i :: 0 <= i < |selected| ==>
              && r[i].id == start + i && r[i].policyId == selected[i].id
              && r[i].expirationDate == selected[i].endDate && r[i].processedAt == now
  {
    seq(|selected|, i requires 0 <= i < |selected| => ExpirationLogFor(start + i, selected[i], cars, owners, now))
  }

  lemma NewLogsAt(start: int, selected: seq<InsurancePolicy>, cars: seq<Car>, owners: seq<Owner>, now: DateTime, i: int)
    requires AllNavigable(selected, cars, owners) && 0 <= i < |selected|
    ensures NewLogs(start, selected, cars, owners, now)[i] == ExpirationLogFor(start + i, selected[i], cars, owners, now)
  {
  }

  /** Taking one more selected policy appends one more row. */
  lemma NewLogsStep(start: int, selected: seq<InsurancePolicy>, i: int, cars: seq<Car>, owners: seq<Owner>,
                    now: DateTime)
    requires AllNavigable(selected, cars, owners) && 0 <= i < |selected|
    ensures AllNavigable(selected[..i], cars, owners) && AllNavigable(selected[..i + 1], cars, owners)
    ensures NewLogs(start, selected[..i + 1], cars, owners, now)
            == NewLogs(start, selected[..i], cars, owners, now) + [ExpirationLogFor(start + i, selected[i], cars, owners, now)]
  {
    assert forall p :: p in selected[..i + 1] ==> p in selected;
    assert forall p :: p in selected[..i] ==> p in selected;
    var a := NewLogs(start, selected[..i + 1], cars, owners, now);
    var b := NewLogs(start, selected[..i], cars, owners, now) + [ExpirationLogFor(start + i, selected[i], cars, owners, now)];
    forall k | 0 <= k < |a| ensures a[k] == b[k] {
      assert selected[..i + 1][k] == selected[k];
      NewLogsAt(start, selected[..i + 1], cars, owners, now, k);
      if k < i {
        assert selected[..i][k] == selected[k];
        NewLogsAt(start, selected[..i], cars, owners, now, k);
      }
    }
  }

  /** What one sweep at `now` decides and appends. */
  function Sweep(policies: seq<InsurancePolicy>, cars: seq<Car>, owners: seq<Owner>,
                 logs: seq<PolicyExpirationLog>, now: DateTime): (r: SweepResult)
    requires AllNavigable(policies, cars, owners)
    ensures r.outcome.Processed? <==> r.added != []
    ensures r.outcome.Processed? ==> r.outcome.count == |r.added|
  {
    var earlier := HourEarlier(now);
    if earlier.None? then SweepResult(ClockOutOfRange, [])
    else if earlier.value.date == now.date then SweepResult(NoMidnightTransition, [])
    else
      var expired := ExpiredUnlogged(policies, logs, earlier.value.date);
      if expired == [] then SweepResult(NoNewExpiredPolicies, [])
      else SweepResult(Processed(|expired|), NewLogs(NextLogId(logs), expired, cars, owners, now))
  }

  /** The one-hour window: outside the first hour of a day nothing happens;
      inside it the sweep handles exactly the policies that ended on the
      previous date and have not been reported yet. */
  lemma SweepWindow(policies: seq<InsurancePolicy>, cars: seq<Car>, owners: seq<Owner>,
                    logs: seq<PolicyExpirationLog>, now: DateTime)
    requires AllNavigable(policies, cars, owners)
    ensures var r := Sweep(policies, cars, owners, logs, now);
            && (r.outcome == ClockOutOfRange <==> now.date == MinDate && now.secondOfDay < SecondsPerHour)
            && (r.outcome == NoMidnightTransition <==> now.secondOfDay >= SecondsPerHour)
            && (!r.outcome.Processed? ==> r.added == [])
            && (Target(now).Some? ==>
                  var expired := ExpiredUnlogged(policies, logs, PrevDay(now.date));
                  && r.added == NewLogs(NextLogId(logs), expired, cars, owners, now)
                  && (r.outcome == NoNewExpiredPolicies <==> expired == []))
  {
    var earlier := HourEarlier(now);
    if earlier.Some? {
      HourEarlierDate(now);
    } else {
      DayNumberRange(now.date);
    }
  }

  /** Every appended row: a fresh id, one of the policies that ended on the
      previous date and had no log, its end date, the sweep's time and a
      message naming the policy, the car, the owner, the provider and the date. */
  lemma SweepLogs(policies: seq<InsurancePolicy>, cars: seq<Car>, owners: seq<Owner>,
                  logs: seq<PolicyExpirationLog>, now: DateTime, i: int)
    requires AllNavigable(policies, cars, owners)
    requires 0 <= i < |Sweep(policies, cars, owners, logs, now).added|
    ensures Target(now).Some?
    ensures var log, target := Sweep(policies, cars, owners, logs, now).added[i], Target(now).value;
            && log.id == NextLogId(logs) + i
            && log.expirationDate == target
            && log.processedAt == now
            && exists p | p in policies ::
                 && p.id == log.policyId && p.endDate == target && !HasLog(logs, p.id)
                 && Contains(log.logMessage, "Insurance policy " + IntToString(p.id) + " for car " + CarOf(p, cars, owners).vin)
                 && Contains(log.logMessage, CarOf(p, cars, owners).vin)
                 && Contains(log.logMessage, OwnerOf(p, cars, owners).name)
                 && Contains(log.logMessage, p.provider)
                 && Contains(log.logMessage, " expired on " + Format(target))
  {
    SweepWindow(policies, cars, owners, logs, now);
    var expired := ExpiredUnlogged(policies, logs, PrevDay(now.date));
    var p := expired[i];
    assert p in expired;
    NewLogsAt(NextLogId(logs), expired, cars, owners, now, i);
    ExpirationMessageNames(p, CarOf(p, cars, owners), OwnerOf(p, cars, owners));
  }

  /** Every policy that ended on the previous date is logged after the sweep. */
  lemma SweepCovers(policies: seq<InsurancePolicy>, cars: seq<Car>, owners: seq<Owner>,
                    logs: seq<PolicyExpirationLog>, now: DateTime)
    requires AllNavigable(policies, cars, owners)
    requires Target(now).Some?
    ensures var added := Sweep(policies, cars, owners, logs, now).added;
            forall p :: p in policies && p.endDate == Target(now).value ==> HasLog(logs + added, p.id)
  {
    SweepWindow(policies, cars, owners, logs, now);
    var added := Sweep(policies, cars, owners, logs, now).added;
    var expired := ExpiredUnlogged(policies, logs, PrevDay(now.date));
    forall p | p in policies && p.endDate == Target(now).value ensures HasLog(logs + added, p.id) {
      if HasLog(logs, p.id) {
        var l :| l in logs && l.policyId == p.id;
        assert l in logs + added;
      } else {
        assert p in expired;
        var k :| 0 <= k < |expired| && expired[k] == p;
        assert added[k].policyId == p.id;
        assert added[k] in logs + added;
      }
    }
  }

  /** A second sweep inside the same window (the service polls several times
      an hour) adds nothing: every policy it would select has been logged. */
  lemma SweepIdempotent(policies: seq<InsurancePolicy>, cars: seq<Car>, owners: seq<Owner>,
                        logs: seq<PolicyExpirationLog>, now: DateTime, later: DateTime)
    requires AllNavigable(policies, cars, owners)
    requires Target(now).Some? && Target(later) == Target(now)
    ensures var first := Sweep(policies, cars, owners, logs, now);
            var second := Sweep(policies, cars, owners, logs + first.added, later);
            second.outcome == NoNewExpiredPolicies && second.added == []
  {
    var first := Sweep(policies, cars, owners, logs, now);
    SweepCovers(policies, cars, owners, logs, now);
    SweepWindow(policies, cars, owners, logs + first.added, later);
    var expired := ExpiredUnlogged(policies, logs + first.added, PrevDay(later.date));
    assert PrevDay(later.date) == Target(now).value;
    ExpiredUnloggedEmpty(policies, logs + first.added, PrevDay(later.date));
  }

  /** A sweep never reports a policy that already has a log, nor one twice. */
  lemma SweepKeepsOneLogPerPolicy(policies: seq<InsurancePolicy>, cars: seq<Car>, owners: seq<Owner>,
                                  logs: seq<PolicyExpirationLog>, now: DateTime)
    requires AllNavigable(policies, cars, owners)
    requires UniquePolicyIds(policies) && AtMostOneLogPerPolicy(logs)
    ensures AtMostOneLogPerPolicy(logs + Sweep(policies, cars, owners, logs, now).added)
  {
    var added := Sweep(policies, cars, owners, logs, now).added;
    if added != [] {
      SweepWindow(policies, cars, owners, logs, now);
      var expired := ExpiredUnlogged(policies, logs, PrevDay(now.date));
      ExpiredUnloggedUnique(policies, logs, PrevDay(now.date));
      var all := logs + added;
      forall i, j | 0 <= i < j < |all| ensures all[i].policyId != all[j].policyId {
        if j >= |logs| {
          var q := expired[j - |logs|];
          assert q in expired;
          assert all[j].policyId == q.id;
          if i < |logs| {
            assert all[i] in logs;
          } else {
            assert expired[i - |logs|].id != q.id;
          }
        }
      }
    }
  }

  /** The appended rows carry fresh, distinct ids. */
  lemma SweepKeepsLogIdsUnique(policies: seq<InsurancePolicy>, cars: seq<Car>, owners: seq<Owner>,
                               logs: seq<PolicyExpirationLog>, now: DateTime)
    requires AllNavigable(policies, cars, owners)
    requires UniqueLogIds(logs)
    ensures UniqueLogIds(logs + Sweep(policies, cars, owners, logs, now).added)
  {
    var added := Sweep(policies, cars, owners, logs, now).added;
    if added != [] {
      SweepWindow(policies, cars, owners, logs, now);
      var all := logs + added;
      forall i, j | 0 <= i < j < |all| ensures all[i].id != all[j].id {
        if j >= |logs| {
          assert all[j].id == NextLogId(logs) + (j - |logs|);
          if i < |logs| {
            assert all[i] == logs[i];
          } else {
            assert all[i].id == NextLogId(logs) + (i - |logs|);
          }
        }
      }
    }
  }

  /** In a consistent store every policy's car and owner can be loaded. */
  lemma StoreNavigable(db: Store)
    requires db.Valid()
    ensures AllNavigable(db.policies, db.cars, db.owners)
  {
    forall p | p in db.policies ensures Navigable(p, db.cars, db.owners) {
      var k :| 0 <= k < |db.policies| && db.policies[k] == p;
    }
  }

  /** The foreach loop: one pending log row per selected policy, in order,
      numbered from the first fresh id. */
  method PendingLogs(expired: seq<InsurancePolicy>, cars: seq<Car>, owners: seq<Owner>,
                     start: int, now: DateTime) returns (pending: seq<PolicyExpirationLog>)
    requires AllNavigable(expired, cars, owners)
    ensures pending == NewLogs(start, expired, cars, owners, now)
  {
    pending := [];
    var i := 0;
    while i < |expired|
      invariant 0 <= i <= |expired|
      invariant pending == NewLogs(start, expired[..i], cars, owners, now)
    {
      var policy := expired[i];
      assert policy in expired;
      var message := ExpirationMessage(policy, CarOf(policy, cars, owners), OwnerOf(policy, cars, owners));
      var log := PolicyExpirationLog(start + i, policy.id, policy.endDate, now, message);
      NewLogsStep(start, expired, i, cars, owners, now);
      pending := pending + [log];
      i := i + 1;
    }
    assert expired[..i] == expired;
  }

  /** PolicyExpirationService.ProcessExpiredPoliciesAsync: the store gains
      exactly the rows the sweep decides on and nothing else changes. */
  method ProcessExpiredPolicies(db: Store, now: DateTime) returns (outcome: SweepOutcome)
    requires db.Valid()
    modifies db
    ensures db.Valid()
    ensures AllNavigable(old(db.policies), old(db.cars), old(db.owners))
    ensures var s := Sweep(old(db.policies), old(db.cars), old(db.owners), old(db.expirationLogs), now);
            outcome == s.outcome && db.expirationLogs == old(db.expirationLogs) + s.added
    ensures db.owners == old(db.owners) && db.cars == old(db.cars)
    ensures db.policies == old(db.policies) && db.claims == old(db.claims)
  {
    StoreNavigable(db);
    var earlier := HourEarlier(now);
    if earlier.None? {
      return ClockOutOfRange;
    }
    if earlier.value.date == now.date {
      return NoMidnightTransition;
    }
    var expired := ExpiredUnlogged(db.policies, db.expirationLogs, earlier.value.date);
    if expired == [] {
      return NoNewExpiredPolicies;
    }
    var pending := PendingLogs(expired, db.cars, db.owners, NextLogId(db.expirationLogs), now);
    db.SaveExpirationLogs(pending);
    return Processed(|expired|);
  }

  // The scenarios of the service's tests: one car with one policy that
  // ended on 2024-01-01.

  const TestOwners := [Owner(1, "Test Owner", Some("test@example.com"))]
  const TestCars := [Car(1, "TEST12345", Some("Toyota"), Some("Camry"), 2020, 1)]
  const TestPolicy := InsurancePolicy(1, 1, "Garanti", Date(2023, 1, 1), Date(2024, 1, 1))
  const HalfPastMidnight: DateTime := Instant(Date(2024, 1, 2), 30 * 60)

  /** At 10:30 the last hour crossed no midnight: nothing is written. */
  lemma NoMidnightTransitionExample()
    ensures Sweep([TestPolicy], TestCars, TestOwners, [], Instant(Date(2024, 1, 15), 10 * 3600 + 30 * 60))
            == SweepResult(NoMidnightTransition, [])
  {
    SweepWindow([TestPolicy], TestCars, TestOwners, [], Instant(Date(2024, 1, 15), 10 * 3600 + 30 * 60));
  }

  /** At 00:30 the policy that ended on 2024-01-01 is reported once, under
      the next fresh id, whatever other policies were reported before. */
  lemma ExpiredPolicyExample(logs: seq<PolicyExpirationLog>)
    requires !HasLog(logs, 1)
    ensures var r := Sweep([TestPolicy], TestCars, TestOwners, logs, HalfPastMidnight);
            && r.outcome == Processed(1) && |r.added| == 1
            && r.added[0].id == NextLogId(logs)
            && r.added[0].policyId == 1 && r.added[0].expirationDate == Date(2024, 1, 1)
            && r.added[0].processedAt == HalfPastMidnight
            && Contains(r.added[0].logMessage, "Insurance policy 1 for car TEST12345")
            && Contains(r.added[0].logMessage, "Test Owner") && Contains(r.added[0].logMessage, "Garanti")
  {
    var now, policies := HalfPastMidnight, [TestPolicy];
    assert PrevDay(now.date) == Date(2024, 1, 1);
    assert ExpiredUnlogged(policies, logs, Date(2024, 1, 1)) == policies;
    SweepWindow(policies, TestCars, TestOwners, logs, now);
    SweepLogs(policies, TestCars, TestOwners, logs, now, 0);
    assert CarOf(TestPolicy, TestCars, TestOwners) == TestCars[0];
    assert OwnerOf(TestPolicy, TestCars, TestOwners) == TestOwners[0];
    PolicyOnePhrase();
  }

  /** The opening phrase of the message for policy 1 on car TEST12345. */
  lemma PolicyOnePhrase()
    ensures "Insurance policy " + IntToString(1) + " for car " + "TEST12345" == "Insurance policy 1 for car TEST12345"
  {
    assert DigitChar(1) == '1';
    assert IntToString(1) == "1";
  }

  /** A policy that already has a log is skipped. */
  lemma AlreadyLoggedExample(logs: seq<PolicyExpirationLog>)
    requires HasLog(logs, 1)
    ensures Sweep([TestPolicy], TestCars, TestOwners, logs, HalfPastMidnight) == SweepResult(NoNewExpiredPolicies, [])
  {
    assert PrevDay(HalfPastMidnight.date) == Date(2024, 1, 1);
    ExpiredUnloggedEmpty([TestPolicy], logs, Date(2024, 1, 1));
    SweepWindow([TestPolicy], TestCars, TestOwners, logs, HalfPastMidnight);
  }

  /** The test's store: the only log is the one written two hours earlier. */
  lemma AlreadyLoggedTestStore()
    ensures HasLog([PolicyExpirationLog(1, 1, Date(2024, 1, 1), Instant(Date(2024, 1, 1), 22 * 3600 + 30 * 60),
                                        "Already processed")], 1)
  {
    var existing := PolicyExpirationLog(1, 1, Date(2024, 1, 1), Instant(Date(2024, 1, 1), 22 * 3600 + 30 * 60),
                                        "Already processed");
    assert existing in [existing];
  }
}
