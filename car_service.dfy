/**
 * The car service: the car listing, the insurance-validity query, claim
 * registration and the assembly of a car's history, over the in-memory store.
 * "Today" is a parameter (the source reads the local clock).
 */
module CarService {
  import opened Wrappers
  import opened Dates
  import opened Text
  import opened Models
  import opened HistoryOrder

  /** The exceptions the service raises: ArgumentException, KeyNotFoundException,
      and the ArgumentOutOfRangeException of DateTime.AddYears. */
  datatype ServiceError = ArgumentError(message: string) | NotFound(message: string) | OutOfRange

  const PositiveIdMessage := "Car ID must be a positive number."
  const ImpossibleDateMessage := "Date must be possible."
  const ClaimDateFormatMessage := "Invalid claim date format. Use YYYY-MM-DD."
  const FutureClaimMessage := "Claim date cannot be in the future."
  const AmountMessage := "Claim amount must be greater than zero."
  const DescriptionMessage := "Claim description is required."

  function CarNotFoundMessage(carId: int): string {
    "Car " + IntToString(carId) + " not found"
  }

  /** The earliest date the validity query accepts, and how far past today it looks. */
  const MinValidDate: DateOnly := Date(1900, 1, 1)
  const HorizonYears := 100

  // ---------------------------------------------------------------------------
  // Listing cars

  function ToCarDto(c: Car, o: Owner): CarDto {
    CarDto(c.id, c.vin, c.make, c.model, c.yearOfManufacture, c.ownerId, o.name, o.email)
  }

  /** Every car, in store order, joined with its owner. */
  function ListCars(db: Store): (r: seq<CarDto>)
    reads db
    requires db.Valid()
    ensures |r| == |db.cars|
    ensures forall i :: 0 <= i < |r| ==>
              exists o :: o in db.owners && o.id == db.cars[i].ownerId && r[i] == ToCarDto(db.cars[i], o)
  {
    var cars, owners := db.cars, db.owners;
    var r := seq(|cars|, i requires 0 <= i < |cars| && FindOwner(owners, cars[i].ownerId).Some? =>
                           ToCarDto(cars[i], FindOwner(owners, cars[i].ownerId).value));
    assert forall i :: 0 <= i < |r| ==> FindOwner(owners, cars[i].ownerId).value in owners;
    r
  }

  // ---------------------------------------------------------------------------
  // Insurance validity

  /** The closed interval test: both the first and the last day are covered. */
  predicate Covers(p: InsurancePolicy, date: Date) {
    Le(p.startDate, date) && Le(date, p.endDate)
  }

  /** Policies.AnyAsync over the car's policies that cover the date. */
  function AnyCoveringPolicy(policies: seq<InsurancePolicy>, carId: int, date: DateOnly): (r: bool)
    ensures r <==> exists p :: p in policies && p.carId == carId && Covers(p, date)
  {
    if policies == [] then false
    else
      assert forall p :: p in policies <==> p == policies[0] || p in policies[1..];
      (policies[0].carId == carId && Covers(policies[0], date)) || AnyCoveringPolicy(policies[1..], carId, date)
  }

  /** The date lies between 1900-01-01 and today plus 100 years, both included. */
  predicate InValidRange(date: DateOnly, today: DateOnly)
    requires today.year + HorizonYears <= MaxYear
  {
    Le(MinValidDate, date) && Le(date, AddYears(today, HorizonYears))
  }

  function IsInsuranceValid(db: Store, carId: int, date: DateOnly, today: DateOnly): (r: Result<bool, ServiceError>)
    reads db
    ensures carId <= 0 ==> r == Failure(ArgumentError(PositiveIdMessage))
    ensures carId > 0 && !CarExists(db.cars, carId) ==> r == Failure(NotFound(CarNotFoundMessage(carId)))
    ensures carId > 0 && CarExists(db.cars, carId) && today.year + HorizonYears > MaxYear ==> r == Failure(OutOfRange)
    ensures carId > 0 && CarExists(db.cars, carId) && today.year + HorizonYears <= MaxYear && !InValidRange(date, today)
            ==> r == Failure(ArgumentError(ImpossibleDateMessage))
    ensures r.Success? <==> carId > 0 && CarExists(db.cars, carId) && today.year + HorizonYears <= MaxYear
                            && InValidRange(date, today)
    ensures r.Success? ==> (r.value <==> exists p :: p in db.policies && p.carId == carId && Covers(p, date))
  {
    if carId <= 0 then Failure(ArgumentError(PositiveIdMessage))
    else if !CarExists(db.cars, carId) then Failure(NotFound(CarNotFoundMessage(carId)))
    else if today.year + HorizonYears > MaxYear then Failure(OutOfRange)
    else if Lt(date, MinValidDate) || Lt(AddYears(today, HorizonYears), date) then Failure(ArgumentError(ImpossibleDateMessage))
    else Success(AnyCoveringPolicy(db.policies, carId, date))
  }

  /** Only the car's own policies matter: the answer over the whole table is
      the answer over the car's policies alone. */
  lemma OtherCarsIgnored(policies: seq<InsurancePolicy>, carId: int, date: DateOnly)
    ensures AnyCoveringPolicy(policies, carId, date) == AnyCoveringPolicy(PoliciesOf(policies, carId), carId, date)
  {
    var mine := PoliciesOf(policies, carId);
    forall p: InsurancePolicy | p.carId == carId ensures p in mine <==> p in policies {
      assert multiset(mine)[p] == multiset(policies)[p];
    }
  }

  /** Both ends of a policy are covered, and the day before its start and the
      day after its end are not. */
  lemma BoundariesInclusive(p: InsurancePolicy)
    requires Le(p.startDate, p.endDate)
    ensures Covers(p, p.startDate) && Covers(p, p.endDate)
    ensures p.startDate != MinDate ==> !Covers(p, PrevDay(p.startDate))
    ensures p.endDate != MaxDate ==> !Covers(p, NextDay(p.endDate))
  {
    if p.startDate != MinDate {
      PrevDayIsPredecessor(p.startDate, p.startDate);
    }
    if p.endDate != MaxDate {
      NextDayIsSuccessor(p.endDate, p.endDate);
    }
  }

  /** The store of the boundary tests: car 1 with one policy for the year 2024. */
  lemma BoundaryExamples(db: Store, today: DateOnly)
    requires CarExists(db.cars, 1) && !CarExists(db.cars, 999)
    requires db.policies == [InsurancePolicy(1, 1, "TestProvider", Date(2024, 1, 1), Date(2024, 12, 31))]
    requires Le(Date(2025, 1, 1), today) && today.year + HorizonYears <= MaxYear
    ensures IsInsuranceValid(db, 1, Date(2024, 1, 1), today) == Success(true)
    ensures IsInsuranceValid(db, 1, Date(2024, 12, 31), today) == Success(true)
    ensures IsInsuranceValid(db, 1, Date(2023, 12, 31), today) == Success(false)
    ensures IsInsuranceValid(db, 1, Date(2025, 1, 1), today) == Success(false)
    ensures IsInsuranceValid(db, 999, Date(2024, 6, 15), today) == Failure(NotFound("Car 999 not found"))
  {
    var p := db.policies[0];
    BoundariesInclusive(p);
    assert PrevDay(p.startDate) == Date(2023, 12, 31);
    assert NextDay(p.endDate) == Date(2025, 1, 1);
    CarNotFound999();
  }

  lemma CarNotFound999()
    ensures CarNotFoundMessage(999) == "Car 999 not found"
  {
    assert DigitChar(9) == '9';
    assert NatToString(9) == "9";
    assert NatToString(99) == NatToString(9) + [DigitChar(9)] == "99";
    assert NatToString(999) == NatToString(99) + [DigitChar(9)] == "999";
  }

  // ---------------------------------------------------------------------------
  // Claim registration

  /** The checks of a claim, in the order the service makes them; on success
      the parsed claim date. */
  function ValidateClaim(cars: seq<Car>, carId: int, request: CreateClaimRequest, today: DateOnly)
    : (r: Result<DateOnly, ServiceError>)
    ensures !CarExists(cars, carId) ==> r == Failure(NotFound(CarNotFoundMessage(carId)))
    ensures CarExists(cars, carId) && Parse(request.claimDate).None?
            ==> r == Failure(ArgumentError(ClaimDateFormatMessage))
    ensures CarExists(cars, carId) && Parse(request.claimDate).Some? && Lt(today, Parse(request.claimDate).value)
            ==> r == Failure(ArgumentError(FutureClaimMessage))
    ensures CarExists(cars, carId) && Parse(request.claimDate).Some? && Le(Parse(request.claimDate).value, today)
            && request.amount <= 0
            ==> r == Failure(ArgumentError(AmountMessage))
    ensures CarExists(cars, carId) && Parse(request.claimDate).Some? && Le(Parse(request.claimDate).value, today)
            && request.amount > 0 && IsBlank(request.description)
            ==> r == Failure(ArgumentError(DescriptionMessage))
    ensures r.Success? <==> CarExists(cars, carId) && Parse(request.claimDate).Some?
                            && Le(Parse(request.claimDate).value, today)
                            && request.amount > 0 && !IsBlank(request.description)
    ensures r.Success? ==> Le(r.value, today) && Format(r.value) == request.claimDate
  {
    if !CarExists(cars, carId) then Failure(NotFound(CarNotFoundMessage(carId)))
    else
      match Parse(request.claimDate)
      case None => Failure(ArgumentError(ClaimDateFormatMessage))
      case Some(claimDate) =>
        if Lt(today, claimDate) then Failure(ArgumentError(FutureClaimMessage))
        else if request.amount <= 0 then Failure(ArgumentError(AmountMessage))
        else if IsBlank(request.description) then Failure(ArgumentError(DescriptionMessage))
        else FormatParse(request.claimDate); Success(claimDate)
  }

  /** Validates the request and, when it passes, stores exactly one claim with
      the parsed date and the trimmed description; nothing else changes. */
  method RegisterClaim(db: Store, carId: int, request: CreateClaimRequest, today: DateOnly)
    returns (r: Result<ClaimDto, ServiceError>)
    requires db.Valid()
    modifies db
    ensures db.Valid()
    ensures db.owners == old(db.owners) && db.cars == old(db.cars) && db.policies == old(db.policies)
    ensures db.expirationLogs == old(db.expirationLogs)
    ensures ValidateClaim(old(db.cars), carId, request, today).Failure? ==>
              r == Failure(ValidateClaim(old(db.cars), carId, request, today).error) && db.claims == old(db.claims)
    ensures ValidateClaim(old(db.cars), carId, request, today).Success? ==>
              var claim := Claim(NextClaimId(old(db.claims)), carId, ValidateClaim(old(db.cars), carId, request, today).value,
                                 Trim(request.description), request.amount);
              && db.claims == old(db.claims) + [claim]
              && r == Success(ClaimDto(claim.id, carId, Format(claim.claimDate), claim.description, claim.amount))
  {
    var checked := ValidateClaim(db.cars, carId, request, today);
    if checked.Failure? {
      return Failure(checked.error);
    }
    var claim := db.AddClaim(carId, checked.value, Trim(request.description), request.amount);
    r := Success(ClaimDto(claim.id, claim.carId, Format(claim.claimDate), claim.description, claim.amount));
  }

  /** A stored claim has a positive amount, a date no later than today, and a
      description that is not empty and neither starts nor ends with white space. */
  lemma RegisteredClaimWellFormed(cars: seq<Car>, carId: int, request: CreateClaimRequest, today: DateOnly)
    requires ValidateClaim(cars, carId, request, today).Success?
    ensures var d := ValidateClaim(cars, carId, request, today).value;
            var desc := Trim(request.description);
            && request.amount > 0 && Le(d, today) && Parse(Format(d)) == Some(d)
            && desc != [] && !IsWhiteSpace(desc[0]) && !IsWhiteSpace(desc[|desc| - 1])
  {
    ParseFormat(ValidateClaim(cars, carId, request, today).value);
    TrimBlank(request.description);
    TrimSpec(request.description);
  }

  // ---------------------------------------------------------------------------
  // History

  /** Policies.Where(p => p.CarId == carId), in store order. */
  function PoliciesOf(policies: seq<InsurancePolicy>, carId: int): (r: seq<InsurancePolicy>)
    ensures forall p :: p in r ==> p.carId == carId
    ensures forall p: InsurancePolicy :: p.carId == carId ==> multiset(r)[p] == multiset(policies)[p]
  {
    if policies == [] then []
    else
      assert policies == [policies[0]] + policies[1..];
      (if policies[0].carId == carId then [policies[0]] else []) + PoliciesOf(policies[1..], carId)
  }

  /** Claims.Where(c => c.CarId == carId), in store order. */
  function ClaimsOf(claims: seq<Claim>, carId: int): (r: seq<Claim>)
    ensures forall c :: c in r ==> c.carId == carId
    ensures forall c: Claim :: c.carId == carId ==> multiset(r)[c] == multiset(claims)[c]
  {
    if claims == [] then []
    else
      assert claims == [claims[0]] + claims[1..];
      (if claims[0].carId == carId then [claims[0]] else []) + ClaimsOf(claims[1..], carId)
  }

  /** The event of a policy's start; its date text reads back as the start date. */
  function StartEvent(p: InsurancePolicy): (h: HistoryItem)
    ensures Parse(h.date) == Some(p.startDate)
  {
    ParseFormat(p.startDate);
    HistoryItem(Format(p.startDate), "PolicyStart", Some(p.id), Some(p.provider),
                Some(Format(p.startDate)), Some(Format(p.endDate)), None, None, None)
  }

  /** The event of a policy's end; its date text reads back as the end date. */
  function EndEvent(p: InsurancePolicy): (h: HistoryItem)
    ensures Parse(h.date) == Some(p.endDate)
  {
    ParseFormat(p.endDate);
    HistoryItem(Format(p.endDate), "PolicyEnd", Some(p.id), Some(p.provider),
                Some(Format(p.startDate)), Some(Format(p.endDate)), None, None, None)
  }

  /** The event of a claim; its date text reads back as the claim date. */
  function ClaimEvent(c: Claim): (h: HistoryItem)
    ensures Parse(h.date) == Some(c.claimDate)
  {
    ParseFormat(c.claimDate);
    HistoryItem(Format(c.claimDate), "Claim", None, None, None, None,
                Some(c.id), Some(c.description), Some(c.amount))
  }

  /** One start event per policy, in order: it names the policy and its
      provider, and its date reads back as the start date. */
  function StartEvents(policies: seq<InsurancePolicy>): (r: seq<HistoryItem>)
    ensures |r| == |policies|
    ensures forall i :: 0 <= i < |policies| ==>
              && r[i].kind == "PolicyStart" && r[i].policyId == Some(policies[i].id)
              && r[i].provider == Some(policies[i].provider) && r[i].claimId == None
              && Parse(r[i].date) == Some(policies[i].startDate)
  {
    seq(|policies|, i requires 0 <= i < |policies| => StartEvent(policies[i]))
  }

  /** One end event per policy, in order: it names the policy and its
      provider, and its date reads back as the end date. */
  function EndEvents(policies: seq<InsurancePolicy>): (r: seq<HistoryItem>)
    ensures |r| == |policies|
    ensures forall i :: 0 <= i < |policies| ==>
              && r[i].kind == "PolicyEnd" && r[i].policyId == Some(policies[i].id)
              && r[i].provider == Some(policies[i].provider) && r[i].claimId == None
              && Parse(r[i].date) == Some(policies[i].endDate)
  {
    seq(|policies|, i requires 0 <= i < |policies| => EndEvent(policies[i]))
  }

  /** One event per claim, in order: it carries the claim's id, description
      and amount, and its date reads back as the claim date. */
  function ClaimEvents(claims: seq<Claim>): (r: seq<HistoryItem>)
    ensures |r| == |claims|
    ensures forall i :: 0 <= i < |claims| ==>
              && r[i].kind == "Claim" && r[i].claimId == Some(claims[i].id) && r[i].policyId == None
              && r[i].description == Some(claims[i].description) && r[i].amount == Some(claims[i].amount)
              && Parse(r[i].date) == Some(claims[i].claimDate)
  {
    seq(|claims|, i requires 0 <= i < |claims| => ClaimEvent(claims[i]))
  }

  /** The history before sorting: every start, then every end, then every
      claim; all of their date texts read back as dates. */
  function BuiltHistory(policies: seq<InsurancePolicy>, claims: seq<Claim>): (r: seq<HistoryItem>)
    ensures |r| == 2 * |policies| + |claims|
    ensures AllHaveDates(r)
  {
    var starts, ends, events := StartEvents(policies), EndEvents(policies), ClaimEvents(claims);
    var r := starts + ends + events;
    assert AllHaveDates(r) by {
      forall k | 0 <= k < |r| ensures HasDate(r[k]) {
        if k < |starts| {
          assert r[k] == StartEvent(policies[k]);
        } else if k < |starts| + |ends| {
          assert r[k] == EndEvent(policies[k - |starts|]);
        } else {
          assert r[k] == ClaimEvent(claims[k - |starts| - |ends|]);
        }
      }
    }
    r
  }

  /** Each policy contributes a start event dated by its start date. */
  lemma BuiltHistoryStart(policies: seq<InsurancePolicy>, claims: seq<Claim>, i: int)
    requires 0 <= i < |policies|
    ensures BuiltHistory(policies, claims)[i] == StartEvent(policies[i])
    ensures Key(BuiltHistory(policies, claims)[i]) == policies[i].startDate
  {
    var h := BuiltHistory(policies, claims);
    assert h == StartEvents(policies) + EndEvents(policies) + ClaimEvents(claims);
    assert h[i] == StartEvents(policies)[i];
  }

  /** Each policy contributes an end event, after all start events, dated by its end date. */
  lemma BuiltHistoryEnd(policies: seq<InsurancePolicy>, claims: seq<Claim>, i: int)
    requires 0 <= i < |policies|
    ensures BuiltHistory(policies, claims)[|policies| + i] == EndEvent(policies[i])
    ensures Key(BuiltHistory(policies, claims)[|policies| + i]) == policies[i].endDate
  {
    var h := BuiltHistory(policies, claims);
    var ends := EndEvents(policies);
    var front := StartEvents(policies) + ends;
    assert h == front + ClaimEvents(claims);
    assert h[|policies| + i] == front[|policies| + i] == ends[i];
  }

  /** Each claim contributes one event, after all policy events, dated by the claim date. */
  lemma BuiltHistoryClaim(policies: seq<InsurancePolicy>, claims: seq<Claim>, i: int)
    requires 0 <= i < |claims|
    ensures BuiltHistory(policies, claims)[2 * |policies| + i] == ClaimEvent(claims[i])
    ensures Key(BuiltHistory(policies, claims)[2 * |policies| + i]) == claims[i].claimDate
  {
    var h := BuiltHistory(policies, claims);
    assert h == StartEvents(policies) + EndEvents(policies) + ClaimEvents(claims);
    assert h[2 * |policies| + i] == ClaimEvents(claims)[i];
  }

  /** The car's history: its events sorted by date, ties in build order. */
  method GetCarHistory(db: Store, carId: int) returns (r: Result<CarHistoryResponse, ServiceError>)
    ensures !CarExists(db.cars, carId) ==> r == Failure(NotFound(CarNotFoundMessage(carId)))
    ensures CarExists(db.cars, carId) ==> r.Success? && r.value.carId == carId
    ensures r.Success? ==>
              var built := BuiltHistory(PoliciesOf(db.policies, carId), ClaimsOf(db.claims, carId));
              && AllHaveDates(r.value.history)
              && r.value.history == OrderByDate(built)
              && multiset(r.value.history) == multiset(built)
              && SortedByDate(r.value.history)
              && (forall d :: WithDate(r.value.history, d) == WithDate(built, d))
  {
    if !CarExists(db.cars, carId) {
      return Failure(NotFound(CarNotFoundMessage(carId)));
    }
    var policies := PoliciesOf(db.policies, carId);
    var claims := ClaimsOf(db.claims, carId);

    // Three AddRange calls onto an empty list.
    var items := StartEvents(policies);
    items := items + EndEvents(policies);
    items := items + ClaimEvents(claims);
    assert items == BuiltHistory(policies, claims);

    var sorted := OrderByDate(items);
    OrderByDateSorted(items);
    forall d | true ensures WithDate(sorted, d) == WithDate(items, d) {
      OrderByDateStable(items, d);
    }
    r := Success(CarHistoryResponse(carId, sorted));
  }
}
