/**
 * The records of the insurance store and the shapes the services return.
 *
 * The relational store is an in-memory object with one sequence per table.
 * Navigation properties (a policy's car, a car's owner) are resolved by
 * looking the id up; inserting a claim or an expiration log assigns it a
 * fresh id, one more than the largest id in its table.
 */
module Models {
  import opened Wrappers
  import opened Dates

  datatype Owner = Owner(id: int, name: string, email: Option<string>)

  datatype Car = Car(id: int, vin: string, make: Option<string>, model: Option<string>,
                     yearOfManufacture: int, ownerId: int)

  /** A policy covers its car from startDate to endDate, both days included. */
  datatype InsurancePolicy = InsurancePolicy(id: int, carId: int, provider: string,
                                             startDate: DateOnly, endDate: DateOnly)

  /** A claim's amount is in the smallest currency unit. */
  datatype Claim = Claim(id: int, carId: int, claimDate: DateOnly, description: string, amount: int)

  /** The mark that a policy's expiration has been reported. */
  datatype PolicyExpirationLog = PolicyExpirationLog(id: int, policyId: int, expirationDate: DateOnly,
                                                     processedAt: DateTime, logMessage: string)

  // Transfer objects

  datatype CarDto = CarDto(id: int, vin: string, make: Option<string>, model: Option<string>, year: int,
                           ownerId: int, ownerName: string, ownerEmail: Option<string>)

  datatype CreateClaimRequest = CreateClaimRequest(claimDate: string, description: string, amount: int)

  datatype ClaimDto = ClaimDto(id: int, carId: int, claimDate: string, description: string, amount: int)

  /** One event of a car's history; `kind` is "PolicyStart", "PolicyEnd" or "Claim". */
  datatype HistoryItem = HistoryItem(date: string, kind: string,
                                     policyId: Option<int>, provider: Option<string>,
                                     startDate: Option<string>, endDate: Option<string>,
                                     claimId: Option<int>, description: Option<string>, amount: Option<int>)

  datatype CarHistoryResponse = CarHistoryResponse(carId: int, history: seq<HistoryItem>)

  // Lookups by id

  /** Cars.AnyAsync(c => c.Id == id). */
  predicate CarExists(cars: seq<Car>, id: int) {
    exists c | c in cars :: c.id == id
  }

  function FindCar(cars: seq<Car>, id: int): (r: Option<Car>)
    ensures r.Some? ==> r.value in cars && r.value.id == id
    ensures r.None? <==> !CarExists(cars, id)
  {
    if cars == [] then None
    else if cars[0].id == id then Some(cars[0])
    else FindCar(cars[1..], id)
  }

  function FindOwner(owners: seq<Owner>, id: int): (r: Option<Owner>)
    ensures r.Some? ==> r.value in owners && r.value.id == id
    ensures r.None? <==> forall o :: o in owners ==> o.id != id
  {
    if owners == [] then None
    else if owners[0].id == id then Some(owners[0])
    else FindOwner(owners[1..], id)
  }

  // Fresh ids

  /** One more than the largest key, or 1 for an empty table: larger than
      every key present. */
  function NextId<T>(rows: seq<T>, key: T -> int): (r: int)
    ensures r >= 1
    ensures forall i :: 0 <= i < |rows| ==> key(rows[i]) < r
  {
    if rows == [] then 1
    else
      var rest := NextId(rows[..|rows| - 1], key);
      var last := key(rows[|rows| - 1]) + 1;
      if rest < last then last else rest
  }

  function ClaimKey(c: Claim): int { c.id }

  function LogKey(l: PolicyExpirationLog): int { l.id }

  function NextClaimId(claims: seq<Claim>): int {
    NextId(claims, ClaimKey)
  }

  function NextLogId(logs: seq<PolicyExpirationLog>): int {
    NextId(logs, LogKey)
  }

  // Integrity of the store

  predicate UniqueOwnerIds(owners: seq<Owner>) {
    forall i, j :: 0 <= i < j < |owners| ==> owners[i].id != owners[j].id
  }

  predicate UniqueCarIds(cars: seq<Car>) {
    forall i, j :: 0 <= i < j < |cars| ==> cars[i].id != cars[j].id
  }

  predicate UniquePolicyIds(policies: seq<InsurancePolicy>) {
    forall i, j :: 0 <= i < j < |policies| ==> policies[i].id != policies[j].id
  }

  predicate UniqueClaimIds(claims: seq<Claim>) {
    forall i, j :: 0 <= i < j < |claims| ==> claims[i].id != claims[j].id
  }

  predicate UniqueLogIds(logs: seq<PolicyExpirationLog>) {
    forall i, j :: 0 <= i < j < |logs| ==> logs[i].id != logs[j].id
  }

  /** A policy whose car and whose car's owner can be loaded. */
  predicate Navigable(p: InsurancePolicy, cars: seq<Car>, owners: seq<Owner>) {
    FindCar(cars, p.carId).Some? && FindOwner(owners, FindCar(cars, p.carId).value.ownerId).Some?
  }

  class Store {
    var owners: seq<Owner>
    var cars: seq<Car>
    var policies: seq<InsurancePolicy>
    var claims: seq<Claim>
    var expirationLogs: seq<PolicyExpirationLog>

    /** Primary keys are unique and every foreign key names an existing row. */
    ghost predicate Valid()
      reads this
    {
      && UniqueOwnerIds(owners) && UniqueCarIds(cars) && UniquePolicyIds(policies)
      && UniqueClaimIds(claims) && UniqueLogIds(expirationLogs)
      && (forall i :: 0 <= i < |cars| ==> FindOwner(owners, cars[i].ownerId).Some?)
      && (forall i :: 0 <= i < |policies| ==> Navigable(policies[i], cars, owners))
      && (forall i :: 0 <= i < |claims| ==> CarExists(cars, claims[i].carId))
    }

    /** Claims.Add followed by SaveChanges: the claim is stored under a fresh id. */
    method AddClaim(carId: int, claimDate: DateOnly, description: string, amount: int) returns (claim: Claim)
      requires Valid() && CarExists(cars, carId)
      modifies this
      ensures Valid()
      ensures claim == Claim(NextClaimId(old(claims)), carId, claimDate, description, amount)
      ensures claims == old(claims) + [claim]
      ensures owners == old(owners) && cars == old(cars) && policies == old(policies)
      ensures expirationLogs == old(expirationLogs)
    {
      claim := Claim(NextClaimId(claims), carId, claimDate, description, amount);
      claims := claims + [claim];
    }

    /** SaveChanges after PolicyExpirationLogs.Add of each row: the rows are
        stored in order under consecutive fresh ids. */
    method SaveExpirationLogs(rows: seq<PolicyExpirationLog>)
      requires Valid()
      requires forall k :: 0 <= k < |rows| ==> rows[k].id == NextLogId(expirationLogs) + k
      modifies this
      ensures Valid()
      ensures expirationLogs == old(expirationLogs) + rows
      ensures owners == old(owners) && cars == old(cars) && policies == old(policies) && claims == old(claims)
    {
      ghost var start := NextLogId(expirationLogs);
      expirationLogs := expirationLogs + rows;
      assert UniqueLogIds(expirationLogs) by {
        var all, n := expirationLogs, |old(expirationLogs)|;
        forall i, j | 0 <= i < j < |all| ensures all[i].id != all[j].id {
          if j >= n {
            assert all[j] == rows[j - n];
            if i < n {
              assert all[i] == old(expirationLogs)[i];
            } else {
              assert all[i] == rows[i - n];
            }
          }
        }
      }
    }
  }
}
