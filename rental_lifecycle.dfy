/** `RentalService`: renting and returning a car, listing a user's rentals,
    and the pricing rules (inclusive day count times a per-type daily rate). */
module RentalLifecycle {
  import opened Wrappers
  import opened Entities
  import opened Text
  import opened CarStore
  import opened RentalStore

  /** The status `rentCar` writes and `returnCar` expects. */
  const RentedStatus: string := "rented"

  // ---------------------------------------------------------------------
  // Pricing
  // ---------------------------------------------------------------------

  /** `calculateRentalDuration`: the days between the two dates plus one,
      so that both the first and the last day are charged. */
  function RentalDuration(startDate: Date, endDate: Date): (days: int)
    ensures startDate <= endDate ==> days >= 1
  {
    (endDate - startDate) + 1
  }

  /** The per-day rate of `calculateRentalCost`'s switch on the lower-cased
      car type: "suv", "sedan" and "mini" in any case, and 0 for any other
      type. */
  function DailyRate(carType: string): (rate: int)
    ensures rate >= 0
    ensures rate == 5000 <==> EqualsIgnoreCase("suv", carType)
    ensures rate == 4000 <==> EqualsIgnoreCase("sedan", carType)
    ensures rate == 3000 <==> EqualsIgnoreCase("mini", carType)
    ensures rate == 0 <==>
      !EqualsIgnoreCase("suv", carType) && !EqualsIgnoreCase("sedan", carType) && !EqualsIgnoreCase("mini", carType)
  {
    EqualsLiteralIgnoreCase("suv", carType);
    EqualsLiteralIgnoreCase("sedan", carType);
    EqualsLiteralIgnoreCase("mini", carType);
    match ToLower(carType)
    case "suv" => 5000
    case "sedan" => 4000
    case "mini" => 3000
    case _ => 0
  }

  /** `calculateRentalCost`: the daily rate times the number of days. */
  function RentalCost(carType: string, days: int): (cost: int)
    ensures days >= 0 ==> cost >= 0
    ensures DailyRate(carType) == 0 ==> cost == 0
  {
    DailyRate(carType) * days
  }

  /** A longer rental from the same start day is never shorter. */
  lemma DurationMonotonic(startDate: Date, endDate: Date, laterEnd: Date)
    requires endDate <= laterEnd
    ensures RentalDuration(startDate, endDate) <= RentalDuration(startDate, laterEnd)
  {
  }

  /** For a valid period the cost is the rate times the number of days and
      is never negative; it grows with the end date. */
  lemma CostOfPeriod(carType: string, startDate: Date, endDate: Date, laterEnd: Date)
    requires startDate <= endDate <= laterEnd
    ensures 0 <= RentalCost(carType, RentalDuration(startDate, endDate))
    ensures RentalCost(carType, RentalDuration(startDate, endDate))
         <= RentalCost(carType, RentalDuration(startDate, laterEnd))
  {
  }

  /** A Sedan from 2024-01-10 to 2024-01-12 (epoch days 19732 to 19734) is
      three days at 4000 a day. */
  lemma SedanForThreeDays()
    ensures RentalDuration(19732, 19734) == 3
    ensures DailyRate("Sedan") == 4000
    ensures RentalCost("Sedan", RentalDuration(19732, 19734)) == 12000
  {
  }

  // ---------------------------------------------------------------------
  // The guards of rentCar and returnCar
  // ---------------------------------------------------------------------

  /** All of `rentCar`'s guards hold: a user is logged in, the period runs
      forwards and does not start in the past, the car exists and its
      status is "available" in some case. */
  predicate RentGuardsPass(user: Option<User>, car: Option<Car>, startDate: Date, endDate: Date, today: Date)
  {
    && user.Some?
    && startDate <= endDate
    && today <= startDate
    && car.Some?
    && EqualsIgnoreCase(AvailableStatus, car.value.status)
  }

  /** Both of `returnCar`'s guards hold: the car exists and its status is
      "rented" in some case. */
  predicate ReturnGuardsPass(car: Option<Car>)
  {
    car.Some? && EqualsIgnoreCase(RentedStatus, car.value.status)
  }

  /** A car that is rented, or in maintenance, whatever the case of its
      status, cannot be rented. */
  lemma NoRentWhileRentedOrInMaintenance(user: Option<User>, car: Car, startDate: Date, endDate: Date, today: Date)
    requires EqualsIgnoreCase(RentedStatus, car.status) || EqualsIgnoreCase("maintenance", car.status)
    ensures !RentGuardsPass(user, Some(car), startDate, endDate, today)
    ensures !ReturnGuardsPass(Some(car)) <==> EqualsIgnoreCase("maintenance", car.status)
  {
  }

  /** Every car that `getAvailableCars` lists passes `rentCar`'s status guard. */
  lemma ListedCarsAreRentable(rows: seq<Car>, c: Car)
    requires c in AvailableRows(rows)
    ensures EqualsIgnoreCase(AvailableStatus, c.status)
  {
  }

  /** The converse fails: `getAvailableCars` compares case-sensitively and
      `rentCar` ignores case, so a car whose status is "Available" can be
      rented but is never listed. */
  lemma RentableCarNeedNotBeListed()
    ensures var c := Car(1, "KA-01", "Sedan", "City", "Available");
      EqualsIgnoreCase(AvailableStatus, c.status) && c !in AvailableRows([c])
  {
  }

  /** Every rental refers to a row of the car table. */
  predicate RentalsReferenceCars(cars: seq<Car>, rentals: seq<Rental>)
  {
    forall i :: 0 <= i < |rentals| ==> HasCarId(cars, rentals[i].carId)
  }

  /** Adding cars keeps every rental's reference. */
  lemma ReferencesSurviveAddedCars(cars: seq<Car>, added: seq<Car>, rentals: seq<Rental>)
    requires RentalsReferenceCars(cars, rentals)
    ensures RentalsReferenceCars(cars + added, rentals)
  {
    forall i | 0 <= i < |rentals| ensures HasCarId(cars + added, rentals[i].carId) {
      var j :| 0 <= j < |cars| && cars[j].id == rentals[i].carId;
      assert (cars + added)[j] == cars[j];
    }
  }

  /** A status update keeps every rental's reference, and so does a new
      rental of a car of the table. */
  lemma ReferencesSurviveRent(cars: seq<Car>, rentals: seq<Rental>, rental: Rental, status: string)
    requires RentalsReferenceCars(cars, rentals)
    requires HasCarId(cars, rental.carId)
    ensures RentalsReferenceCars(SetStatus(cars, rental.carId, status), rentals + [rental])
    ensures RentalsReferenceCars(SetStatus(cars, rental.carId, status), rentals)
    ensures RentalsReferenceCars(cars, rentals + [rental])
  {
  }

  class RentalService {
    const rentals: RentalDao
    const cars: CarDao

    /** The car table keeps its keys, every rental's period runs forwards,
        and every rental refers to a car of the table. */
    ghost predicate Valid()
      reads this, cars, rentals
    {
      && cars.Valid()
      && WellDated(rentals.rows)
      && RentalsReferenceCars(cars.rows, rentals.rows)
    }

    constructor (rentals: RentalDao, cars: CarDao)
      requires cars.Valid() && WellDated(rentals.rows) && RentalsReferenceCars(cars.rows, rentals.rows)
      ensures Valid() && this.rentals == rentals && this.cars == cars
    {
      this.rentals := rentals;
      this.cars := cars;
    }

    /** `rentCar`. When a guard fails nothing changes. Otherwise one rental
        record for the user, the car and the period is stored, and only
        after that the car's status is set to "rented"; the result is true
        only when both writes succeed. A failed status update leaves the
        stored rental in place: there is no rollback. */
    method RentCar(user: Option<User>, carNum: string, startDate: Date, endDate: Date, today: Date,
                   lookupFails: bool, insertFails: bool, updateFails: bool) returns (ok: bool)
      requires Valid()
      modifies cars, rentals
      ensures Valid()
      ensures ok ==> user.Some? && today <= startDate <= endDate
      ensures ok <==>
        && RentGuardsPass(user, CarByNumQuery(old(cars.rows), carNum, lookupFails), startDate, endDate, today)
        && !insertFails && !updateFails
      ensures var car := CarByNumQuery(old(cars.rows), carNum, lookupFails);
        rentals.rows == if RentGuardsPass(user, car, startDate, endDate, today) && !insertFails
          then old(rentals.rows) + [Rental(UnassignedId, user.value.id, car.value.id, startDate, endDate)]
          else old(rentals.rows)
      ensures var car := CarByNumQuery(old(cars.rows), carNum, lookupFails);
        cars.rows == if ok then SetStatus(old(cars.rows), car.value.id, RentedStatus) else old(cars.rows)
      ensures var car := CarByNumQuery(old(cars.rows), carNum, lookupFails);
        ok ==> RowWithNum(cars.rows, carNum) == Some(car.value.(status := RentedStatus))
      ensures cars.nextId == old(cars.nextId)
    {
      if user.None? {
        return false;
      }
      if startDate > endDate || startDate < today {
        return false;
      }
      var carToRent := cars.FindCarByCarNum(carNum, lookupFails);
      if carToRent.None? {
        return false;
      }
      if !EqualsIgnoreCase(AvailableStatus, carToRent.value.status) {
        return false;
      }
      var car := carToRent.value;
      var newRental := Rental(UnassignedId, user.value.id, car.id, startDate, endDate);
      ghost var ledger := rentals.rows;
      var rentalSuccess := rentals.CreateRental(newRental, insertFails);
      if !rentalSuccess {
        return false;
      }
      assert WellDated(rentals.rows) by {
        forall i | 0 <= i < |rentals.rows|
          ensures rentals.rows[i].startDate <= rentals.rows[i].endDate
        {
          if i < |ledger| { assert rentals.rows[i] == ledger[i]; }
        }
      }
      assert HasCarId(cars.rows, car.id);
      ReferencesSurviveRent(cars.rows, old(rentals.rows), newRental, RentedStatus);
      ghost var before := cars.rows;
      var statusUpdateSuccess := cars.UpdateCarStatus(car.id, RentedStatus, updateFails);
      RowWithNumAfterSetStatus(before, car.id, RentedStatus, carNum);
      ok := statusUpdateSuccess;
    }

    /** `returnCar`. When the car is unknown or its status is not "rented"
        in some case nothing changes; otherwise its status is set to
        "available". The rental records are never touched. */
    method ReturnCar(carNum: string, lookupFails: bool, updateFails: bool) returns (ok: bool)
      requires Valid()
      modifies cars
      ensures Valid()
      ensures ok <==> ReturnGuardsPass(CarByNumQuery(old(cars.rows), carNum, lookupFails)) && !updateFails
      ensures var car := CarByNumQuery(old(cars.rows), carNum, lookupFails);
        cars.rows == if ok then SetStatus(old(cars.rows), car.value.id, AvailableStatus) else old(cars.rows)
      ensures var car := CarByNumQuery(old(cars.rows), carNum, lookupFails);
        ok ==> RowWithNum(cars.rows, carNum) == Some(car.value.(status := AvailableStatus))
      ensures rentals.rows == old(rentals.rows)
      ensures cars.nextId == old(cars.nextId)
    {
      var car := cars.FindCarByCarNum(carNum, lookupFails);
      if car.None? {
        return false;
      }
      if !EqualsIgnoreCase(RentedStatus, car.value.status) {
        return false;
      }
      ghost var before := cars.rows;
      ok := cars.UpdateCarStatus(car.value.id, AvailableStatus, updateFails);
      SetStatusKeepsKeys(before, car.value.id, AvailableStatus);
      RowWithNumAfterSetStatus(before, car.value.id, AvailableStatus, carNum);
    }

    /** `getRentalsForUser`: nothing without a user, otherwise the table's
        records for the user's id. */
    method GetRentalsForUser(user: Option<User>) returns (r: seq<Rental>)
      ensures r == if user.None? then [] else RentalsOf(rentals.rows, user.value.id)
      ensures forall x :: x in r <==> user.Some? && x in rentals.rows && x.userId == user.value.id
    {
      if user.None? {
        return [];
      }
      r := rentals.GetRentalsByUserId(user.value.id);
    }
  }
}
