/** `CarService`: the fleet operations offered to the menu, as thin wrappers
    over the car table. */
module CarCatalog {
  import opened Wrappers
  import opened Entities
  import opened Text
  import opened CarStore

  class CarService {
    const cars: CarDao

    constructor (cars: CarDao)
      ensures this.cars == cars
    {
      this.cars := cars;
    }

    /** `addCar`: builds the car with status "available" and returns the
        table's insert result. A car this adds is found under its number,
        is rentable and is listed as available. */
    method AddCar(carNum: string, carType: string, carName: string, dbError: bool) returns (ok: bool)
      requires cars.Valid()
      modifies cars
      ensures cars.Valid()
      ensures ok == (!dbError && !HasCarNum(old(cars.rows), carNum))
      ensures cars.rows == if ok
        then old(cars.rows) + [Car(old(cars.nextId), carNum, carType, carName, AvailableStatus)]
        else old(cars.rows)
      ensures ok ==>
        var added := Car(old(cars.nextId), carNum, carType, carName, AvailableStatus);
        && RowWithNum(cars.rows, carNum) == Some(added)
        && EqualsIgnoreCase(AvailableStatus, added.status)
        && added in AvailableRows(cars.rows)
    {
      ghost var before := cars.rows;
      ghost var id := cars.nextId;
      ok := cars.AddCar(Car(UnassignedId, carNum, carType, carName, AvailableStatus), dbError);
      if ok {
        RowWithNumAfterAppend(before, Car(id, carNum, carType, carName, AvailableStatus));
      }
    }

    /** `getAvailableCars`: the table's list, unchanged. */
    method GetAvailableCars(dbError: bool) returns (r: seq<Car>)
      ensures r == if dbError then [] else AvailableRows(cars.rows)
      ensures forall c :: c in r ==> c in cars.rows && c.status == AvailableStatus
    {
      r := cars.GetAvailableCars(dbError);
    }

    /** `getCarByCarNumber`: the table's lookup by number. */
    method GetCarByCarNumber(carNum: string, dbError: bool) returns (r: Option<Car>)
      ensures r == CarByNumQuery(cars.rows, carNum, dbError)
      ensures !dbError && HasCarNum(cars.rows, carNum) ==> r.Some? && r.value.carNum == carNum
    {
      r := cars.FindCarByCarNum(carNum, dbError);
    }
  }
}
