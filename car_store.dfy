/** The `cars` table and the statements `CarDAO` runs against it, as an
    in-memory table. `car_num` is unique; `id` is assigned on insert. */
module CarStore {
  import opened Wrappers
  import opened Entities

  /** The status literal of `WHERE status = 'available'`. */
  const AvailableStatus: string := "available"

  predicate HasCarNum(rows: seq<Car>, num: string)
  {
    exists i :: 0 <= i < |rows| && rows[i].carNum == num
  }

  predicate HasCarId(rows: seq<Car>, id: int)
  {
    exists i :: 0 <= i < |rows| && rows[i].id == id
  }

  /** The unique constraint on `car_num`. */
  predicate UniqueNums(rows: seq<Car>)
  {
    forall i, j :: 0 <= i < j < |rows| ==> rows[i].carNum != rows[j].carNum
  }

  /** `id` is the primary key. */
  predicate UniqueIds(rows: seq<Car>)
  {
    forall i, j :: 0 <= i < j < |rows| ==> rows[i].id != rows[j].id
  }

  /** `SELECT ... FROM cars WHERE car_num = ?`, first row of the result. */
  function RowWithNum(rows: seq<Car>, num: string): (r: Option<Car>)
    ensures r.Some? ==> r.value in rows && r.value.carNum == num
    ensures r.None? <==> !HasCarNum(rows, num)
  {
    if rows == [] then None
    else if rows[0].carNum == num then Some(rows[0])
    else
      var r := RowWithNum(rows[1..], num);
      assert HasCarNum(rows[1..], num) ==> HasCarNum(rows, num) by {
        if HasCarNum(rows[1..], num) {
          var i :| 0 <= i < |rows[1..]| && rows[1..][i].carNum == num;
          assert rows[i + 1].carNum == num;
        }
      }
      r
  }

  /** `SELECT ... FROM cars WHERE id = ?`, first row of the result. */
  function RowWithId(rows: seq<Car>, id: int): (r: Option<Car>)
    ensures r.Some? ==> r.value in rows && r.value.id == id
    ensures r.None? <==> !HasCarId(rows, id)
  {
    if rows == [] then None
    else if rows[0].id == id then Some(rows[0])
    else
      var r := RowWithId(rows[1..], id);
      assert HasCarId(rows[1..], id) ==> HasCarId(rows, id) by {
        if HasCarId(rows[1..], id) {
          var i :| 0 <= i < |rows[1..]| && rows[1..][i].id == id;
          assert rows[i + 1].id == id;
        }
      }
      r
  }

  /** What `findCarByCarNum` returns: the lookup, or null when the query
      throws. */
  function CarByNumQuery(rows: seq<Car>, num: string, dbError: bool): Option<Car>
  {
    if dbError then None else RowWithNum(rows, num)
  }

  /** Under the unique constraint the row with a given number is the one the
      query finds. */
  lemma RowWithNumIsTheRow(rows: seq<Car>, i: int)
    requires UniqueNums(rows)
    requires 0 <= i < |rows|
    ensures RowWithNum(rows, rows[i].carNum) == Some(rows[i])
  {
  }

  /** Under the primary key the row with a given id is the one the query finds. */
  lemma RowWithIdIsTheRow(rows: seq<Car>, i: int)
    requires UniqueIds(rows)
    requires 0 <= i < |rows|
    ensures RowWithId(rows, rows[i].id) == Some(rows[i])
  {
  }

  /** A row appended under a fresh number is what a lookup of that number
      finds afterwards. */
  lemma {:induction false} RowWithNumAfterAppend(rows: seq<Car>, c: Car)
    requires !HasCarNum(rows, c.carNum)
    ensures RowWithNum(rows + [c], c.carNum) == Some(c)
  {
    if rows != [] {
      assert (rows + [c])[1..] == rows[1..] + [c];
      assert !HasCarNum(rows[1..], c.carNum) by {
        forall j | 0 <= j < |rows[1..]| ensures rows[1..][j].carNum != c.carNum {
          assert rows[1..][j] == rows[j + 1];
        }
      }
      assert rows[0].carNum != c.carNum;
      RowWithNumAfterAppend(rows[1..], c);
    }
  }

  /** `SELECT ... FROM cars WHERE status = 'available'`: the rows whose status
      is that literal (compared case-sensitively, as SQL `=` does). The query
      has no ORDER BY; the model fixes insertion order. */
  function AvailableRows(rows: seq<Car>): (r: seq<Car>)
    ensures |r| <= |rows|
    ensures forall c :: c in r <==> c in rows && c.status == AvailableStatus
  {
    if rows == [] then []
    else
      var init, last := rows[..|rows| - 1], rows[|rows| - 1];
      assert rows == init + [last];
      AvailableRows(init) + (if last.status == AvailableStatus then [last] else [])
  }

  /** `UPDATE cars SET status = ? WHERE id = ?`: every row keeps its id,
      number, type and name; the rows with that id get the new status, the
      others keep theirs. */
  function SetStatus(rows: seq<Car>, id: int, status: string): (r: seq<Car>)
    ensures |r| == |rows|
    ensures forall i :: 0 <= i < |rows| ==>
      r[i].id == rows[i].id && r[i].carNum == rows[i].carNum &&
      r[i].carType == rows[i].carType && r[i].carName == rows[i].carName
    ensures forall i :: 0 <= i < |rows| ==>
      r[i].status == (if rows[i].id == id then status else rows[i].status)
  {
    if rows == [] then []
    else
      var head := if rows[0].id == id then rows[0].(status := status) else rows[0];
      [head] + SetStatus(rows[1..], id, status)
  }

  /** Under the primary key an update by the id of row `i` changes that
      row's status and nothing else in the table. */
  lemma SetStatusChangesOneRow(rows: seq<Car>, i: int, status: string)
    requires UniqueIds(rows)
    requires 0 <= i < |rows|
    ensures SetStatus(rows, rows[i].id, status) == rows[i := rows[i].(status := status)]
  {
  }

  /** An update that matches no row leaves the table as it was. */
  lemma SetStatusOfMissingId(rows: seq<Car>, id: int, status: string)
    requires !HasCarId(rows, id)
    ensures SetStatus(rows, id, status) == rows
  {
  }

  /** Looking a car up by number after a status update finds the same row,
      carrying the new status exactly when its id was the one updated. */
  lemma {:induction false} RowWithNumAfterSetStatus(rows: seq<Car>, id: int, status: string, num: string)
    ensures RowWithNum(SetStatus(rows, id, status), num) ==
      match RowWithNum(rows, num)
      case None => None
      case Some(c) => Some(if c.id == id then c.(status := status) else c)
  {
    if rows != [] {
      var r := SetStatus(rows, id, status);
      assert r[1..] == SetStatus(rows[1..], id, status);
      if rows[0].carNum != num {
        RowWithNumAfterSetStatus(rows[1..], id, status, num);
      }
    }
  }

  /** A status update never changes which numbers and ids are present, so the
      keys stay unique. */
  lemma SetStatusKeepsKeys(rows: seq<Car>, id: int, status: string)
    ensures UniqueNums(rows) ==> UniqueNums(SetStatus(rows, id, status))
    ensures UniqueIds(rows) ==> UniqueIds(SetStatus(rows, id, status))
    ensures forall x :: HasCarId(SetStatus(rows, id, status), x) <==> HasCarId(rows, x)
  {
  }

  /** The car table behind `CarDAO`. */
  class CarDao {
    var rows: seq<Car>
    /** The next value of the id sequence. */
    var nextId: int

    ghost predicate Valid()
      reads this
    {
      && UniqueNums(rows)
      && UniqueIds(rows)
      && forall i :: 0 <= i < |rows| ==> rows[i].id < nextId
    }

    constructor ()
      ensures Valid() && rows == [] && nextId == 1
    {
      rows := [];
      nextId := 1;
    }

    /** `INSERT INTO cars (car_num, car_type, car_name, status)`: appends one
        row with a fresh id and the given fields, unless the number is taken
        (unique violation) or the statement fails; the car's own id is not
        used. */
    method AddCar(car: Car, dbError: bool) returns (ok: bool)
      requires Valid()
      modifies this
      ensures Valid()
      ensures ok == (!dbError && !HasCarNum(old(rows), car.carNum))
      ensures rows == if ok
        then old(rows) + [Car(old(nextId), car.carNum, car.carType, car.carName, car.status)]
        else old(rows)
      ensures nextId >= old(nextId)
    {
      if dbError || RowWithNum(rows, car.carNum).Some? {
        return false;
      }
      rows := rows + [Car(nextId, car.carNum, car.carType, car.carName, car.status)];
      nextId := nextId + 1;
      ok := true;
    }

    /** `findCarByCarNum`: the row with that number, or null. */
    method FindCarByCarNum(num: string, dbError: bool) returns (r: Option<Car>)
      ensures r == CarByNumQuery(rows, num, dbError)
      ensures r.Some? ==> !dbError && r.value in rows && r.value.carNum == num
      ensures r.None? ==> dbError || !HasCarNum(rows, num)
    {
      if dbError {
        return None;
      }
      r := RowWithNum(rows, num);
    }

    /** `getAvailableCars`: reads the query's rows one by one and keeps those
        whose status is 'available'; a failing query yields an empty list. */
    method GetAvailableCars(dbError: bool) returns (r: seq<Car>)
      ensures r == if dbError then [] else AvailableRows(rows)
      ensures forall c :: c in r ==> c in rows && c.status == AvailableStatus
    {
      r := [];
      if dbError {
        return;
      }
      var i := 0;
      while i < |rows|
        invariant 0 <= i <= |rows|
        invariant r == AvailableRows(rows[..i])
      {
        assert rows[..i + 1][..i] == rows[..i];
        if rows[i].status == AvailableStatus {
          r := r + [rows[i]];
        }
        i := i + 1;
      }
      assert rows[..i] == rows;
    }

    /** `updateCarStatus`: sets the status of the row with that id; reports
        whether a row was affected. */
    method UpdateCarStatus(id: int, status: string, dbError: bool) returns (ok: bool)
      requires Valid()
      modifies this
      ensures Valid()
      ensures ok == (!dbError && HasCarId(old(rows), id))
      ensures rows == if ok then SetStatus(old(rows), id, status) else old(rows)
      ensures nextId == old(nextId)
    {
      if dbError || RowWithId(rows, id).None? {
        return false;
      }
      SetStatusKeepsKeys(rows, id, status);
      rows := SetStatus(rows, id, status);
      ok := true;
    }

    /** `findCarById`: the row with that id, or null. */
    method FindCarById(id: int, dbError: bool) returns (r: Option<Car>)
      ensures r == if dbError then None else RowWithId(rows, id)
      ensures r.Some? ==> !dbError && r.value in rows && r.value.id == id
      ensures r.None? ==> dbError || !HasCarId(rows, id)
    {
      if dbError {
        return None;
      }
      r := RowWithId(rows, id);
    }
  }

  /** Every row `getAvailableCars` lists has status "available", and, when
      the ids are unique, is the row `findCarById` returns for its id. */
  lemma ListedCarsAreRows(rows: seq<Car>, c: Car)
    requires UniqueIds(rows)
    requires c in AvailableRows(rows)
    ensures c.status == AvailableStatus
    ensures RowWithId(rows, c.id) == Some(c)
  {
  }
}
