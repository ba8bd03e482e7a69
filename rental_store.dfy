/** The rentals table. `RentalDAO` is not part of this model; all the
    services rely on is that `createRental` may fail and otherwise stores
    the record, and that `getRentalsByUserId` selects by `userId`. */
module RentalStore {
  import opened Entities

  /** The rentals of one user, in the order the model stores them. */
  function RentalsOf(rows: seq<Rental>, userId: int): (r: seq<Rental>)
    ensures |r| <= |rows|
    ensures forall x :: x in r <==> x in rows && x.userId == userId
  {
    if rows == [] then []
    else
      var init, last := rows[..|rows| - 1], rows[|rows| - 1];
      assert rows == init + [last];
      RentalsOf(init, userId) + (if last.userId == userId then [last] else [])
  }

  /** Every record's period runs forwards. */
  predicate WellDated(rows: seq<Rental>)
  {
    forall i :: 0 <= i < |rows| ==> rows[i].startDate <= rows[i].endDate
  }

  class RentalDao {
    var rows: seq<Rental>

    constructor ()
      ensures rows == []
    {
      rows := [];
    }

    /** `createRental`: stores the record unless the store fails. */
    method CreateRental(rental: Rental, dbError: bool) returns (ok: bool)
      modifies this
      ensures ok == !dbError
      ensures rows == if ok then old(rows) + [rental] else old(rows)
    {
      if dbError {
        return false;
      }
      rows := rows + [rental];
      ok := true;
    }

    /** `getRentalsByUserId`: the records whose `userId` is the given one. */
    method GetRentalsByUserId(userId: int) returns (r: seq<Rental>)
      ensures r == RentalsOf(rows, userId)
      ensures forall x :: x in r <==> x in rows && x.userId == userId
    {
      r := RentalsOf(rows, userId);
    }
  }
}
