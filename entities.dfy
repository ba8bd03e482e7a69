/** The three records of the system. Dates are epoch days. A record that has
    not been inserted yet carries id 0, the value an unset Java `int` field
    holds. */
module Entities {

  type Date = int

  /** A row of the `cars` table; `status` is free text ("available",
      "rented", "maintenance" by convention). */
  datatype Car = Car(id: int, carNum: string, carType: string, carName: string, status: string)

  /** A row of the rentals table: who rented which car, from and to which
      day (both inclusive). */
  datatype Rental = Rental(id: int, userId: int, carId: int, startDate: Date, endDate: Date)

  /** A row of the `users` table; `password` is stored exactly as given. */
  datatype User = User(id: int, username: string, password: string, name: string,
                       contactNumber: string, email: string, address: string)

  /** The id of a record built before the database assigned one. */
  const UnassignedId: int := 0
}
