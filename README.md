# Car rental system: rental lifecycle and car availability

This project models the service and data-access layer of a small car-rental
program. A user registers and logs in. Cars are added to a fleet with status
"available". A logged-in user rents a car by its number for a period of days.
Renting stores a rental record and then sets the car's status to "rented".
Returning a car sets its status back to "available". The price of a rental is
the inclusive number of days times a daily rate fixed per car type.

The two database tables, `cars` and `users`, are in-memory classes holding a
sequence of rows and the next id to assign:

- `CarStore.CarDao` models `CarDAO`. `car_num` is unique, `id` is the key.
- `UserStore.UserDao` models `UserDAO`. `username` is unique.

Each SQL statement becomes a function on the rows: a lookup by key, a filter
on `status = 'available'`, and an `UPDATE ... WHERE id = ?`. Each DAO method
takes a `dbError` flag. When the flag is set, the method takes the
`SQLException` path of the Java code: writes return false and change nothing,
lookups return `None` (the Java `null`) or an empty list. `RentalDAO` is not
part of this model. `RentalStore.RentalDao` stands in for it as a
possibly-failing append and a filter on `userId`.

The services are classes over those tables:

- `CarCatalog.CarService` models `CarService`.
- `Authentication.AuthService` models `AuthService` and its `loggedInUser`
  field.
- `RentalLifecycle.RentalService` models `RentalService`. The pricing
  functions sit beside it in the same module.

Dates are whole epoch days. The current date `LocalDate.now()` is the
parameter `today`. Case-insensitive comparison (`equalsIgnoreCase`,
`toLowerCase`) folds ASCII letters only (module `Text`). The Scenarios module
contains client methods. They chain the services and
assert what the contracts promise about the sequence add, rent, rent again,
return and rent again. One of them follows the menu's order: it builds every
service before any car exists, registers and logs in, and rents as the user
that `getLoggedInUser` returns.

Two facts proved in the model are worth knowing:

- `rentCar` and `returnCar` compare a status ignoring case. `getAvailableCars`
  uses SQL `=`, which is case-sensitive. So every listed car is rentable
  (`RentalLifecycle.ListedCarsAreRentable`), but a car whose status is
  "Available" can be rented and is never listed
  (`RentalLifecycle.RentableCarNeedNotBeListed`). This cannot happen through
  `CarService`, which always writes the lower-case literal.
- No step is undone after a failure. When the status update fails after the
  rental was stored, `rentCar` returns false, the rental stays and the car
  keeps its status (`RentalLifecycle.RentalService.RentCar`,
  `Scenarios.RentWithFailedStatusUpdate`). `returnCar` never touches the
  rental records.

The code has no compare-and-swap on the status and no table of legal status
transitions. It does not close a rental on return: its own comment at
RentalService.java:69-71 leaves that to a more complex system. It undoes
nothing after a partial failure. The model follows the code.

## Model

| member | source | states |
|---|---|---|
| `Text.ToLower` | RentalService.java:101 | lower-casing keeps the length, folds each character, and leaves no upper-case letter |
| `Text.EqualsIgnoreCaseByLowering` | RentalService.java:29 | two strings are equal ignoring case exactly when their lower-case forms are equal |
| `Text.EqualsLiteralIgnoreCase` | RentalService.java:64 | comparing a lower-case literal ignoring case is the same as asking whether the other string lower-cases to that literal |
| `CarStore.RowWithNum` | CarDAO.java:35-55 | the lookup by number yields a row of the table with that number, and yields nothing exactly when no row has that number |
| `CarStore.RowWithId` | CarDAO.java:99-119 | the lookup by id yields a row of the table with that id, and yields nothing exactly when no row has that id |
| `CarStore.RowWithNumIsTheRow` | CarDAO.java:35-50 | when numbers are unique, the lookup of a row's number returns exactly that row |
| `CarStore.RowWithIdIsTheRow` | CarDAO.java:99-114 | when ids are unique, the lookup of a row's id returns exactly that row |
| `CarStore.RowWithNumAfterAppend` | CarDAO.java:12-22 | a row inserted under an unused number is what the lookup by that number returns afterwards |
| `CarStore.AvailableRows` | CarDAO.java:61-74 | the filter keeps exactly the rows whose status is the literal "available", compared case-sensitively, and drops all others |
| `CarStore.SetStatus` | CarDAO.java:83-88 | the update keeps every row's id, number, type and name; rows with the given id get the new status; all other rows keep theirs |
| `CarStore.SetStatusChangesOneRow` | CarDAO.java:83-88 | when ids are unique, updating by a row's id replaces that row's status and leaves every other row as it was |
| `CarStore.SetStatusOfMissingId` | CarDAO.java:83-91 | an update whose id matches no row leaves the table unchanged |
| `CarStore.RowWithNumAfterSetStatus` | CarDAO.java:35-55 | after a status update, the lookup by number finds the same row, with the new status exactly when its id was the one updated |
| `CarStore.SetStatusKeepsKeys` | CarDAO.java:83 | a status update keeps the numbers unique and the ids unique, and keeps the same set of ids present |
| `CarStore.ListedCarsAreRows` | CarDAO.java:59-78 | a listed car has status "available" and is the row the lookup by its id returns |
| `CarStore.CarDao.AddCar` | CarDAO.java:11-30 | insert succeeds exactly when there is no storage error and the number is unused; on success it appends one row with a fresh id and the given number, type, name and status; on failure the table is unchanged |
| `CarStore.CarDao.FindCarByCarNum` | CarDAO.java:34-56 | returns the row with that number, or nothing when no row has it or the query fails |
| `CarStore.CarDao.GetAvailableCars` | CarDAO.java:59-79 | the loop over the result set returns exactly the rows whose status is "available"; a failed query returns an empty list |
| `CarStore.CarDao.UpdateCarStatus` | CarDAO.java:82-96 | returns true exactly when no storage error occurs and some row has that id; only that row's status changes; a false result leaves the table unchanged |
| `CarStore.CarDao.FindCarById` | CarDAO.java:98-120 | returns the row with that id, or nothing when no row has it or the query fails |
| `UserStore.RowWithUsername` | UserDAO.java:36-53 | the lookup by username yields a row with that username, and yields nothing exactly when no row has it |
| `UserStore.RowWithUsernameIsTheRow` | UserDAO.java:36-53 | when usernames are unique, the lookup of a row's username returns exactly that row |
| `UserStore.RowWithUsernameAfterAppend` | UserDAO.java:14-15 | a user inserted under an unused username is what the lookup returns afterwards, with the same username and password |
| `UserStore.RowWithUsernameOtherAfterAppend` | UserDAO.java:10-22 | inserting a user does not change the lookup of any other username |
| `UserStore.UserDao.RegisterUser` | UserDAO.java:9-32 | insert succeeds exactly when there is no storage error and the username is unused; on success it appends one row with a fresh id and the given fields, with the password verbatim; the lookup then returns that row, and other lookups are unchanged |
| `UserStore.UserDao.FindUserByUsername` | UserDAO.java:35-59 | returns the row with that username, or nothing when no row has it or the query fails |
| `RentalStore.RentalsOf` | RentalService.java:87 | the rentals of a user are exactly the records with that user id |
| `RentalStore.RentalDao.CreateRental` | RentalService.java:36 | storing a rental either fails and changes nothing, or appends exactly that record |
| `RentalStore.RentalDao.GetRentalsByUserId` | RentalService.java:87 | returns exactly the records with that user id |
| `CarCatalog.CarService.AddCar` | CarService.java:10-19 | returns the table's insert result for a car with status "available"; a car added this way is found under its number, is rentable, and is listed as available |
| `CarCatalog.CarService.GetAvailableCars` | CarService.java:21-27 | returns the table's list of available cars unchanged and changes nothing |
| `CarCatalog.CarService.GetCarByCarNumber` | CarService.java:29-31 | returns the table's lookup by number |
| `Authentication.AuthService.Register` | AuthService.java:14-27 | stores the password exactly as given and returns the table's insert result; the session is untouched |
| `Authentication.AuthService.Login` | AuthService.java:29-43 | succeeds exactly when some row has this username and this password; on success the session holds that row and it is returned; on failure the session holds nobody and nothing is returned |
| `Authentication.AuthService.GetLoggedInUser` | AuthService.java:45-47 | returns the session's user, a row of the table, and changes nothing |
| `Authentication.AuthService.Logout` | AuthService.java:49-52 | afterwards the session holds nobody |
| `RentalLifecycle.RentalDuration` | RentalService.java:95-97 | a period that runs forwards lasts at least one day |
| `RentalLifecycle.DurationMonotonic` | RentalService.java:95-97 | the duration never decreases as the end date moves later |
| `RentalLifecycle.DailyRate` | RentalService.java:100-115 | the rate is 5000 exactly for "suv", 4000 exactly for "sedan" and 3000 exactly for "mini", each in any case, and 0 exactly for every other type |
| `RentalLifecycle.RentalCost` | RentalService.java:99-117 | the cost is never negative for a non-negative day count, and is 0 for a zero-rate type |
| `RentalLifecycle.CostOfPeriod` | RentalService.java:96-116 | the cost of a valid period is never negative and never decreases as the end date moves later |
| `RentalLifecycle.SedanForThreeDays` | RentalService.java:95-116 | a Sedan from 2024-01-10 to 2024-01-12 is 3 days at 4000, a cost of 12000 |
| `RentalLifecycle.NoRentWhileRentedOrInMaintenance` | RentalService.java:29-32 | a car whose status is "rented" or "maintenance", in any case, fails the rent guard; of these, only the rented one passes the return guard |
| `RentalLifecycle.ListedCarsAreRentable` | CarDAO.java:61 | every car the available list contains passes the rent guard's status check |
| `RentalLifecycle.RentableCarNeedNotBeListed` | RentalService.java:29 | a car with status "Available" passes the rent guard but is not in the available list |
| `RentalLifecycle.ReferencesSurviveAddedCars` | CarDAO.java:12-22 | adding cars keeps every rental's car id pointing at a row of the table |
| `RentalLifecycle.ReferencesSurviveRent` | RentalService.java:35-40 | a new rental of a car in the table, and a status update, keep every rental's car id pointing at a row of the table |
| `RentalLifecycle.RentalService.RentCar` | RentalService.java:14-56 | the result is true exactly when a user is given, today <= start <= end, the car exists with status "available" in any case, and both writes succeed; when a guard fails nothing changes; once the guards pass, exactly one rental for the user, car and period is stored unless storing fails; then only that car's status becomes "rented"; a failed status update keeps the stored rental; every stored rental keeps start <= end and refers to a car |
| `RentalLifecycle.RentalService.ReturnCar` | RentalService.java:58-80 | the result is true exactly when the car exists with status "rented" in any case and the update succeeds; then only that car's status becomes "available"; otherwise nothing changes; rentals are never touched |
| `RentalLifecycle.RentalService.GetRentalsForUser` | RentalService.java:82-92 | with no user the result is empty; otherwise it is the table's list for the user's id, unchanged, and nothing changes |

## Left out

- Console output, the interactive menu (`Main.java`) and `DatabaseManager`: these only print, parse input or open connections.
- JDBC mechanics: a storage failure is the `dbError` flag, or `lookupFails`, `insertFails` and `updateFails` on the services. The two failure branches of an insert (unique violation, detected by SQLState "23", and any other error) differ only in the message they print. Both return false, and the model keeps that.
- CarStore.CarDao.GetAvailableCars: the query at CarDAO.java:61 has no ORDER BY, so the Java code returns the rows in whatever order the database gives; the model fixes insertion order.
- CarStore.CarDao.GetAvailableCars: a failure while the result set is being read returns the rows read so far in the Java code; the model returns an empty list for any failure.
- CarStore.CarDao.AddCar: the model assigns the next counter value as the id and advances the counter only on success. The database's sequence may skip values, and the model claims nothing about that. The same holds for `UserStore.UserDao.RegisterUser`.
- `RentalDAO` is not part of this model. A stored rental keeps the id 0 it was built with. Nothing is claimed about the ids or the order the real DAO uses.
- Text: case folding covers ASCII letters only. Java's `toLowerCase` and `equalsIgnoreCase` also fold other Unicode letters, and `toLowerCase` depends on the locale.
- Java's 32-bit `int` ids and 64-bit `long` day counts are unbounded integers here. `calculateRentalCost` returns a `double`, and every rate is a whole number, so the cost is an integer. The `%.2f` formatting is not modelled.
- RentalLifecycle.RentalService.RentCar: the estimated days and cost that the Java code prints after a successful rent are not returned, because the Java code only prints them.
- Null strings and null dates are not modelled, because the callers never pass them: the menu reads every string with `Scanner.nextLine`, which never returns null, and parses every date. A null user is `None`.
- Concurrency, locking and rollback: the Java code has none, so the model invents none.
- Password hashing: `register` passes the password through unchanged, and the model stores it verbatim.
- The getters and setters of `Car`, `Rental` and `User`: the records are datatypes, and the services never call the setters.
