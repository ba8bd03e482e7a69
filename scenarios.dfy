/** Clients of the services. They share one car table between `CarService`
    and `RentalService`, as the menu does. The assertions follow from the
    contracts alone. */
module Scenarios {
  import opened Wrappers
  import opened Entities
  import opened CarStore
  import opened RentalStore
  import opened UserStore
  import opened CarCatalog
  import opened Authentication
  import opened RentalLifecycle

  /** The menu's order: build every table and service first, register and
      log in, add car KA-01, rent it for today..today+2 as the logged-in
      user, fail to rent it again (it is rented), return it, and fail to
      rent it from yesterday. No storage call fails. */
  method RentTwiceThenReturn(today: Date)
  {
    var users := new UserDao();
    var cars := new CarDao();
    var rentals := new RentalDao();
    var auth := new AuthService(users);
    var catalog := new CarService(cars);
    var service := new RentalService(rentals, cars);

    var registered := auth.Register("asha", "secret", "Asha", "555-0100", "asha@example.com", "Pune", false);
    assert registered;
    var account := User(1, "asha", "secret", "Asha", "555-0100", "asha@example.com", "Pune");
    assert users.rows == [account];
    var loggedIn := auth.Login("asha", "secret", false);
    assert loggedIn == Some(account) by {
      assert HasCredentials(users.rows, "asha", "secret") by {
        assert users.rows[0] == account;
      }
    }
    var user := auth.GetLoggedInUser();
    assert user == Some(account);

    var added := catalog.AddCar("KA-01", "Sedan", "City", false);
    assert added;
    var car := Car(1, "KA-01", "Sedan", "City", AvailableStatus);
    assert cars.rows == [car];
    assert rentals.rows == [];

    var rented := car.(status := RentedStatus);
    var ok := service.RentCar(user, "KA-01", today, today + 2, today, false, false, false);
    assert ok;
    assert rentals.rows == [Rental(UnassignedId, 1, 1, today, today + 2)];
    assert cars.rows == [rented];

    ok := service.RentCar(user, "KA-01", today, today + 2, today, false, false, false);
    assert !ok;
    assert |rentals.rows| == 1 && cars.rows == [rented];

    ok := service.ReturnCar("KA-01", false, false);
    assert ok;
    assert cars.rows == [car] && |rentals.rows| == 1;

    ok := service.RentCar(user, "KA-01", today - 1, today + 2, today, false, false, false);
    assert !ok;
    assert cars.rows == [car] && |rentals.rows| == 1;
  }

  /** Add car KA-01, fail to return it (it is not rented), rent it, return
      it, and rent it again. No storage call fails. */
  method ReturnThenRentAgain(today: Date)
  {
    var cars := new CarDao();
    var rentals := new RentalDao();
    var catalog := new CarService(cars);
    var added := catalog.AddCar("KA-01", "Sedan", "City", false);
    assert added;
    var car := Car(1, "KA-01", "Sedan", "City", AvailableStatus);
    assert cars.rows == [car];

    var service := new RentalService(rentals, cars);
    var user := Some(User(7, "asha", "secret", "Asha", "555-0100", "asha@example.com", "Pune"));

    var ok := service.ReturnCar("KA-01", false, false);
    assert !ok;
    assert cars.rows == [car];

    var rented := car.(status := RentedStatus);
    ok := service.RentCar(user, "KA-01", today, today, today, false, false, false);
    assert ok;
    assert cars.rows == [rented];

    ok := service.ReturnCar("KA-01", false, false);
    assert ok;
    assert cars.rows == [car];

    ok := service.RentCar(user, "KA-01", today + 1, today + 3, today, false, false, false);
    assert ok;
    assert cars.rows == [rented];
  }

  /** The status update fails after the rental was stored: the result is
      false, the rental stays, and the car is still available. */
  method RentWithFailedStatusUpdate(today: Date)
  {
    var cars := new CarDao();
    var rentals := new RentalDao();
    var catalog := new CarService(cars);
    var added := catalog.AddCar("MH-12", "SUV", "Trail", false);
    assert added;
    var service := new RentalService(rentals, cars);
    var user := Some(User(3, "ravi", "pw", "Ravi", "", "", ""));

    var ok := service.RentCar(user, "MH-12", today, today + 1, today, false, false, true);
    assert !ok;
    assert rentals.rows == [Rental(UnassignedId, 3, 1, today, today + 1)];
    assert cars.rows == [Car(1, "MH-12", "SUV", "Trail", AvailableStatus)];
  }
}
