/** Two sessions of the program, written against the registry's contracts
    alone: what an operator sees at each step. */
module Scenarios {
  import opened SeatMatrix
  import opened Routes
  import opened Booking
  import opened Reservation

  /** From an empty registry: add a route, book seat 5, book seat 5 again,
      cancel seat 5. The route gets ID 1001 with 32 seats left; the booking
      charges the fare and leaves 31; the second booking is refused and
      changes nothing; the cancellation refunds the fare and restores the
      registry as it was after the add. */
  lemma BookTwiceThenCancel<F>(name: string, source: string, destination: string, fare: F)
    ensures var added := NewRoute(1001, name, source, destination, fare);
            var booked := TakeSeat(added, 4);
            && AddStep([], name, source, destination, fare) == (Ok(1001), [added])
            && added.available == MaxSeats
            && BookStep([added], 1001, 5) == (Ok(fare), [booked])
            && booked.available == MaxSeats - 1 && booked.seats[4] == Booked
            && BookStep([booked], 1001, 5) == (Err(AlreadyBooked), [booked])
            && CancelStep([booked], 1001, 5) == (Ok(fare), [added])
  {
    var added := NewRoute(1001, name, source, destination, fare);
    var booked := TakeSeat(added, 4);
    assert added.seats[4] == Empty;
    assert IndexOf([added], 1001) == 0 && IndexOf([booked], 1001) == 0;
    assert BookStep([added], 1001, 5) == (Ok(fare), [booked]) by {
      assert [added][0 := booked] == [booked];
    }
    assert CancelStep([booked], 1001, 5) == (Ok(fare), [added]) by {
      assert added.seats[4 := Booked][4 := Empty] == added.seats;
      assert [booked][0 := FreeSeat(booked, 4)] == [added];
    }
  }

  /** Add two routes, reset, look up the second one's old ID, add again:
      the stale ID is not found and the new route is numbered 1001 again. */
  method ResetRestartsNumbering<F(0)>(fare: F)
    returns (ids: seq<Result<int>>, stale: int, again: Result<int>)
    ensures ids == [Ok(1001), Ok(1002)]
    ensures stale == -1
    ensures again == Ok(1001)
  {
    var registry := new Registry<F>();
    var a := registry.Add("Volvo-900", "CityA", "CityB", fare);
    var b := registry.Add("Volvo-901", "CityB", "CityA", fare);
    ids := [a, b];
    registry.Reset();
    stale := registry.Find(1002);
    again := registry.Add("Volvo-902", "CityA", "CityC", fare);
  }
}
