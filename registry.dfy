/** The global state of the program, `Bus buses[50]` and `int bus_count`,
    as one object, and the operations that update it in place. */
module Reservation {
  import opened SeatMatrix
  import opened Routes
  import opened Booking

  class Registry<F(0)> {
    /** The fixed table of 50 records; only the first `count` are in use.
        Slots past `count` keep whatever they held (a reset leaves them). */
    var buses: array<Bus<F>>
    var count: int

    ghost predicate Valid()
      reads this, buses
    {
      && buses.Length == MaxBuses
      && 0 <= count <= MaxBuses
      && WellShaped(buses[..count])
    }

    /** The routes in registration order. */
    ghost function Contents(): seq<Bus<F>>
      reads this, buses
      requires Valid()
    {
      buses[..count]
    }

    /** The program's initial state: `bus_count = 0`. */
    constructor ()
      ensures Valid() && fresh(buses)
      ensures Contents() == []
    {
      buses := new Bus<F>[MaxBuses];
      count := 0;
    }

    /** `getBusIndex`: a linear scan for the least slot holding `id`. */
    method Find(id: int) returns (index: int)
      requires Valid()
      ensures index == IndexOf(Contents(), id)
      ensures 0 <= index ==> index < count && buses[index].id == id
    {
      var i := 0;
      while i < count
        invariant 0 <= i <= count
        invariant forall j :: 0 <= j < i ==> buses[j].id != id
      {
        if buses[i].id == id {
          assert Contents()[i] == buses[i];
          return i;
        }
        i := i + 1;
      }
      return -1;
    }

    /** `addBus` with the name, source, destination and fare already read:
        on a full table nothing changes; otherwise a cleared record with ID
        1001 + count goes into slot `count`, which grows by one. */
    method Add(name: string, source: string, destination: string, fare: F) returns (r: Result<int>)
      requires Valid()
      modifies this`count, buses
      ensures Valid()
      ensures (r, Contents()) == AddStep(old(Contents()), name, source, destination, fare)
      ensures forall j :: 0 <= j < MaxBuses && j != old(count) ==> buses[j] == old(buses[j])
      ensures AllConsistent(old(Contents())) ==> AllConsistent(Contents())
      ensures SequentialIds(old(Contents())) ==> SequentialIds(Contents())
    {
      if count >= MaxBuses {
        return Err(MemoryFull);
      }
      var id := BaseId + count;
      var seats := ClearedRow();
      buses[count] := Bus(id, name, source, destination, fare, seats, MaxSeats);
      count := count + 1;
      r := Ok(id);
      assert Contents() == old(Contents()) + [NewRoute(id, name, source, destination, fare)];
      AddPreserves(old(Contents()), name, source, destination, fare);
    }

    /** `bookTicket` with the route ID and seat number already read. The
        guards run in the source's order and a failing one changes nothing;
        a booking writes one seat and the counter of the route found, in
        place, and reports its fare. */
    method Book(id: int, seat: int) returns (r: Result<F>)
      requires Valid()
      modifies buses
      ensures Valid()
      ensures (r, Contents()) == BookStep(old(Contents()), id, seat)
      ensures buses[count..] == old(buses[count..])
      ensures AllConsistent(old(Contents())) ==> AllConsistent(Contents())
      ensures SequentialIds(old(Contents())) ==> SequentialIds(Contents())
    {
      var index := Find(id);
      if index == -1 {
        return Err(NotFound);
      }
      if buses[index].available == 0 {
        return Err(SoldOut);
      }
      if seat < 1 || seat > MaxSeats {
        return Err(InvalidSeat);
      }
      assert buses[index] == Contents()[index];
      if buses[index].seats[seat - 1] == Booked {
        return Err(AlreadyBooked);
      }
      ghost var rs := Contents();
      r := Ok(buses[index].fare);
      buses[index] := TakeSeat(buses[index], seat - 1);
      assert Contents() == rs[index := buses[index]];
      assert (r, Contents()) == BookStep(rs, id, seat);
      if AllConsistent(rs) {
        BookPreserves(rs, id, seat);
      }
    }

    /** `cancelTicket` with the route ID and seat number already read. There
        is no sold-out guard; a failing guard changes nothing; a cancellation
        clears one seat and raises the counter of the route found, in place,
        and reports its fare as the refund. */
    method Cancel(id: int, seat: int) returns (r: Result<F>)
      requires Valid()
      modifies buses
      ensures Valid()
      ensures (r, Contents()) == CancelStep(old(Contents()), id, seat)
      ensures buses[count..] == old(buses[count..])
      ensures AllConsistent(old(Contents())) ==> AllConsistent(Contents())
      ensures SequentialIds(old(Contents())) ==> SequentialIds(Contents())
    {
      var index := Find(id);
      if index == -1 {
        return Err(NotFound);
      }
      if seat < 1 || seat > MaxSeats {
        return Err(InvalidSeat);
      }
      assert buses[index] == Contents()[index];
      if buses[index].seats[seat - 1] == Empty {
        return Err(NotBooked);
      }
      ghost var rs := Contents();
      r := Ok(buses[index].fare);
      buses[index] := FreeSeat(buses[index], seat - 1);
      assert Contents() == rs[index := buses[index]];
      assert (r, Contents()) == CancelStep(rs, id, seat);
      if AllConsistent(rs) {
        CancelPreserves(rs, id, seat);
      }
    }

    /** The reset branch of the admin panel: `bus_count = 0`. The records
        stay in the table but no lookup finds them, and the next route added
        gets ID 1001 again. */
    method Reset()
      requires Valid()
      modifies this`count
      ensures Valid()
      ensures Contents() == []
      ensures forall id :: IndexOf(Contents(), id) == -1
    {
      count := 0;
    }
  }
}
