/** The guard-and-mutate core of `bookTicket` and `cancelTicket`, as
    functions from the registry's records to an outcome and new records. */
module Booking {
  import opened SeatMatrix
  import opened Routes

  /** The in-place write of a successful booking: seat k becomes 1 and the
      counter drops by one. */
  function TakeSeat<F>(b: Bus<F>, k: int): Bus<F>
    requires 0 <= k < |b.seats|
  {
    b.(seats := b.seats[k := Booked], available := b.available - 1)
  }

  /** The in-place write of a successful cancellation: seat k becomes 0 and
      the counter rises by one. */
  function FreeSeat<F>(b: Bus<F>, k: int): Bus<F>
    requires 0 <= k < |b.seats|
  {
    b.(seats := b.seats[k := Empty], available := b.available + 1)
  }

  /** The effect of `bookTicket` once the route ID and seat number are read.
      The guards run in the source's order (unknown route, sold out, seat
      outside 1..32, seat already booked); a failing guard changes nothing.
      A booking flips one seat to 1, lowers that route's counter by one and
      charges the route's fare. The sold-out guard looks at the counter only,
      whatever the state of the requested seat. */
  function BookStep<F>(rs: seq<Bus<F>>, id: int, seat: int): (out: (Result<F>, seq<Bus<F>>))
    requires WellShaped(rs)
    ensures WellShaped(out.1) && |out.1| == |rs|
    ensures forall j :: 0 <= j < |rs| ==> out.1[j].id == rs[j].id
    ensures out.0.Err? ==> out.1 == rs
    ensures out.0 != Err(MemoryFull) && out.0 != Err(NotBooked)
    ensures var i := IndexOf(rs, id);
      && (out.0 == Err(NotFound) <==> i == -1)
      && (out.0 == Err(SoldOut) <==> i != -1 && rs[i].available == 0)
      && (out.0 == Err(InvalidSeat) <==>
            i != -1 && rs[i].available != 0 && !(1 <= seat <= MaxSeats))
      && (out.0 == Err(AlreadyBooked) <==>
            i != -1 && rs[i].available != 0 && 1 <= seat <= MaxSeats && rs[i].seats[seat - 1] == Booked)
    ensures out.0.Ok? ==>
      var i := IndexOf(rs, id);
      && 0 <= i && 1 <= seat <= MaxSeats
      && out.0.value == rs[i].fare
      && SameRoute(out.1[i], rs[i])
      && out.1[i].seats[seat - 1] == Booked
      && (forall k :: 0 <= k < MaxSeats && k != seat - 1 ==> out.1[i].seats[k] == rs[i].seats[k])
      && out.1[i].available == rs[i].available - 1
      && (forall j :: 0 <= j < |rs| && j != i ==> out.1[j] == rs[j])
  {
    var i := IndexOf(rs, id);
    if i == -1 then (Err(NotFound), rs)
    else if rs[i].available == 0 then (Err(SoldOut), rs)
    else if seat < 1 || seat > MaxSeats then (Err(InvalidSeat), rs)
    else if rs[i].seats[seat - 1] == Booked then (Err(AlreadyBooked), rs)
    else
      (Ok(rs[i].fare), rs[i := TakeSeat(rs[i], seat - 1)])
  }

  /** The effect of `cancelTicket` once the route ID and seat number are read.
      There is no sold-out guard: unknown route, seat outside 1..32 and seat
      not booked are rejected, in that order, with no change. A cancellation
      flips one seat to 0, raises that route's counter by one and refunds the
      route's fare. */
  function CancelStep<F>(rs: seq<Bus<F>>, id: int, seat: int): (out: (Result<F>, seq<Bus<F>>))
    requires WellShaped(rs)
    ensures WellShaped(out.1) && |out.1| == |rs|
    ensures forall j :: 0 <= j < |rs| ==> out.1[j].id == rs[j].id
    ensures out.0.Err? ==> out.1 == rs
    ensures out.0 != Err(MemoryFull) && out.0 != Err(SoldOut) && out.0 != Err(AlreadyBooked)
    ensures var i := IndexOf(rs, id);
      && (out.0 == Err(NotFound) <==> i == -1)
      && (out.0 == Err(InvalidSeat) <==> i != -1 && !(1 <= seat <= MaxSeats))
      && (out.0 == Err(NotBooked) <==>
            i != -1 && 1 <= seat <= MaxSeats && rs[i].seats[seat - 1] == Empty)
    ensures out.0.Ok? ==>
      var i := IndexOf(rs, id);
      && 0 <= i && 1 <= seat <= MaxSeats
      && out.0.value == rs[i].fare
      && SameRoute(out.1[i], rs[i])
      && out.1[i].seats[seat - 1] == Empty
      && (forall k :: 0 <= k < MaxSeats && k != seat - 1 ==> out.1[i].seats[k] == rs[i].seats[k])
      && out.1[i].available == rs[i].available + 1
      && (forall j :: 0 <= j < |rs| && j != i ==> out.1[j] == rs[j])
  {
    var i := IndexOf(rs, id);
    if i == -1 then (Err(NotFound), rs)
    else if seat < 1 || seat > MaxSeats then (Err(InvalidSeat), rs)
    else if rs[i].seats[seat - 1] == Empty then (Err(NotBooked), rs)
    else
      (Ok(rs[i].fare), rs[i := FreeSeat(rs[i], seat - 1)])
  }

  /** Booking keeps every route consistent; on a
      consistent route a booking starts from a counter of at least one, so
      it never drives the counter below zero. */
  lemma BookPreserves<F>(rs: seq<Bus<F>>, id: int, seat: int)
    requires AllConsistent(rs)
    ensures AllConsistent(BookStep(rs, id, seat).1)
    ensures BookStep(rs, id, seat).0.Ok? ==>
      var b := BookStep(rs, id, seat).1[IndexOf(rs, id)];
      0 <= b.available < MaxSeats && b.seats[seat - 1] == Booked
  {
    var out := BookStep(rs, id, seat);
    if out.0.Ok? {
      var i := IndexOf(rs, id);
      CountEmptyUpdate(rs[i].seats, seat - 1, Booked);
      assert out.1[i] == TakeSeat(rs[i], seat - 1);
      assert Consistent(out.1[i]);
    }
  }

  /** Cancelling keeps every route consistent; on a
      consistent route a cancellation starts from a counter below capacity,
      so it never pushes the counter above 32. */
  lemma CancelPreserves<F>(rs: seq<Bus<F>>, id: int, seat: int)
    requires AllConsistent(rs)
    ensures AllConsistent(CancelStep(rs, id, seat).1)
    ensures CancelStep(rs, id, seat).0.Ok? ==>
      var b := CancelStep(rs, id, seat).1[IndexOf(rs, id)];
      0 < b.available <= MaxSeats && b.seats[seat - 1] == Empty
  {
    var out := CancelStep(rs, id, seat);
    if out.0.Ok? {
      var i := IndexOf(rs, id);
      CountEmptyUpdate(rs[i].seats, seat - 1, Empty);
      assert out.1[i] == FreeSeat(rs[i], seat - 1);
      assert Consistent(out.1[i]);
    }
  }

  /** On a consistent route the sold-out guard, which reads the counter
      only, agrees with the seat row: the counter is zero exactly when every
      seat is booked. */
  lemma SoldOutIffAllBooked<F>(b: Bus<F>)
    requires Consistent(b)
    ensures b.available == 0 <==> forall k :: 0 <= k < MaxSeats ==> b.seats[k] == Booked
  {
  }

  /** Cancelling the seat just booked restores the records exactly and
      refunds what was charged. */
  lemma BookThenCancel<F>(rs: seq<Bus<F>>, id: int, seat: int)
    requires AllConsistent(rs)
    requires BookStep(rs, id, seat).0.Ok?
    ensures CancelStep(BookStep(rs, id, seat).1, id, seat) == (BookStep(rs, id, seat).0, rs)
  {
    var i := IndexOf(rs, id);
    var b := rs[i];
    var rs' := rs[i := TakeSeat(b, seat - 1)];
    IndexOfSameIds(rs, rs', id);
    assert rs'[i := FreeSeat(rs'[i], seat - 1)] == rs by {
      assert b.seats[seat - 1] == Empty by {
        assert Consistent(b);
      }
      assert b.seats[seat - 1 := Booked][seat - 1 := Empty] == b.seats;
      assert FreeSeat(TakeSeat(b, seat - 1), seat - 1) == b;
    }
  }

  /** Booking again the seat just cancelled restores the records exactly and
      charges what was refunded. */
  lemma CancelThenBook<F>(rs: seq<Bus<F>>, id: int, seat: int)
    requires AllConsistent(rs)
    requires CancelStep(rs, id, seat).0.Ok?
    ensures BookStep(CancelStep(rs, id, seat).1, id, seat) == (CancelStep(rs, id, seat).0, rs)
  {
    var i := IndexOf(rs, id);
    var b := rs[i];
    var rs' := rs[i := FreeSeat(b, seat - 1)];
    IndexOfSameIds(rs, rs', id);
    assert b.seats[seat - 1] == Booked && b.available >= 0 by {
      assert Consistent(b);
    }
    assert rs'[i := TakeSeat(rs'[i], seat - 1)] == rs by {
      assert b.seats[seat - 1 := Empty][seat - 1 := Booked] == b.seats;
      assert TakeSeat(FreeSeat(b, seat - 1), seat - 1) == b;
    }
  }

  /** One request of the user panel. */
  datatype Request = BookRequest(id: int, seat: int) | CancelRequest(id: int, seat: int)

  function Apply<F>(rs: seq<Bus<F>>, req: Request): (rs': seq<Bus<F>>)
    requires WellShaped(rs)
    ensures WellShaped(rs') && |rs'| == |rs|
  {
    match req
    case BookRequest(id, seat) => BookStep(rs, id, seat).1
    case CancelRequest(id, seat) => CancelStep(rs, id, seat).1
  }

  /** The records after a session of book and cancel requests, successful or
      not. */
  function Run<F>(rs: seq<Bus<F>>, reqs: seq<Request>): (rs': seq<Bus<F>>)
    requires WellShaped(rs)
    ensures WellShaped(rs') && |rs'| == |rs|
    decreases |reqs|
  {
    if reqs == [] then rs else Run(Apply(rs, reqs[0]), reqs[1..])
  }

  /** After any session of book and cancel requests every route is still
      consistent, keeps its ID, and its counter equals 32 minus the number
      of booked seats. */
  lemma {:induction false} RunPreserves<F>(rs: seq<Bus<F>>, reqs: seq<Request>)
    requires AllConsistent(rs)
    decreases |reqs|
    ensures AllConsistent(Run(rs, reqs))
    ensures forall i :: 0 <= i < |rs| ==> Run(rs, reqs)[i].id == rs[i].id
    ensures forall i :: 0 <= i < |rs| ==>
      Run(rs, reqs)[i].available == MaxSeats - CountBooked(Run(rs, reqs)[i].seats)
  {
    var rs' := Run(rs, reqs);
    if reqs != [] {
      var next := Apply(rs, reqs[0]);
      assert AllConsistent(next) by {
        match reqs[0] {
          case BookRequest(id, seat) => BookPreserves(rs, id, seat);
          case CancelRequest(id, seat) => CancelPreserves(rs, id, seat);
        }
      }
      RunPreserves(next, reqs[1..]);
      assert rs' == Run(next, reqs[1..]);
    }
    forall i | 0 <= i < |rs| ensures rs'[i].available == MaxSeats - CountBooked(rs'[i].seats) {
      EmptyPlusBooked(rs'[i].seats);
    }
  }
}
