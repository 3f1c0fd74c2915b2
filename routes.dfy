/** The route registry as a value: the records of the first `bus_count`
    slots of the global `buses` table, their invariants, the ID lookup and
    the effect of adding a route. */
module Routes {
  import opened SeatMatrix

  /** Capacity of the registry (the size of the global `buses` table). */
  const MaxBuses: nat := 50

  /** The ID given to the route in slot 0; slot i gets BaseId + i. */
  const BaseId: int := 1001

  /** One outcome per error message the operations print. */
  datatype Error =
    | MemoryFull     // "Memory Full! Cannot add more buses."
    | NotFound       // "Bus ID not found!"
    | SoldOut        // "Sorry! This bus is fully booked."
    | InvalidSeat    // "Invalid Seat Number."
    | AlreadyBooked  // "Error: Seat %d is already booked!"
    | NotBooked      // "Error: Seat %d was not booked."

  datatype Result<T> = Ok(value: T) | Err(error: Error)

  /** A `Bus` record. The fare is only stored and echoed, so its type is a
      parameter. */
  datatype Bus<F> = Bus(
    id: int,
    name: string,
    source: string,
    destination: string,
    fare: F,
    seats: seq<int>,
    available: int)

  /** Every record has a full row of seats, as the C array type guarantees. */
  predicate WellShaped<F>(rs: seq<Bus<F>>)
  {
    forall i :: 0 <= i < |rs| ==> |rs[i].seats| == MaxSeats
  }

  /** The seat invariant of one route: a full row of 0/1 flags whose cached
      counter equals the number of empty seats. */
  predicate Consistent<F>(b: Bus<F>)
  {
    |b.seats| == MaxSeats && IsBinary(b.seats) && b.available == CountEmpty(b.seats)
  }

  predicate AllConsistent<F>(rs: seq<Bus<F>>)
  {
    forall i :: 0 <= i < |rs| ==> Consistent(rs[i])
  }

  /** The IDs that `addBus` hands out: slot i holds route BaseId + i. */
  predicate SequentialIds<F>(rs: seq<Bus<F>>)
  {
    forall i :: 0 <= i < |rs| ==> rs[i].id == BaseId + i
  }

  /** Two records describe the same route apart from its seats and counter. */
  ghost predicate SameRoute<F>(a: Bus<F>, b: Bus<F>)
  {
    a.id == b.id && a.name == b.name && a.source == b.source
    && a.destination == b.destination && a.fare == b.fare
  }

  /** The index `getBusIndex` finds: the least slot holding `id`, or -1
      when no slot does. */
  function IndexOf<F>(rs: seq<Bus<F>>, id: int): (r: int)
    ensures -1 <= r < |rs|
    ensures 0 <= r ==> rs[r].id == id && forall j :: 0 <= j < r ==> rs[j].id != id
    ensures r == -1 <==> forall j :: 0 <= j < |rs| ==> rs[j].id != id
  {
    if rs == [] then -1
    else if rs[0].id == id then 0
    else
      var k := IndexOf(rs[1..], id);
      assert forall j :: 1 <= j < |rs| ==> rs[j] == rs[1..][j - 1];
      if k == -1 then -1 else k + 1
  }

  /** A lookup depends on the IDs alone: seat and counter changes never move
      a route. */
  lemma IndexOfSameIds<F>(rs: seq<Bus<F>>, rs': seq<Bus<F>>, id: int)
    requires |rs| == |rs'|
    requires forall j :: 0 <= j < |rs| ==> rs[j].id == rs'[j].id
    ensures IndexOf(rs, id) == IndexOf(rs', id)
  {
  }

  /** With the IDs `addBus` assigns, route BaseId + i is found in slot i and
      every other ID (one from before a reset included) is not found. */
  lemma IndexOfSequential<F>(rs: seq<Bus<F>>, id: int)
    requires SequentialIds(rs)
    ensures IndexOf(rs, id) == if BaseId <= id < BaseId + |rs| then id - BaseId else -1
  {
    if BaseId <= id < BaseId + |rs| {
      assert rs[id - BaseId].id == id;
    }
  }

  /** The record `addBus` builds: every seat empty, the counter at capacity. */
  function NewRoute<F>(id: int, name: string, source: string, destination: string, fare: F): Bus<F>
  {
    Bus(id, name, source, destination, fare, EmptyRow(), MaxSeats)
  }

  /** The effect of `addBus` on the registry and the ID it reports. */
  function AddStep<F>(rs: seq<Bus<F>>, name: string, source: string, destination: string, fare: F)
    : (out: (Result<int>, seq<Bus<F>>))
    ensures |rs| >= MaxBuses ==> out == (Err(MemoryFull), rs)
    ensures |rs| < MaxBuses ==>
      && out.0 == Ok(BaseId + |rs|)
      && |out.1| == |rs| + 1 && out.1[..|rs|] == rs
      && var b := out.1[|rs|];
         b.id == BaseId + |rs| && b.name == name && b.source == source
         && b.destination == destination && b.fare == fare
         && b.available == MaxSeats && |b.seats| == MaxSeats
         && forall k :: 0 <= k < MaxSeats ==> b.seats[k] == Empty
  {
    if |rs| >= MaxBuses then (Err(MemoryFull), rs)
    else (Ok(BaseId + |rs|), rs + [NewRoute(BaseId + |rs|, name, source, destination, fare)])
  }

  /** Adding keeps every route consistent and the IDs sequential. */
  lemma AddPreserves<F>(rs: seq<Bus<F>>, name: string, source: string, destination: string, fare: F)
    ensures AllConsistent(rs) ==> AllConsistent(AddStep(rs, name, source, destination, fare).1)
    ensures SequentialIds(rs) ==> SequentialIds(AddStep(rs, name, source, destination, fare).1)
  {
  }
}
