/** The seat matrix of one route: a fixed row of integer flags, 0 for an
    empty seat and 1 for a booked one, as the `seats` field of a `Bus`
    record holds them. */
module SeatMatrix {

  /** Seats per route (MAX_SEATS). */
  const MaxSeats: nat := 32

  /** The flag of an empty seat. */
  const Empty: int := 0

  /** The flag of a booked seat. */
  const Booked: int := 1

  /** Every flag is one of the two meaningful values. */
  predicate IsBinary(seats: seq<int>)
  {
    forall k :: 0 <= k < |seats| ==> seats[k] == Empty || seats[k] == Booked
  }

  /** The row of a newly added route. */
  function EmptyRow(): seq<int>
  {
    seq(MaxSeats, _ => Empty)
  }

  /** The seat-clearing loop of `addBus`: a full row of empty seats. */
  method ClearedRow() returns (seats: seq<int>)
    ensures |seats| == MaxSeats
    ensures forall k :: 0 <= k < MaxSeats ==> seats[k] == Empty
    ensures seats == EmptyRow()
  {
    seats := [];
    for k := 0 to MaxSeats
      invariant |seats| == k
      invariant forall j :: 0 <= j < k ==> seats[j] == Empty
    {
      seats := seats + [Empty];
    }
  }

  /** The number of empty seats: zero exactly when no seat is empty, the
      length of the row exactly when every seat is. */
  function CountEmpty(seats: seq<int>): (n: nat)
    ensures n <= |seats|
    ensures n == 0 <==> forall k :: 0 <= k < |seats| ==> seats[k] != Empty
    ensures n == |seats| <==> forall k :: 0 <= k < |seats| ==> seats[k] == Empty
  {
    if seats == [] then 0
    else
      var rest := CountEmpty(seats[1..]);
      assert forall k :: 1 <= k < |seats| ==> seats[k] == seats[1..][k - 1];
      (if seats[0] == Empty then 1 else 0) + rest
  }

  /** The number of booked seats. */
  function CountBooked(seats: seq<int>): (n: nat)
    ensures n <= |seats|
  {
    if seats == [] then 0
    else (if seats[0] == Booked then 1 else 0) + CountBooked(seats[1..])
  }

  /** In a row of 0/1 flags every seat is either empty or booked, so the
      two counts add up to the row's length. */
  lemma {:induction false} EmptyPlusBooked(seats: seq<int>)
    requires IsBinary(seats)
    ensures CountEmpty(seats) + CountBooked(seats) == |seats|
  {
    if seats != [] {
      assert IsBinary(seats[1..]) by {
        forall k | 0 <= k < |seats[1..]| ensures seats[1..][k] == Empty || seats[1..][k] == Booked {
          assert seats[1..][k] == seats[k + 1];
        }
      }
      EmptyPlusBooked(seats[1..]);
    }
  }

  /** Overwriting one flag changes the empty count by what was lost at that
      position and what was written there, and by nothing else. */
  lemma {:induction false} CountEmptyUpdate(seats: seq<int>, k: int, v: int)
    requires 0 <= k < |seats|
    ensures CountEmpty(seats[k := v])
         == CountEmpty(seats) - (if seats[k] == Empty then 1 else 0) + (if v == Empty then 1 else 0)
  {
    if k == 0 {
      assert seats[k := v][1..] == seats[1..];
    } else {
      assert seats[k := v][1..] == seats[1..][k - 1 := v];
      CountEmptyUpdate(seats[1..], k - 1, v);
    }
  }
}
