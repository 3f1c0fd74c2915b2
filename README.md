# Bus reservation: route registry and seat booking

A Dafny model of the core of a console bus/train ticket reservation
program written in C (`bus_reservation.c`). The program keeps a fixed table
of 50 `Bus` records and a counter `bus_count`; each record has an ID, a
name, a source, a destination, a fare, a row of 32 seat flags (0 empty,
1 booked) and a cached `available_seats` counter. An administrator adds
routes (IDs 1001, 1002, … in order) or resets the table; a traveller books
or cancels one seat of a route found by its ID.

The model has four layers:

- `SeatMatrix` (`seat_matrix.dfy`): the seat row as a `seq<int>`, the count
  of empty and of booked seats, and the loop of `addBus` that clears a row.
- `Routes` (`routes.dfy`): the `Bus` record as a datatype (the fare is a
  type parameter `F`, since the program only stores and prints it), the
  error outcomes, the seat invariant (`Consistent`: 32 flags, each 0 or 1,
  counter equal to the number of zeros), the sequential-ID property, the
  lookup `IndexOf` and the effect of adding a route (`AddStep`).
- `Booking` (`booking.dfy`): the guard chains of booking and cancelling as
  functions `BookStep`/`CancelStep` from the records in use to an outcome
  and new records, with the lemmas that they preserve the invariant, are
  inverse to each other, and keep the counter in `0..32`.
- `Reservation` (`registry.dfy`): class `Registry`, the program's global
  state (`buses: array<Bus<F>>` of length 50 and `count`), with methods
  `Find`, `Add`, `Book`, `Cancel` and `Reset` that update the table in
  place. `Add`, `Book` and `Cancel` each equate their result and the
  records in use (`Contents() == buses[..count]`) with the step function
  applied to the old records, say which slots of the table did not change,
  and that the seat invariant and the sequential IDs are kept. `Find`
  returns `IndexOf` of the records in use. `Reset` may change only `count`;
  afterwards no records are in use and no ID is found.
- `Scenarios` (`scenarios.dfy`): two sessions worked through on the
  contracts.

Each error message of the program is one `Error` value: `MemoryFull`,
`NotFound`, `SoldOut`, `InvalidSeat`, `AlreadyBooked`, `NotBooked`. A C
`Bus` is a struct copied by value, so a record is a datatype value and
writing a seat of `buses[index]` replaces the record in that slot.

Details of the code that the model keeps:

- Booking checks the counter before it reads the seat number
  (bus_reservation.c:211-218), so a sold-out route answers `SoldOut` even
  for seat 0 or 33.
- Seat flags are plain `int`s. Booking refuses only a flag equal to 1 and
  cancelling refuses only a flag equal to 0, so a stored flag of another
  value is booked or cancelled like any other; the model keeps these exact
  tests and proves the invariant is preserved rather than assuming it.
- Reset only sets `bus_count` to 0; the old records stay in the table and
  are overwritten by later adds.

## Model

| member | source | states |
|---|---|---|
| `SeatMatrix.ClearedRow` | bus_reservation.c:138-140 | The seat-clearing loop yields exactly 32 flags, every one 0 (empty). |
| `SeatMatrix.CountEmpty` | bus_reservation.c:24-25 | The number of empty seats is at most the row length, is 0 exactly when no seat is empty and equals the row length exactly when every seat is empty. |
| `SeatMatrix.EmptyPlusBooked` | bus_reservation.c:24-25 | In a row of 0/1 flags the empty and booked counts add up to the number of seats. |
| `SeatMatrix.CountEmptyUpdate` | bus_reservation.c:228-229 | Overwriting one flag changes the empty count only by what was lost and what was written at that position. |
| `Routes.IndexOf` | bus_reservation.c:266-271 | The lookup returns the least slot whose ID matches, or -1 exactly when no slot in use matches. |
| `Routes.IndexOfSameIds` | bus_reservation.c:266-271 | The lookup depends only on the IDs, so seat and counter changes never move a route. |
| `Routes.IndexOfSequential` | bus_reservation.c:266-271 | With IDs assigned as 1001 + slot, ID 1001 + i is found at slot i and every other ID (a stale one from before a reset included) gives -1. |
| `Routes.AddStep` | bus_reservation.c:112-146 | On a full table (50 records) the outcome is `MemoryFull` and nothing changes; otherwise the ID 1001 + count is reported, one record is appended after the untouched old ones, with the given name, source, destination and fare, all 32 seats empty and counter 32. |
| `Routes.AddPreserves` | bus_reservation.c:137-143 | Adding keeps every record consistent (the new one has 32 zero flags and counter 32) and keeps the IDs sequential. |
| `Booking.BookStep` | bus_reservation.c:199-233 | Guards in order: unknown ID gives `NotFound`; counter 0 gives `SoldOut` whatever the seat; a seat outside 1..32 gives `InvalidSeat`; a flag of 1 gives `AlreadyBooked`; each outcome holds exactly when its guard is the first to fail, and every failure leaves all records unchanged. No outcome changes any route's ID. On success the fare of the route is returned, that seat becomes 1, the counter drops by 1, and every other seat, field and route is unchanged. |
| `Booking.CancelStep` | bus_reservation.c:235-262 | No sold-out guard: unknown ID gives `NotFound`, a seat outside 1..32 gives `InvalidSeat`, a flag of 0 gives `NotBooked`, each exactly when its guard is the first to fail, with no change. No outcome changes any route's ID. On success the fare is returned as the refund, that seat becomes 0, the counter rises by 1, and nothing else changes. |
| `Booking.BookPreserves` | bus_reservation.c:227-229 | Booking keeps every record consistent; after a successful booking the counter is in 0..31 and the seat is booked, so it never goes below 0. |
| `Booking.CancelPreserves` | bus_reservation.c:256-258 | Cancelling keeps every record consistent; after a successful cancellation the counter is in 1..32 and the seat is empty, so it never exceeds 32. |
| `Booking.SoldOutIffAllBooked` | bus_reservation.c:211-214 | On a consistent route the counter-only sold-out test holds exactly when every seat is booked. |
| `Booking.BookThenCancel` | bus_reservation.c:227-258 | On consistent records, cancelling the seat just booked refunds the charged fare and restores the records exactly. |
| `Booking.CancelThenBook` | bus_reservation.c:227-258 | On consistent records, booking the seat just cancelled charges the refunded fare and restores the records exactly. |
| `Booking.RunPreserves` | bus_reservation.c:161-166 | After any sequence of book and cancel requests, successful or not, every route is still consistent, keeps its ID, and its counter equals 32 minus its booked seats. |
| `Reservation.Registry.constructor` | bus_reservation.c:42-43 | The program starts with a 50-slot table and no routes in use. |
| `Reservation.Registry.Find` | bus_reservation.c:266-271 | The linear scan returns `IndexOf` of the records in use: the least matching slot below `count`, or -1. |
| `Reservation.Registry.Add` | bus_reservation.c:112-146 | Result and new records are `AddStep` of the old ones; no slot but `old(count)` changes; consistency and sequential IDs are kept. |
| `Reservation.Registry.Book` | bus_reservation.c:199-233 | Result and new records are `BookStep` of the old ones, with the seat and counter written in place; slots past `count` and `count` itself are unchanged; consistency and sequential IDs are kept. |
| `Reservation.Registry.Cancel` | bus_reservation.c:235-262 | Result and new records are `CancelStep` of the old ones, written in place; slots past `count` and `count` are unchanged; consistency and sequential IDs are kept. |
| `Reservation.Registry.Reset` | bus_reservation.c:101-105 | `count` becomes 0, the table itself is untouched, and every ID lookup then gives -1. |
| `Scenarios.BookTwiceThenCancel` | bus_reservation.c:199-262 | For any name, source, destination and fare, on an empty registry: add gives ID 1001 with 32 seats; booking seat 5 charges the fare and leaves 31; booking it again gives `AlreadyBooked` with no change; cancelling refunds the fare and restores the state after the add. |
| `Scenarios.ResetRestartsNumbering` | bus_reservation.c:101-119 | Two adds give IDs 1001 and 1002; after a reset the stale ID 1002 is not found and the next add gives 1001 again. |

## Left out

- Menus, the admin password check, `scanf`/`fgets` input, newline trimming and `clearInputBuffer`: interactive I/O. Their results (route ID, seat number, name, source, destination, fare) are the methods' parameters.
- Truncation of name, source and destination to 49 characters by `fgets` into 50-byte buffers: part of the input layer; the model stores the strings it is given.
- `viewAllBuses` and `showSeatMap`: output formatting only.
- `saveData` and `loadData`: whole-table file I/O with `fwrite`/`fread` of raw struct memory; there is no encoding logic to model. `loadData` trusts the stored count; the model takes `0 <= count <= 50` as part of the registry's invariant, and proves that the seat invariant is kept by every operation instead of assuming it of loaded data.
- The fare as a 4-byte float: the program never computes with it, so it is the opaque type parameter `F`.
- C `int` overflow of the counter: on consistent records the counter stays in 0..32; only records loaded from a corrupt file could drive it toward the `int` limits, and the model uses unbounded integers there.
- The process exit, `windows.h` and the save after each mutation (its success or failure does not affect the in-memory state).
