# Hotel room reservation: allocation and layout model

This Dafny project models the room-booking core of a small hotel reservation
system. The hotel has 97 rooms: floors 1 to 9 hold ten rooms each and floor 10
holds seven. Each room has a position, its distance from the lift (1 is
closest), and a status of either available or booked.

The model covers three parts of the system:

- **The booking service** (`RoomService`). A booking request for 1 to 5 rooms is
  validated against the number of available rooms. Rooms are then selected in
  two phases:
  - Same floor first: the first floor, in bucket iteration order, that has
    enough available rooms gives its rooms closest to the lift.
  - Greedy fallback: otherwise, the first rooms in (floor, position) order.

  The selected rooms are then marked booked in place. The service also offers a
  full reset and a random-occupancy fill.
- **The database seeder** (`DataSeeder`). It fills an empty store with the
  97-room layout.
- **The front-end generator** (`generateRooms`). It builds the same layout as
  plain entries.

Files:

- `room.dfy` (module `Rooms`): the room entity. Room number, floor and position
  are constants. The status is a mutable field, because the service updates
  rooms in place.
- `room_repository.dfy` (module `RoomStore`): the store. It holds the list of
  persisted rooms, supports `findByStatus`, and supports `save`, which appends
  a new room and does nothing for a room already stored.
- `room_order.dfy` (module `RoomOrder`): the two sort orders and a stable sort,
  with these facts about it:
  - its first k entries are the k smallest;
  - the sorted order is unique when keys are distinct.
- `allocator.dfy` (module `Allocator`): the same-floor phase, the greedy phase
  and their combination, with the selection policy proved about them.
- `booking.dfy` (module `Booking`): the service operations `BookRooms`,
  `RandomBooking` and `ResetAll`, with the response type.
- `layout.dfy` (module `Layout`): the layout in closed form (slot k to floor and
  position). It is the reference that both generators are proved against.
- `data_seeder.dfy` (module `Seeding`): the seed-only-if-empty guard and the
  seeding loops.
- `rooms_data.dfy` (module `RoomsData`): the front-end generator.

Two inputs that the code leaves open are parameters of the model:

- `floorOrder` is the order in which the same-floor phase visits floors. The
  source takes it from the key order of the `HashMap` that
  `Collectors.groupingBy` builds. The booking operation requires that it lists
  every floor of the store.
- `draws` gives the outcome of each random draw in `randomBooking`.

## Model

| member | source | states |
|---|---|---|
| `Rooms.Room.constructor` | backend/src/main/java/com/hotel/reservation/model/Room.java:13-30 | a room carries room number, floor, position and status exactly as given |
| `Rooms.WithStatus` | backend/src/main/java/com/hotel/reservation/service/RoomService.java:39 | `findByStatus` returns rooms of the store, each with the asked status, and every store room with that status is among them; no room more often than in the store |
| `Rooms.DistinctSub` | backend/src/main/java/com/hotel/reservation/service/RoomService.java:47-52 | any selection that draws from a list without repeats, taking no room more often than the list has it, has no repeats either |
| `RoomStore.RoomRepository.Save` | backend/src/main/java/com/hotel/reservation/config/DataSeeder.java:35 | saving appends a room the store does not hold, leaves the store as it is for a room it holds, and keeps every stored room distinct |
| `RoomOrder.Insert` | backend/src/main/java/com/hotel/reservation/service/RoomService.java:77 | inserting into a sorted list keeps it sorted and adds exactly that one room |
| `RoomOrder.Sort` | backend/src/main/java/com/hotel/reservation/service/RoomService.java:92-96 | the result is sorted in the requested order and is a permutation of the input |
| `RoomOrder.SortedPrefixSmallest` | backend/src/main/java/com/hotel/reservation/service/RoomService.java:98-99 | the first k rooms of a sorted permutation are sorted, drawn from the input, and no later than any input room that was not taken |
| `RoomOrder.SortedUnique` | backend/src/main/java/com/hotel/reservation/service/RoomService.java:92-96 | two sorted lists holding the same rooms are equal when no two rooms share a sort key |
| `RoomOrder.SortIgnoresInputOrder` | backend/src/main/java/com/hotel/reservation/service/RoomService.java:92-96 | with distinct keys, sorting gives the same list whatever order the input came in |
| `RoomOrder.DistinctKeysPermuted` | backend/src/main/java/com/hotel/reservation/service/RoomService.java:92-96 | distinct sort keys carry over to any selection or reordering of the rooms |
| `Allocator.FloorGroup` | backend/src/main/java/com/hotel/reservation/service/RoomService.java:69-70 | a floor bucket holds only rooms of that floor, all drawn from the available rooms |
| `Allocator.FloorGroupExact` | backend/src/main/java/com/hotel/reservation/service/RoomService.java:69-70 | a floor bucket holds every available room of that floor, as often as the input does, and nothing of other floors |
| `Allocator.FloorGroupPermuted` | backend/src/main/java/com/hotel/reservation/service/RoomService.java:69-70 | reordering the available rooms does not change which rooms a floor bucket holds |
| `Allocator.FloorGroupDistinctPositions` | backend/src/main/java/com/hotel/reservation/service/RoomService.java:77 | if (floor, position) pairs are distinct, positions within one floor bucket are distinct |
| `Allocator.TrySameFloorBooking` | backend/src/main/java/com/hotel/reservation/service/RoomService.java:67-84 | the same-floor phase returns either exactly `count` rooms or none, and only rooms from the available list |
| `Allocator.SameFloorHead` | backend/src/main/java/com/hotel/reservation/service/RoomService.java:74-79 | when the visited floor fits, the phase returns `count` rooms of that floor, in ascending position, no further from the lift than any of its rooms left free |
| `Allocator.SameFloorFindsIffFits` | backend/src/main/java/com/hotel/reservation/service/RoomService.java:73-83 | the same-floor phase comes back empty if and only if no visited floor has at least `count` available rooms |
| `Allocator.FirstFitFound` | backend/src/main/java/com/hotel/reservation/service/RoomService.java:73-83 | a non-empty same-floor result is what the phase returns from the first visited floor that fits |
| `Allocator.SameFloorPhase` | backend/src/main/java/com/hotel/reservation/service/RoomService.java:73-83 | the phase finds rooms if and only if some visited floor has at least `count` available rooms; it then books the closest rooms of the first such floor in visiting order |
| `Allocator.GreedyBooking` | backend/src/main/java/com/hotel/reservation/service/RoomService.java:90-100 | the fallback returns `min(count, available)` rooms in (floor, position) order, none later than any available room it leaves out |
| `Allocator.Allocate` | backend/src/main/java/com/hotel/reservation/service/RoomService.java:47-52 | the selection never holds a room that was not available, nor one more often than it was listed |
| `Allocator.AllocateSize` | backend/src/main/java/com/hotel/reservation/service/RoomService.java:47-52 | with at least `count` rooms available the selection has exactly `count` rooms, all available, with no room twice |
| `Allocator.AllocateSameFloor` | backend/src/main/java/com/hotel/reservation/service/RoomService.java:47-52 | if some floor has at least `count` available rooms, every selected room lies on one floor that has enough, and they are that floor's `count` closest rooms in ascending position |
| `Allocator.AllocateFallback` | backend/src/main/java/com/hotel/reservation/service/RoomService.java:47-52 | if no floor has `count` available rooms, the selection is exactly the greedy one: `count` rooms in (floor, position) order, none later than any available room left out |
| `Allocator.LowestFloorFirst` | backend/src/main/java/com/hotel/reservation/service/RoomService.java:73 | if floors are visited in ascending order, the same-floor phase picks the lowest floor that fits |
| `Allocator.SameFloorIgnoresListingOrder` | backend/src/main/java/com/hotel/reservation/service/RoomService.java:67-84 | with distinct (floor, position) pairs, the same-floor result does not depend on the order of the available list |
| `Allocator.AllocateIgnoresListingOrder` | backend/src/main/java/com/hotel/reservation/service/RoomService.java:39-52 | with distinct (floor, position) pairs, the selection does not depend on the order in which the store lists available rooms |
| `Booking.SelectionFromStore` | backend/src/main/java/com/hotel/reservation/service/RoomService.java:39-52 | a booking over a store without repeats selects `count` distinct stored rooms, each available |
| `Booking.WithStatusAll` | backend/src/main/java/com/hotel/reservation/service/RoomService.java:122-129 | once every room is available, the available rooms are the whole store |
| `Booking.RoomService.BookRooms` | backend/src/main/java/com/hotel/reservation/service/RoomService.java:32-62 | a count outside 1..5 fails and changes nothing; fewer available rooms than asked fails, reports the true available count and changes nothing; otherwise succeeds with the allocator's selection of exactly `count` distinct, formerly available rooms, which are booked, while every other room keeps its status |
| `Booking.RoomService.MarkBooked` | backend/src/main/java/com/hotel/reservation/service/RoomService.java:55-58 | exactly the given rooms become booked; every other room keeps its status; the store keeps its rooms |
| `Booking.RoomService.RandomBooking` | backend/src/main/java/com/hotel/reservation/service/RoomService.java:105-117 | every room's status is overwritten by its draw (booked or available), whatever it was; the store keeps its rooms |
| `Booking.RoomService.ResetAll` | backend/src/main/java/com/hotel/reservation/service/RoomService.java:122-129 | every room is available afterwards, so the available rooms are all rooms; the store keeps its rooms |
| `Layout.SlotIndex` | backend/src/main/java/com/hotel/reservation/config/DataSeeder.java:28-47 | every place of the hotel (floors 1 to 9 with positions 1 to 10, floor 10 with positions 1 to 7) is one of the 97 slots |
| `Layout.SlotIsPlace` | backend/src/main/java/com/hotel/reservation/config/DataSeeder.java:28-47 | every slot is a place of the hotel, and the slot-to-place map is a bijection |
| `Layout.SlotsOfFloor` | backend/src/main/java/com/hotel/reservation/config/DataSeeder.java:27-47 | each floor's rooms form one run of slots as long as its capacity: 10 on floors 1 to 9, 7 on floor 10 |
| `Layout.SlotsAscending` | backend/src/main/java/com/hotel/reservation/config/DataSeeder.java:28-47 | slots come in strictly ascending (floor, position) order and strictly ascending room number |
| `Seeding.SeededRoomsAscending` | backend/src/main/java/com/hotel/reservation/config/DataSeeder.java:28-47 | a store seeded from empty lists rooms in strictly ascending room number, with no two rooms at one (floor, position) |
| `Seeding.SeededPlacesDistinct` | backend/src/main/java/com/hotel/reservation/config/DataSeeder.java:28-47 | the seeded hotel meets the allocator's distinct (floor, position) assumption |
| `Seeding.DataSeeder.Run` | backend/src/main/java/com/hotel/reservation/config/DataSeeder.java:16-24 | an empty store receives exactly the 97 layout rooms, all new and available; a non-empty store is left untouched |
| `Seeding.DataSeeder.SeedRooms` | backend/src/main/java/com/hotel/reservation/config/DataSeeder.java:26-48 | appends 97 new rooms behind the existing ones; room k is at slot k's floor and position, has room number floor*100+position (1000+position on floor 10) and is available |
| `Seeding.DataSeeder.AddRoom` | backend/src/main/java/com/hotel/reservation/config/DataSeeder.java:30-35 | one new available room for the next slot is appended; earlier rooms stay as they were |
| `RoomsData.GenerateRooms` | src/data/roomsData.js:3-27 | returns 97 entries; entry k has slot k's floor, room number floor*100+i with i in 1..10 (1..7 on floor 10) and status available; room numbers strictly ascend |

## Left out

- Object identity stands for the generated primary key `id`. The id values and their assignment are not modelled.
- Persistence, `@Transactional` atomicity and concurrent bookings are not modelled. Each operation runs alone on the store.
- `RoomStore.RoomRepository.Save`: the unique `room_no` column (Room.java:19) is not modelled. `Save` accepts a new room whose number is already stored, where the database insert would fail. Only `Run` calls `SeedRooms`, and only on an empty store, so no duplicate number ever arises.
- `Rooms.WithStatus`: `findByStatus` returns rooms in an order the repository leaves unspecified. The model uses store order. `Allocator.AllocateIgnoresListingOrder` together with `Seeding.SeededPlacesDistinct` shows the order does not change the selection for the seeded hotel.
- `Booking.RoomService.RandomBooking`: `Math.random() < 0.3` is replaced by a given list of booleans, one per room. The 30% probability is not modelled.
- `Booking.RoomService.BookRooms`: the `HashMap` key order in the same-floor phase is replaced by the `floorOrder` parameter, which must list every floor of the store. For integer keys 1 to 10 Java's `HashMap` happens to iterate in ascending order, but the source does not promise this. Among several floors that fit, the same-floor phase takes the first in `HashMap` order, not necessarily the lowest. `Allocator.LowestFloorFirst` covers the ascending case, and it is a strengthening, not a guarantee of the source.
- Message texts are reduced to what they report: the out-of-range notice, the available count, or the booked count.
- `getAllRooms` (RoomService.java:23-25) passes the store's `findAll` straight through. The model reads the store's room list directly.
- Room number, floor and position are constants of a room. Only the seeder writes them, through setters, just after creating the room. The model folds those setter calls into the constructor.
- `Allocator.TrySameFloorBooking`, `Allocator.GreedyBooking`: the count is a natural number. A negative count would make `subList` throw in Java, but only 1 to 5 ever reaches these helpers.
- `RoomOrder.Sort`: it is stable, like Java's sorts, but stability is not stated as a contract. The order of rooms with equal keys is only pinned down when keys are distinct (`RoomOrder.SortedUnique`).
- `bookRooms` (RoomService.java:47-52) never checks whether the allocator returned fewer rooms than asked. `Allocator.AllocateSize` shows such a check could never fire.
- The console messages printed by `run` are not modelled.
- The HTTP controller, the DTO wrappers and the React components are not modelled. The controller's repeated 1..5 check is among them.
