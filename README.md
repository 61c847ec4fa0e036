# Bingo room service — Dafny model

This project models the room service of a small multiplayer bingo backend
(`src/room/room.service.ts`). The service does four things:

- It creates a room. The room is active (`status = true`) and stores the full order in which
  the balls 1..75 will be called. It then creates the room's host user.
- It lists every room with its users.
- It checks that a room exists.
- It fetches one room with its users.

The draw order comes from a rejection-sampling loop. The loop draws a random ball in 1..75,
appends it when the list does not hold it yet, and stops once the list holds 75 balls.

Files:

- `room_types.dfy` (module `RoomTypes`): the persisted rows (`RoomRecord`, `User`), the inputs
  (`CreateRoomDto`, `CreateUserDto`), the returned shapes (`RoomView`, `UserView`) and the
  errors (`NotFound`, `ServerError`, `StoreFailure`).
- `draw_order.dfy` (module `DrawOrder`): the random draw of one ball and the generator loop. It
  also holds the reference definition `Recorded` (a draw is kept when it is new and dropped
  otherwise) and the counting lemmas. Together they show that the list is a permutation of
  1..75 and that it records the draws in the order they happened.
- `room_store.dfy` (module `RoomStore`): the database as a value. It has a room table (a map
  keyed by id, plus the order in which listing returns rooms) and a user table (a sequence of
  rows, each pointing back to its room). The reads are pure functions over it. The two writes
  of room creation are functions too, with lemmas about what they preserve.
- `room_service.dfy` (module `Service`): the class `RoomService`. It holds the tables as fields,
  and its room creation updates them in place.

Things the source takes from its environment become parameters:

- The random values. `Math.random()` is written `sample / resolution` with
  `sample < resolution`, so a ball is `sample * 75 / resolution + 1`, which is
  `floor(x * (76 - 1)) + 1`.
- The id the store assigns to a new room.
- Whether the store is reachable.
- What the user-management collaborator does when asked to create the host.

The generator loop is driven by a finite run of random values, and the model requires every
ball to come up somewhere in that run. Those are exactly the runs on which the source's loop
ends. The model proves that the loop never runs out of values before its list is full.

Two details of the code that the model keeps:

- `findAllRooms` has no `.catch(serverError)`. A store failure there reaches the caller
  untranslated (`StoreFailure`), unlike the other store calls (`ServerError`).
- The result of room creation does not include `drawnNumbers`. Its host user is the whole user
  row returned by the collaborator, not the `{id, nickname, score}` projection of the queries.

## Model

| member | source | states |
|---|---|---|
| `DrawOrder.Ball` | src/room/room.service.ts:66 | a draw is a ball in 1..75, and it is the b whose slice [(b-1)/75, b/75) of [0, 1) holds the random value (the floor) |
| `DrawOrder.CreateAllNumbersDrawn` | src/room/room.service.ts:62-73 | the returned list has exactly 75 entries, each in 1..75, none repeated, and it is a permutation of 1..75 (multiset equal to {1..75}); it is the list of first occurrences of the draws consumed, which is also the recorded list of the whole run of draws, and the loop consumed no draw after the list became full |
| `DrawOrder.Recorded` | src/room/room.service.ts:65-69 | the reference definition of the loop (append a draw only when it is not included); the list is never longer than the run of draws, and the first draw is always the first ball called |
| `DrawOrder.RecordedDistinct` | src/room/room.service.ts:67-69 | the list built by "append only if not included" never holds a number twice, and holds exactly the numbers drawn so far |
| `DrawOrder.RecordedExtends` | src/room/room.service.ts:67-68 | later draws never alter or reorder the entries already in the list; the list after more draws extends the earlier list |
| `DrawOrder.RecordedStep` | src/room/room.service.ts:67-69 | the definition of `Recorded` unfolded at a prefix of the run, used by the loop invariant: one iteration either leaves the list unchanged (the draw is already in it) or appends that draw at the end |
| `DrawOrder.FullListSettles` | src/room/room.service.ts:65-72 | once the list holds 75 balls, no later draw changes it, so the returned list is the recorded list of the whole run of draws |
| `DrawOrder.EarlierNotFull` | src/room/room.service.ts:65-69 | the list only grows, so if it still had room after n draws it had room after every earlier draw: the loop stopped at the first moment it was full |
| `DrawOrder.DistinctBallsBound` | src/room/room.service.ts:65-70 | a repetition-free list of balls never exceeds 75 entries, so the loop ends with exactly 75 |
| `DrawOrder.DrawsRemain` | src/room/room.service.ts:65-70 | while the list holds fewer than 75 balls, a run in which every ball comes up still has draws left: the loop cannot get stuck |
| `DrawOrder.AllBallsFillList` | src/room/room.service.ts:65 | a repetition-free list that holds every ball has at least 75 entries |
| `DrawOrder.ShortListMissesABall` | src/room/room.service.ts:65-69 | a repetition-free list shorter than 75 misses some ball in 1..75 |
| `DrawOrder.DrawOrderHasEveryBall` | src/room/room.service.ts:62-72 | 75 distinct balls in 1..75 include every ball 1..75 |
| `DrawOrder.DrawOrderIsPermutation` | src/room/room.service.ts:62-72 | a list is a draw order (75 entries, in range, distinct) if and only if it is a permutation of 1..75 |
| `RoomStore.CheckIfThereIsARoom` | src/room/room.service.ts:119-127 | passes exactly when the store is reachable and the id is stored; an unreachable store is a server error; a missing id is NotFound with the message built by `NotFoundMessage` |
| `RoomStore.NotFoundMessage` | src/room/room.service.ts:125 | the NotFound message carries the requested id, verbatim, after "Room with ID " |
| `RoomStore.UsersOf` | src/room/room.service.ts:105-111 | a room's users, projected: it has exactly one entry per user row of that room, every such row's id/nickname/score projection appears, and every entry is the projection of a row of that room |
| `RoomStore.RowsOfLast` | src/room/room.service.ts:105-111 | the last user row counts towards its own room's rows and no other room's |
| `RoomStore.ViewOf` | src/room/room.service.ts:77-90 | a stored room as both queries select it: id, name, status, ball time and user cards of the row, no draw order, and one projected entry per user row of the room |
| `RoomStore.FindSingleRoom` | src/room/room.service.ts:94-117 | succeeds exactly when the store is reachable and the room exists; an error is the existence check's error; a success is that room's id, name, status, ball time and user cards with its users projected |
| `RoomStore.FindAllRooms` | src/room/room.service.ts:75-92 | one entry per listed room, in listing order, each the room's fields with its users projected; an unreachable store is an untranslated store failure |
| `RoomStore.FindAllListsEveryRoom` | src/room/room.service.ts:75-92 | listing returns exactly one entry per stored room, and every stored room appears in it |
| `RoomStore.FindAllMatchesFindSingle` | src/room/room.service.ts:75-117 | each entry of the listing equals what the single-room query returns for that entry's id |
| `RoomStore.OrderCoversRooms` | src/room/room.service.ts:76 | a listing order that names each stored room once has as many entries as there are rooms |
| `RoomStore.NewRoomRecord` | src/room/room.service.ts:21-27 | the inserted row has status true, the generated draw order, and the caller's name, ball time and user cards |
| `RoomStore.WithRoom` | src/room/room.service.ts:29-41 | inserting a room stores it under its id and lists it last; every other room and every user row stay as they were |
| `RoomStore.WithUser` | src/room/room.service.ts:48 | inserting a user leaves the rooms as they were, puts the user at the end of its own room's user list, and leaves every other room's list unchanged |
| `RoomStore.WithRoomValid` | src/room/room.service.ts:21-41 | inserting a room with a fresh id and a draw order keeps the tables consistent, and the new room starts with no users |
| `RoomStore.NoUsersOfMissingRoom` | src/room/room.service.ts:43-46 | a room that no user row points to has no users |
| `RoomStore.WithUserValid` | src/room/room.service.ts:48 | inserting a user of a stored room keeps the tables consistent |
| `RoomStore.UsersOfWithUser` | src/room/room.service.ts:43-48 | a new user row joins the end of its own room's user list and leaves every other room's list unchanged |
| `RoomStore.CreatedRoomIsFound` | src/room/room.service.ts:18-60 | after a room and its host are inserted, the single-room query returns that room with exactly the host as its only user |
| `RoomStore.CreationLeavesOtherRooms` | src/room/room.service.ts:18-60 | creating a room and its host changes nothing the single-room query returns for any other id |
| `Service.RoomService.CreateUser` | src/room/room.service.ts:43-48 | the host is created with the dto's nickname and room id and added to the user table; a collaborator failure changes nothing |
| `Service.RoomService.CreateRoomAndUserHost` | src/room/room.service.ts:18-60 | a failed insert (store unreachable or id taken) is a server error and changes nothing; otherwise the room row has status true, the draw order the generator records from the given draws (a permutation of 1..75), and the dto's name, ball time and user cards; with a host, the result is the room's fields with exactly one user (dto nickname, new room id), and the single-room query then finds it; if the host fails, that error is returned and the room stays without users |

## Left out

- Uniform randomness of the draw order and the floating-point arithmetic of `Math.random()`. A random value is modelled as an exact fraction `sample / resolution`, and only the range and floor of a draw are kept.
- `DrawOrder.CreateAllNumbersDrawn`: a run of random values in which some ball never comes up makes the source loop forever. The model takes only runs in which every ball comes up, so it does not model non-termination.
- `UserService.createUser` and `serverError` are not part of this model. The user collaborator's outcome (assigned id, starting score, or error) is a parameter. `serverError` is modelled as the error value `ServerError`.
- Prisma query execution, field-selection mechanics and the connection are replaced by the value `RoomStore.Store`. A store failure is the parameter `reachable`, and the id the store assigns is a parameter.
- async/await and concurrent requests. Room creation is two sequential store updates (room, then host). Interleavings are not modelled, including a room deleted between the existence check and the fetch of `findSingleRoom`.
- The dependency-injection wiring of `src/app.module.ts` holds no logic.
- The user-card configuration is an uninterpreted JSON value, passed through unchanged.
