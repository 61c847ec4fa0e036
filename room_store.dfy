/** The persisted state the room service reads and writes, the reads it performs on it, and the
    two writes of room creation. The store stands in for the relational database: a room table
    keyed by id (with the order in which listing returns its rows) and a user table whose rows
    point back to their room. */
module RoomStore {
  import opened RoomTypes
  import DrawOrder

  datatype Store = Store(rooms: map<RoomId, RoomRecord>, order: seq<RoomId>, users: seq<User>)

  /** The empty database. */
  const Empty: Store := Store(map[], [], [])

  /** Consistency of the tables: listing order names every room once, each row carries its own
      key, every room's drawn numbers are a draw order, and every user belongs to a stored room. */
  ghost predicate Valid(s: Store) {
    && (forall i, j :: 0 <= i < j < |s.order| ==> s.order[i] != s.order[j])
    && (forall id :: id in s.order <==> id in s.rooms)
    && (forall id :: id in s.rooms ==> s.rooms[id].id == id && DrawOrder.IsDrawOrder(s.rooms[id].drawnNumbers))
    && (forall k :: 0 <= k < |s.users| ==> s.users[k].roomId in s.rooms)
  }

  /** The client-facing message of a missing room. */
  function NotFoundMessage(roomId: RoomId): (m: string)
    ensures |m| == 13 + |roomId| + 10 && m[13..13 + |roomId|] == roomId
  {
    "Room with ID " + roomId + " not found"
  }

  // ---------------------------------------------------------------------------------------------
  // Reads

  /** The fields of a user the room queries select. */
  function Project(u: User): UserView {
    UserView(u.id, u.nickname, u.score)
  }

  /** The positions of one room's rows in the user table. */
  function RowsOf(users: seq<User>, roomId: RoomId): set<int> {
    set k | 0 <= k < |users| && users[k].roomId == roomId
  }

  /** The last row of the user table joins its room's positions, and no other room's. */
  lemma RowsOfLast(users: seq<User>, roomId: RoomId)
    requires users != []
    ensures var n := |users| - 1;
      |RowsOf(users, roomId)| == |RowsOf(users[..n], roomId)| + (if users[n].roomId == roomId then 1 else 0)
  {
    var n := |users| - 1;
    var before, last := RowsOf(users[..n], roomId), if users[n].roomId == roomId then {n} else {};
    forall k ensures k in RowsOf(users, roomId) <==> k in before + last {
      if 0 <= k < n {
        assert users[..n][k] == users[k];
      }
    }
    assert RowsOf(users, roomId) == before + last;
    assert before * last == {};
  }

  /** The users of one room, in table order, as the room queries select them: one entry per
      row of that room, each the projection of such a row. */
  function UsersOf(users: seq<User>, roomId: RoomId): (r: seq<UserView>)
    ensures |r| == |RowsOf(users, roomId)|
    ensures |r| <= |users|
    ensures forall k :: 0 <= k < |users| && users[k].roomId == roomId ==> Project(users[k]) in r
    ensures forall v :: v in r ==> exists k :: 0 <= k < |users| && users[k].roomId == roomId && v == Project(users[k])
  {
    if users == [] then []
    else
      var rest := UsersOf(users[..|users| - 1], roomId);
      var last := users[|users| - 1];
      assert forall k :: 0 <= k < |users| - 1 ==> users[..|users| - 1][k] == users[k];
      RowsOfLast(users, roomId);
      if last.roomId == roomId then rest + [Project(last)] else rest
  }

  /** A stored room as the queries return it: its fields except the draw order, and one
      projected entry per user row of the room. */
  function ViewOf(s: Store, roomId: RoomId): (v: RoomView<UserView>)
    requires roomId in s.rooms
    ensures var room := s.rooms[roomId];
      && v.id == room.id && v.name == room.name && v.status == room.status
      && v.ballTime == room.ballTime && v.userCards == room.userCards
    ensures |v.users| == |RowsOf(s.users, roomId)|
    ensures forall k :: 0 <= k < |s.users| && s.users[k].roomId == roomId ==> Project(s.users[k]) in v.users
  {
    var r := s.rooms[roomId];
    RoomView(r.id, r.name, r.status, r.ballTime, r.userCards, UsersOf(s.users, roomId))
  }

  /** Looks the room up; a store failure is translated into a server error, a missing room is
      NotFound with the id in its message. */
  function CheckIfThereIsARoom(s: Store, reachable: bool, roomId: RoomId): (o: Outcome)
    ensures o == Pass <==> reachable && roomId in s.rooms
    ensures !reachable ==> o == Fail(ServerError)
    ensures reachable && roomId !in s.rooms ==> o.Fail? && o.error.NotFound? && o.error.message == NotFoundMessage(roomId)
  {
    if !reachable then Fail(ServerError)
    else if roomId !in s.rooms then Fail(NotFound(NotFoundMessage(roomId)))
    else Pass
  }

  /** The existence check, then the room with its users projected to id, nickname and score. */
  function FindSingleRoom(s: Store, reachable: bool, roomId: RoomId): (r: Result<RoomView<UserView>>)
    requires Valid(s)
    ensures r.Ok? <==> reachable && roomId in s.rooms
    ensures r.Err? ==> Fail(r.error) == CheckIfThereIsARoom(s, reachable, roomId)
    ensures r.Ok? ==> var room := s.rooms[roomId];
      && r.value.id == roomId && r.value.name == room.name && r.value.status == room.status
      && r.value.ballTime == room.ballTime && r.value.userCards == room.userCards
      && r.value.users == UsersOf(s.users, roomId)
  {
    match CheckIfThereIsARoom(s, reachable, roomId)
    case Fail(e) => Err(e)
    case Pass => Ok(ViewOf(s, roomId))
  }

  /** Every room, in listing order, with its users projected. This query has no server-error
      translation: a store failure reaches the caller as it is. */
  function FindAllRooms(s: Store, reachable: bool): (r: Result<seq<RoomView<UserView>>>)
    requires Valid(s)
    ensures !reachable <==> r == Err(StoreFailure)
    ensures r.Ok? ==> |r.value| == |s.order|
    ensures r.Ok? ==> forall k :: 0 <= k < |r.value| ==> r.value[k] == ViewOf(s, s.order[k])
  {
    if !reachable then Err(StoreFailure)
    else Ok(seq(|s.order|, k requires 0 <= k < |s.order| => ViewOf(s, s.order[k])))
  }

  // ---------------------------------------------------------------------------------------------
  // Writes

  /** The room row that creation inserts: status true, the generated draw order, and the
      caller's name, ball time and user cards. */
  function NewRoomRecord(id: RoomId, dto: CreateRoomDto, drawn: seq<int>): (r: RoomRecord)
    ensures r.id == id && r.status && r.drawnNumbers == drawn
    ensures r.name == dto.name && r.ballTime == dto.ballTime && r.userCards == dto.userCards
  {
    RoomRecord(id, dto.name, drawn, true, dto.ballTime, dto.userCards)
  }

  /** Inserting a room row: the room is stored under its id and listed last; every other room
      and every user row stay as they were. */
  function WithRoom(s: Store, room: RoomRecord): (t: Store)
    ensures t.rooms.Keys == s.rooms.Keys + {room.id} && t.rooms[room.id] == room
    ensures forall id :: id in s.rooms && id != room.id ==> t.rooms[id] == s.rooms[id]
    ensures t.order == s.order + [room.id] && t.users == s.users
  {
    Store(s.rooms[room.id := room], s.order + [room.id], s.users)
  }

  /** Inserting a user row: the rooms stay as they were, the new user ends its own room's user
      list, and every other room's list is unchanged. */
  function WithUser(s: Store, u: User): (t: Store)
    ensures t.rooms == s.rooms && t.order == s.order
    ensures UsersOf(t.users, u.roomId) == UsersOf(s.users, u.roomId) + [Project(u)]
    ensures forall id :: id != u.roomId ==> UsersOf(t.users, id) == UsersOf(s.users, id)
  {
    assert forall id :: (UsersOf(s.users + [u], id)
      == if u.roomId == id then UsersOf(s.users, id) + [Project(u)] else UsersOf(s.users, id)) by {
      forall id {
        UsersOfWithUser(s.users, u, id);
      }
    }
    Store(s.rooms, s.order, s.users + [u])
  }

  /** Inserting a room under a fresh id whose drawn numbers are a draw order keeps the store
      consistent, and leaves the new room without users. */
  lemma WithRoomValid(s: Store, room: RoomRecord)
    requires Valid(s) && room.id !in s.rooms && DrawOrder.IsDrawOrder(room.drawnNumbers)
    ensures Valid(WithRoom(s, room))
    ensures UsersOf(s.users, room.id) == []
  {
    var t := WithRoom(s, room);
    forall id ensures id in t.order <==> id in t.rooms {
      assert id in t.order <==> id in s.order || id == room.id;
    }
    NoUsersOfMissingRoom(s.users, room.id);
  }

  lemma {:induction false} NoUsersOfMissingRoom(users: seq<User>, roomId: RoomId)
    requires forall k :: 0 <= k < |users| ==> users[k].roomId != roomId
    ensures UsersOf(users, roomId) == []
  {
    if users != [] {
      NoUsersOfMissingRoom(users[..|users| - 1], roomId);
    }
  }

  /** Inserting a user of a stored room keeps the store consistent. */
  lemma WithUserValid(s: Store, u: User)
    requires Valid(s) && u.roomId in s.rooms
    ensures Valid(WithUser(s, u))
  {
  }

  /** A new user row joins the end of its own room's user list and leaves every other room's
      list as it was. */
  lemma UsersOfWithUser(users: seq<User>, u: User, roomId: RoomId)
    ensures UsersOf(users + [u], roomId)
         == if u.roomId == roomId then UsersOf(users, roomId) + [Project(u)] else UsersOf(users, roomId)
  {
  }

  // ---------------------------------------------------------------------------------------------
  // Properties of the reads

  /** The listing order names each stored room exactly once, so the listing has one entry per
      room. */
  lemma {:induction false} OrderCoversRooms(order: seq<RoomId>, rooms: set<RoomId>)
    requires forall i, j :: 0 <= i < j < |order| ==> order[i] != order[j]
    requires forall id :: id in order <==> id in rooms
    ensures |order| == |rooms|
    decreases |order|
  {
    if order != [] {
      var last := order[|order| - 1];
      var init := order[..|order| - 1];
      forall id ensures id in init <==> id in rooms - {last} {
        if id in init {
          var k :| 0 <= k < |init| && init[k] == id;
          assert order[k] == id;
        }
        if id in rooms - {last} {
          assert id in order;
          var k :| 0 <= k < |order| && order[k] == id;
          assert k != |order| - 1;
          assert init[k] == id;
        }
      }
      OrderCoversRooms(init, rooms - {last});
    }
  }

  /** Listing returns one entry per stored room, and every stored room appears in it. */
  lemma FindAllListsEveryRoom(s: Store)
    requires Valid(s)
    ensures FindAllRooms(s, true).Ok?
    ensures |FindAllRooms(s, true).value| == |s.rooms|
    ensures forall id :: id in s.rooms <==> exists k :: 0 <= k < |s.order| && FindAllRooms(s, true).value[k].id == id
  {
    OrderCoversRooms(s.order, s.rooms.Keys);
    var all := FindAllRooms(s, true).value;
    forall id ensures id in s.rooms <==> exists k :: 0 <= k < |s.order| && all[k].id == id {
      if id in s.rooms {
        var k :| 0 <= k < |s.order| && s.order[k] == id;
        assert all[k].id == id;
      }
    }
  }

  /** Each entry of the listing is what the single-room query returns for that entry's id. */
  lemma FindAllMatchesFindSingle(s: Store, k: nat)
    requires Valid(s) && k < |s.order|
    ensures FindAllRooms(s, true).Ok? && k < |FindAllRooms(s, true).value|
    ensures FindSingleRoom(s, true, FindAllRooms(s, true).value[k].id) == Ok(FindAllRooms(s, true).value[k])
  {
  }

  /** The room just created, with its host, is found with exactly that host as its only user. */
  lemma CreatedRoomIsFound(s: Store, room: RoomRecord, host: User)
    requires Valid(s) && room.id !in s.rooms && DrawOrder.IsDrawOrder(room.drawnNumbers)
    requires host.roomId == room.id
    ensures Valid(WithUser(WithRoom(s, room), host))
    ensures FindSingleRoom(WithUser(WithRoom(s, room), host), true, room.id)
         == Ok(RoomView(room.id, room.name, room.status, room.ballTime, room.userCards, [Project(host)]))
  {
    var t := WithRoom(s, room);
    WithRoomValid(s, room);
    WithUserValid(t, host);
    var u := WithUser(t, host);
    UsersOfWithUser(s.users, host, room.id);
    assert UsersOf(u.users, room.id) == [Project(host)];
    assert ViewOf(u, room.id) == RoomView(room.id, room.name, room.status, room.ballTime, room.userCards, [Project(host)]);
  }

  /** Creating a room and its host changes what the single-room query returns for no other id. */
  lemma CreationLeavesOtherRooms(s: Store, room: RoomRecord, host: User, other: RoomId, reachable: bool)
    requires Valid(s) && room.id !in s.rooms && DrawOrder.IsDrawOrder(room.drawnNumbers)
    requires host.roomId == room.id && other != room.id
    ensures Valid(WithUser(WithRoom(s, room), host))
    ensures FindSingleRoom(WithUser(WithRoom(s, room), host), reachable, other) == FindSingleRoom(s, reachable, other)
  {
    WithRoomValid(s, room);
    WithUserValid(WithRoom(s, room), host);
  }
}
