/** The room service: room creation as a state change of the database it holds, with the draw
    order generated on the way. The service's reads are the functions of RoomStore applied to
    `Store()`. */
module Service {
  import opened RoomTypes
  import DrawOrder
  import opened RoomStore

  class RoomService {
    /** The room table, the order in which it lists its rows, and the user table. */
    var rooms: map<RoomId, RoomRecord>
    var roomOrder: seq<RoomId>
    var users: seq<User>

    function Store(): Store
      reads this
    {
      RoomStore.Store(rooms, roomOrder, users)
    }

    ghost predicate Valid()
      reads this
    {
      RoomStore.Valid(Store())
    }

    constructor ()
      ensures Valid() && Store() == Empty
    {
      rooms, roomOrder, users := map[], [], [];
    }

    /** The user-management collaborator, whose own logic is not part of this model: `creation`
        is what it decides (the id and starting score the store assigns, or its error). On
        success the new user carries the nickname and room id it was asked for, and its row is
        added to the user table. */
    method CreateUser(dto: CreateUserDto, creation: UserCreation) returns (r: Result<User>)
      requires Valid() && dto.roomId in rooms
      modifies this
      ensures Valid()
      ensures creation.Created? ==>
        && r == Ok(User(creation.id, dto.nickname, creation.score, dto.roomId))
        && Store() == WithUser(old(Store()), r.value)
      ensures creation.CreateFailed? ==> r == Err(creation.error) && Store() == old(Store())
    {
      match creation
      case CreateFailed(e) =>
        r := Err(e);
      case Created(id, score) =>
        var u := User(id, dto.nickname, score, dto.roomId);
        ghost var after := WithUser(Store(), u);
        WithUserValid(Store(), u);
        users := users + [u];
        assert Store() == after;
        r := Ok(u);
    }

    /** Creates a room with a fresh draw order and status true, then its host user.
        `samples` and `resolution` are the random values the draw consumes; `newRoomId` is the
        id the store assigns; `reachable` says whether the store accepts the insert; `host` is
        what the user-management collaborator does with the host. An insert that fails (store
        unreachable, or the id already taken) is a server error and changes nothing. A host
        creation that fails leaves the new room in place, without users. */
    method CreateRoomAndUserHost(
      dto: CreateRoomDto, samples: seq<nat>, resolution: nat,
      newRoomId: RoomId, reachable: bool, host: UserCreation)
      returns (r: Result<RoomView<User>>)
      requires Valid()
      requires DrawOrder.ValidSamples(samples, resolution) && DrawOrder.CoversAllBalls(samples, resolution)
      modifies this
      ensures Valid()
      ensures !reachable || newRoomId in old(rooms) ==> r == Err(ServerError) && Store() == old(Store())
      ensures reachable && newRoomId !in old(rooms) ==>
        && newRoomId in rooms
        && rooms[newRoomId] == NewRoomRecord(newRoomId, dto, rooms[newRoomId].drawnNumbers)
        && rooms[newRoomId].drawnNumbers == DrawOrder.Recorded(DrawOrder.Balls(samples, resolution))
        && DrawOrder.IsDrawOrder(rooms[newRoomId].drawnNumbers)
      ensures reachable && newRoomId !in old(rooms) && host.Created? ==>
        && r == Ok(RoomView(newRoomId, dto.name, true, dto.ballTime, dto.userCards,
                            [User(host.id, dto.nickname, host.score, newRoomId)]))
        && Store() == WithUser(WithRoom(old(Store()), rooms[newRoomId]), r.value.users[0])
        && FindSingleRoom(Store(), true, newRoomId)
           == Ok(RoomView(newRoomId, dto.name, true, dto.ballTime, dto.userCards,
                          [UserView(host.id, dto.nickname, host.score)]))
      ensures reachable && newRoomId !in old(rooms) && host.CreateFailed? ==>
        && r == Err(host.error)
        && Store() == WithRoom(old(Store()), rooms[newRoomId])
    {
      ghost var before := Store();
      var drawn;
      ghost var used;
      drawn, used := DrawOrder.CreateAllNumbersDrawn(samples, resolution);
      if !reachable || newRoomId in rooms {
        return Err(ServerError);
      }
      var room := NewRoomRecord(newRoomId, dto, drawn);
      WithRoomValid(Store(), room);
      ghost var inserted := WithRoom(before, room);
      rooms, roomOrder := rooms[newRoomId := room], roomOrder + [newRoomId];
      assert Store() == inserted;
      var user := CreateUser(CreateUserDto(dto.nickname, newRoomId), host);
      match user
      case Err(e) =>
        r := Err(e);
      case Ok(u) =>
        CreatedRoomIsFound(before, room, u);
        r := Ok(RoomView(newRoomId, room.name, room.status, room.ballTime, room.userCards, [u]));
    }
  }
}
