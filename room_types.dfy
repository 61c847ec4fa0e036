/** Entities and value objects of the room service: what is persisted, what callers send in,
    what the service hands back, and how it fails. */
module RoomTypes {

  /** Identifiers are generated by the store (strings in the persisted schema). */
  type RoomId = string
  type UserId = string

  /** The user-card configuration is stored and returned as an uninterpreted JSON value. */
  datatype Json =
    | JNull
    | JBool(b: bool)
    | JNumber(n: int)
    | JString(s: string)
    | JArray(items: seq<Json>)
    | JObject(fields: map<string, Json>)

  /** Input of room creation: the room's fields plus the host's nickname. */
  datatype CreateRoomDto = CreateRoomDto(name: string, ballTime: int, userCards: Json, nickname: string)

  /** Input of user creation, as room creation builds it for the host. */
  datatype CreateUserDto = CreateUserDto(nickname: string, roomId: RoomId)

  /** A row of the room table. */
  datatype RoomRecord = RoomRecord(
    id: RoomId,
    name: string,
    drawnNumbers: seq<int>,
    status: bool,
    ballTime: int,
    userCards: Json)

  /** A row of the user table; a user belongs to one room through `roomId`. */
  datatype User = User(id: UserId, nickname: string, score: int, roomId: RoomId)

  /** The fields of a user that the room queries select. */
  datatype UserView = UserView(id: UserId, nickname: string, score: int)

  /** A room as the service returns it: every room field except the draw order, with its users
      (whole users after creation, projected users from the queries). */
  datatype RoomView<U> = RoomView(
    id: RoomId,
    name: string,
    status: bool,
    ballTime: int,
    userCards: Json,
    users: seq<U>)

  /** NotFound carries the client-facing message; ServerError is what the server-error translator
      raises for a caught store failure; StoreFailure is a store failure that reaches the caller
      untranslated. */
  datatype Error = NotFound(message: string) | ServerError | StoreFailure

  datatype Result<T> = Ok(value: T) | Err(error: Error)

  datatype Outcome = Pass | Fail(error: Error)

  /** What the user-management collaborator decides when asked to create a user: the id and the
      starting score the store assigns, or the error it raises. */
  datatype UserCreation = Created(id: UserId, score: int) | CreateFailed(error: Error)
}
