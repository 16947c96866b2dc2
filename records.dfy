/**
 * The values the chat server passes around: user records from the account
 * directory, client sessions, chat messages as clients see them, rows of the
 * message store, and the events the server emits.
 */
module Records {

  import opened Wrappers

  /** The transport's identifier of one connection (`socket.id`). */
  type SocketId = string

  /** A user record as the directory returns it; only the fields the server reads. */
  datatype User = User(uname: string, role: string)

  /** One live connection: its socket, the room it joined and its user, if identified. */
  datatype Client = Client(socketId: SocketId, room: string, user: Option<User>)

  /** The `{uname, role}` snapshot a message carries of its author. */
  datatype Author = Author(uname: string, role: string)

  /**
   * A message id: the random draw `insertMessage` makes for a live message,
   * or the store's row id for a message loaded from the store.
   */
  datatype MessageId = RandomId(draw: nat) | RowId(row: int)

  /** A message as it sits in a room's history; `createdAt` only for loaded ones. */
  datatype Message = Message(id: MessageId, user: Author, text: string, createdAt: Option<int>)

  /** A row of the store's chat message table. */
  datatype Row = Row(id: int, uname: string, role: string, text: string, roomName: string, createdAt: int)

  /** What the store's `insertChatMessage` is called with. */
  datatype StoreWrite = StoreWrite(uname: string, role: string, text: string, roomName: string)

  /**
   * The events the server sends. `UserJoined` and `UserLeft` go to a room,
   * to every socket in it except `except` (`socket.to(room).emit(...)`).
   */
  datatype Emit =
    | ClientError(to: SocketId, message: string)
    | UserJoined(room: string, except: SocketId, user: User)
    | UserLeft(room: string, except: SocketId, user: User)

  /** The shape clients expect of a stored message. */
  function PresentRow(row: Row): (m: Message) {
    Message(RowId(row.id), Author(row.uname, row.role), row.text, Some(row.createdAt))
  }

  /** `messages.map(...)`: every row presented, in the order the store returned them. */
  function PresentRows(rows: seq<Row>): (ms: seq<Message>)
    ensures |ms| == |rows|
    ensures forall i :: 0 <= i < |rows| ==>
              ms[i].id == RowId(rows[i].id) && ms[i].text == rows[i].text &&
              ms[i].user == Author(rows[i].uname, rows[i].role) &&
              ms[i].createdAt == Some(rows[i].createdAt)
    decreases |rows|
  {
    if rows == [] then [] else [PresentRow(rows[0])] + PresentRows(rows[1..])
  }
}
