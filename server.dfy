/**
 * The chat server object: the `rooms`, `clients` and `users` maps as fields
 * that its methods update in place, and the emitted events and store writes
 * as logs. Each room's history is held as the sequence its ring buffer holds
 * (`History.Window` of everything pushed into it). Every method is proved to
 * move the abstract state `State()` exactly as the matching function of
 * `Session` does, so the lemmas of `Session` and `Presence` apply to it.
 */
module Chat {

  import opened Wrappers
  import opened Records
  import opened History
  import Session
  import Auth

  /**
   * A new room's history: a fresh `CBuffer` of capacity 250 into which the
   * presented messages are pushed in the order given; it holds their newest 250.
   */
  method NewHistory(messages: seq<Message>) returns (buffer: HistoryBuffer<Message>)
    ensures buffer.Valid() && fresh(buffer.Repr)
    ensures buffer.capacity == Session.HistoryCapacity
    ensures buffer.Contents == Window(messages, Session.HistoryCapacity)
  {
    buffer := new HistoryBuffer(Session.HistoryCapacity);
    buffer.PushAll(messages);
    assert [] + messages == messages;
  }

  class Server {
    var rooms: map<string, Session.RoomState>
    var clients: map<SocketId, Client>
    var users: map<string, User>
    var events: seq<Emit>
    var writes: seq<StoreWrite>

    /** Every client's room exists: admission creates the room before it registers the client. */
    ghost predicate Valid()
      reads this
    {
      forall id | id in clients :: clients[id].room in rooms
    }

    /** The server's state as a value. */
    ghost function State(): Session.ServerState
      reads this
    {
      Session.ServerState(rooms, clients, users, events, writes)
    }

    /** `new Server(httpServer)`: all three maps empty, nothing emitted or written. */
    constructor ()
      ensures Valid()
      ensures State() == Session.Initial
    {
      rooms, clients, users := map[], map[], map[];
      events, writes := [], [];
    }

    /**
     * `createOrFetchRoomByName`; `rows` is what the store returns for the
     * room, used only when the room is new.
     */
    method CreateOrFetchRoomByName(roomName: string, rows: seq<Row>) returns (room: Session.RoomState)
      requires Valid()
      modifies this
      ensures Valid()
      ensures State() == Session.FetchOrCreateRoom(old(State()), roomName, rows)
      ensures roomName in rooms && room == rooms[roomName]
    {
      if roomName in rooms {
        room := rooms[roomName];
        return;
      }
      var buffer := NewHistory(PresentRows(rows));
      var history := buffer.ToSeq();
      room := Session.RoomState(map[], map[], map[], history);
      rooms := rooms[roomName := room];
    }

    /** `addClient`: register the client, announcing its user if fresh, and build the init payload. */
    method AddClient(client: Client, rows: seq<Row>) returns (payload: Session.InitPayload)
      requires Valid()
      modifies this
      ensures Valid()
      ensures (State(), payload) == Session.AddClient(old(State()), client, rows)
    {
      var _ := CreateOrFetchRoomByName(client.room, rows);
      if client.user.Some? {
        var u := client.user.value;
        var user: User;
        if u.uname in users {
          user := users[u.uname];
          assert users[u.uname := user] == users;
        } else {
          user := u;
          var room := rooms[client.room];
          rooms := rooms[client.room := room.(users := room.users[u.uname := u])];
          events := events + [UserJoined(client.room, client.socketId, u)];
        }
        users := users[u.uname := user];
      }
      clients := clients[client.socketId := client];
      payload := Session.InitPayload(client.user, rooms[client.room]);
    }

    /** `removeSocket`: drop the client and, if it was its user's last session in its room, the user. */
    method RemoveSocket(id: SocketId)
      requires Valid()
      modifies this
      ensures Valid()
      ensures State() == Session.RemoveSocket(old(State()), id)
    {
      if id !in clients {
        return;
      }
      var client := clients[id];
      clients := clients - {id};
      if client.user.Some? {
        var u := client.user.value;
        var remaining := Session.AnyRemainingClient(clients, u.uname, client.room);
        if !remaining {
          users := users - {u.uname};
          var room := rooms[client.room];
          rooms := rooms[client.room := room.(users := room.users - {u.uname})];
          events := events + [UserLeft(client.room, id, u)];
        }
      }
    }

    /** `insertMessage`: hand the message to the store and push it into the room's history. */
    method InsertMessage(roomName: string, user: User, text: string, draw: nat) returns (message: Message)
      requires Valid() && roomName in rooms
      modifies this
      ensures Valid()
      ensures (State(), message) == Session.InsertMessage(old(State()), roomName, user, text, draw)
    {
      message := Message(RandomId(draw), Author(user.uname, user.role), text, None);
      writes := writes + [StoreWrite(user.uname, user.role, text, roomName)];
      var room := rooms[roomName];
      rooms := rooms[roomName := room.(history := Window(room.history + [message], Session.HistoryCapacity))];
    }

    /** `onAuth`, given the directory's answers and the store's rows for a room it may create. */
    method OnAuth(socket: SocketId, p: Auth.Payload, hasCallback: bool,
                  appLookup: Auth.AppLookup, tokenLookup: Auth.TokenLookup, rows: seq<Row>)
      returns (reply: Session.Reply)
      requires Valid()
      modifies this
      ensures Valid()
      ensures (State(), reply) == Session.OnAuth(old(State()), socket, p, hasCallback, appLookup, tokenLookup, rows)
    {
      var decision := Auth.Decide(p, hasCallback, appLookup, tokenLookup);
      match decision.verdict {
        case Rejected(message) =>
          events := events + [ClientError(socket, message)];
          reply := Session.NoReply;
        case Failed(code) =>
          reply := Session.ErrorReply(code);
        case Admitted(room, user) =>
          var payload := AddClient(Client(socket, room, user), rows);
          reply := Session.InitReply(payload);
      }
    }
  }
}
