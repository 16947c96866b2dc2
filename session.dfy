/**
 * The server's registries as values, and each server operation as a
 * function from the state before to the state after: fetch-or-create of a
 * room, admission of a client, teardown of a socket, appending a message
 * and the whole `auth` handshake. Emitted events and store writes are logs
 * in the state. The `Chat.Server` class is proved to follow these
 * functions; the lemmas here state what the operations promise.
 */
module Session {

  import opened Wrappers
  import opened Records
  import opened History
  import Auth

  /** `new CBuffer(250)` */
  const HistoryCapacity: nat := 250

  /** A room object `{muteList, users, clients, history}`. */
  datatype RoomState = RoomState(
    muteList: map<string, int>,
    users: map<string, User>,
    clients: map<SocketId, Client>,
    history: seq<Message>)

  /**
   * The server's three maps (`rooms`, `clients`, `users`), the events it
   * emitted so far and the writes it handed to the store.
   */
  datatype ServerState = ServerState(
    rooms: map<string, RoomState>,
    clients: map<SocketId, Client>,
    users: map<string, User>,
    events: seq<Emit>,
    writes: seq<StoreWrite>)

  /**
   * What the `auth` callback receives on success. The room is rendered for
   * the client by a helper that is not part of this model; the payload
   * carries the room it renders.
   */
  datatype InitPayload = InitPayload(user: Option<User>, room: RoomState)

  /** How the `auth` callback is answered: not at all, with an error code, or with the payload. */
  datatype Reply = NoReply | ErrorReply(code: string) | InitReply(payload: InitPayload)

  /** A freshly constructed server. */
  const Initial := ServerState(map[], map[], map[], [], [])

  /** A room created from the rows the store returned for it. */
  function NewRoom(rows: seq<Row>): (room: RoomState) {
    RoomState(map[], map[], map[], Window(PresentRows(rows), HistoryCapacity))
  }

  /** `createOrFetchRoomByName`; `rows` is what the store would return if asked. */
  function FetchOrCreateRoom(s: ServerState, name: string, rows: seq<Row>): (t: ServerState) {
    if name in s.rooms then s else s.(rooms := s.rooms[name := NewRoom(rows)])
  }

  /** The part of `addClient` that runs once the client's room exists. */
  function Register(s: ServerState, c: Client): (t: ServerState)
    requires c.room in s.rooms
  {
    var s1 :=
      if c.user.None? || c.user.value.uname in s.users then s
      else
        var u := c.user.value;
        var room := s.rooms[c.room];
        s.(rooms := s.rooms[c.room := room.(users := room.users[u.uname := u])],
           users := s.users[u.uname := u],
           events := s.events + [UserJoined(c.room, c.socketId, u)]);
    s1.(clients := s1.clients[c.socketId := c])
  }

  /** `addClient`: the state afterwards and the payload handed to the `auth` callback. */
  function AddClient(s: ServerState, c: Client, rows: seq<Row>): (r: (ServerState, InitPayload)) {
    var s1 := FetchOrCreateRoom(s, c.room, rows);
    var s2 := Register(s1, c);
    (s2, InitPayload(c.user, s2.rooms[c.room]))
  }

  /** Client `c` has a user called `uname` and is in `room`. */
  predicate SameSession(c: Client, uname: string, room: string) {
    c.user.Some? && c.user.value.uname == uname && c.room == room
  }

  /** Some client in `clients` is a session of `uname` in `room`. */
  predicate HasClientIn(clients: map<SocketId, Client>, uname: string, room: string) {
    exists id | id in clients :: SameSession(clients[id], uname, room)
  }

  /** `_.values(clients).some(...)`: look for another session of `uname` in `room`. */
  method AnyRemainingClient(clients: map<SocketId, Client>, uname: string, room: string) returns (found: bool)
    ensures found <==> HasClientIn(clients, uname, room)
  {
    found := false;
    var unseen := clients.Keys;
    while unseen != {} && !found
      invariant unseen <= clients.Keys
      invariant found ==> HasClientIn(clients, uname, room)
      invariant !found ==> forall id | id in clients && id !in unseen :: !SameSession(clients[id], uname, room)
      decreases unseen
    {
      var id :| id in unseen;
      found := SameSession(clients[id], uname, room);
      unseen := unseen - {id};
    }
  }

  /**
   * `removeSocket`. The source reaches into the client's room when a user
   * leaves it, so that room must exist (it always does: admission creates it).
   */
  function RemoveSocket(s: ServerState, id: SocketId): (t: ServerState)
    requires id in s.clients && s.clients[id].user.Some? ==> s.clients[id].room in s.rooms
  {
    if id !in s.clients then s
    else
      var c := s.clients[id];
      var clients := s.clients - {id};
      if c.user.None? || HasClientIn(clients, c.user.value.uname, c.room) then s.(clients := clients)
      else
        var u := c.user.value;
        var room := s.rooms[c.room];
        s.(clients := clients,
           users := s.users - {u.uname},
           rooms := s.rooms[c.room := room.(users := room.users - {u.uname})],
           events := s.events + [UserLeft(c.room, id, u)])
  }

  /**
   * `insertMessage`; `draw` stands for the random message id. The message is
   * written to the store and pushed into the room's history buffer.
   */
  function InsertMessage(s: ServerState, roomName: string, user: User, text: string, draw: nat): (r: (ServerState, Message))
    requires roomName in s.rooms
  {
    var m := Message(RandomId(draw), Author(user.uname, user.role), text, None);
    var room := s.rooms[roomName];
    (s.(writes := s.writes + [StoreWrite(user.uname, user.role, text, roomName)],
        rooms := s.rooms[roomName := room.(history := Window(room.history + [m], HistoryCapacity))]),
     m)
  }

  /**
   * `onAuth` for a socket, given the directory's answers and the rows the store
   * would return for a room created on the way.
   */
  function OnAuth(s: ServerState, socket: SocketId, p: Auth.Payload, hasCallback: bool,
                  appLookup: Auth.AppLookup, tokenLookup: Auth.TokenLookup, rows: seq<Row>): (r: (ServerState, Reply))
  {
    match Auth.Decide(p, hasCallback, appLookup, tokenLookup).verdict
    case Rejected(message) => (s.(events := s.events + [ClientError(socket, message)]), NoReply)
    case Failed(code) => (s, ErrorReply(code))
    case Admitted(room, user) =>
      var r := AddClient(s, Client(socket, room, user), rows);
      (r.0, InitReply(r.1))
  }

  // ----- createOrFetchRoomByName -----

  /** An existing room is returned as it is and the store is not consulted. */
  lemma ExistingRoomIsReused(s: ServerState, name: string, rows: seq<Row>, otherRows: seq<Row>)
    requires name in s.rooms
    ensures FetchOrCreateRoom(s, name, rows) == s
    ensures FetchOrCreateRoom(s, name, rows) == FetchOrCreateRoom(s, name, otherRows)
  {
  }

  /**
   * A missing room is registered with an empty mute list, user map and
   * client map and at most 250 presented messages, the newest the store
   * returned; nothing else changes.
   */
  lemma NewRoomIsRegistered(s: ServerState, name: string, rows: seq<Row>)
    requires name !in s.rooms
    ensures var t := FetchOrCreateRoom(s, name, rows);
      && t.rooms.Keys == s.rooms.Keys + {name}
      && (forall r | r in s.rooms :: t.rooms[r] == s.rooms[r])
      && t.rooms[name].muteList == map[] && t.rooms[name].users == map[] && t.rooms[name].clients == map[]
      && t.rooms[name].history == Window(PresentRows(rows), HistoryCapacity)
      && |t.rooms[name].history| == (if |rows| <= HistoryCapacity then |rows| else HistoryCapacity)
      && t.rooms[name].history == PresentRows(rows)[|rows| - |t.rooms[name].history|..]
      && t.clients == s.clients && t.users == s.users && t.events == s.events && t.writes == s.writes
  {
    WindowIsNewestSuffix(PresentRows(rows), HistoryCapacity);
  }

  /**
   * Hydrated messages keep the order the store returned them in: no
   * reversal. The store returns the newest first, so a hydrated history runs
   * newest to oldest.
   */
  lemma HydratedHistoryKeepsStoreOrder(rows: seq<Row>)
    requires |rows| <= HistoryCapacity
    requires forall i, j :: 0 <= i < j < |rows| ==> rows[i].id > rows[j].id
    ensures |NewRoom(rows).history| == |rows|
    ensures forall i :: 0 <= i < |rows| ==> NewRoom(rows).history[i].id == RowId(rows[i].id)
    ensures forall i, j :: 0 <= i < j < |rows| ==> NewRoom(rows).history[i].id.row > NewRoom(rows).history[j].id.row
  {
  }

  // ----- addClient -----

  /**
   * For a client with a user: `user_joined` is emitted, and the user added
   * to the room, exactly when no `users` entry existed for the uname before,
   * anywhere on the server; an existing entry is kept as it was. Afterwards
   * the uname has an entry and the socket maps to the client.
   */
  lemma AddClientJoinsIffFresh(s: ServerState, c: Client, rows: seq<Row>, u: User)
    requires c.user == Some(u)
    ensures var t := AddClient(s, c, rows).0;
      var before := FetchOrCreateRoom(s, c.room, rows).rooms[c.room];
      && c.room in t.rooms
      && t.clients == s.clients[c.socketId := c]
      && u.uname in t.users
      && (u.uname !in s.users <==> t.events == s.events + [UserJoined(c.room, c.socketId, u)])
      && (u.uname in s.users <==> t.events == s.events)
      && (u.uname in s.users ==> t.users == s.users && t.rooms[c.room].users == before.users)
      && (u.uname !in s.users ==> t.users == s.users[u.uname := u]
                                   && t.rooms[c.room].users == before.users[u.uname := u])
  {
    var t := AddClient(s, c, rows).0;
    if u.uname !in s.users {
      assert |t.events| == |s.events| + 1;
    }
  }

  /** An anonymous client changes only the client table (and creates its room if needed). */
  lemma AddAnonymousClient(s: ServerState, c: Client, rows: seq<Row>)
    requires c.user.None?
    ensures var t := AddClient(s, c, rows).0;
      var s1 := FetchOrCreateRoom(s, c.room, rows);
      t == s1.(clients := s.clients[c.socketId := c])
  {
  }

  /**
   * Admission touches no other room, no store write, and no other uname; the
   * callback receives the client's own user and its room as it now stands.
   */
  lemma AddClientFrame(s: ServerState, c: Client, rows: seq<Row>)
    ensures var (t, payload) := AddClient(s, c, rows);
      && (forall r | r in s.rooms && r != c.room :: r in t.rooms && t.rooms[r] == s.rooms[r])
      && t.rooms.Keys == s.rooms.Keys + {c.room}
      && t.writes == s.writes
      && (forall n | n in s.users && (c.user.None? || n != c.user.value.uname) :: n in t.users && t.users[n] == s.users[n])
      && payload.user == c.user && payload.room == t.rooms[c.room]
      && t.rooms[c.room].history == FetchOrCreateRoom(s, c.room, rows).rooms[c.room].history
  {
  }

  // ----- removeSocket -----

  /** Tearing down an unknown socket changes nothing. */
  lemma RemoveUnknownSocket(s: ServerState, id: SocketId)
    requires id !in s.clients
    ensures RemoveSocket(s, id) == s
  {
  }

  /** Teardown is idempotent. */
  lemma RemoveSocketIdempotent(s: ServerState, id: SocketId)
    requires id in s.clients && s.clients[id].user.Some? ==> s.clients[id].room in s.rooms
    ensures id !in RemoveSocket(s, id).clients
    ensures RemoveSocket(RemoveSocket(s, id), id) == RemoveSocket(s, id)
  {
  }

  /**
   * Tearing down a known socket of a user removes its client; `user_left`
   * is emitted, and the uname removed from `users` and from its room, exactly
   * when no other session of that uname remains in that same room.
   */
  lemma RemoveSocketLeavesIffLast(s: ServerState, id: SocketId, u: User)
    requires id in s.clients && s.clients[id].room in s.rooms
    requires s.clients[id].user == Some(u)
    ensures var t := RemoveSocket(s, id);
      var room := s.clients[id].room;
      var last := !HasClientIn(s.clients - {id}, u.uname, room);
      && t.clients == s.clients - {id}
      && t.writes == s.writes
      && (last <==> t.events == s.events + [UserLeft(room, id, u)])
      && (!last <==> t.events == s.events)
      && (last ==> t.users == s.users - {u.uname}
                   && t.rooms == s.rooms[room := s.rooms[room].(users := s.rooms[room].users - {u.uname})])
      && (!last ==> t.users == s.users && t.rooms == s.rooms)
  {
    var t := RemoveSocket(s, id);
    if !HasClientIn(s.clients - {id}, u.uname, s.clients[id].room) {
      assert |t.events| == |s.events| + 1;
    }
  }

  /** Tearing down an anonymous socket only removes its client. */
  lemma RemoveAnonymousSocket(s: ServerState, id: SocketId)
    requires id in s.clients && s.clients[id].user.None?
    ensures RemoveSocket(s, id) == s.(clients := s.clients - {id})
  {
  }

  // ----- insertMessage -----

  /**
   * Inserting a message writes it to the store and appends exactly one
   * message, carrying the author's `{uname, role}` and the text, to that
   * room's history; a full history drops its oldest entry, and nothing else
   * changes.
   */
  lemma InsertMessageAppends(s: ServerState, roomName: string, user: User, text: string, draw: nat)
    requires roomName in s.rooms
    requires |s.rooms[roomName].history| <= HistoryCapacity
    ensures var (t, m) := InsertMessage(s, roomName, user, text, draw);
      var h := s.rooms[roomName].history;
      && m.user == Author(user.uname, user.role) && m.text == text
      && t.writes == s.writes + [StoreWrite(user.uname, user.role, text, roomName)]
      && |t.rooms[roomName].history| <= HistoryCapacity
      && (|h| < HistoryCapacity ==> t.rooms[roomName].history == h + [m])
      && (|h| == HistoryCapacity ==> t.rooms[roomName].history == h[1..] + [m])
      && t.rooms == s.rooms[roomName := s.rooms[roomName].(history := t.rooms[roomName].history)]
      && t.clients == s.clients && t.users == s.users && t.events == s.events
  {
    var (t, m) := InsertMessage(s, roomName, user, text, draw);
    var h := s.rooms[roomName].history;
    if |h| == HistoryCapacity {
      PushEvictsOldest(h, m, HistoryCapacity);
    }
  }

  // ----- onAuth -----

  /** A rejected request emits one `client_error` to its socket and creates no client. */
  lemma RejectedAuthCreatesNoClient(s: ServerState, socket: SocketId, p: Auth.Payload, hasCallback: bool,
                                    appLookup: Auth.AppLookup, tokenLookup: Auth.TokenLookup, rows: seq<Row>)
    requires Auth.Decide(p, hasCallback, appLookup, tokenLookup).verdict.Rejected?
    ensures var (t, reply) := OnAuth(s, socket, p, hasCallback, appLookup, tokenLookup, rows);
      && reply == NoReply
      && t == s.(events := s.events + [ClientError(socket, Auth.Decide(p, hasCallback, appLookup, tokenLookup).verdict.message)])
  {
  }

  /** A directory failure answers the callback with `INTERNAL_ERROR` and changes nothing. */
  lemma FailedAuthChangesNothing(s: ServerState, socket: SocketId, p: Auth.Payload, hasCallback: bool,
                                 appLookup: Auth.AppLookup, tokenLookup: Auth.TokenLookup, rows: seq<Row>)
    requires Auth.Decide(p, hasCallback, appLookup, tokenLookup).verdict.Failed?
    ensures OnAuth(s, socket, p, hasCallback, appLookup, tokenLookup, rows) == (s, ErrorReply(Auth.InternalError))
  {
  }

  /**
   * An admitted socket gets a client for the application's room, carrying
   * the decided user (none for an anonymous session), and the callback gets
   * the init payload.
   */
  lemma AdmittedAuthRegistersClient(s: ServerState, socket: SocketId, p: Auth.Payload, hasCallback: bool,
                                    appLookup: Auth.AppLookup, tokenLookup: Auth.TokenLookup, rows: seq<Row>)
    requires Auth.Decide(p, hasCallback, appLookup, tokenLookup).verdict.Admitted?
    ensures var (t, reply) := OnAuth(s, socket, p, hasCallback, appLookup, tokenLookup, rows);
      var v := Auth.Decide(p, hasCallback, appLookup, tokenLookup).verdict;
      && appLookup.AppFound? && v.room == Auth.RoomName(appLookup.app.id)
      && socket in t.clients && t.clients[socket] == Client(socket, v.room, v.user)
      && v.room in t.rooms
      && reply.InitReply? && reply.payload.user == v.user && reply.payload.room == t.rooms[v.room]
  {
    Auth.AdmittedRoomIsAppRoom(p, hasCallback, appLookup, tokenLookup);
  }
}
