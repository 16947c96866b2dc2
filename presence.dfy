/**
 * What the registries and the event log promise over whole runs of the
 * server: histories stay bounded, `users` and the rooms' user maps only name
 * users with a live session, and, as long as no uname holds live sessions in
 * two rooms at once, `user_joined` and `user_left` alternate for every room
 * and uname, each matching a real change in the room's membership. A
 * concrete run shows the alternation breaking once a uname spans two rooms:
 * admission checks freshness across the whole server, teardown within one
 * room.
 */
module Presence {

  import opened Wrappers
  import opened Records
  import opened History
  import opened Session
  import Auth

  // ----- membership as the client table sees it -----

  /** (room, uname) of every live identified session. */
  function LivePairs(clients: map<SocketId, Client>): (pairs: set<(string, string)>) {
    set id | id in clients && clients[id].user.Some? :: (clients[id].room, clients[id].user.value.uname)
  }

  /** unames of every live identified session. */
  function LiveNames(clients: map<SocketId, Client>): (names: set<string>) {
    set id | id in clients && clients[id].user.Some? :: clients[id].user.value.uname
  }

  /** unames of the live identified sessions in `room`. */
  function LiveNamesIn(clients: map<SocketId, Client>, room: string): (names: set<string>) {
    set id | id in clients && clients[id].user.Some? && clients[id].room == room :: clients[id].user.value.uname
  }

  // ----- presence as the event log tells it -----

  /** The (room, uname) pairs the emitted `user_joined`/`user_left` events leave present. */
  function PresentAfter(events: seq<Emit>): (pairs: set<(string, string)>)
    decreases |events|
  {
    if events == [] then {}
    else
      var before := PresentAfter(events[..|events| - 1]);
      match events[|events| - 1]
      case UserJoined(room, _, u) => before + {(room, u.uname)}
      case UserLeft(room, _, u) => before - {(room, u.uname)}
      case ClientError(_, _) => before
  }

  /**
   * For every room and uname the presence events alternate, starting with
   * `user_joined`: never a second join without a leave in between, never a
   * leave without a join.
   */
  predicate Alternating(events: seq<Emit>)
    decreases |events|
  {
    events == [] ||
    (Alternating(events[..|events| - 1]) &&
     var before := PresentAfter(events[..|events| - 1]);
     match events[|events| - 1]
     case UserJoined(room, _, u) => (room, u.uname) !in before
     case UserLeft(room, _, u) => (room, u.uname) in before
     case ClientError(_, _) => true)
  }

  // ----- invariants -----

  /**
   * What every reachable state satisfies: clients are keyed by their socket,
   * their rooms exist, histories hold at most 250 messages, and `users` and
   * each room's user map name only unames, under their own name, that have a
   * live session (in that room, for a room's map).
   */
  predicate WellFormed(s: ServerState) {
    && ClientsKeyed(s)
    && HistoriesBounded(s)
    && RoomUsersLive(s)
    && UsersLive(s)
  }

  predicate ClientsKeyed(s: ServerState) {
    forall id | id in s.clients :: s.clients[id].socketId == id && s.clients[id].room in s.rooms
  }

  predicate HistoriesBounded(s: ServerState) {
    forall r | r in s.rooms :: |s.rooms[r].history| <= HistoryCapacity
  }

  predicate RoomUsersLive(s: ServerState) {
    && (forall r | r in s.rooms :: s.rooms[r].users.Keys <= LiveNamesIn(s.clients, r))
    && (forall r, n | r in s.rooms && n in s.rooms[r].users :: s.rooms[r].users[n].uname == n)
  }

  predicate UsersLive(s: ServerState) {
    && s.users.Keys <= LiveNames(s.clients)
    && (forall n | n in s.users :: s.users[n].uname == n)
  }

  /** No uname has live sessions in two different rooms. */
  predicate OneRoomPerUname(clients: map<SocketId, Client>) {
    forall a, b | a in clients && b in clients && clients[a].user.Some? && clients[b].user.Some? &&
                  clients[a].user.value.uname == clients[b].user.value.uname
      :: clients[a].room == clients[b].room
  }

  /** Admitting `c` keeps every uname in one room. */
  predicate StaysInOneRoom(clients: map<SocketId, Client>, c: Client) {
    c.user.Some? ==>
      forall id | id in clients && clients[id].user.Some? && clients[id].user.value.uname == c.user.value.uname
        :: clients[id].room == c.room
  }

  /**
   * The presence invariant: on top of WellFormed, `users` names exactly the
   * unames with a live session, each room's user map exactly those with a
   * live session in it, and the event log announces exactly the live
   * (room, uname) pairs, with alternating presence events.
   */
  predicate Coherent(s: ServerState) {
    && WellFormed(s)
    && OneRoomPerUname(s.clients)
    && UsersExact(s)
    && RoomUsersExact(s)
    && EventsMatch(s)
  }

  predicate UsersExact(s: ServerState) {
    s.users.Keys == LiveNames(s.clients)
  }

  predicate RoomUsersExact(s: ServerState) {
    forall r | r in s.rooms :: s.rooms[r].users.Keys == LiveNamesIn(s.clients, r)
  }

  predicate EventsMatch(s: ServerState) {
    PresentAfter(s.events) == LivePairs(s.clients) && Alternating(s.events)
  }

  // ----- the client table, one client added or removed -----

  lemma SessionIsLive(clients: map<SocketId, Client>, uname: string, room: string)
    ensures HasClientIn(clients, uname, room) <==> (room, uname) in LivePairs(clients)
    ensures HasClientIn(clients, uname, room) <==> uname in LiveNamesIn(clients, room)
  {
    if (room, uname) in LivePairs(clients) {
      var id :| id in clients && clients[id].user.Some? && (clients[id].room, clients[id].user.value.uname) == (room, uname);
      assert SameSession(clients[id], uname, room);
    }
    if uname in LiveNamesIn(clients, room) {
      var id :| id in clients && clients[id].user.Some? && clients[id].room == room && clients[id].user.value.uname == uname;
      assert SameSession(clients[id], uname, room);
    }
    if HasClientIn(clients, uname, room) {
      var id :| id in clients && SameSession(clients[id], uname, room);
      assert (clients[id].room, clients[id].user.value.uname) in LivePairs(clients);
      assert clients[id].user.value.uname in LiveNamesIn(clients, room);
    }
  }

  lemma LiveAfterAdd(clients: map<SocketId, Client>, c: Client)
    requires c.socketId !in clients
    ensures c.user.None? ==> LivePairs(clients[c.socketId := c]) == LivePairs(clients)
    ensures c.user.None? ==> LiveNames(clients[c.socketId := c]) == LiveNames(clients)
    ensures c.user.None? ==> forall r :: LiveNamesIn(clients[c.socketId := c], r) == LiveNamesIn(clients, r)
    ensures c.user.Some? ==>
              LivePairs(clients[c.socketId := c]) == LivePairs(clients) + {(c.room, c.user.value.uname)}
    ensures c.user.Some? ==> LiveNames(clients[c.socketId := c]) == LiveNames(clients) + {c.user.value.uname}
    ensures c.user.Some? ==>
              LiveNamesIn(clients[c.socketId := c], c.room) == LiveNamesIn(clients, c.room) + {c.user.value.uname}
    ensures forall r | r != c.room :: LiveNamesIn(clients[c.socketId := c], r) == LiveNamesIn(clients, r)
  {
    var cl := clients[c.socketId := c];
    assert forall id | id in clients :: cl[id] == clients[id];
    if c.user.Some? {
      assert (c.room, c.user.value.uname) == (cl[c.socketId].room, cl[c.socketId].user.value.uname);
      assert c.user.value.uname == cl[c.socketId].user.value.uname;
    }
  }

  lemma LiveAfterRemove(clients: map<SocketId, Client>, id: SocketId)
    requires id in clients
    ensures var c := clients[id];
      c.user.None? ==> LivePairs(clients - {id}) == LivePairs(clients) && LiveNames(clients - {id}) == LiveNames(clients)
    ensures forall r | r != clients[id].room || clients[id].user.None? ::
              LiveNamesIn(clients - {id}, r) == LiveNamesIn(clients, r)
    ensures var c := clients[id];
      c.user.Some? && HasClientIn(clients - {id}, c.user.value.uname, c.room) ==>
        && LivePairs(clients - {id}) == LivePairs(clients)
        && LiveNames(clients - {id}) == LiveNames(clients)
        && LiveNamesIn(clients - {id}, c.room) == LiveNamesIn(clients, c.room)
    ensures var c := clients[id];
      c.user.Some? && !HasClientIn(clients - {id}, c.user.value.uname, c.room) ==>
        && LivePairs(clients - {id}) == LivePairs(clients) - {(c.room, c.user.value.uname)}
        && LiveNames(clients - {id}) <= LiveNames(clients)
        && LiveNamesIn(clients - {id}, c.room) == LiveNamesIn(clients, c.room) - {c.user.value.uname}
    ensures var c := clients[id];
      c.user.Some? ==> LiveNames(clients) - {c.user.value.uname} <= LiveNames(clients - {id})
    ensures var c := clients[id];
      c.user.Some? && !HasClientIn(clients - {id}, c.user.value.uname, c.room) && OneRoomPerUname(clients) ==>
        LiveNames(clients - {id}) == LiveNames(clients) - {c.user.value.uname}
  {
    var c := clients[id];
    var rest := clients - {id};
    assert forall k | k in rest :: k in clients && rest[k] == clients[k];
    assert forall k | k in clients && k != id :: k in rest;
    if c.user.Some? {
      var u := c.user.value.uname;
      forall n | n in LiveNames(clients) - {u} ensures n in LiveNames(rest) {
        var k :| k in clients && clients[k].user.Some? && clients[k].user.value.uname == n;
        assert k != id;
        assert n == rest[k].user.value.uname;
      }
      SessionIsLive(rest, u, c.room);
      SessionIsLive(clients, u, c.room);
      if HasClientIn(rest, u, c.room) {
        var k :| k in rest && SameSession(rest[k], u, c.room);
        assert (c.room, u) == (rest[k].room, rest[k].user.value.uname);
        assert u == rest[k].user.value.uname;
        assert LiveNames(rest) == LiveNames(clients);
      } else {
        assert (c.room, u) == (clients[id].room, clients[id].user.value.uname);
      }
    }
  }

  lemma LivePairHasLiveName(clients: map<SocketId, Client>, room: string, uname: string)
    requires (room, uname) in LivePairs(clients)
    ensures uname in LiveNames(clients)
  {
    var id :| id in clients && clients[id].user.Some? && (clients[id].room, clients[id].user.value.uname) == (room, uname);
    assert uname == clients[id].user.value.uname;
  }

  lemma EventsAppend(events: seq<Emit>, e: Emit)
    ensures (events + [e])[..|events + [e]| - 1] == events
    ensures (events + [e])[|events + [e]| - 1] == e
  {
  }

  // ----- one operation at a time: WellFormed -----

  lemma FetchOrCreateKeepsWellFormed(s: ServerState, name: string, rows: seq<Row>)
    requires WellFormed(s)
    ensures WellFormed(FetchOrCreateRoom(s, name, rows))
  {
    WindowIsNewestSuffix(PresentRows(rows), HistoryCapacity);
  }

  lemma RegisterKeepsWellFormed(s: ServerState, c: Client)
    requires WellFormed(s) && c.room in s.rooms && c.socketId !in s.clients
    ensures WellFormed(Register(s, c))
  {
    var t := Register(s, c);
    assert ClientsKeyed(t);
    assert HistoriesBounded(t);
    RegisterKeepsRoomUsersLive(s, c);
    RegisterKeepsUsersLive(s, c);
  }

  lemma RegisterKeepsRoomUsersLive(s: ServerState, c: Client)
    requires RoomUsersLive(s) && c.room in s.rooms && c.socketId !in s.clients
    ensures RoomUsersLive(Register(s, c))
  {
    var t := Register(s, c);
    LiveAfterAdd(s.clients, c);
    if c.user.Some? && c.user.value.uname !in s.users {
      var u := c.user.value;
      assert t.rooms == s.rooms[c.room := s.rooms[c.room].(users := s.rooms[c.room].users[u.uname := u])];
    } else {
      assert t.rooms == s.rooms;
    }
  }

  lemma RegisterKeepsUsersLive(s: ServerState, c: Client)
    requires UsersLive(s) && c.room in s.rooms && c.socketId !in s.clients
    ensures UsersLive(Register(s, c))
  {
    var t := Register(s, c);
    LiveAfterAdd(s.clients, c);
    if c.user.Some? && c.user.value.uname !in s.users {
      assert t.users == s.users[c.user.value.uname := c.user.value];
    } else {
      assert t.users == s.users;
    }
  }

  /** Admitting a client on a new socket keeps the state well formed. */
  lemma {:induction false} AddClientKeepsWellFormed(s: ServerState, c: Client, rows: seq<Row>)
    requires WellFormed(s) && c.socketId !in s.clients
    ensures WellFormed(AddClient(s, c, rows).0)
  {
    FetchOrCreateKeepsWellFormed(s, c.room, rows);
    RegisterKeepsWellFormed(FetchOrCreateRoom(s, c.room, rows), c);
  }

  /** Tearing down a socket keeps the state well formed. */
  lemma {:induction false} RemoveSocketKeepsWellFormed(s: ServerState, id: SocketId)
    requires WellFormed(s)
    ensures WellFormed(RemoveSocket(s, id))
  {
    if id in s.clients {
      LiveAfterRemove(s.clients, id);
    }
  }

  /** Inserting a message keeps the state well formed, in particular every history within 250. */
  lemma {:induction false} InsertMessageKeepsWellFormed(s: ServerState, roomName: string, user: User, text: string, draw: nat)
    requires WellFormed(s) && roomName in s.rooms
    ensures WellFormed(InsertMessage(s, roomName, user, text, draw).0)
  {
    var m := InsertMessage(s, roomName, user, text, draw).1;
    WindowIsNewestSuffix(s.rooms[roomName].history + [m], HistoryCapacity);
  }

  // ----- one operation at a time: Coherent -----

  lemma FetchOrCreateKeepsCoherent(s: ServerState, name: string, rows: seq<Row>)
    requires Coherent(s)
    ensures Coherent(FetchOrCreateRoom(s, name, rows))
  {
    FetchOrCreateKeepsWellFormed(s, name, rows);
    if name !in s.rooms {
      assert LiveNamesIn(s.clients, name) == {};
    }
  }

  /** The uname of `c`, if any, has a live session in `c`'s room exactly when it has one at all. */
  lemma FreshOrPresent(s: ServerState, c: Client, u: User)
    requires UsersExact(s) && c.user == Some(u) && StaysInOneRoom(s.clients, c)
    ensures u.uname in s.users <==> (c.room, u.uname) in LivePairs(s.clients)
    ensures u.uname in s.users <==> u.uname in LiveNamesIn(s.clients, c.room)
  {
    if u.uname in s.users {
      var id :| id in s.clients && s.clients[id].user.Some? && s.clients[id].user.value.uname == u.uname;
      assert SameSession(s.clients[id], u.uname, c.room);
    }
    SessionIsLive(s.clients, u.uname, c.room);
    if (c.room, u.uname) in LivePairs(s.clients) {
      LivePairHasLiveName(s.clients, c.room, u.uname);
    }
  }

  lemma RegisterKeepsOneRoom(s: ServerState, c: Client)
    requires OneRoomPerUname(s.clients) && c.room in s.rooms && c.socketId !in s.clients && StaysInOneRoom(s.clients, c)
    ensures OneRoomPerUname(Register(s, c).clients)
  {
  }

  lemma RegisterKeepsUsersExact(s: ServerState, c: Client)
    requires UsersExact(s) && c.room in s.rooms && c.socketId !in s.clients
    ensures UsersExact(Register(s, c))
  {
    var t := Register(s, c);
    LiveAfterAdd(s.clients, c);
    if c.user.Some? && c.user.value.uname !in s.users {
      assert t.users == s.users[c.user.value.uname := c.user.value];
    } else {
      assert t.users == s.users;
    }
  }

  lemma RegisterKeepsRoomUsersExact(s: ServerState, c: Client)
    requires UsersExact(s) && RoomUsersExact(s) && c.room in s.rooms && c.socketId !in s.clients
    requires StaysInOneRoom(s.clients, c)
    ensures RoomUsersExact(Register(s, c))
  {
    var t := Register(s, c);
    LiveAfterAdd(s.clients, c);
    if c.user.Some? {
      FreshOrPresent(s, c, c.user.value);
    }
    if c.user.Some? && c.user.value.uname !in s.users {
      var u := c.user.value;
      assert t.rooms == s.rooms[c.room := s.rooms[c.room].(users := s.rooms[c.room].users[u.uname := u])];
    } else {
      assert t.rooms == s.rooms;
    }
  }

  lemma RegisterKeepsEventsMatch(s: ServerState, c: Client)
    requires UsersExact(s) && EventsMatch(s) && c.room in s.rooms && c.socketId !in s.clients
    requires StaysInOneRoom(s.clients, c)
    ensures EventsMatch(Register(s, c))
  {
    var t := Register(s, c);
    LiveAfterAdd(s.clients, c);
    if c.user.Some? {
      var u := c.user.value;
      FreshOrPresent(s, c, u);
      if u.uname !in s.users {
        EventsAppend(s.events, UserJoined(c.room, c.socketId, u));
        assert t.events == s.events + [UserJoined(c.room, c.socketId, u)];
      } else {
        assert t.events == s.events;
      }
    } else {
      assert t.events == s.events;
    }
  }

  /**
   * Admitting a client on a new socket, whose uname has no live session in
   * another room, keeps the presence invariant: its `user_joined` (if any)
   * announces a pair not yet present.
   */
  lemma {:induction false} AddClientKeepsCoherent(s: ServerState, c: Client, rows: seq<Row>)
    requires Coherent(s) && c.socketId !in s.clients && StaysInOneRoom(s.clients, c)
    ensures Coherent(AddClient(s, c, rows).0)
  {
    var s1 := FetchOrCreateRoom(s, c.room, rows);
    FetchOrCreateKeepsCoherent(s, c.room, rows);
    RegisterKeepsWellFormed(s1, c);
    RegisterKeepsOneRoom(s1, c);
    RegisterKeepsUsersExact(s1, c);
    RegisterKeepsRoomUsersExact(s1, c);
    RegisterKeepsEventsMatch(s1, c);
  }

  /**
   * Tearing down a socket keeps the presence invariant: its `user_left`
   * (if any) retires a pair that was present.
   */
  lemma {:induction false} RemoveSocketKeepsCoherent(s: ServerState, id: SocketId)
    requires Coherent(s)
    ensures Coherent(RemoveSocket(s, id))
  {
    RemoveSocketKeepsWellFormed(s, id);
    if id in s.clients {
      LiveAfterRemove(s.clients, id);
      var c := s.clients[id];
      if c.user.Some? && !HasClientIn(s.clients - {id}, c.user.value.uname, c.room) {
        var u := c.user.value;
        assert (c.room, u.uname) == (s.clients[id].room, s.clients[id].user.value.uname);
        EventsAppend(s.events, UserLeft(c.room, id, u));
      }
    }
  }

  lemma InsertMessageKeepsCoherent(s: ServerState, roomName: string, user: User, text: string, draw: nat)
    requires Coherent(s) && roomName in s.rooms
    ensures Coherent(InsertMessage(s, roomName, user, text, draw).0)
  {
    InsertMessageKeepsWellFormed(s, roomName, user, text, draw);
  }

  lemma OnAuthKeepsWellFormed(s: ServerState, socket: SocketId, p: Auth.Payload, hasCallback: bool,
                              appLookup: Auth.AppLookup, tokenLookup: Auth.TokenLookup, rows: seq<Row>)
    requires WellFormed(s) && socket !in s.clients
    ensures WellFormed(OnAuth(s, socket, p, hasCallback, appLookup, tokenLookup, rows).0)
  {
    var v := Auth.Decide(p, hasCallback, appLookup, tokenLookup).verdict;
    if v.Admitted? {
      AddClientKeepsWellFormed(s, Client(socket, v.room, v.user), rows);
    }
  }

  lemma OnAuthKeepsCoherent(s: ServerState, socket: SocketId, p: Auth.Payload, hasCallback: bool,
                            appLookup: Auth.AppLookup, tokenLookup: Auth.TokenLookup, rows: seq<Row>)
    requires Coherent(s) && socket !in s.clients
    requires var v := Auth.Decide(p, hasCallback, appLookup, tokenLookup).verdict;
      v.Admitted? ==> StaysInOneRoom(s.clients, Client(socket, v.room, v.user))
    ensures Coherent(OnAuth(s, socket, p, hasCallback, appLookup, tokenLookup, rows).0)
  {
    var v := Auth.Decide(p, hasCallback, appLookup, tokenLookup).verdict;
    match v
    case Rejected(message) =>
      EventsAppend(s.events, ClientError(socket, message));
    case Failed(_) =>
    case Admitted(room, user) =>
      AddClientKeepsCoherent(s, Client(socket, room, user), rows);
  }

  // ----- runs -----

  /**
   * One event the server handles: an `auth` request on a socket (with the
   * directory's answers and the store's rows for a room it may create), a
   * disconnect, or a chat message posted to a room.
   */
  datatype Step =
    | AuthStep(socket: SocketId, payload: Auth.Payload, hasCallback: bool,
               appLookup: Auth.AppLookup, tokenLookup: Auth.TokenLookup, rows: seq<Row>)
    | Disconnect(socket: SocketId)
    | Post(roomName: string, user: User, text: string, draw: nat)

  /**
   * What the transport and the callers guarantee before a step: `auth` is
   * handled once per socket, so its socket has no client yet; a message is
   * posted to a room that exists; a disconnecting user's room exists.
   */
  predicate Enabled(s: ServerState, step: Step) {
    match step
    case AuthStep(socket, _, _, _, _, _) => socket !in s.clients
    case Disconnect(socket) => socket in s.clients && s.clients[socket].user.Some? ==> s.clients[socket].room in s.rooms
    case Post(roomName, _, _, _) => roomName in s.rooms
  }

  function Apply(s: ServerState, step: Step): (t: ServerState)
    requires Enabled(s, step)
  {
    match step
    case AuthStep(socket, p, hasCallback, appLookup, tokenLookup, rows) =>
      OnAuth(s, socket, p, hasCallback, appLookup, tokenLookup, rows).0
    case Disconnect(socket) => RemoveSocket(s, socket)
    case Post(roomName, user, text, draw) => InsertMessage(s, roomName, user, text, draw).0
  }

  predicate ValidRun(s: ServerState, steps: seq<Step>)
    decreases |steps|
  {
    steps == [] || (Enabled(s, steps[0]) && ValidRun(Apply(s, steps[0]), steps[1..]))
  }

  function Run(s: ServerState, steps: seq<Step>): (t: ServerState)
    requires ValidRun(s, steps)
    decreases |steps|
  {
    if steps == [] then s else Run(Apply(s, steps[0]), steps[1..])
  }

  /** The step admits no uname into a second room while it is live in another. */
  predicate KeepsOneRoom(s: ServerState, step: Step) {
    match step
    case AuthStep(socket, p, hasCallback, appLookup, tokenLookup, _) =>
      var v := Auth.Decide(p, hasCallback, appLookup, tokenLookup).verdict;
      v.Admitted? ==> StaysInOneRoom(s.clients, Client(socket, v.room, v.user))
    case Disconnect(_) => true
    case Post(_, _, _, _) => true
  }

  predicate OneRoomRun(s: ServerState, steps: seq<Step>)
    requires ValidRun(s, steps)
    decreases |steps|
  {
    steps == [] || (KeepsOneRoom(s, steps[0]) && OneRoomRun(Apply(s, steps[0]), steps[1..]))
  }

  lemma InitialIsCoherent()
    ensures Coherent(Initial)
  {
  }

  /**
   * Every run keeps the state well formed: histories never exceed 250
   * messages, every client's room exists, and `users` and the rooms' user
   * maps name only users with a live session.
   */
  lemma {:induction false} RunKeepsWellFormed(s: ServerState, steps: seq<Step>)
    requires WellFormed(s) && ValidRun(s, steps)
    ensures WellFormed(Run(s, steps))
    decreases |steps|
  {
    if steps != [] {
      match steps[0] {
        case AuthStep(socket, p, hasCallback, appLookup, tokenLookup, rows) =>
          OnAuthKeepsWellFormed(s, socket, p, hasCallback, appLookup, tokenLookup, rows);
        case Disconnect(socket) =>
          RemoveSocketKeepsWellFormed(s, socket);
        case Post(roomName, user, text, draw) =>
          InsertMessageKeepsWellFormed(s, roomName, user, text, draw);
      }
      RunKeepsWellFormed(Apply(s, steps[0]), steps[1..]);
    }
  }

  /**
   * Presence events are deduplicated: over any run from a fresh server in
   * which no uname is live in two rooms at once, `user_joined` and
   * `user_left` alternate for every (room, uname), the announced pairs are
   * exactly the live ones, and `users` and each room's user map list
   * exactly the users with a live session (in that room).
   */
  lemma {:induction false} RunKeepsCoherent(s: ServerState, steps: seq<Step>)
    requires Coherent(s) && ValidRun(s, steps) && OneRoomRun(s, steps)
    ensures Coherent(Run(s, steps))
    ensures Alternating(Run(s, steps).events)
    decreases |steps|
  {
    if steps != [] {
      match steps[0] {
        case AuthStep(socket, p, hasCallback, appLookup, tokenLookup, rows) =>
          OnAuthKeepsCoherent(s, socket, p, hasCallback, appLookup, tokenLookup, rows);
        case Disconnect(socket) =>
          RemoveSocketKeepsCoherent(s, socket);
        case Post(roomName, user, text, draw) =>
          InsertMessageKeepsCoherent(s, roomName, user, text, draw);
      }
      RunKeepsCoherent(Apply(s, steps[0]), steps[1..]);
    }
  }

  /** From a fresh server, every admissible run announces presence without duplicates. */
  lemma PresenceDeduplicated(steps: seq<Step>)
    requires ValidRun(Initial, steps) && OneRoomRun(Initial, steps)
    ensures Alternating(Run(Initial, steps).events)
    ensures Run(Initial, steps).users.Keys == LiveNames(Run(Initial, steps).clients)
  {
    InitialIsCoherent();
    RunKeepsCoherent(Initial, steps);
  }

  /**
   * Without the one-room condition the alternation fails. "alice" connects
   * to app:1, then to app:2 (not fresh: no event, not added to app:2's
   * users); closing the app:2 socket finds no other session of hers in
   * app:2, so it deletes her `users` entry and emits `user_left` to app:2;
   * a new connection to app:1 is then fresh again and app:1 receives a
   * second `user_joined` for her while her first socket is still there.
   */
  lemma CrossRoomDisconnectRepeatsJoin()
    ensures var alice := User("alice", "member");
      var s1 := AddClient(Initial, Client("s1", "app:1", Some(alice)), []).0;
      var s2 := AddClient(s1, Client("s2", "app:2", Some(alice)), []).0;
      var s3 := RemoveSocket(s2, "s2");
      var s4 := AddClient(s3, Client("s3", "app:1", Some(alice)), []).0;
      && "s1" in s4.clients && s4.clients["s1"].room == "app:1"
      && s4.events == [UserJoined("app:1", "s1", alice), UserLeft("app:2", "s2", alice), UserJoined("app:1", "s3", alice)]
      && !Alternating(s4.events)
  {
    var alice := User("alice", "member");
    var s1 := AddClient(Initial, Client("s1", "app:1", Some(alice)), []).0;
    var s2 := AddClient(s1, Client("s2", "app:2", Some(alice)), []).0;
    assert s2.clients == map["s1" := Client("s1", "app:1", Some(alice)), "s2" := Client("s2", "app:2", Some(alice))];
    assert !HasClientIn(s2.clients - {"s2"}, "alice", "app:2") by {
      assert s2.clients - {"s2"} == map["s1" := Client("s1", "app:1", Some(alice))];
    }
    var s3 := RemoveSocket(s2, "s2");
    assert "alice" !in s3.users;
    var s4 := AddClient(s3, Client("s3", "app:1", Some(alice)), []).0;
    var e := s4.events;
    assert e[..2] == [UserJoined("app:1", "s1", alice), UserLeft("app:2", "s2", alice)];
    assert e[..2][..1] == [UserJoined("app:1", "s1", alice)];
    assert e[..2][..1][..0] == [];
    assert ("app:1", "alice") in PresentAfter(e[..2]);
  }
}
