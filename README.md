# Chat server session and room engine, in Dafny

This project models the session and room-state engine of a socket-based chat
relay (`Server.js`). It covers five pieces:

- the `auth` handshake: payload validation, application lookup, token lookup and the owner role;
- the server's three registries: `rooms`, `clients` and `users`;
- presence notification with `user_joined` and `user_left`;
- fetch-or-create of a room, hydrating its history from the message store;
- `insertMessage`, which writes to the store and pushes into the room's 250-entry ring buffer (`CBuffer`).

The model has two layers:

- `Session` describes every operation as a function from the server state before to the state after. The emitted events and the store writes are logs kept in the state. `Auth.Decide` is the whole `onAuth` decision. It takes the directory's answers as inputs and records which directory calls were made.
- `Chat.Server` is the server object itself. Its `rooms`, `clients` and `users` maps are fields that its methods update in place. Every method is proved to move `State()` exactly as the matching `Session` function does. So the lemmas of `Session`, `Presence` and `Auth` hold of the object too.

The other modules:

- `History` models the ring buffer. `Window(s, 250)` gives its meaning on values. `HistoryBuffer` is the buffer itself, over an array, and is proved against `Window`.
- `Presence` proves what holds over whole runs of the server:
  - histories stay bounded;
  - the user maps list only users who have a live session;
  - when no user name is live in two rooms at once, presence events are deduplicated.
- `Decimal` models how JavaScript renders `'app:' + app.id` for ids of magnitude below 1e21, and proves that distinct application ids give distinct room names.

The model follows the code as written:

- **The freshness test is global; the removal test is per room.** `addClient` treats a user as fresh when the user name has no `users` entry anywhere on the server (`Server.js:274`). `removeSocket` deletes the entry when no other session of that name remains *in the same room* (`Server.js:182-186`). When sessions of one user name stay in one room, `user_joined` and `user_left` alternate and match the live sessions exactly (`Presence.PresenceDeduplicated`). A user name with sessions in two rooms breaks this: `Presence.CrossRoomDisconnectRepeatsJoin` shows a run that announces a second `user_joined` to a room the user never left.
- **A non-fresh user is not added to the new room's `users` map** (`Server.js:274-278`).
- **Hydration order.** The code pushes the rows in the order the store returns them (`ORDER BY id DESC`, `db.js:48`) and does not reverse them, so a hydrated history runs newest to oldest: `Session.HydratedHistoryKeepsStoreOrder` proves it.

## Model

| member | source | states |
|---|---|---|
| Chat.Server.constructor | Server.js:16-31 | A new server has empty `rooms`, `clients` and `users` and has emitted and written nothing. |
| Chat.Server.CreateOrFetchRoomByName | Server.js:209-260 | Returns the existing room unchanged, or registers a new room whose history is the buffer filled with the presented rows. The new state is exactly `Session.FetchOrCreateRoom`. |
| Chat.NewHistory | Server.js:239-241 | A new `CBuffer(250)` into which the presented messages were pushed with `push.apply` holds exactly their newest 250, in order. |
| Chat.Server.AddClient | Server.js:262-303 | Creates or fetches the client's room. For a user with no `users` entry it adds the user to the room and to `users` and emits `user_joined`; otherwise it keeps the entry. It then registers the socket's client and returns the user and the room as the init payload. The new state and payload are exactly `Session.AddClient`. |
| Chat.Server.RemoveSocket | Server.js:162-205 | An unknown socket changes nothing. Otherwise the socket's client is deleted. When no other session of the same user name is left in that room, the user is deleted from `users` and from the room, and `user_left` is emitted. The new state is exactly `Session.RemoveSocket`. |
| Chat.Server.InsertMessage | Server.js:138-160 | Builds the message from the author's `{uname, role}` and the text, logs one store write and pushes the message into the room's 250-entry history. The new state and message are exactly `Session.InsertMessage`. |
| Chat.Server.OnAuth | Server.js:53-136 | Follows `Auth.Decide`: a rejection emits `client_error`, a directory failure answers `INTERNAL_ERROR`, and an admission runs `addClient`. The new state and reply are exactly `Session.OnAuth`. |
| Session.AnyRemainingClient | Server.js:182-186 | The scan over the client table is true exactly when some client has a user with that user name in that room. |
| Session.ExistingRoomIsReused | Server.js:216-219 | An existing room is returned as it is, whatever the store would have answered. |
| Session.NewRoomIsRegistered | Server.js:222-258 | A missing room is added with empty mute list, users and clients. Its history is exactly `Window` of the presented rows: all of them when there are at most 250, otherwise the last 250, in store order. No other room or registry changes. |
| Session.HydratedHistoryKeepsStoreOrder | Server.js:226-241 | Hydration keeps the store's order: rows returned newest first give a history whose ids decrease. |
| Records.PresentRows | Server.js:227-237 | Each row becomes a message with the row's id, `{uname, role}`, text and `created_at`, in the same position. |
| Session.AddClientJoinsIffFresh | Server.js:272-292 | `user_joined` is emitted, and the user added to `users` and to the room, exactly when the user name had no `users` entry before. An existing entry is kept. The socket always maps to the client. |
| Session.AddAnonymousClient | Server.js:266-292 | A client without a user changes only the client table, apart from creating its room. |
| Session.AddClientFrame | Server.js:266-300 | Admission changes no other room, no store write and no other user name. The payload carries the client's user and its room as it now stands. |
| Session.RemoveUnknownSocket | Server.js:163-168 | Tearing down a socket with no client changes nothing. |
| Session.RemoveSocketIdempotent | Server.js:162-205 | After teardown the socket has no client, and a second teardown changes nothing. |
| Session.RemoveSocketLeavesIffLast | Server.js:175-202 | The client is removed. `user_left` is emitted, and the user name deleted from `users` and from the room, exactly when no other session of that user name remains in that same room. Otherwise nothing else changes. |
| Session.RemoveAnonymousSocket | Server.js:175-177 | Tearing down an anonymous socket only removes its client. |
| Session.InsertMessageAppends | Server.js:138-160 | The message carries the author's `{uname, role}` and the text. Exactly one store write is logged. The history gains the message at its end and, when full, loses its oldest entry, so it stays within 250. Nothing else changes. |
| Session.RejectedAuthCreatesNoClient | Server.js:57-90 | A rejected request emits one `client_error` to its socket, does not answer the callback and changes nothing else. |
| Session.FailedAuthChangesNothing | Server.js:78-110 | A directory error answers the callback with `INTERNAL_ERROR` and leaves the state unchanged. |
| Session.AdmittedAuthRegistersClient | Server.js:92-127 | An admitted socket gets a client in `'app:' + app.id`, with the decided user, and the callback receives the init payload for that room. |
| Auth.MalformedRequestMakesNoLookup | Server.js:57-73 | A payload that is not a plain object, has no numeric `app_id`, or comes without a callback gets the `client_error` of the first failed check. No directory call is made. |
| Auth.AppLookupComesFirst | Server.js:78-90 | A well-formed request first looks its application up. A directory error fails with `INTERNAL_ERROR` and a missing application is rejected, both after that single call. |
| Auth.AdmittedRoomIsAppRoom | Server.js:92-127 | Every admission passed validation, found its application, and joins the room `'app:' + app.id`. |
| Auth.TokenLookupIffStringToken | Server.js:96-104 | The token is looked up exactly when the request is valid, the application exists and the `hashed_token`, or failing that `token_hash`, is a string. |
| Auth.AnonymousIffNoTokenOrInvalid | Server.js:95-117 | Once the application is found, the session is admitted anonymously exactly when no token string was sent or the directory called the token invalid. |
| Auth.IdentifiedUserRole | Server.js:119-127 | An identified session carries the directory's user. Its role is `owner` exactly when the application lists the user name as an owner; otherwise it is the directory's role. |
| Auth.EmptyHashedTokenFallsBack | Server.js:96 | An empty `hashed_token` is falsy, so `token_hash` is used. |
| Auth.NonStringHashedTokenIsAnonymous | Server.js:96-99 | A truthy non-string `hashed_token` hides a string `token_hash`, so the session is anonymous and no token lookup happens. |
| Auth.RoomNameInjective | Server.js:93 | Distinct application ids never share a room name. |
| Decimal.IntToStringRoundTrip | Server.js:93 | The decimal rendering of any integer parses back to that integer. |
| Decimal.IntToStringInjective | Server.js:93 | Distinct integers render to distinct strings. |
| History.HistoryBuffer.constructor | Server.js:239 | `new CBuffer(cap)` is an empty buffer of that capacity. |
| History.HistoryBuffer.Push | Server.js:157 | A push appends, and a full buffer overwrites its oldest entry: the contents become `Window(old + [x], capacity)`. |
| History.HistoryBuffer.PushAll | Server.js:241 | `push.apply` pushes every element first to last: the contents become the newest `capacity` of everything pushed. |
| History.HistoryBuffer.ToSeq | Server.js:243-251 | Reads the buffer's entries oldest first, exactly its contents. |
| History.WindowIsNewestSuffix | Server.js:239 | The buffer never holds more than its capacity, and what it holds is the newest suffix of what was pushed. |
| History.WindowPush | Server.js:157 | One push into the window of a sequence is the window of that sequence extended by the new entry. |
| History.PushEvictsOldest | Server.js:157 | A full buffer loses exactly its oldest entry on a push. |
| History.PushKeepsAllWhenNotFull | Server.js:157 | A buffer that is not full keeps everything and appends. |
| History.PushEachIsWindow | Server.js:241 | Pushing any number of entries one by one leaves exactly the newest `capacity` of all pushed, in insertion order. |
| Presence.SessionIsLive | Server.js:182-186 | The remaining-client test holds exactly when the (room, user name) pair is live in the client table. |
| Presence.InitialIsCoherent | Server.js:19-26 | The empty registries satisfy the presence invariant. |
| Presence.FetchOrCreateKeepsWellFormed | Server.js:209-260 | Creating or fetching a room keeps every history within 250 and every registry consistent. |
| Presence.FetchOrCreateKeepsCoherent | Server.js:209-260 | Creating or fetching a room keeps the presence invariant. A new room has no live user. |
| Presence.AddClientKeepsWellFormed | Server.js:262-303 | Admitting a client on a new socket keeps clients keyed by socket with existing rooms, and `users` and the rooms' user maps naming only live users. |
| Presence.AddClientKeepsCoherent | Server.js:262-303 | Admitting a client whose user name is live in no other room keeps `users` and the room's user map equal to the live sessions. Any `user_joined` announces a pair not yet present. |
| Presence.RemoveSocketKeepsWellFormed | Server.js:162-205 | Teardown keeps the registries well formed. |
| Presence.RemoveSocketKeepsCoherent | Server.js:162-205 | Teardown keeps the presence invariant. Any `user_left` retires a pair that was present. |
| Presence.InsertMessageKeepsWellFormed | Server.js:138-160 | Inserting a message keeps every history within 250 entries. |
| Presence.InsertMessageKeepsCoherent | Server.js:138-160 | Inserting a message leaves presence untouched. |
| Presence.OnAuthKeepsWellFormed | Server.js:53-136 | Every outcome of the handshake keeps the registries well formed. |
| Presence.OnAuthKeepsCoherent | Server.js:53-136 | Every outcome of the handshake keeps the presence invariant, as long as it does not put a user name into a second room. |
| Presence.RunKeepsWellFormed | Server.js:53-205 | Over any run of handshakes, disconnects and posts, histories stay within 250 and the registries stay well formed. |
| Presence.RunKeepsCoherent | Server.js:53-205 | Over any run that keeps each user name in one room, presence events alternate per (room, user name). The announced pairs, `users` and the rooms' user maps equal the live sessions. |
| Presence.PresenceDeduplicated | Server.js:272-292 | From a fresh server, over any run in which no user name is live in two rooms at once (`OneRoomRun`), `user_joined` and `user_left` never repeat for a (room, user name), and `users` names exactly the live users. |
| Presence.CrossRoomDisconnectRepeatsJoin | Server.js:177-202 | With one user name connected to two rooms, closing the second socket deletes the user globally. A later connection to the first room is announced again while the first socket is still there. |

## Left out

- The socket.io transport: connection setup, the `error` listener and the `disconnect` registration (`Server.js:34-45`, `131-134`) are not modelled. A run (`Presence.Step`) is the sequence of handshakes, disconnects and posts they deliver. `Presence.Enabled` only asks that an authenticating socket has no client yet. A run may therefore let a rejected or already disconnected socket authenticate again, which `socket.once('auth')` prevents. These extra runs only widen what the run lemmas cover.
- The application directory (`moneypotAPI`) is not part of this model. Its answers are inputs to the handshake (`Auth.AppLookup`, `Auth.TokenLookup`).
- The message store (`db.js`) is a collaborator:
  - The rows returned for a new room are an input.
  - `insertChatMessage` is a log of writes; its own result and failures are not modelled.
  - A failed fetch is not modelled. The source ignores the error and would crash on `messages.map`.
- `Math.random()` message ids are not modelled as floating-point numbers. They become a natural-number input (`RandomId(draw)`).
- `Lib.roomToArray` is not part of this model. The init payload carries the room value it would render.
- The `Client` constructor (`Client.js`) is not part of this model. A client is its socket id, room and optional user.
- Asynchronous interleaving is not modelled. Each operation runs to completion as one step, so two overlapping creations of the same room, which the source does not serialise, are not modelled.
- Logging (`debug`, `console.error`) is not modelled.
- JavaScript objects used as dictionaries are maps. A truthy lookup is membership, and inherited keys such as `constructor` are not modelled.
- Numbers are unbounded integers. `typeof ... === 'number'` also accepts NaN, fractions and infinities, and their rendering into room names is not modelled. Integers of magnitude 1e21 or more, which JavaScript renders in exponent form (`'app:' + 1e21` is `app:1e+21`), are not modelled either: `Decimal.IntToString` writes out all their digits. Integers above 2^53 are not distinct JavaScript numbers, and the model treats them as distinct.
- `user.role = 'owner'` mutates the directory's user object. The model builds a new user value instead, so aliasing of that object is not captured.
- Chat.Server rooms hold their history as the sequence the buffer holds, not as a reference to a `CBuffer` object.
  - `Chat.NewHistory` builds the buffer with `HistoryBuffer` and the room keeps its contents.
  - `Chat.Server.InsertMessage` pushes through `Window`, which `History.HistoryBuffer.Push` is proved to follow.
  - In-place mutation and aliasing of a room's buffer object are therefore not captured.
- The rooms' `muteList` and `clients` maps are never written by this code. They stay empty.
- Session.InsertMessage and Chat.Server.InsertMessage require an existing room and a user record. Their callers are not part of this model and are taken to pass both. For a missing room the source hands the write to the store and then throws on `this.rooms[roomName].history` (`Server.js:150-157`), so the write happens but nothing is pushed. For an undefined user it throws on `user.uname` (`Server.js:144`) before any write. Neither failure is modelled.
