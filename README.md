# rumble-server chat state, modelled in Dafny

This project models the in-memory state machine of the rumble chat server. The server keeps three dictionaries:

- `users`: username → user
- `logged_in_users`: session token → user
- `rooms`: room name → room

Each room keeps its own `members` dictionary, which maps a session token to a user. The server has eight guarded operations: `register`, `login`, `create_room`, `destroy_room`, `join_room`, `leave_room`, `get_rooms` and `get_room_members`. Each one checks its guards in a fixed order, and a failed guard aborts with an HTTP status (400, 401 or 404) and a message and changes nothing. Past the guards, each of the six mutating operations changes one entry of one dictionary: `users`, `logged_in_users` or `rooms`. For `join_room` and `leave_room`, that dictionary is the room's own `members`. `get_rooms` and `get_room_members` only read.

Modules:

- `Aborts` (aborts.dfy): `Result<T>`, which is either `Ok(value)` or `Abort(code, message)`. It stands for flask's `abort`.
- `Users` (users.dfy): the `User` record and its `__eq__`.
- `RoomModel` (room_model.dfy): a room as a value, plus the pure meaning of adding and removing a member (`WithMember`, `WithoutMember`). It also holds the multiset of member handles (`HandlesOf`).
- `ServerRoom` (server_room.dfy) and `RootRoom` (root_room.dfy): the class `Room` of rumble_server/room.py and of the top-level copy room.py. Each has mutable `name`, `members` and `messages` fields. `AddMember` and `RemoveMember` are proved to update `members` as `WithMember` and `WithoutMember` say.
- `ServerModel` (server_model.dfy): the whole server as a value `ServerState(users, sessions, rooms)`, with one transition per operation. It also states the invariant every reachable state keeps:
  - users are filed under their own username;
  - handles are pairwise distinct;
  - every session belongs to a registered user;
  - rooms are filed under their own name;
  - every member token of a room is a live session of the same user.
  The lemmas in this module prove the properties of the transitions.
- `Server` (server.dfy): the class `Server` with the three map fields, updated in place. Each method is proved to move `State()` exactly as its transition says, and to leave the state unchanged on an abort. `CheckAvailable` is the scanning loop of `register`.

Where the code and tests/server_test.py disagree, the model follows the code:
- A bad login aborts with 400 (server.py:69-70); tests/server_test.py:131-145 expect 401.
- Logging in again is not refused, and it does not end the earlier session; both tokens stay live (server.py:72-74). tests/server_test.py:149-159 expect 400 on a second login.
- The tests also exercise logout, message posting and message queries, which the server code does not have.

Two further modelling choices:
- Room membership is keyed by session token, not by user (server.py:102, rumble_server/room.py:12-14). Two sessions of one user can both join a room.
- `register` scans the users in dictionary order (server.py:51-57). When the username clashes with one user and the handle with another, either message may be the one raised, so `register` is modelled as a relation (`ServerModel.RegisterStep`).

## Model

| member | source | states |
|---|---|---|
| `Users.Equals` | rumble_server/user.py:9-11 | `__eq__` holds exactly when the two users are the same record |
| `Users.ConstructorStoresFields` | rumble_server/user.py:2-11 | the constructor stores username, password, handle and registered as given, and two users built from the same values are equal |
| `Users.EqualsFieldwise` | rumble_server/user.py:9-11 | equality holds iff all four fields are pairwise equal |
| `Users.EqualsReflexive` | rumble_server/user.py:9-11 | every user equals itself |
| `Users.EqualsSymmetric` | rumble_server/user.py:9-11 | equality is symmetric |
| `Users.RegisteredFlagDistinguishes` | rumble_server/user.py:10-11 | users that differ only in `registered` are unequal |
| `RoomModel.AddDuplicateRefused` | rumble_server/room.py:12-13 | adding a token already present aborts with 400 "User already in the room" |
| `RoomModel.AddInsertsOnlyToken` | rumble_server/room.py:14 | a successful add maps the token to the user, keeps every other entry, and grows the room by one |
| `RoomModel.RemoveAbsentRefused` | rumble_server/room.py:17-18 | removing an absent token aborts with 404 "User not found" |
| `RoomModel.RemoveDeletesOnlyToken` | rumble_server/room.py:19 | a successful remove deletes only that token and shrinks the room by one |
| `RoomModel.AddThenRemove` | rumble_server/room.py:11-19 | add of a fresh token followed by its remove restores the members; room.py:11-19 is the same code |
| `RoomModel.TwoTokensOfOneUser` | rumble_server/room.py:11-14 | two distinct tokens of the same user can both be members |
| `RoomModel.HandlesOfSize` | rumble_server/server.py:121-122 | the member listing has one handle per member token |
| `RoomModel.HandlesOfMembership` | rumble_server/server.py:121-122 | a handle is listed iff some member token carries it |
| `ServerRoom.Room.constructor` | rumble_server/room.py:5-9 | the room stores name, members and messages as given |
| `ServerRoom.Room.AddMember` | rumble_server/room.py:11-14 | on a present token: abort 400 and members unchanged; otherwise `members[token] := user`; name and messages untouched |
| `ServerRoom.Room.RemoveMember` | rumble_server/room.py:16-19 | on an absent token: abort 404 and members unchanged; otherwise only that token is deleted; name and messages untouched |
| `RootRoom.Room.constructor` | room.py:5-9 | the room stores name, members and messages as given |
| `RootRoom.Room.AddMember` | room.py:11-14 | on a present `user_id`: abort 400 and members unchanged; otherwise `members[user_id] := user`; name and messages untouched |
| `RootRoom.Room.RemoveMember` | room.py:16-19 | on an absent `user_id`: abort 404 and members unchanged; otherwise only `user_id` is deleted; name and messages untouched |
| `ServerModel.EmptySatisfiesInvariant` | rumble_server/server.py:18-21 | the empty server satisfies the state invariant |
| `ServerModel.RegisterKeepsInvariant` | rumble_server/server.py:47-59 | every outcome of register keeps the invariant: keys equal usernames, handles stay pairwise distinct |
| `ServerModel.RegisterUsernameTaken` | rumble_server/server.py:51-54 | a taken username aborts with 400 and changes nothing; the message names the username unless another user also has the handle |
| `ServerModel.RegisterHandleTaken` | rumble_server/server.py:55-57 | a handle held by a user with another username aborts with 400 and changes nothing; the message names the handle unless the username is taken too |
| `ServerModel.RegisterAddsOneUser` | rumble_server/server.py:58-59 | without a clash, register adds exactly `users[username] = User(username, password, handle, True)`, the directory grows by one, and sessions and rooms are unchanged |
| `ServerModel.LoginFailsOnBadCredentials` | rumble_server/server.py:68-70 | login aborts with 400 "Invalid username or password" iff the username is unknown or the password differs |
| `ServerModel.LoginOpensSession` | rumble_server/server.py:72-74 | a successful login maps the new token to that user, keeps every earlier session and the invariant |
| `ServerModel.ReloginKeepsBothSessions` | rumble_server/server.py:68-74 | logging in again succeeds, and both tokens resolve to the same user |
| `ServerModel.UnknownTokenUnauthorized` | rumble_server/server.py:83-84 | every room operation gives 401 to an unknown token, whether or not the room exists (also lines 91-92, 98-99, 105-106, 112-113, 117-118) |
| `ServerModel.NotFoundOnlyForLiveSession` | rumble_server/server.py:91-94 | a 404 from destroy, join, leave or member listing implies a live token (also lines 98-101, 105-109, 117-120) |
| `ServerModel.CreateRoomAddsEmptyRoom` | rumble_server/server.py:82-88 | create succeeds iff the token is live and the name is new; a taken name gives 400; success adds an empty room of that name, changes no other room, and keeps the invariant |
| `ServerModel.DestroyRoomRemovesRoom` | rumble_server/server.py:90-95 | destroy succeeds iff the token is live and the room exists; a missing room gives 404; success drops that room only, and keeps the invariant |
| `ServerModel.DestroyThenCreate` | rumble_server/server.py:85-95 | after a destroy, creating the same name succeeds, and the new room has no members and no messages |
| `ServerModel.JoinRoomAddsMember` | rumble_server/server.py:97-102 | join adds the caller's token to that room only, mapped to the caller's user; a token already in the room gives 400 |
| `ServerModel.LeaveRoomRemovesMember` | rumble_server/server.py:104-109 | leave removes the caller's token from that room only; a token not in the room gives 404 |
| `ServerModel.JoinThenLeave` | rumble_server/server.py:97-109 | a successful join followed by a leave restores the whole state |
| `ServerModel.TwoSessionsBothJoin` | rumble_server/server.py:97-102 | two sessions of one user join a room as two members |
| `ServerModel.RoomsAreTheNames` | rumble_server/server.py:111-114 | get_rooms lists exactly the existing room names |
| `ServerModel.RoomMembersOnePerToken` | rumble_server/server.py:116-122 | the member listing has one handle per member token, and it has exactly the members' handles |
| `Server.CheckAvailable` | rumble_server/server.py:51-57 | the scan passes iff the username is free and no other user has the handle; otherwise it aborts with one of the two 400 messages |
| `Server.Server.constructor` | rumble_server/server.py:18-21 | a new server has three empty maps and satisfies the invariant |
| `Server.Server.Register` | rumble_server/server.py:47-59 | register moves the state as `RegisterStep` allows, and keeps the invariant |
| `Server.Server.Login` | rumble_server/server.py:61-74 | login returns the token and moves the state as the login transition says; an abort leaves the state unchanged |
| `Server.Server.CreateRoom` | rumble_server/server.py:82-88 | create_room follows its transition; on success the room object filed under the name is new and no other entry of `rooms` changes; an abort leaves the state and `rooms` unchanged |
| `Server.Server.DestroyRoom` | rumble_server/server.py:90-95 | destroy_room follows its transition; on success only that name leaves `rooms`; an abort leaves the state and `rooms` unchanged |
| `Server.Server.JoinRoom` | rumble_server/server.py:97-102 | join_room updates only that room's members in place; an abort leaves the state unchanged |
| `Server.Server.LeaveRoom` | rumble_server/server.py:104-109 | leave_room updates only that room's members in place; an abort leaves the state unchanged |
| `Server.Server.GetRooms` | rumble_server/server.py:111-114 | get_rooms reads only: 401 for an unknown token, otherwise the room names |
| `Server.Server.GetRoomMembers` | rumble_server/server.py:116-122 | get_room_members reads only: 401, then 404, otherwise a list whose multiset is the members' handles |

## Left out

- Persistence: `_load_all_*` and `_save_all_*` are empty stubs, and the sqlite schema is not part of this model.
- `handle_message` does nothing. Logout, message posting and message queries do not exist in the server code, so none of them is modelled.
- Token generation by `uuid.uuid4()` is replaced by a `token` parameter. The parameter is required not to be a live session already.
- The module-level singleton `get_instance` is left out; a single `Server` is built by its constructor.
- The HTTP resources, request parsing, route wiring and command-line bootstrap are left out.
- Server.Server.GetRooms: returns the room names as a set. The order of Python's `keys()` list is not modelled.
- Server.Server.GetRoomMembers: the list is specified up to order, through its multiset. Dictionary iteration order is not modelled.
- Room dictionaries are values here. The constructor's `members` and `messages` arguments cannot be aliased by the caller. The server only ever passes fresh empty dictionaries.
- The content and keys of a room's `messages` are never written by the server code, so `Message` and its `nat` key are placeholders.
