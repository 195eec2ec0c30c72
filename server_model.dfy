/** The state machine of rumble_server/server.py as values: the three
    dictionaries of a server and what each operation does to them. */
module ServerModel {
  import opened Aborts
  import opened Users
  import opened RoomModel

  /** `users`: username to user; `sessions` (`logged_in_users`): token to
      user; `rooms`: room name to room. */
  datatype ServerState = ServerState(
    users: map<string, User>,
    sessions: map<Token, User>,
    rooms: map<string, RoomState>)

  /** A server as `__init__` builds it. */
  function Empty(): (s: ServerState) {
    ServerState(map[], map[], map[])
  }

  function UsernameTaken(username: string): (msg: string) {
    "Username " + username + " is already taken"
  }

  function HandleTaken(handle: string): (msg: string) {
    "Handle " + handle + " is already taken"
  }

  const InvalidCredentials := "Invalid username or password"
  const UnauthorizedUser := "Unauthorized user"
  const RoomExists := "A room with this name already exists"
  const RoomNotFound := "Room not found"

  /** What every reachable state satisfies: users are filed under their own
      username with pairwise distinct handles, every session belongs to a
      registered user, rooms are filed under their own name, and every member
      token of a room is a live session of the same user. */
  ghost predicate Invariant(s: ServerState) {
    && (forall n :: n in s.users ==> s.users[n].username == n)
    && (forall a, b :: a in s.users && b in s.users && a != b ==> s.users[a].handle != s.users[b].handle)
    && (forall t :: t in s.sessions ==>
          s.sessions[t].username in s.users && s.users[s.sessions[t].username] == s.sessions[t])
    && (forall n :: n in s.rooms ==> s.rooms[n].name == n)
    && (forall n, t :: n in s.rooms && t in s.rooms[n].members ==>
          t in s.sessions && s.rooms[n].members[t] == s.sessions[t])
  }

  lemma EmptySatisfiesInvariant()
    ensures Invariant(Empty())
  {
  }

  // ---------------------------------------------------------------- register

  /** Some entry other than `username` already has this handle. */
  predicate HandleClash(users: map<string, User>, username: string, handle: string) {
    exists n :: n in users && n != username && users[n].handle == handle
  }

  /** The aborts `register` may raise. It scans the users in dictionary order
      and aborts at the first entry whose key is the username or whose handle
      is the handle, the username test first; so when both kinds of clash
      exist, either message may come out. */
  ghost predicate RegisterRejection(users: map<string, User>, username: string, handle: string, r: Result<()>) {
    || (username in users && r == Abort(BadRequest, UsernameTaken(username)))
    || (HandleClash(users, username, handle) && r == Abort(BadRequest, HandleTaken(handle)))
  }

  /** One `register` call, from `s` to `s'` with outcome `r`. */
  ghost predicate RegisterStep(s: ServerState, username: string, password: string, handle: string,
                               r: Result<()>, s': ServerState) {
    if username in s.users || HandleClash(s.users, username, handle) then
      s' == s && RegisterRejection(s.users, username, handle, r)
    else
      r == Ok(()) && s' == s.(users := s.users[username := User(username, password, handle, true)])
  }

  lemma RegisterKeepsInvariant(s: ServerState, username: string, password: string, handle: string,
                               r: Result<()>, s': ServerState)
    requires Invariant(s) && RegisterStep(s, username, password, handle, r, s')
    ensures Invariant(s')
  {
  }

  /** A taken username always fails with 400 and changes nothing; the message
      names the username unless another user also holds the handle. */
  lemma RegisterUsernameTaken(s: ServerState, username: string, password: string, handle: string,
                              r: Result<()>, s': ServerState)
    requires username in s.users && RegisterStep(s, username, password, handle, r, s')
    ensures s' == s
    ensures r == Abort(400, UsernameTaken(username)) || r == Abort(400, HandleTaken(handle))
    ensures !HandleClash(s.users, username, handle) ==> r == Abort(400, UsernameTaken(username))
  {
  }

  /** A handle held by another user always fails with 400 and changes nothing;
      the message names the handle unless the username is taken as well. */
  lemma RegisterHandleTaken(s: ServerState, username: string, password: string, handle: string,
                            r: Result<()>, s': ServerState, other: string)
    requires other in s.users && other != username && s.users[other].handle == handle
    requires RegisterStep(s, username, password, handle, r, s')
    ensures s' == s
    ensures r == Abort(400, UsernameTaken(username)) || r == Abort(400, HandleTaken(handle))
    ensures username !in s.users ==> r == Abort(400, HandleTaken(handle))
  {
  }

  /** Without a clash, `register` files exactly one new registered user under
      its username, so the directory grows by one; no other entry and no
      other map changes. */
  lemma RegisterAddsOneUser(s: ServerState, username: string, password: string, handle: string,
                            r: Result<()>, s': ServerState)
    requires username !in s.users && forall n :: n in s.users ==> s.users[n].handle != handle
    requires RegisterStep(s, username, password, handle, r, s')
    ensures r == Ok(())
    ensures s'.users == s.users[username := User(username, password, handle, true)]
    ensures |s'.users| == |s.users| + 1
    ensures s'.sessions == s.sessions && s'.rooms == s.rooms
  {
    assert !HandleClash(s.users, username, handle);
  }

  // ------------------------------------------------------------------- login

  /** `login` with `token` standing for the fresh identifier it draws. */
  function Login(s: ServerState, username: string, password: string, token: Token): (r: Result<ServerState>)
    requires token !in s.sessions
  {
    if username !in s.users || password != s.users[username].password then
      Abort(BadRequest, InvalidCredentials)
    else
      Ok(s.(sessions := s.sessions[token := s.users[username]]))
  }

  /** Login fails with 400 exactly on an unknown username or a wrong password. */
  lemma LoginFailsOnBadCredentials(s: ServerState, username: string, password: string, token: Token)
    requires token !in s.sessions
    ensures Login(s, username, password, token).Abort? <==>
      (username !in s.users || s.users[username].password != password)
    ensures Login(s, username, password, token).Abort? ==>
      Login(s, username, password, token) == Abort(400, "Invalid username or password")
  {
  }

  /** A successful login maps the new token to the user with that username
      and keeps every earlier session. */
  lemma LoginOpensSession(s: ServerState, username: string, password: string, token: Token)
    requires Invariant(s) && token !in s.sessions
    requires Login(s, username, password, token).Ok?
    ensures var s' := Login(s, username, password, token).value;
      && Invariant(s')
      && token in s'.sessions && s'.sessions[token].username == username
      && s'.sessions[token].password == password
      && (forall t :: t in s.sessions ==> t in s'.sessions && s'.sessions[t] == s.sessions[t])
      && s'.users == s.users && s'.rooms == s.rooms
  {
  }

  /** Logging in again is not refused, and the first session stays live. */
  lemma ReloginKeepsBothSessions(s: ServerState, username: string, password: string, t1: Token, t2: Token)
    requires Invariant(s) && t1 != t2 && t1 !in s.sessions && t2 !in s.sessions
    requires Login(s, username, password, t1).Ok?
    ensures var s1 := Login(s, username, password, t1).value;
      && Login(s1, username, password, t2).Ok?
      && var s2 := Login(s1, username, password, t2).value;
      t1 in s2.sessions && t2 in s2.sessions && s2.sessions[t1] == s2.sessions[t2]
  {
  }

  // ------------------------------------------------------------------- rooms

  function CreateRoom(s: ServerState, token: Token, name: string): (r: Result<ServerState>) {
    if token !in s.sessions then Abort(Unauthorized, UnauthorizedUser)
    else if name in s.rooms then Abort(BadRequest, RoomExists)
    else Ok(s.(rooms := s.rooms[name := RoomState(name, map[], map[])]))
  }

  function DestroyRoom(s: ServerState, token: Token, name: string): (r: Result<ServerState>) {
    if token !in s.sessions then Abort(Unauthorized, UnauthorizedUser)
    else if name !in s.rooms then Abort(NotFound, RoomNotFound)
    else Ok(s.(rooms := s.rooms - {name}))
  }

  function JoinRoom(s: ServerState, token: Token, name: string): (r: Result<ServerState>) {
    if token !in s.sessions then Abort(Unauthorized, UnauthorizedUser)
    else if name !in s.rooms then Abort(NotFound, RoomNotFound)
    else
      match WithMember(s.rooms[name].members, token, s.sessions[token])
      case Abort(c, m) => Abort(c, m)
      case Ok(ms) => Ok(s.(rooms := s.rooms[name := s.rooms[name].(members := ms)]))
  }

  function LeaveRoom(s: ServerState, token: Token, name: string): (r: Result<ServerState>) {
    if token !in s.sessions then Abort(Unauthorized, UnauthorizedUser)
    else if name !in s.rooms then Abort(NotFound, RoomNotFound)
    else
      match WithoutMember(s.rooms[name].members, token)
      case Abort(c, m) => Abort(c, m)
      case Ok(ms) => Ok(s.(rooms := s.rooms[name := s.rooms[name].(members := ms)]))
  }

  /** `get_rooms`: the names of the rooms, for a live session. */
  function Rooms(s: ServerState, token: Token): (r: Result<set<string>>) {
    if token !in s.sessions then Abort(Unauthorized, UnauthorizedUser) else Ok(s.rooms.Keys)
  }

  /** `get_room_members`: the handles of a room's members, as a multiset. */
  ghost function RoomMembers(s: ServerState, token: Token, name: string): (r: Result<multiset<string>>) {
    if token !in s.sessions then Abort(Unauthorized, UnauthorizedUser)
    else if name !in s.rooms then Abort(NotFound, RoomNotFound)
    else Ok(HandlesOf(s.rooms[name].members, s.rooms[name].members.Keys))
  }

  /** The token is checked before anything else: an unknown token gets 401
      from every room operation, whether or not the room exists. */
  lemma UnknownTokenUnauthorized(s: ServerState, token: Token, name: string)
    requires token !in s.sessions
    ensures CreateRoom(s, token, name) == Abort(401, "Unauthorized user")
    ensures DestroyRoom(s, token, name) == Abort(401, "Unauthorized user")
    ensures JoinRoom(s, token, name) == Abort(401, "Unauthorized user")
    ensures LeaveRoom(s, token, name) == Abort(401, "Unauthorized user")
    ensures Rooms(s, token) == Abort(401, "Unauthorized user")
    ensures RoomMembers(s, token, name) == Abort(401, "Unauthorized user")
  {
  }

  /** A 404 is only ever given to a live session. */
  lemma NotFoundOnlyForLiveSession(s: ServerState, token: Token, name: string)
    ensures DestroyRoom(s, token, name).Abort? && DestroyRoom(s, token, name).code == 404 ==> token in s.sessions
    ensures JoinRoom(s, token, name).Abort? && JoinRoom(s, token, name).code == 404 ==> token in s.sessions
    ensures LeaveRoom(s, token, name).Abort? && LeaveRoom(s, token, name).code == 404 ==> token in s.sessions
    ensures RoomMembers(s, token, name).Abort? && RoomMembers(s, token, name).code == 404 ==> token in s.sessions
  {
  }

  /** `create_room` succeeds exactly for a live session and an unused name,
      adds an empty room under that name and changes no other room. */
  lemma CreateRoomAddsEmptyRoom(s: ServerState, token: Token, name: string)
    requires Invariant(s)
    ensures CreateRoom(s, token, name).Ok? <==> token in s.sessions && name !in s.rooms
    ensures token in s.sessions && name in s.rooms ==>
      CreateRoom(s, token, name) == Abort(400, "A room with this name already exists")
    ensures CreateRoom(s, token, name).Ok? ==>
      var s' := CreateRoom(s, token, name).value;
      && Invariant(s')
      && s'.rooms.Keys == s.rooms.Keys + {name}
      && s'.rooms[name] == RoomState(name, map[], map[])
      && (forall n :: n in s.rooms ==> s'.rooms[n] == s.rooms[n])
      && s'.users == s.users && s'.sessions == s.sessions
  {
  }

  /** `destroy_room` succeeds exactly for a live session and an existing name
      and drops that room, with its members and messages, and no other. */
  lemma DestroyRoomRemovesRoom(s: ServerState, token: Token, name: string)
    requires Invariant(s)
    ensures DestroyRoom(s, token, name).Ok? <==> token in s.sessions && name in s.rooms
    ensures token in s.sessions && name !in s.rooms ==> DestroyRoom(s, token, name) == Abort(404, "Room not found")
    ensures DestroyRoom(s, token, name).Ok? ==>
      var s' := DestroyRoom(s, token, name).value;
      && Invariant(s')
      && s'.rooms.Keys == s.rooms.Keys - {name}
      && (forall n :: n in s'.rooms ==> s'.rooms[n] == s.rooms[n])
      && s'.users == s.users && s'.sessions == s.sessions
  {
  }

  /** A destroyed name can be created again, and the new room starts empty:
      nothing of the old room's members or messages survives. */
  lemma {:induction false} DestroyThenCreate(s: ServerState, token: Token, name: string)
    requires DestroyRoom(s, token, name).Ok?
    ensures var s1 := DestroyRoom(s, token, name).value;
      && CreateRoom(s1, token, name).Ok?
      && CreateRoom(s1, token, name).value.rooms[name] == RoomState(name, map[], map[])
  {
  }

  /** `join_room` adds the caller's token, mapped to the caller's user, to one
      room; a token already in the room is refused with 400 and nothing changes. */
  lemma JoinRoomAddsMember(s: ServerState, token: Token, name: string)
    requires Invariant(s) && token in s.sessions && name in s.rooms
    ensures token in s.rooms[name].members ==> JoinRoom(s, token, name) == Abort(400, "User already in the room")
    ensures token !in s.rooms[name].members ==>
      && JoinRoom(s, token, name).Ok?
      && var s' := JoinRoom(s, token, name).value;
      && Invariant(s')
      && s'.rooms.Keys == s.rooms.Keys
      && s'.rooms[name].members == s.rooms[name].members[token := s.sessions[token]]
      && s'.rooms[name].name == name && s'.rooms[name].messages == s.rooms[name].messages
      && (forall n :: n in s.rooms && n != name ==> s'.rooms[n] == s.rooms[n])
      && s'.users == s.users && s'.sessions == s.sessions
  {
  }

  /** `leave_room` removes the caller's token from one room; a token not in
      the room is refused with 404 and nothing changes. */
  lemma LeaveRoomRemovesMember(s: ServerState, token: Token, name: string)
    requires Invariant(s) && token in s.sessions && name in s.rooms
    ensures token !in s.rooms[name].members ==> LeaveRoom(s, token, name) == Abort(404, "User not found")
    ensures token in s.rooms[name].members ==>
      && LeaveRoom(s, token, name).Ok?
      && var s' := LeaveRoom(s, token, name).value;
      && Invariant(s')
      && s'.rooms.Keys == s.rooms.Keys
      && s'.rooms[name].members == s.rooms[name].members - {token}
      && s'.rooms[name].name == name && s'.rooms[name].messages == s.rooms[name].messages
      && (forall n :: n in s.rooms && n != name ==> s'.rooms[n] == s.rooms[n])
      && s'.users == s.users && s'.sessions == s.sessions
  {
  }

  /** Joining and then leaving the same room with the same token restores the
      whole server state. */
  lemma {:induction false} JoinThenLeave(s: ServerState, token: Token, name: string)
    requires JoinRoom(s, token, name).Ok?
    ensures LeaveRoom(JoinRoom(s, token, name).value, token, name) == Ok(s)
  {
    var room := s.rooms[name];
    var user := s.sessions[token];
    AddThenRemove(room.members, token, user);
    var s1 := JoinRoom(s, token, name).value;
    assert s1.rooms[name].members == room.members[token := user];
    assert WithoutMember(s1.rooms[name].members, token) == Ok(room.members);
    assert s1.rooms[name].(members := room.members) == room;
    assert s1.rooms[name := room] == s.rooms;
  }

  /** Two sessions of the same user are two distinct members of a room. */
  lemma TwoSessionsBothJoin(s: ServerState, t1: Token, t2: Token, name: string)
    requires Invariant(s) && t1 != t2 && t1 in s.sessions && t2 in s.sessions
    requires s.sessions[t1] == s.sessions[t2]
    requires name in s.rooms && t1 !in s.rooms[name].members && t2 !in s.rooms[name].members
    ensures JoinRoom(s, t1, name).Ok?
    ensures var s1 := JoinRoom(s, t1, name).value;
      && JoinRoom(s1, t2, name).Ok?
      && var s2 := JoinRoom(s1, t2, name).value;
      |s2.rooms[name].members| == |s.rooms[name].members| + 2
  {
  }

  /** `get_rooms` gives exactly the names of the existing rooms. */
  lemma RoomsAreTheNames(s: ServerState, token: Token, name: string)
    requires token in s.sessions
    ensures Rooms(s, token).Ok?
    ensures name in Rooms(s, token).value <==> name in s.rooms
  {
  }

  /** `get_room_members` gives one handle per member token, and a handle is
      listed exactly when a member holds it. */
  lemma RoomMembersOnePerToken(s: ServerState, token: Token, name: string, h: string)
    requires RoomMembers(s, token, name).Ok?
    ensures var hs := RoomMembers(s, token, name).value;
      && |hs| == |s.rooms[name].members|
      && (h in hs <==> exists t :: t in s.rooms[name].members && s.rooms[name].members[t].handle == h)
  {
    var ms := s.rooms[name].members;
    HandlesOfSize(ms, ms.Keys);
    HandlesOfMembership(ms, ms.Keys, h);
  }
}
