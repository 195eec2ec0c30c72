/** rumble_server/server.py: the server object, whose three dictionaries are
    updated in place by its operations. Each operation is proved to do what
    the matching transition of ServerModel does. */
module Server {
  import opened Aborts
  import opened Users
  import opened RoomModel
  import ServerModel
  import ServerRoom

  /** The loop at the head of `register`: scan the users in any order and abort
      at the first entry whose key is the username or whose handle is the handle. */
  method CheckAvailable(users: map<string, User>, username: string, handle: string) returns (r: Result<()>)
    ensures r.Ok? <==> username !in users && !ServerModel.HandleClash(users, username, handle)
    ensures r.Abort? ==> ServerModel.RegisterRejection(users, username, handle, r)
  {
    var unvisited := users.Keys;
    while unvisited != {}
      invariant unvisited <= users.Keys
      invariant username in users ==> username in unvisited
      invariant forall n :: n in users && n !in unvisited ==> users[n].handle != handle
      decreases unvisited
    {
      var name :| name in unvisited;
      if name == username {
        return Abort(BadRequest, ServerModel.UsernameTaken(username));
      }
      if users[name].handle == handle {
        return Abort(BadRequest, ServerModel.HandleTaken(handle));
      }
      unvisited := unvisited - {name};
    }
    r := Ok(());
  }

  /** The rooms of a server as values, by name. */
  function Snapshots(rooms: map<string, ServerRoom.Room>): (snaps: map<string, RoomState>)
    reads rooms.Values
  {
    map n | n in rooms :: rooms[n].Snapshot()
  }

  /** Filing a room under one name fewer drops that snapshot and no other. */
  lemma SnapshotsWithout(rooms: map<string, ServerRoom.Room>, name: string)
    ensures Snapshots(rooms - {name}) == Snapshots(rooms) - {name}
  {
  }

  /** Filing a room under a name replaces that snapshot and no other. */
  lemma SnapshotsWith(rooms: map<string, ServerRoom.Room>, name: string, room: ServerRoom.Room)
    ensures Snapshots(rooms[name := room]) == Snapshots(rooms)[name := room.Snapshot()]
  {
  }

  class Server {
    var users: map<string, User>
    var loggedInUsers: map<Token, User>
    var rooms: map<string, ServerRoom.Room>

    /** The server as a value. */
    function State(): (s: ServerModel.ServerState)
      reads this, rooms.Values
    {
      ServerModel.ServerState(users, loggedInUsers, Snapshots(rooms))
    }

    /** The model's invariant, and no room object filed under two names. */
    ghost predicate Valid()
      reads this, rooms.Values
    {
      && ServerModel.Invariant(State())
      && forall n, n' :: n in rooms && n' in rooms && n != n' ==> rooms[n] != rooms[n']
    }

    constructor ()
      ensures Valid() && State() == ServerModel.Empty()
    {
      rooms := map[];
      users := map[];
      loggedInUsers := map[];
    }

    method Register(username: string, password: string, handle: string) returns (r: Result<()>)
      requires Valid()
      modifies this`users
      ensures Valid()
      ensures ServerModel.RegisterStep(old(State()), username, password, handle, r, State())
    {
      r := CheckAvailable(users, username, handle);
      if r.Abort? {
        return;
      }
      r := Ok(());
      ghost var s := State();
      users := users[username := User(username, password, handle, true)];
      assert State() == s.(users := s.users[username := User(username, password, handle, true)]);
      ServerModel.RegisterKeepsInvariant(s, username, password, handle, r, State());
    }

    /** `login`; `token` stands for the fresh `uuid4` identifier. */
    method Login(username: string, password: string, token: Token) returns (r: Result<Token>)
      requires Valid() && token !in loggedInUsers
      modifies this`loggedInUsers
      ensures Valid()
      ensures r == ServerModel.Login(old(State()), username, password, token).Replace(token)
      ensures State() == ServerModel.Login(old(State()), username, password, token).GetOr(old(State()))
    {
      if username !in users || password != users[username].password {
        return Abort(BadRequest, ServerModel.InvalidCredentials);
      }
      ghost var s := State();
      ServerModel.LoginOpensSession(s, username, password, token);
      loggedInUsers := loggedInUsers[token := users[username]];
      assert State() == ServerModel.Login(s, username, password, token).value;
      r := Ok(token);
    }

    method CreateRoom(userId: Token, name: string) returns (r: Result<()>)
      requires Valid()
      modifies this`rooms
      ensures Valid()
      ensures r == ServerModel.CreateRoom(old(State()), userId, name).Replace(())
      ensures State() == ServerModel.CreateRoom(old(State()), userId, name).GetOr(old(State()))
      ensures r.Ok? ==> name in rooms && fresh(rooms[name]) && rooms == old(rooms)[name := rooms[name]]
      ensures r.Abort? ==> rooms == old(rooms)
    {
      if userId !in loggedInUsers {
        return Abort(Unauthorized, ServerModel.UnauthorizedUser);
      }
      if name in rooms {
        return Abort(BadRequest, ServerModel.RoomExists);
      }
      ghost var s := State();
      ServerModel.CreateRoomAddsEmptyRoom(s, userId, name);
      var room := new ServerRoom.Room(name, map[], map[]);
      var before := rooms;
      rooms := rooms[name := room];
      SnapshotsWith(before, name, room);
      assert Snapshots(before) == s.rooms;
      assert room.Snapshot() == RoomState(name, map[], map[]);
      r := Ok(());
    }

    method DestroyRoom(userId: Token, name: string) returns (r: Result<()>)
      requires Valid()
      modifies this`rooms
      ensures Valid()
      ensures r == ServerModel.DestroyRoom(old(State()), userId, name).Replace(())
      ensures State() == ServerModel.DestroyRoom(old(State()), userId, name).GetOr(old(State()))
      ensures rooms == if r.Ok? then old(rooms) - {name} else old(rooms)
    {
      if userId !in loggedInUsers {
        return Abort(Unauthorized, ServerModel.UnauthorizedUser);
      }
      if name !in rooms {
        return Abort(NotFound, ServerModel.RoomNotFound);
      }
      ghost var s := State();
      ServerModel.DestroyRoomRemovesRoom(s, userId, name);
      var before := rooms;
      rooms := rooms - {name};
      SnapshotsWithout(before, name);
      assert State().rooms == s.rooms - {name};
      r := Ok(());
    }

    method JoinRoom(userId: Token, name: string) returns (r: Result<()>)
      requires Valid()
      modifies if name in rooms then {rooms[name]} else {}
      ensures Valid() && rooms == old(rooms)
      ensures r == ServerModel.JoinRoom(old(State()), userId, name).Replace(())
      ensures State() == ServerModel.JoinRoom(old(State()), userId, name).GetOr(old(State()))
    {
      if userId !in loggedInUsers {
        return Abort(Unauthorized, ServerModel.UnauthorizedUser);
      }
      if name !in rooms {
        return Abort(NotFound, ServerModel.RoomNotFound);
      }
      ghost var s := State();
      ServerModel.JoinRoomAddsMember(s, userId, name);
      var room := rooms[name];
      r := room.AddMember(userId, loggedInUsers[userId]);
      assert State() == ServerModel.JoinRoom(s, userId, name).GetOr(s);
    }

    method LeaveRoom(userId: Token, name: string) returns (r: Result<()>)
      requires Valid()
      modifies if name in rooms then {rooms[name]} else {}
      ensures Valid() && rooms == old(rooms)
      ensures r == ServerModel.LeaveRoom(old(State()), userId, name).Replace(())
      ensures State() == ServerModel.LeaveRoom(old(State()), userId, name).GetOr(old(State()))
    {
      if userId !in loggedInUsers {
        return Abort(Unauthorized, ServerModel.UnauthorizedUser);
      }
      if name !in rooms {
        return Abort(NotFound, ServerModel.RoomNotFound);
      }
      ghost var s := State();
      ServerModel.LeaveRoomRemovesMember(s, userId, name);
      var room := rooms[name];
      r := room.RemoveMember(userId);
      assert State() == ServerModel.LeaveRoom(s, userId, name).GetOr(s);
    }

    /** `get_rooms`: reads only. */
    method GetRooms(userId: Token) returns (r: Result<set<string>>)
      ensures r == ServerModel.Rooms(State(), userId)
    {
      if userId !in loggedInUsers {
        return Abort(Unauthorized, ServerModel.UnauthorizedUser);
      }
      assert State().rooms.Keys == rooms.Keys;
      r := Ok(rooms.Keys);
    }

    /** `get_room_members`: reads only; lists the handle of every member, in
        the dictionary's order, which the model leaves open. */
    method GetRoomMembers(userId: Token, name: string) returns (r: Result<seq<string>>)
      ensures r.SameStatus(ServerModel.RoomMembers(State(), userId, name))
      ensures r.Ok? ==> multiset(r.value) == ServerModel.RoomMembers(State(), userId, name).value
    {
      if userId !in loggedInUsers {
        return Abort(Unauthorized, ServerModel.UnauthorizedUser);
      }
      if name !in rooms {
        return Abort(NotFound, ServerModel.RoomNotFound);
      }
      var members := rooms[name].members;
      var rest := members.Keys;
      var handles: seq<string> := [];
      while rest != {}
        invariant rest <= members.Keys
        invariant multiset(handles) + HandlesOf(members, rest) == HandlesOf(members, members.Keys)
        decreases rest
      {
        var t :| t in rest;
        HandlesOfTake(members, rest, t);
        handles := handles + [members[t].handle];
        rest := rest - {t};
      }
      r := Ok(handles);
    }
  }
}
