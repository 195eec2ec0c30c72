/** The value a room holds (rumble_server/room.py and room.py) and the pure
    meaning of adding and removing a member. */
module RoomModel {
  import opened Aborts
  import opened Users

  /** A session token, as issued by login. */
  type Token = string
  /** A room's members: session token to the user logged in with it. */
  type Members = map<Token, User>

  /** The shown code only ever creates a room's message store empty and drops it
      with the room; its keys and entries are not written anywhere in it. */
  datatype Message = Message(handle: string, text: string)
  type Messages = map<nat, Message>

  datatype RoomState = RoomState(name: string, members: Members, messages: Messages)

  const AlreadyInRoom := "User already in the room"
  const UserNotFound := "User not found"

  /** `add_member`: a token already present is refused; otherwise it is inserted. */
  function WithMember(members: Members, token: Token, user: User): (r: Result<Members>) {
    if token in members then Abort(BadRequest, AlreadyInRoom) else Ok(members[token := user])
  }

  /** `remove_member`: an absent token is refused; otherwise it is deleted. */
  function WithoutMember(members: Members, token: Token): (r: Result<Members>) {
    if token !in members then Abort(NotFound, UserNotFound) else Ok(members - {token})
  }

  lemma AddDuplicateRefused(members: Members, token: Token, user: User)
    requires token in members
    ensures WithMember(members, token, user) == Abort(400, "User already in the room")
  {
  }

  /** A successful add maps the token to the user, keeps every other entry
      and grows the room by one. */
  lemma AddInsertsOnlyToken(members: Members, token: Token, user: User)
    requires token !in members
    ensures WithMember(members, token, user).Ok?
    ensures var m := WithMember(members, token, user).value;
      && token in m && m[token] == user
      && m.Keys == members.Keys + {token}
      && (forall t :: t in members ==> m[t] == members[t])
      && |m| == |members| + 1
  {
  }

  lemma RemoveAbsentRefused(members: Members, token: Token)
    requires token !in members
    ensures WithoutMember(members, token) == Abort(404, "User not found")
  {
  }

  /** A successful remove deletes the token only and shrinks the room by one. */
  lemma RemoveDeletesOnlyToken(members: Members, token: Token)
    requires token in members
    ensures WithoutMember(members, token).Ok?
    ensures var m := WithoutMember(members, token).value;
      && m.Keys == members.Keys - {token}
      && (forall t :: t in m ==> m[t] == members[t])
      && |m| == |members| - 1
  {
  }

  /** Adding a fresh token and removing it again restores the members. */
  lemma AddThenRemove(members: Members, token: Token, user: User)
    requires token !in members
    ensures WithMember(members, token, user).Ok?
    ensures WithoutMember(WithMember(members, token, user).value, token) == Ok(members)
  {
    var m := members[token := user];
    assert m - {token} == members;
  }

  /** Membership is keyed by session token: two sessions of one user are two members. */
  lemma TwoTokensOfOneUser(members: Members, t1: Token, t2: Token, user: User)
    requires t1 != t2 && t1 !in members && t2 !in members
    ensures WithMember(members, t1, user).Ok?
    ensures var m := WithMember(members, t1, user).value;
      WithMember(m, t2, user).Ok? && |WithMember(m, t2, user).value| == |members| + 2
  {
  }

  /** The handles of the members whose tokens are in `keys`, one per token. */
  ghost function HandlesOf(members: Members, keys: set<Token>): (handles: multiset<string>)
    requires keys <= members.Keys
    decreases keys
  {
    if keys == {} then multiset{}
    else
      var t :| t in keys;
      multiset{members[t].handle} + HandlesOf(members, keys - {t})
  }

  /** Whichever token is taken out first, the handles come to the same multiset. */
  lemma {:induction false} HandlesOfTake(members: Members, keys: set<Token>, t: Token)
    requires keys <= members.Keys && t in keys
    ensures HandlesOf(members, keys) == multiset{members[t].handle} + HandlesOf(members, keys - {t})
    decreases keys
  {
    var u :| u in keys && HandlesOf(members, keys) == multiset{members[u].handle} + HandlesOf(members, keys - {u});
    if u != t {
      HandlesOfTake(members, keys - {u}, t);
      HandlesOfTake(members, keys - {t}, u);
      assert keys - {u} - {t} == keys - {t} - {u};
    }
  }

  /** One handle per member token. */
  lemma {:induction false} HandlesOfSize(members: Members, keys: set<Token>)
    requires keys <= members.Keys
    ensures |HandlesOf(members, keys)| == |keys|
    decreases keys
  {
    if keys != {} {
      var t :| t in keys;
      HandlesOfTake(members, keys, t);
      HandlesOfSize(members, keys - {t});
    }
  }

  /** A handle is listed exactly when some member token carries it. */
  lemma {:induction false} HandlesOfMembership(members: Members, keys: set<Token>, h: string)
    requires keys <= members.Keys
    ensures h in HandlesOf(members, keys) <==> exists t :: t in keys && members[t].handle == h
    decreases keys
  {
    if keys != {} {
      var t :| t in keys;
      HandlesOfTake(members, keys, t);
      HandlesOfMembership(members, keys - {t}, h);
    }
  }
}
