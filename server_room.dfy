/** rumble_server/room.py: a room whose members dictionary, keyed by session
    token, is updated in place. */
module ServerRoom {
  import opened Aborts
  import opened Users
  import opened RoomModel

  class Room {
    var name: string
    var members: Members
    var messages: Messages

    constructor (name: string, members: Members, messages: Messages)
      ensures this.name == name && this.members == members && this.messages == messages
    {
      this.name := name;
      this.members := members;
      this.messages := messages;
    }

    /** The room as a value. */
    function Snapshot(): (s: RoomState)
      reads this
    {
      RoomState(name, members, messages)
    }

    /** `add_member`: refused with 400 when the token is already a member;
        name and messages are never touched. */
    method AddMember(userAuth: Token, user: User) returns (r: Result<()>)
      modifies this`members
      ensures r == WithMember(old(members), userAuth, user).Replace(())
      ensures members == WithMember(old(members), userAuth, user).GetOr(old(members))
      ensures name == old(name) && messages == old(messages)
    {
      if userAuth in members {
        return Abort(BadRequest, AlreadyInRoom);
      }
      members := members[userAuth := user];
      r := Ok(());
    }

    /** `remove_member`: refused with 404 when the token is not a member. */
    method RemoveMember(userAuth: Token) returns (r: Result<()>)
      modifies this`members
      ensures r == WithoutMember(old(members), userAuth).Replace(())
      ensures members == WithoutMember(old(members), userAuth).GetOr(old(members))
      ensures name == old(name) && messages == old(messages)
    {
      if userAuth !in members {
        return Abort(NotFound, UserNotFound);
      }
      members := members - {userAuth};
      r := Ok(());
    }
  }
}
