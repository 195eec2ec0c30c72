/** room.py: the copy of the room class at the top of the repository; its
    members dictionary is keyed by `user_id`, which is the session token. */
module RootRoom {
  import opened Aborts
  import opened Users
  import opened RoomModel

  class Room {
    var name: string
    var members: Members
    var messages: Messages

    constructor (name: string, members: Members, messages: Messages)
      ensures this.name == name && this.members == members && this.messages == messages
    {
      this.name := name;
      this.members := members;
      this.messages := messages;
    }

    /** `add_member`: refused with 400 when the token is already a member;
        name and messages are never touched. */
    method AddMember(userId: Token, user: User) returns (r: Result<()>)
      modifies this`members
      ensures r == WithMember(old(members), userId, user).Replace(())
      ensures members == WithMember(old(members), userId, user).GetOr(old(members))
      ensures name == old(name) && messages == old(messages)
    {
      if userId in members {
        return Abort(BadRequest, AlreadyInRoom);
      }
      members := members[userId := user];
      r := Ok(());
    }

    /** `remove_member`: refused with 404 when the token is not a member. */
    method RemoveMember(userId: Token) returns (r: Result<()>)
      modifies this`members
      ensures r == WithoutMember(old(members), userId).Replace(())
      ensures members == WithoutMember(old(members), userId).GetOr(old(members))
      ensures name == old(name) && messages == old(messages)
    {
      if userId !in members {
        return Abort(NotFound, UserNotFound);
      }
      members := members - {userId};
      r := Ok(());
    }
  }
}
