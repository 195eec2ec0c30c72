/** rumble_server/user.py: a user record, never updated after construction. */
module Users {

  datatype User = User(username: string, password: string, handle: string, registered: bool)

  /** `User.__eq__`: compares the four fields as one tuple. It coincides with
      value equality of the record. */
  function Equals(a: User, b: User): (r: bool)
    ensures r <==> a == b
  {
    (a.username, a.password, a.handle, a.registered) == (b.username, b.password, b.handle, b.registered)
  }

  /** The constructor stores the four values as given, and two users built
      from the same values are equal. A `User` here is a value with no
      identity, so the Python question of identity against `__eq__` cannot
      arise: equality is always the field-wise comparison. */
  lemma ConstructorStoresFields(username: string, password: string, handle: string, registered: bool)
    ensures var u := User(username, password, handle, registered);
      && u.username == username && u.password == password && u.handle == handle && u.registered == registered
      && Equals(u, User(username, password, handle, registered))
  {
  }

  lemma EqualsFieldwise(a: User, b: User)
    ensures Equals(a, b) <==>
      a.username == b.username && a.password == b.password && a.handle == b.handle && a.registered == b.registered
  {
  }

  lemma EqualsReflexive(a: User)
    ensures Equals(a, a)
  {
  }

  lemma EqualsSymmetric(a: User, b: User)
    ensures Equals(a, b) <==> Equals(b, a)
  {
  }

  lemma RegisteredFlagDistinguishes(username: string, password: string, handle: string)
    ensures !Equals(User(username, password, handle, true), User(username, password, handle, false))
  {
  }
}
