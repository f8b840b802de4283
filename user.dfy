/** A user account: display name, login name, password and role (1 administrator, 2 client). */
module UserModel {
  import opened Wrappers
  import opened Allocation

  /** The value of a user's fields. */
  datatype UserRec = UserRec(id: int, name: string, username: string, password: string, role: int)

  class User {
    /** Fixed at construction: there is no setter. */
    const userID: int
    var name: string
    var username: string
    var password: string
    var role: int

    constructor (ids: Allocator, name: string, username: string, password: string, role: int,
                 userId: Option<int>)
      requires ids.Valid()
      modifies ids
      ensures ids.Valid()
      ensures userId.None? ==> userID == old(ids.next) && ids.next == old(ids.next) + 1
      ensures userId.Some? ==>
        userID == userId.value && ids.next == Advance(old(ids.next), userId.value)
      ensures userID < ids.next && ids.seen == old(ids.seen) + {userID}
      ensures forall x :: x in old(ids.seen) && userId.None? ==> x < userID
      ensures Rec() == UserRec(userID, name, username, password, role)
    {
      var id: int;
      if userId.None? {
        id := ids.Issue();
      } else {
        id := userId.value;
        ids.Observe(id);
      }
      userID := id;
      this.name := name;
      this.username := username;
      this.password := password;
      this.role := role;
    }

    function Rec(): UserRec
      reads this
    {
      UserRec(userID, name, username, password, role)
    }

    method SetName(value: string)
      modifies this`name
      ensures name == value
    {
      name := value;
    }

    method SetUsername(value: string)
      modifies this`username
      ensures username == value
    {
      username := value;
    }

    method SetPassword(value: string)
      modifies this`password
      ensures password == value
    {
      password := value;
    }

    method SetRole(value: int)
      modifies this`role
      ensures role == value
    {
      role := value;
    }
  }
}
