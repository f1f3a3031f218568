/** UserRepository.kt: the repository object and the `users` collection it updates. */
module UserRepo {
  import opened Wrappers
  import opened ObjectIds
  import opened Models
  import UserStore

  class UserRepository {
    /** The documents of the `users` collection, in insertion order. */
    var users: seq<User>

    ghost predicate Valid()
      reads this
    {
      UserStore.WellFormed(users)
    }

    constructor ()
      ensures Valid() && users == []
    {
      users := [];
    }

    method CreateUser(user: User, newId: ObjectId) returns (created: Option<User>)
      requires Valid()
      modifies this
      ensures Valid()
      ensures users == UserStore.CreateUser(old(users), user, newId).docs
      ensures created == UserStore.CreateUser(old(users), user, newId).user
    {
      var r := UserStore.CreateUser(users, user, newId);
      users, created := r.docs, r.user;
    }

    method UpdateUserLikes(userId: string, increment: int) returns (ok: bool)
      requires Valid()
      modifies this
      ensures Valid()
      ensures users == UserStore.UpdateUserLikes(old(users), userId, increment).docs
      ensures ok == UserStore.UpdateUserLikes(old(users), userId, increment).ok
    {
      var r := UserStore.UpdateUserLikes(users, userId, increment);
      UserStore.SameAccountsKeepWellFormed(users, r.docs);
      users, ok := r.docs, r.ok;
    }

    method UpdateUserProfile(userId: string, profileImage: Option<string>) returns (ok: bool)
      requires Valid()
      modifies this
      ensures Valid()
      ensures users == UserStore.UpdateUserProfile(old(users), userId, profileImage).docs
      ensures ok == UserStore.UpdateUserProfile(old(users), userId, profileImage).ok
    {
      var r := UserStore.UpdateUserProfile(users, userId, profileImage);
      UserStore.SameAccountsKeepWellFormed(users, r.docs);
      users, ok := r.docs, r.ok;
    }
  }
}
