/**
 * What the queries and updates of UserRepository.kt do to the `users`
 * collection. Lookups see active accounts only; the two updates target an
 * id and do not look at `isActive`. The collection has no unique index, so
 * nothing here keeps two accounts from sharing a username or an email.
 */
module UserStore {
  import opened Wrappers
  import opened ObjectIds
  import opened Models
  import Store

  /** Every stored user has an id, and no two share one. */
  predicate WellFormed(us: seq<User>) {
    && (forall i :: 0 <= i < |us| ==> us[i].id.Some?)
    && (forall i, j :: 0 <= i < j < |us| ==> us[i].id != us[j].id)
  }

  /** An update keeps every account's id, names, password hash and creation time. */
  predicate SameAccounts(before: seq<User>, after: seq<User>) {
    && |after| == |before|
    && forall j :: 0 <= j < |before| ==>
         after[j].id == before[j].id && after[j].username == before[j].username
         && after[j].email == before[j].email && after[j].passwordHash == before[j].passwordHash
         && after[j].createdAt == before[j].createdAt && after[j].isActive == before[j].isActive
  }

  datatype Outcome = Outcome(docs: seq<User>, ok: bool)

  /** The collection after `createUser` and the user it returns (null on failure). */
  datatype Created = Created(docs: seq<User>, user: Option<User>)

  function IdIs(oid: ObjectId): User -> bool {
    (u: User) => u.id == Some(oid)
  }

  function ActiveAnd(p: User -> bool): User -> bool {
    (u: User) => u.isActive && p(u)
  }

  function NamedBy(username: string): User -> bool {
    (u: User) => u.username == username
  }

  function EmailIs(email: string): User -> bool {
    (u: User) => u.email == email
  }

  function NamedOrEmailIs(usernameOrEmail: string): User -> bool {
    (u: User) => u.username == usernameOrEmail || u.email == usernameOrEmail
  }

  /** The first user whose id the string names; None for a malformed id. */
  function IndexOfId(us: seq<User>, userId: string): (r: Option<nat>)
    ensures r.Some? ==> r.value < |us| && us[r.value].HasId(userId)
    ensures r.Some? ==> forall j :: 0 <= j < r.value ==> !us[j].HasId(userId)
    ensures r.None? <==> forall j :: 0 <= j < |us| ==> !us[j].HasId(userId)
  {
    match ParseObjectId(userId)
    case None => None
    case Some(oid) => Store.FirstIndex(us, IdIs(oid))
  }

  lemma IndexOfUniqueId(us: seq<User>, userId: string, i: nat)
    requires WellFormed(us) && i < |us| && us[i].HasId(userId)
    ensures IndexOfId(us, userId) == Some(i)
    ensures forall j :: 0 <= j < |us| && us[j].HasId(userId) ==> j == i
  {
  }

  function InsertedId(user: User, newId: ObjectId): ObjectId {
    user.id.GetOr(newId)
  }

  predicate IdInUse(us: seq<User>, oid: ObjectId) {
    exists i :: 0 <= i < |us| && us[i].id == Some(oid)
  }

  /**
   * `createUser(user)`: stores the user under its id (or a fresh one) and
   * returns the user carrying that id; a duplicate id is a write error, caught
   * and answered with null.
   */
  function CreateUser(us: seq<User>, user: User, newId: ObjectId): (r: Created)
    ensures IdInUse(us, InsertedId(user, newId)) ==> r == Created(us, None)
    ensures !IdInUse(us, InsertedId(user, newId)) ==>
      && r.user == Some(user.(id := Some(InsertedId(user, newId))))
      && r.docs == us + [r.user.value]
    ensures WellFormed(us) ==> WellFormed(r.docs)
  {
    var oid := InsertedId(user, newId);
    if IdInUse(us, oid) then Created(us, None)
    else
      var stored := user.(id := Some(oid));
      Created(us + [stored], Some(stored))
  }

  /** `getUserById`: the active user with that id; None for an unknown, inactive or malformed id. */
  function GetUserById(us: seq<User>, userId: string): (r: Option<User>)
    ensures r.Some? ==> r.value in us && r.value.HasId(userId) && r.value.isActive
    ensures r.None? <==> forall j :: 0 <= j < |us| ==> !(us[j].HasId(userId) && us[j].isActive)
  {
    match ParseObjectId(userId)
    case None => None
    case Some(oid) => Store.FindOne(us, ActiveAnd(IdIs(oid)))
  }

  /** `getUserByUsername`: exact, case-sensitive match among active users. */
  function GetUserByUsername(us: seq<User>, username: string): (r: Option<User>)
    ensures r.Some? ==> r.value in us && r.value.username == username && r.value.isActive
    ensures r.None? <==> forall j :: 0 <= j < |us| ==> !(us[j].username == username && us[j].isActive)
  {
    Store.FindOne(us, ActiveAnd(NamedBy(username)))
  }

  /** `getUserByEmail`: exact, case-sensitive match among active users. */
  function GetUserByEmail(us: seq<User>, email: string): (r: Option<User>)
    ensures r.Some? ==> r.value in us && r.value.email == email && r.value.isActive
    ensures r.None? <==> forall j :: 0 <= j < |us| ==> !(us[j].email == email && us[j].isActive)
  {
    Store.FindOne(us, ActiveAnd(EmailIs(email)))
  }

  /** `getUserByUsernameOrEmail`: the first active user whose username or email is the string. */
  function GetUserByUsernameOrEmail(us: seq<User>, usernameOrEmail: string): (r: Option<User>)
    ensures r.Some? ==>
      r.value in us && r.value.isActive && (r.value.username == usernameOrEmail || r.value.email == usernameOrEmail)
  {
    Store.FindOne(us, ActiveAnd(NamedOrEmailIs(usernameOrEmail)))
  }

  /** `updateUserLikes(userId, increment)`: `$inc` on `totalLikes`, with no lower bound; a zero step modifies nothing. */
  function UpdateUserLikes(us: seq<User>, userId: string, increment: int): (r: Outcome)
    ensures match IndexOfId(us, userId)
      case None => r == Outcome(us, false)
      case Some(i) =>
        && r.docs == us[i := us[i].(totalLikes := us[i].totalLikes + increment)]
        && (r.ok <==> increment != 0)
    ensures SameAccounts(us, r.docs)
  {
    match ParseObjectId(userId)
    case None => Outcome(us, false)
    case Some(oid) =>
      var res := Store.UpdateOne(us, IdIs(oid), (u: User) => u.(totalLikes := u.totalLikes + increment));
      Outcome(res.docs, res.modifiedCount > 0)
  }

  /** `updateUserProfile(userId, profileImage)`: sets (or clears) the image; success only when it changed. */
  function UpdateUserProfile(us: seq<User>, userId: string, profileImage: Option<string>): (r: Outcome)
    ensures match IndexOfId(us, userId)
      case None => r == Outcome(us, false)
      case Some(i) =>
        && r.docs == us[i := us[i].(profileImage := profileImage)]
        && (r.ok <==> profileImage != us[i].profileImage)
    ensures SameAccounts(us, r.docs)
  {
    match ParseObjectId(userId)
    case None => Outcome(us, false)
    case Some(oid) =>
      var res := Store.UpdateOne(us, IdIs(oid), (u: User) => u.(profileImage := profileImage));
      Outcome(res.docs, res.modifiedCount > 0)
  }

  lemma SameAccountsKeepWellFormed(us: seq<User>, docs: seq<User>)
    requires WellFormed(us) && SameAccounts(us, docs)
    ensures WellFormed(docs)
  {
  }

  /** The combined lookup finds someone exactly when the username lookup or the email lookup does. */
  lemma {:induction false} UsernameOrEmailFindsEither(us: seq<User>, s: string)
    ensures GetUserByUsernameOrEmail(us, s).None? <==> GetUserByUsername(us, s).None? && GetUserByEmail(us, s).None?
  {
    var either := GetUserByUsernameOrEmail(us, s);
    assert either.None? <==> forall j :: 0 <= j < |us| ==> !ActiveAnd(NamedOrEmailIs(s))(us[j]);
  }

  /** A credit followed by a debit of the same account restores the collection; both report success. */
  lemma CreditThenDebitRestores(us: seq<User>, userId: string, i: nat)
    requires WellFormed(us) && i < |us| && us[i].HasId(userId)
    ensures var credited := UpdateUserLikes(us, userId, 1);
      && credited.ok
      && UpdateUserLikes(credited.docs, userId, -1) == Outcome(us, true)
  {
    IndexOfUniqueId(us, userId, i);
    var credited := UpdateUserLikes(us, userId, 1);
    SameAccountsKeepWellFormed(us, credited.docs);
    IndexOfUniqueId(credited.docs, userId, i);
    assert credited.docs[i := credited.docs[i].(totalLikes := credited.docs[i].totalLikes - 1)] == us;
  }

  /** A freshly created active user is found again by its string id. */
  lemma CreatedUserIsFoundById(us: seq<User>, user: User, newId: ObjectId)
    requires WellFormed(us) && user.isActive && CreateUser(us, user, newId).user.Some?
    ensures var c := CreateUser(us, user, newId);
      GetUserById(c.docs, c.user.value.StringId()) == c.user
  {
    var c := CreateUser(us, user, newId);
    var stored := c.user.value;
    var n := |us|;
    assert c.docs[n] == stored;
    assert stored.HasId(stored.StringId());
    var found := GetUserById(c.docs, stored.StringId());
    assert found.Some? by {
      assert c.docs[n].HasId(stored.StringId()) && c.docs[n].isActive;
    }
    var j :| 0 <= j < |c.docs| && c.docs[j] == found.value;
    IndexOfUniqueId(c.docs, stored.StringId(), n);
  }
}
