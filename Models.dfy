/** The two persisted records, Meme (Meme.kt) and User (User.kt), with their default field values. */
module Models {
  import opened Wrappers
  import opened ObjectIds

  /** `id` hex form, or "" when the record has not been given an id (`stringId`). */
  function IdString(id: Option<ObjectId>): (s: string)
    ensures id.None? <==> s == ""
    ensures id.Some? ==> |s| == 24 && ParseObjectId(s) == id
  {
    match id
    case None => ""
    case Some(oid) => HexStringRoundTrip(oid); HexString(oid)
  }

  /** A posted meme. `likes` holds the ids of the users who liked it; `username` is a copy of the owner's name taken when it was posted. */
  datatype Meme = Meme(
    id: Option<ObjectId>,
    userId: string,
    username: string,
    imageUrl: string,
    caption: Option<string>,
    tags: seq<string>,
    likes: seq<string>,
    downloadCount: int,
    createdAt: int,
    isActive: bool)
  {
    function StringId(): string {
      IdString(id)
    }

    /** The store's `_id` filter for the string `s`: `s` parses and names this meme's id. */
    predicate HasId(s: string) {
      id.Some? && ParseObjectId(s) == id
    }
  }

  /** The meme `Meme(userId = …, username = …, imageUrl = …, caption = …, tags = …)` builds; `createdAt` is the clock reading it defaults to. */
  function NewMeme(userId: string, username: string, imageUrl: string, createdAt: int,
                   caption: Option<string> := None, tags: seq<string> := []): (m: Meme)
    ensures m.id == None && m.likes == [] && m.downloadCount == 0 && m.isActive
    ensures m.userId == userId && m.username == username && m.imageUrl == imageUrl
    ensures m.caption == caption && m.tags == tags && m.createdAt == createdAt
  {
    Meme(None, userId, username, imageUrl, caption, tags, [], 0, createdAt, true)
  }

  datatype User = User(
    id: Option<ObjectId>,
    username: string,
    email: string,
    passwordHash: string,
    createdAt: int,
    profileImage: Option<string>,
    totalLikes: int,
    isActive: bool)
  {
    function StringId(): string {
      IdString(id)
    }

    predicate HasId(s: string) {
      id.Some? && ParseObjectId(s) == id
    }
  }

  /** `User(username = …, email = …, passwordHash = …)`; `createdAt` is the clock reading in epoch seconds. */
  function NewUser(username: string, email: string, passwordHash: string, createdAt: int): (u: User)
    ensures u.id == None && u.profileImage == None && u.totalLikes == 0 && u.isActive
    ensures u.username == username && u.email == email && u.passwordHash == passwordHash
    ensures u.createdAt == createdAt
  {
    User(None, username, email, passwordHash, createdAt, None, 0, true)
  }

  /** A malformed id string matches no record. */
  lemma MalformedIdMatchesNothing(s: string, m: Meme, u: User)
    requires ParseObjectId(s).None?
    ensures !m.HasId(s) && !u.HasId(s)
  {
  }

  /** A record's own string id selects it. */
  lemma StringIdSelectsRecord(m: Meme, u: User)
    ensures m.id.Some? ==> m.HasId(m.StringId())
    ensures u.id.Some? ==> u.HasId(u.StringId())
  {
  }
}
