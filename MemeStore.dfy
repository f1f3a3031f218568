/**
 * What the queries and updates of MemeRepository.kt do to the `memes`
 * collection, as functions of the collection's contents. Every read goes
 * through `ActiveWhere`, the one place the `isActive` filter is applied;
 * the updates target documents by id (and owner) and do not look at `isActive`.
 */
module MemeStore {
  import opened Wrappers
  import opened ObjectIds
  import opened Models
  import Store

  /** Every stored meme has an id, and no two share one. */
  predicate WellFormed(ms: seq<Meme>) {
    && (forall i :: 0 <= i < |ms| ==> ms[i].id.Some?)
    && (forall i, j :: 0 <= i < j < |ms| ==> ms[i].id != ms[j].id)
  }

  predicate NoDuplicates(xs: seq<string>) {
    forall i, j :: 0 <= i < j < |xs| ==> xs[i] != xs[j]
  }

  /** Each meme's `likes` is a set: no user id appears twice. */
  predicate LikesAreSets(ms: seq<Meme>) {
    forall i :: 0 <= i < |ms| ==> NoDuplicates(ms[i].likes)
  }

  /** The collection after an update keeps every meme's identity and owner fields. */
  predicate SameIdentities(before: seq<Meme>, after: seq<Meme>) {
    && |after| == |before|
    && forall j :: 0 <= j < |before| ==>
         after[j].id == before[j].id && after[j].userId == before[j].userId
         && after[j].username == before[j].username && after[j].createdAt == before[j].createdAt
  }

  /** The new collection and whether the update modified a document (`modifiedCount > 0`). */
  datatype Outcome = Outcome(docs: seq<Meme>, ok: bool)

  // ---- filters -------------------------------------------------------

  function IdIs(oid: ObjectId): Meme -> bool {
    (m: Meme) => m.id == Some(oid)
  }

  function IdAndOwner(oid: ObjectId, userId: string): Meme -> bool {
    (m: Meme) => m.id == Some(oid) && m.userId == userId
  }

  function IdAndNotLikedBy(oid: ObjectId, userId: string): Meme -> bool {
    (m: Meme) => m.id == Some(oid) && userId !in m.likes
  }

  function ActiveAnd(p: Meme -> bool): Meme -> bool {
    (m: Meme) => m.isActive && p(m)
  }

  function Everything(): Meme -> bool {
    (m: Meme) => true
  }

  function OwnedBy(userId: string): Meme -> bool {
    (m: Meme) => m.userId == userId
  }

  predicate SharesTag(have: seq<string>, wanted: seq<string>) {
    exists t :: t in have && t in wanted
  }

  /** `Filters.in("tags", tags)`: the meme has at least one of the wanted tags. */
  function TaggedWithAny(tags: seq<string>): Meme -> bool {
    (m: Meme) => SharesTag(m.tags, tags)
  }

  function TextMatches(textMatch: (string, Meme) -> bool, query: string): Meme -> bool {
    (m: Meme) => textMatch(query, m)
  }

  function CreatedAt(m: Meme): int {
    m.createdAt
  }

  predicate NewestFirst(ms: seq<Meme>) {
    forall i, j :: 0 <= i < j < |ms| ==> ms[i].createdAt >= ms[j].createdAt
  }

  // ---- element updates -------------------------------------------------

  /** `$addToSet`: append unless already present. */
  function AddToSet(xs: seq<string>, x: string): (r: seq<string>)
    ensures x in r && forall y :: y in xs ==> y in r
    ensures x in xs ==> r == xs
    ensures x !in xs ==> r == xs + [x]
  {
    if x in xs then xs else xs + [x]
  }

  /** `$pull`: remove every occurrence. */
  function Pull(xs: seq<string>, x: string): (r: seq<string>)
    ensures forall y :: y in r <==> y in xs && y != x
    ensures x !in xs ==> r == xs
    ensures |r| <= |xs| && (x in xs ==> |r| < |xs|)
  {
    if |xs| == 0 then []
    else
      assert x in xs && xs[0] != x ==> x in xs[1..];
      (if xs[0] == x then [] else [xs[0]]) + Pull(xs[1..], x)
  }

  /** The caption and tags `updateMeme` writes: tags always, the caption only when one is given. */
  function Edited(m: Meme, caption: Option<string>, tags: seq<string>): (e: Meme)
    ensures e.tags == tags
    ensures e.caption == if caption.Some? then caption else m.caption
    ensures e == m.(caption := e.caption, tags := tags)
  {
    m.(caption := if caption.Some? then caption else m.caption, tags := tags)
  }

  // ---- locating documents ----------------------------------------------

  /** The first meme whose id the string names; None for a malformed id. */
  function IndexOfId(ms: seq<Meme>, memeId: string): (r: Option<nat>)
    ensures r.Some? ==> r.value < |ms| && ms[r.value].HasId(memeId)
    ensures r.Some? ==> forall j :: 0 <= j < r.value ==> !ms[j].HasId(memeId)
    ensures r.None? <==> forall j :: 0 <= j < |ms| ==> !ms[j].HasId(memeId)
  {
    match ParseObjectId(memeId)
    case None => None
    case Some(oid) => Store.FirstIndex(ms, IdIs(oid))
  }

  /** The first meme with that id owned by `userId`. */
  function OwnedIndex(ms: seq<Meme>, memeId: string, userId: string): (r: Option<nat>)
    ensures r.Some? ==> r.value < |ms| && ms[r.value].HasId(memeId) && ms[r.value].userId == userId
    ensures r.Some? ==> forall j :: 0 <= j < r.value ==> !(ms[j].HasId(memeId) && ms[j].userId == userId)
    ensures r.None? <==> forall j :: 0 <= j < |ms| ==> !(ms[j].HasId(memeId) && ms[j].userId == userId)
  {
    match ParseObjectId(memeId)
    case None => None
    case Some(oid) => Store.FirstIndex(ms, IdAndOwner(oid, userId))
  }

  lemma IndexOfUniqueId(ms: seq<Meme>, memeId: string, i: nat)
    requires WellFormed(ms) && i < |ms| && ms[i].HasId(memeId)
    ensures IndexOfId(ms, memeId) == Some(i)
    ensures forall j :: 0 <= j < |ms| && ms[j].HasId(memeId) ==> j == i
  {
  }

  // ---- insert ------------------------------------------------------------

  /** The id `insertOne` stores: the meme's own, or the one the driver generates. */
  function InsertedId(meme: Meme, newId: ObjectId): ObjectId {
    meme.id.GetOr(newId)
  }

  predicate IdInUse(ms: seq<Meme>, oid: ObjectId) {
    exists i :: 0 <= i < |ms| && ms[i].id == Some(oid)
  }

  /** `insertOne(meme)`: appends the meme under its id; a duplicate id is a write error and nothing is stored. */
  function InsertMeme(ms: seq<Meme>, meme: Meme, newId: ObjectId): (r: seq<Meme>)
    ensures IdInUse(ms, InsertedId(meme, newId)) ==> r == ms
    ensures !IdInUse(ms, InsertedId(meme, newId)) ==> r == ms + [meme.(id := Some(InsertedId(meme, newId)))]
    ensures WellFormed(ms) ==> WellFormed(r)
    ensures LikesAreSets(ms) && NoDuplicates(meme.likes) ==> LikesAreSets(r)
  {
    var oid := InsertedId(meme, newId);
    if IdInUse(ms, oid) then ms else ms + [meme.(id := Some(oid))]
  }

  // ---- reads ---------------------------------------------------------------

  /** `getMemeById`: the active meme with that id; None for an unknown, inactive or malformed id. */
  function GetMemeById(ms: seq<Meme>, memeId: string): (r: Option<Meme>)
    ensures r.Some? ==> r.value in ms && r.value.HasId(memeId) && r.value.isActive
    ensures r.None? <==> forall j :: 0 <= j < |ms| ==> !(ms[j].HasId(memeId) && ms[j].isActive)
  {
    match ParseObjectId(memeId)
    case None => None
    case Some(oid) => Store.FindOne(ms, ActiveAnd(IdIs(oid)))
  }

  /** The active memes that satisfy `p`, in collection order. */
  function ActiveWhere(ms: seq<Meme>, p: Meme -> bool): (r: seq<Meme>)
    ensures forall m :: m in r <==> m in ms && m.isActive && p(m)
  {
    Store.Filter(ms, ActiveAnd(p))
  }

  /** `find(p, isActive).sort(descending("createdAt"))`. */
  function Newest(ms: seq<Meme>, p: Meme -> bool): (r: seq<Meme>)
    ensures NewestFirst(r)
    ensures multiset(r) == multiset(ActiveWhere(ms, p))
    ensures |r| == |ActiveWhere(ms, p)|
    ensures forall m :: m in r <==> m in ms && m.isActive && p(m)
  {
    var r := Store.SortDescending(ActiveWhere(ms, p), CreatedAt);
    assert forall m :: m in r <==> m in multiset(r);
    r
  }

  /** The common shape of every list query: active matches, newest first, then the skip/limit window. */
  function Query(ms: seq<Meme>, p: Meme -> bool, limit: int, skip: int): (r: seq<Meme>)
    ensures forall k :: 0 <= k < |r| ==> r[k] in ms && r[k].isActive && p(r[k])
    ensures NewestFirst(r)
    ensures limit != 0 ==> |r| <= Store.Abs(limit)
    ensures skip < 0 ==> r == []
    ensures skip >= 0 ==> |r| == Store.WindowSize(|ActiveWhere(ms, p)|, limit, skip)
    ensures skip >= 0 ==> forall k :: 0 <= k < |r| ==> r[k] == Newest(ms, p)[skip + k]
  {
    var rows := Newest(ms, p);
    WindowKeepsNewestFirst(rows, limit, skip);
    Store.Window(rows, limit, skip)
  }

  lemma WindowKeepsNewestFirst(rows: seq<Meme>, limit: int, skip: int)
    requires NewestFirst(rows)
    ensures NewestFirst(Store.Window(rows, limit, skip))
  {
    var r := Store.Window(rows, limit, skip);
    if skip >= 0 {
      forall i, j | 0 <= i < j < |r| ensures r[i].createdAt >= r[j].createdAt {
        assert r[i] == rows[skip + i] && r[j] == rows[skip + j];
      }
    }
  }

  /** `getMemesByUserId(userId, limit, skip)`. */
  function GetMemesByUserId(ms: seq<Meme>, userId: string, limit: int, skip: int): (r: seq<Meme>)
    ensures forall k :: 0 <= k < |r| ==> r[k] in ms && r[k].isActive && r[k].userId == userId
    ensures NewestFirst(r)
    ensures limit != 0 ==> |r| <= Store.Abs(limit)
    ensures skip < 0 ==> r == []
    ensures skip >= 0 ==> |r| == Store.WindowSize(|ActiveWhere(ms, OwnedBy(userId))|, limit, skip)
    ensures skip >= 0 ==> forall k :: 0 <= k < |r| ==> r[k] == Newest(ms, OwnedBy(userId))[skip + k]
    ensures skip >= 0 && r != [] ==> skip + |r| <= |Newest(ms, OwnedBy(userId))|
  {
    Query(ms, OwnedBy(userId), limit, skip)
  }

  /** `getFeed(limit, skip)`: every active meme, newest first. */
  function GetFeed(ms: seq<Meme>, limit: int, skip: int): (r: seq<Meme>)
    ensures forall k :: 0 <= k < |r| ==> r[k] in ms && r[k].isActive
    ensures NewestFirst(r)
    ensures limit != 0 ==> |r| <= Store.Abs(limit)
    ensures skip < 0 ==> r == []
    ensures skip >= 0 ==> |r| == Store.WindowSize(|ActiveWhere(ms, Everything())|, limit, skip)
    ensures skip >= 0 ==> forall k :: 0 <= k < |r| ==> r[k] == Newest(ms, Everything())[skip + k]
  {
    Query(ms, Everything(), limit, skip)
  }

  /** `getFeedByPopularity(limit, skip)`: the source sorts this view by `createdAt` too. */
  function GetFeedByPopularity(ms: seq<Meme>, limit: int, skip: int): (r: seq<Meme>)
    ensures forall k :: 0 <= k < |r| ==> r[k] in ms && r[k].isActive
    ensures NewestFirst(r)
    ensures limit != 0 ==> |r| <= Store.Abs(limit)
    ensures skip < 0 ==> r == []
    ensures skip >= 0 ==> |r| == Store.WindowSize(|ActiveWhere(ms, Everything())|, limit, skip)
    ensures skip >= 0 ==> forall k :: 0 <= k < |r| ==> r[k] == Newest(ms, Everything())[skip + k]
  {
    Query(ms, Everything(), limit, skip)
  }

  /** `searchMemes(query, limit, skip)`; the text index's match is the parameter `textMatch`. */
  function SearchMemes(ms: seq<Meme>, textMatch: (string, Meme) -> bool, query: string, limit: int, skip: int): (r: seq<Meme>)
    ensures forall k :: 0 <= k < |r| ==> r[k] in ms && r[k].isActive && textMatch(query, r[k])
    ensures NewestFirst(r)
    ensures limit != 0 ==> |r| <= Store.Abs(limit)
    ensures skip < 0 ==> r == []
    ensures skip >= 0 ==> |r| == Store.WindowSize(|ActiveWhere(ms, TextMatches(textMatch, query))|, limit, skip)
    ensures skip >= 0 ==> forall k :: 0 <= k < |r| ==> r[k] == Newest(ms, TextMatches(textMatch, query))[skip + k]
  {
    Query(ms, TextMatches(textMatch, query), limit, skip)
  }

  /** `getMemesByTags(tags, limit, skip)`: memes carrying at least one of the tags. */
  function GetMemesByTags(ms: seq<Meme>, tags: seq<string>, limit: int, skip: int): (r: seq<Meme>)
    ensures forall k :: 0 <= k < |r| ==> r[k] in ms && r[k].isActive && SharesTag(r[k].tags, tags)
    ensures NewestFirst(r)
    ensures limit != 0 ==> |r| <= Store.Abs(limit)
    ensures tags == [] ==> r == []
    ensures skip < 0 ==> r == []
    ensures skip >= 0 ==> |r| == Store.WindowSize(|ActiveWhere(ms, TaggedWithAny(tags))|, limit, skip)
    ensures skip >= 0 ==> forall k :: 0 <= k < |r| ==> r[k] == Newest(ms, TaggedWithAny(tags))[skip + k]
  {
    Query(ms, TaggedWithAny(tags), limit, skip)
  }

  /** `getUserMemeCount(userId)`: the number of the user's active memes. */
  function GetUserMemeCount(ms: seq<Meme>, userId: string): (n: nat)
    ensures n == |ActiveWhere(ms, OwnedBy(userId))|
    ensures n <= |ms|
  {
    Store.Count(ms, ActiveAnd(OwnedBy(userId)))
  }

  // ---- updates ---------------------------------------------------------------

  predicate LikedAt(ms: seq<Meme>, docs: seq<Meme>, i: int, memeId: string, userId: string) {
    && 0 <= i < |ms|
    && ms[i].HasId(memeId)
    && userId !in ms[i].likes
    && docs == ms[i := ms[i].(likes := ms[i].likes + [userId])]
  }

  /**
   * `likeMeme(memeId, userId)`: one conditional update, "this id and not yet
   * liked by the user", adding the user to `likes`. It succeeds exactly when
   * such a meme exists, active or not.
   */
  function LikeMeme(ms: seq<Meme>, memeId: string, userId: string): (r: Outcome)
    ensures r.ok <==> exists i :: 0 <= i < |ms| && ms[i].HasId(memeId) && userId !in ms[i].likes
    ensures r.ok ==> exists i :: LikedAt(ms, r.docs, i, memeId, userId)
    ensures !r.ok ==> r.docs == ms
    ensures SameIdentities(ms, r.docs)
  {
    match ParseObjectId(memeId)
    case None => Outcome(ms, false)
    case Some(oid) =>
      var res := Store.UpdateOne(ms, IdAndNotLikedBy(oid, userId), (m: Meme) => m.(likes := AddToSet(m.likes, userId)));
      match Store.FirstIndex(ms, IdAndNotLikedBy(oid, userId))
      case None => Outcome(res.docs, res.modifiedCount > 0)
      case Some(i) =>
        assert ms[i].(likes := AddToSet(ms[i].likes, userId)) != ms[i] by {
          assert userId in AddToSet(ms[i].likes, userId);
        }
        assert LikedAt(ms, res.docs, i, memeId, userId);
        Outcome(res.docs, res.modifiedCount > 0)
  }

  /** `unlikeMeme(memeId, userId)`: pulls the user from the first meme with that id; it succeeds exactly when the user was there. */
  function UnlikeMeme(ms: seq<Meme>, memeId: string, userId: string): (r: Outcome)
    ensures match IndexOfId(ms, memeId)
      case None => r == Outcome(ms, false)
      case Some(i) =>
        && r.docs == ms[i := ms[i].(likes := Pull(ms[i].likes, userId))]
        && (r.ok <==> userId in ms[i].likes)
        && userId !in r.docs[i].likes
    ensures !r.ok ==> r.docs == ms
    ensures SameIdentities(ms, r.docs)
  {
    match ParseObjectId(memeId)
    case None => Outcome(ms, false)
    case Some(oid) =>
      var res := Store.UpdateOne(ms, IdIs(oid), (m: Meme) => m.(likes := Pull(m.likes, userId)));
      Outcome(res.docs, res.modifiedCount > 0)
  }

  /** `incrementDownloadCount(memeId)`: adds exactly one to the first meme with that id. */
  function IncrementDownloadCount(ms: seq<Meme>, memeId: string): (r: Outcome)
    ensures match IndexOfId(ms, memeId)
      case None => r == Outcome(ms, false)
      case Some(i) => r.ok && r.docs == ms[i := ms[i].(downloadCount := ms[i].downloadCount + 1)]
    ensures SameIdentities(ms, r.docs)
  {
    match ParseObjectId(memeId)
    case None => Outcome(ms, false)
    case Some(oid) =>
      var res := Store.UpdateOne(ms, IdIs(oid), (m: Meme) => m.(downloadCount := m.downloadCount + 1));
      Outcome(res.docs, res.modifiedCount > 0)
  }

  /**
   * `updateMeme(memeId, userId, caption, tags)`: only the owner's meme is
   * touched; it reports success only when a value actually changed.
   */
  function UpdateMeme(ms: seq<Meme>, memeId: string, userId: string, caption: Option<string>, tags: seq<string>): (r: Outcome)
    ensures match OwnedIndex(ms, memeId, userId)
      case None => r == Outcome(ms, false)
      case Some(i) =>
        && r.docs == ms[i := Edited(ms[i], caption, tags)]
        && (r.ok <==> (caption.Some? && caption != ms[i].caption) || tags != ms[i].tags)
    ensures !r.ok ==> r.docs == ms
    ensures SameIdentities(ms, r.docs)
  {
    match ParseObjectId(memeId)
    case None => Outcome(ms, false)
    case Some(oid) =>
      var res := Store.UpdateOne(ms, IdAndOwner(oid, userId), (m: Meme) => Edited(m, caption, tags));
      Outcome(res.docs, res.modifiedCount > 0)
  }

  /** `deleteMeme(memeId, userId)`: the owner's meme is marked inactive; success only if it was active. */
  function DeleteMeme(ms: seq<Meme>, memeId: string, userId: string): (r: Outcome)
    ensures match OwnedIndex(ms, memeId, userId)
      case None => r == Outcome(ms, false)
      case Some(i) => r.docs == ms[i := ms[i].(isActive := false)] && (r.ok <==> ms[i].isActive)
    ensures !r.ok ==> r.docs == ms
    ensures SameIdentities(ms, r.docs)
  {
    match ParseObjectId(memeId)
    case None => Outcome(ms, false)
    case Some(oid) =>
      var res := Store.UpdateOne(ms, IdAndOwner(oid, userId), (m: Meme) => m.(isActive := false));
      Outcome(res.docs, res.modifiedCount > 0)
  }
}
