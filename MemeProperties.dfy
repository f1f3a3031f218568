/** Properties of the meme collection that relate several calls of MemeRepository.kt. */
module MemeProperties {
  import opened Wrappers
  import opened Models
  import opened Responses
  import opened MemeStore
  import Store

  lemma {:induction false} PullAfterAppend(xs: seq<string>, x: string)
    requires x !in xs
    ensures Pull(xs + [x], x) == xs
  {
    if xs == [] {
      assert Pull([x], x) == [] + Pull([], x);
    } else {
      assert (xs + [x])[1..] == xs[1..] + [x];
      assert x !in xs[1..];
      PullAfterAppend(xs[1..], x);
      assert Pull(xs + [x], x) == [xs[0]] + Pull(xs[1..] + [x], x);
      assert [xs[0]] + xs[1..] == xs;
    }
  }

  lemma {:induction false} PullKeepsNoDuplicates(xs: seq<string>, x: string)
    requires NoDuplicates(xs)
    ensures NoDuplicates(Pull(xs, x))
  {
    if xs != [] {
      var rest := Pull(xs[1..], x);
      assert NoDuplicates(xs[1..]) by {
        forall i, j | 0 <= i < j < |xs[1..]| ensures xs[1..][i] != xs[1..][j] {
          assert xs[1..][i] == xs[i + 1] && xs[1..][j] == xs[j + 1];
        }
      }
      PullKeepsNoDuplicates(xs[1..], x);
      assert xs[0] !in xs[1..] by {
        forall k | 0 <= k < |xs[1..]| ensures xs[1..][k] != xs[0] {
          assert xs[1..][k] == xs[k + 1];
        }
      }
      assert xs[0] !in rest;
      var head := if xs[0] == x then [] else [xs[0]];
      var r := head + rest;
      forall i, j | 0 <= i < j < |r| ensures r[i] != r[j] {
        if i < |head| {
          assert r[i] == xs[0] && r[j] == rest[j - |head|];
        } else {
          assert r[i] == rest[i - |head|] && r[j] == rest[j - |head|];
        }
      }
    }
  }

  /** With unique ids, the lookup by id finds exactly the meme carrying it, when that meme is active. */
  lemma LookupOfUniqueId(ms: seq<Meme>, memeId: string, i: nat)
    requires WellFormed(ms) && i < |ms| && ms[i].HasId(memeId)
    ensures GetMemeById(ms, memeId) == if ms[i].isActive then Some(ms[i]) else None
  {
    IndexOfUniqueId(ms, memeId, i);
    var found := GetMemeById(ms, memeId);
    if ms[i].isActive {
      assert found.Some? by {
        assert ms[i].HasId(memeId) && ms[i].isActive;
      }
      var j :| 0 <= j < |ms| && ms[j] == found.value;
    }
  }

  /** No update of MemeRepository.kt gives a meme an id, owner or creation time it did not have. */
  lemma SameIdentitiesKeepWellFormed(ms: seq<Meme>, docs: seq<Meme>)
    requires WellFormed(ms) && SameIdentities(ms, docs)
    ensures WellFormed(docs)
  {
  }

  /** A like appends a user who was not there yet, so `likes` stays free of duplicates. */
  lemma LikeKeepsLikesSets(ms: seq<Meme>, memeId: string, userId: string)
    requires LikesAreSets(ms)
    ensures LikesAreSets(LikeMeme(ms, memeId, userId).docs)
  {
    var liked := LikeMeme(ms, memeId, userId);
    if liked.ok {
      var i :| LikedAt(ms, liked.docs, i, memeId, userId);
      var l := ms[i].likes + [userId];
      forall a, b | 0 <= a < b < |l| ensures l[a] != l[b] {
        if b == |l| - 1 {
          assert l[a] == ms[i].likes[a];
        } else {
          assert l[a] == ms[i].likes[a] && l[b] == ms[i].likes[b];
        }
      }
    }
  }

  /** An unlike only removes entries, so `likes` stays free of duplicates. */
  lemma UnlikeKeepsLikesSets(ms: seq<Meme>, memeId: string, userId: string)
    requires LikesAreSets(ms)
    ensures LikesAreSets(UnlikeMeme(ms, memeId, userId).docs)
  {
    match IndexOfId(ms, memeId)
    case None =>
    case Some(i) =>
      PullKeepsNoDuplicates(ms[i].likes, userId);
  }

  /** Downloads, edits and deletes leave `likes` as it was. */
  lemma OtherUpdatesKeepLikes(ms: seq<Meme>, memeId: string, userId: string, caption: Option<string>, tags: seq<string>)
    ensures forall j :: 0 <= j < |ms| ==> IncrementDownloadCount(ms, memeId).docs[j].likes == ms[j].likes
    ensures forall j :: 0 <= j < |ms| ==> UpdateMeme(ms, memeId, userId, caption, tags).docs[j].likes == ms[j].likes
    ensures forall j :: 0 <= j < |ms| ==> DeleteMeme(ms, memeId, userId).docs[j].likes == ms[j].likes
  {
    DownloadKeepsLikes(ms, memeId);
    EditKeepsLikes(ms, memeId, userId, caption, tags);
    DeleteKeepsLikes(ms, memeId, userId);
  }

  /** An update that leaves every `likes` list as it was keeps them free of duplicates. */
  lemma SameLikesKeepSets(ms: seq<Meme>, docs: seq<Meme>)
    requires LikesAreSets(ms) && |docs| == |ms|
    requires forall j :: 0 <= j < |ms| ==> docs[j].likes == ms[j].likes
    ensures LikesAreSets(docs)
  {
  }

  lemma DownloadKeepsLikes(ms: seq<Meme>, memeId: string)
    ensures forall j :: 0 <= j < |ms| ==> IncrementDownloadCount(ms, memeId).docs[j].likes == ms[j].likes
  {
    match IndexOfId(ms, memeId)
    case None =>
    case Some(i) =>
  }

  lemma EditKeepsLikes(ms: seq<Meme>, memeId: string, userId: string, caption: Option<string>, tags: seq<string>)
    ensures forall j :: 0 <= j < |ms| ==> UpdateMeme(ms, memeId, userId, caption, tags).docs[j].likes == ms[j].likes
  {
    match OwnedIndex(ms, memeId, userId)
    case None =>
    case Some(i) =>
  }

  lemma DeleteKeepsLikes(ms: seq<Meme>, memeId: string, userId: string)
    ensures forall j :: 0 <= j < |ms| ==> DeleteMeme(ms, memeId, userId).docs[j].likes == ms[j].likes
  {
    match OwnedIndex(ms, memeId, userId)
    case None =>
    case Some(i) =>
  }

  /** Liking a meme a second time is refused and changes nothing. */
  lemma LikeTwiceIsRefused(ms: seq<Meme>, memeId: string, userId: string)
    requires WellFormed(ms) && LikeMeme(ms, memeId, userId).ok
    ensures var s := LikeMeme(ms, memeId, userId).docs;
      LikeMeme(s, memeId, userId) == Outcome(s, false)
  {
    var s := LikeMeme(ms, memeId, userId).docs;
    var i :| LikedAt(ms, s, i, memeId, userId);
    IndexOfUniqueId(ms, memeId, i);
    forall j | 0 <= j < |s| && s[j].HasId(memeId) ensures userId in s[j].likes {
      assert ms[j].HasId(memeId);
    }
  }

  /** A like followed by an unlike by the same user restores the collection exactly and both report success. */
  lemma LikeThenUnlikeRestores(ms: seq<Meme>, memeId: string, userId: string)
    requires WellFormed(ms) && LikeMeme(ms, memeId, userId).ok
    ensures var s := LikeMeme(ms, memeId, userId).docs;
      UnlikeMeme(s, memeId, userId) == Outcome(ms, true)
  {
    var s := LikeMeme(ms, memeId, userId).docs;
    var i :| LikedAt(ms, s, i, memeId, userId);
    SameIdentitiesKeepWellFormed(ms, s);
    IndexOfUniqueId(s, memeId, i);
    PullAfterAppend(ms[i].likes, userId);
    assert s[i := s[i].(likes := Pull(s[i].likes, userId))] == ms;
  }

  /**
   * What the like route then shows: the meme's view for the liker turns from
   * not liked to liked, its count rises by one, and an active meme is found
   * again by id in its new state.
   */
  lemma LikeShowsInResponse(ms: seq<Meme>, memeId: string, userId: string, i: nat)
    requires WellFormed(ms) && i < |ms| && ms[i].HasId(memeId) && userId !in ms[i].likes
    ensures LikeMeme(ms, memeId, userId).ok
    ensures var s := LikeMeme(ms, memeId, userId).docs;
      && !MemeToResponse(ms[i], Some(userId)).isLiked
      && MemeToResponse(s[i], Some(userId)).isLiked
      && MemeToResponse(s[i], Some(userId)).likesCount == MemeToResponse(ms[i], Some(userId)).likesCount + 1
      && (ms[i].isActive ==> GetMemeById(s, memeId) == Some(s[i]))
  {
    var s := LikeMeme(ms, memeId, userId).docs;
    var k :| LikedAt(ms, s, k, memeId, userId);
    IndexOfUniqueId(ms, memeId, i);
    assert k == i;
    SameIdentitiesKeepWellFormed(ms, s);
    IndexOfUniqueId(s, memeId, i);
    if ms[i].isActive {
      var found := GetMemeById(s, memeId);
      assert found.Some? by {
        assert s[i].HasId(memeId) && s[i].isActive;
      }
      var j :| 0 <= j < |s| && s[j] == found.value;
      assert s[j].HasId(memeId);
    }
  }

  /**
   * After a successful delete the meme is gone from every read: lookup by id,
   * every list query, and the owner's count, which drops by one. Deleting it
   * again is refused.
   */
  lemma {:induction false} DeleteHidesMeme(ms: seq<Meme>, memeId: string, userId: string, p: Meme -> bool)
    requires WellFormed(ms) && DeleteMeme(ms, memeId, userId).ok
    ensures var s := DeleteMeme(ms, memeId, userId).docs;
      && GetMemeById(s, memeId) == None
      && (forall m :: m in ActiveWhere(s, p) ==> !m.HasId(memeId))
      && GetUserMemeCount(s, userId) == GetUserMemeCount(ms, userId) - 1
      && DeleteMeme(s, memeId, userId) == Outcome(s, false)
  {
    DeleteClearsLookup(ms, memeId, userId);
    DeleteLeavesActiveViews(ms, memeId, userId, p);
    DeleteLowersCount(ms, memeId, userId);
  }

  lemma DeleteClearsLookup(ms: seq<Meme>, memeId: string, userId: string)
    requires WellFormed(ms) && DeleteMeme(ms, memeId, userId).ok
    ensures var s := DeleteMeme(ms, memeId, userId).docs;
      GetMemeById(s, memeId) == None && DeleteMeme(s, memeId, userId) == Outcome(s, false)
  {
    var s := DeleteMeme(ms, memeId, userId).docs;
    var i := OwnedIndex(ms, memeId, userId).value;
    IndexOfUniqueId(ms, memeId, i);
    SameIdentitiesKeepWellFormed(ms, s);
    IndexOfUniqueId(s, memeId, i);
  }

  lemma DeleteLeavesActiveViews(ms: seq<Meme>, memeId: string, userId: string, p: Meme -> bool)
    requires WellFormed(ms) && DeleteMeme(ms, memeId, userId).ok
    ensures forall m :: m in ActiveWhere(DeleteMeme(ms, memeId, userId).docs, p) ==> !m.HasId(memeId)
  {
    var s := DeleteMeme(ms, memeId, userId).docs;
    var i := OwnedIndex(ms, memeId, userId).value;
    IndexOfUniqueId(ms, memeId, i);
    forall m | m in ActiveWhere(s, p) ensures !m.HasId(memeId) {
      var j :| 0 <= j < |s| && s[j] == m;
    }
  }

  lemma DeleteLowersCount(ms: seq<Meme>, memeId: string, userId: string)
    requires DeleteMeme(ms, memeId, userId).ok
    ensures GetUserMemeCount(DeleteMeme(ms, memeId, userId).docs, userId) == GetUserMemeCount(ms, userId) - 1
  {
    var i := OwnedIndex(ms, memeId, userId).value;
    Store.CountAfterReplace(ms, i, ms[i].(isActive := false), ActiveAnd(OwnedBy(userId)));
  }

  /** A deleted meme is missing from the feed, the owner's list and every tag listing. */
  lemma DeletedMemeLeavesListings(ms: seq<Meme>, memeId: string, userId: string, tags: seq<string>, limit: int, skip: int)
    requires WellFormed(ms) && DeleteMeme(ms, memeId, userId).ok
    ensures var s := DeleteMeme(ms, memeId, userId).docs;
      && (forall m :: m in GetFeed(s, limit, skip) ==> !m.HasId(memeId))
      && (forall m :: m in GetMemesByUserId(s, userId, limit, skip) ==> !m.HasId(memeId))
      && (forall m :: m in GetMemesByTags(s, tags, limit, skip) ==> !m.HasId(memeId))
  {
    var s := DeleteMeme(ms, memeId, userId).docs;
    DeleteHidesMeme(ms, memeId, userId, Everything());
    DeleteHidesMeme(ms, memeId, userId, OwnedBy(userId));
    DeleteHidesMeme(ms, memeId, userId, TaggedWithAny(tags));
  }

  /** Only the owner can edit or delete: anyone else is refused and nothing changes. */
  lemma NonOwnerIsRefused(ms: seq<Meme>, memeId: string, callerId: string, caption: Option<string>, tags: seq<string>)
    requires forall j :: 0 <= j < |ms| && ms[j].HasId(memeId) ==> ms[j].userId != callerId
    ensures UpdateMeme(ms, memeId, callerId, caption, tags) == Outcome(ms, false)
    ensures DeleteMeme(ms, memeId, callerId) == Outcome(ms, false)
  {
  }

  /** Re-sending the meme's current caption and tags is reported as a failed update. */
  lemma UpdateWithCurrentValuesFails(ms: seq<Meme>, memeId: string, userId: string, i: nat, caption: Option<string>)
    requires WellFormed(ms) && i < |ms| && ms[i].HasId(memeId) && ms[i].userId == userId
    requires caption.None? || caption == ms[i].caption
    ensures UpdateMeme(ms, memeId, userId, caption, ms[i].tags) == Outcome(ms, false)
  {
    IndexOfUniqueId(ms, memeId, i);
    assert OwnedIndex(ms, memeId, userId) == Some(i);
    assert ms[i := Edited(ms[i], caption, ms[i].tags)] == ms;
  }

  /** The popularity feed is the recency feed: the source sorts both by `createdAt`. */
  lemma PopularFeedIsRecencyFeed(ms: seq<Meme>, limit: int, skip: int)
    ensures GetFeedByPopularity(ms, limit, skip) == GetFeed(ms, limit, skip)
  {
  }

  /** Every download request for an existing meme counts exactly once, active or not. */
  lemma {:induction false} DownloadsAccumulate(ms: seq<Meme>, memeId: string, i: nat)
    requires WellFormed(ms) && i < |ms| && ms[i].HasId(memeId)
    ensures var s := IncrementDownloadCount(ms, memeId).docs;
      && IncrementDownloadCount(s, memeId).docs[i].downloadCount == ms[i].downloadCount + 2
      && IncrementDownloadCount(s, memeId).docs[i] == ms[i].(downloadCount := ms[i].downloadCount + 2)
  {
    IndexOfUniqueId(ms, memeId, i);
    var s := IncrementDownloadCount(ms, memeId).docs;
    SameIdentitiesKeepWellFormed(ms, s);
    IndexOfUniqueId(s, memeId, i);
  }
}
