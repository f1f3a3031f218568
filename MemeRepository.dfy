/**
 * MemeRepository.kt: the repository object and the `memes` collection it
 * updates. Each method changes the collection exactly as the matching
 * MemeStore function describes, keeps ids unique and keeps every `likes`
 * list free of duplicates.
 */
module MemeRepo {
  import opened Wrappers
  import opened ObjectIds
  import opened Models
  import MemeStore
  import MemeProperties

  class MemeRepository {
    /** The documents of the `memes` collection, in insertion order. */
    var memes: seq<Meme>

    /** Ids are unique, and no meme's `likes` holds a user twice. */
    ghost predicate Valid()
      reads this
    {
      MemeStore.WellFormed(memes) && MemeStore.LikesAreSets(memes)
    }

    constructor ()
      ensures Valid() && memes == []
    {
      memes := [];
    }

    /** `createMeme`: a failed insert is swallowed and the argument is returned either way. */
    method CreateMeme(meme: Meme, newId: ObjectId) returns (created: Meme)
      requires Valid() && MemeStore.NoDuplicates(meme.likes)
      modifies this
      ensures Valid()
      ensures memes == MemeStore.InsertMeme(old(memes), meme, newId)
      ensures created == meme
    {
      memes := MemeStore.InsertMeme(memes, meme, newId);
      created := meme;
    }

    method LikeMeme(memeId: string, userId: string) returns (ok: bool)
      requires Valid()
      modifies this
      ensures Valid()
      ensures memes == MemeStore.LikeMeme(old(memes), memeId, userId).docs
      ensures ok == MemeStore.LikeMeme(old(memes), memeId, userId).ok
    {
      var r := MemeStore.LikeMeme(memes, memeId, userId);
      MemeProperties.SameIdentitiesKeepWellFormed(memes, r.docs);
      MemeProperties.LikeKeepsLikesSets(memes, memeId, userId);
      memes, ok := r.docs, r.ok;
    }

    method UnlikeMeme(memeId: string, userId: string) returns (ok: bool)
      requires Valid()
      modifies this
      ensures Valid()
      ensures memes == MemeStore.UnlikeMeme(old(memes), memeId, userId).docs
      ensures ok == MemeStore.UnlikeMeme(old(memes), memeId, userId).ok
    {
      var r := MemeStore.UnlikeMeme(memes, memeId, userId);
      MemeProperties.SameIdentitiesKeepWellFormed(memes, r.docs);
      MemeProperties.UnlikeKeepsLikesSets(memes, memeId, userId);
      memes, ok := r.docs, r.ok;
    }

    method IncrementDownloadCount(memeId: string) returns (ok: bool)
      requires Valid()
      modifies this
      ensures Valid()
      ensures memes == MemeStore.IncrementDownloadCount(old(memes), memeId).docs
      ensures ok == MemeStore.IncrementDownloadCount(old(memes), memeId).ok
    {
      var r := MemeStore.IncrementDownloadCount(memes, memeId);
      MemeProperties.SameIdentitiesKeepWellFormed(memes, r.docs);
      MemeProperties.DownloadKeepsLikes(memes, memeId);
      MemeProperties.SameLikesKeepSets(memes, r.docs);
      memes, ok := r.docs, r.ok;
    }

    method UpdateMeme(memeId: string, userId: string, caption: Option<string>, tags: seq<string>) returns (ok: bool)
      requires Valid()
      modifies this
      ensures Valid()
      ensures memes == MemeStore.UpdateMeme(old(memes), memeId, userId, caption, tags).docs
      ensures ok == MemeStore.UpdateMeme(old(memes), memeId, userId, caption, tags).ok
    {
      var r := MemeStore.UpdateMeme(memes, memeId, userId, caption, tags);
      MemeProperties.SameIdentitiesKeepWellFormed(memes, r.docs);
      MemeProperties.EditKeepsLikes(memes, memeId, userId, caption, tags);
      MemeProperties.SameLikesKeepSets(memes, r.docs);
      memes, ok := r.docs, r.ok;
    }

    method DeleteMeme(memeId: string, userId: string) returns (ok: bool)
      requires Valid()
      modifies this
      ensures Valid()
      ensures memes == MemeStore.DeleteMeme(old(memes), memeId, userId).docs
      ensures ok == MemeStore.DeleteMeme(old(memes), memeId, userId).ok
    {
      var r := MemeStore.DeleteMeme(memes, memeId, userId);
      MemeProperties.SameIdentitiesKeepWellFormed(memes, r.docs);
      MemeProperties.DeleteKeepsLikes(memes, memeId, userId);
      MemeProperties.SameLikesKeepSets(memes, r.docs);
      memes, ok := r.docs, r.ok;
    }
  }
}
