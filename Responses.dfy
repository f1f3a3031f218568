/** The response records of MemeResponse.kt and UserResponse.kt and the `toResponse` shaping functions. */
module Responses {
  import opened Wrappers
  import opened Models
  import opened Auth

  datatype MemeResponse = MemeResponse(
    id: string,
    userId: string,
    username: string,
    imageUrl: string,
    caption: Option<string>,
    tags: seq<string>,
    likesCount: int,
    isLiked: bool,
    downloadCount: int,
    createdAt: int)

  datatype FeedResponse = FeedResponse(memes: seq<MemeResponse>, hasMore: bool, nextCursor: Option<string>)

  /** The public view of a user: there is no field for the password hash or for `isActive`. */
  datatype UserResponse = UserResponse(
    id: string,
    username: string,
    email: string,
    profileImage: Option<string>,
    totalLikes: int,
    createdAt: int)

  datatype AuthResponse = AuthResponse(token: Token, user: UserResponse)

  /** `Meme.toResponse(currentUserId)`: the like count and the viewer's like are derived, never stored. */
  function MemeToResponse(m: Meme, currentUserId: Option<string> := None): (r: MemeResponse)
    ensures r.likesCount == |m.likes|
    ensures r.isLiked <==> currentUserId.Some? && currentUserId.value in m.likes
    ensures currentUserId.None? ==> !r.isLiked
    ensures r.id == m.StringId() && (m.id.None? ==> r.id == "")
    ensures r.userId == m.userId && r.username == m.username && r.imageUrl == m.imageUrl
    ensures r.caption == m.caption && r.tags == m.tags
    ensures r.downloadCount == m.downloadCount && r.createdAt == m.createdAt
  {
    MemeResponse(
      m.StringId(), m.userId, m.username, m.imageUrl, m.caption, m.tags,
      |m.likes|,
      match currentUserId case Some(u) => u in m.likes case None => false,
      m.downloadCount, m.createdAt)
  }

  /** `User.toResponse()`. */
  function UserToResponse(u: User): (r: UserResponse)
    ensures r.id == u.StringId() && (u.id.None? ==> r.id == "")
    ensures r.username == u.username && r.email == u.email && r.profileImage == u.profileImage
    ensures r.totalLikes == u.totalLikes && r.createdAt == u.createdAt
  {
    UserResponse(u.StringId(), u.username, u.email, u.profileImage, u.totalLikes, u.createdAt)
  }

  /** The shaped user does not depend on the password hash or the active flag: neither can leak into a response. */
  lemma UserResponseHidesSecrets(u: User, otherHash: string, otherActive: bool)
    ensures UserToResponse(u.(passwordHash := otherHash, isActive := otherActive)) == UserToResponse(u)
  {
  }
}
