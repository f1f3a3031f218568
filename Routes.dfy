/**
 * The handlers of Routes.kt. Read-only handlers are functions of the
 * collections; handlers that change a collection are methods on the two
 * repositories, each tied to a function that describes its whole effect.
 * The authenticated caller (the token's `userId` and `username` claims),
 * the clock and the password hasher are parameters.
 */
module Routes {
  import opened Wrappers
  import opened KotlinInt
  import opened AsciiText
  import opened Auth
  import opened ObjectIds
  import opened Models
  import opened Responses
  import opened Paging
  import MemeStore
  import UserStore
  import MemeRepo
  import UserRepo

  datatype Status = OK | Created | BadRequest | Unauthorized | NotFound | Conflict | InternalServerError
  {
    function Code(): int {
      match this
      case OK => 200
      case Created => 201
      case BadRequest => 400
      case Unauthorized => 401
      case NotFound => 404
      case Conflict => 409
      case InternalServerError => 500
    }
  }

  datatype ErrorResponse = ErrorResponse(error: string, message: string)
  datatype SuccessResponse = SuccessResponse(success: bool, message: string)

  datatype Body =
    | AuthBody(auth: AuthResponse)
    | UserBody(user: UserResponse)
    | MemeBody(meme: MemeResponse)
    | FeedBody(feed: FeedResponse)
    | SuccessBody(success: SuccessResponse)
    | ErrorBody(err: ErrorResponse)

  /** What `call.respond` sends: a status and a JSON body. */
  datatype Reply = Reply(status: Status, body: Body)

  datatype RegisterRequest = RegisterRequest(username: string, email: string, password: string)
  /** `username` may hold a username or an email. */
  datatype LoginRequest = LoginRequest(username: string, password: string)
  datatype CreateMemeRequest = CreateMemeRequest(imageUrl: string, caption: Option<string>, tags: seq<string>)
  datatype UpdateMemeRequest = UpdateMemeRequest(caption: Option<string>, tags: seq<string>)

  function Failure(status: Status, error: string, message: string): Reply {
    Reply(status, ErrorBody(ErrorResponse(error, message)))
  }

  function Done(message: string): Reply {
    Reply(OK, SuccessBody(SuccessResponse(true, message)))
  }

  function TrimOption(s: Option<string>): Option<string> {
    match s
    case None => None
    case Some(v) => Some(Trim(v))
  }

  // ---- registration and login ----------------------------------------------

  /** The first registration check that fails, in the order the handler runs them. */
  function RegisterCheck(us: seq<User>, req: RegisterRequest): (r: Option<Reply>)
    ensures r.None? <==>
      && IsValidUsername(req.username) && IsValidEmail(req.email) && IsValidPassword(req.password)
      && UserStore.GetUserByUsername(us, req.username).None?
      && UserStore.GetUserByEmail(us, req.email).None?
    ensures !IsValidUsername(req.username) ==> r == Some(Failure(BadRequest, "validation_error", "Invalid username format"))
    ensures IsValidUsername(req.username) && !IsValidEmail(req.email) ==>
      r == Some(Failure(BadRequest, "validation_error", "Invalid email format"))
    ensures IsValidUsername(req.username) && IsValidEmail(req.email) && !IsValidPassword(req.password) ==>
      r == Some(Failure(BadRequest, "validation_error", "Password must be at least 6 characters"))
    ensures (IsValidUsername(req.username) && IsValidEmail(req.email) && IsValidPassword(req.password)
             && UserStore.GetUserByUsername(us, req.username).Some?) ==>
      r == Some(Failure(Conflict, "user_exists", "Username already taken"))
    ensures (IsValidUsername(req.username) && IsValidEmail(req.email) && IsValidPassword(req.password)
             && UserStore.GetUserByUsername(us, req.username).None?
             && UserStore.GetUserByEmail(us, req.email).Some?) ==>
      r == Some(Failure(Conflict, "user_exists", "Email already registered"))
    ensures r.Some? && r.value.status == Conflict ==>
      IsValidUsername(req.username) && IsValidEmail(req.email) && IsValidPassword(req.password)
    ensures r.Some? ==> r.value.status == BadRequest || r.value.status == Conflict
  {
    if !IsValidUsername(req.username) then Some(Failure(BadRequest, "validation_error", "Invalid username format"))
    else if !IsValidEmail(req.email) then Some(Failure(BadRequest, "validation_error", "Invalid email format"))
    else if !IsValidPassword(req.password) then Some(Failure(BadRequest, "validation_error", "Password must be at least 6 characters"))
    else if UserStore.GetUserByUsername(us, req.username).Some? then Some(Failure(Conflict, "user_exists", "Username already taken"))
    else if UserStore.GetUserByEmail(us, req.email).Some? then Some(Failure(Conflict, "user_exists", "Email already registered"))
    else None
  }

  /** The record `register` builds: trimmed username, trimmed lower-case email, the hash, the clock reading. */
  function Applicant(req: RegisterRequest, passwordHash: string, nowSec: int): (u: User)
    ensures u == NewUser(Trim(req.username), Lowercase(Trim(req.email)), passwordHash, nowSec)
    ensures IsValidUsername(req.username) ==> u.username == req.username
  {
    var u := NewUser(Trim(req.username), Lowercase(Trim(req.email)), passwordHash, nowSec);
    if IsValidUsername(req.username) then ValidUsernameIsTrimmed(req.username); u else u
  }

  function SignedIn(u: User, nowMs: int): (r: AuthResponse)
    ensures r.user == UserToResponse(u)
    ensures r.token.userId == u.StringId() && r.token.username == u.username
    ensures r.token.expiresAtMs == nowMs + VALIDITY_MS
  {
    AuthResponse(GenerateToken(u.StringId(), u.username, nowMs), UserToResponse(u))
  }

  datatype Registration = Registration(users: seq<User>, reply: Reply)

  /** The whole effect of `POST /auth/register`. */
  function RegisterFlow(us: seq<User>, req: RegisterRequest, passwordHash: string, nowSec: int, nowMs: int, newId: ObjectId): (r: Registration)
    ensures r.reply.status == Created <==> RegisterCheck(us, req).None? && !UserStore.IdInUse(us, newId)
    ensures r.reply.status != Created ==> r.users == us
    ensures RegisterCheck(us, req).Some? ==> r.reply == RegisterCheck(us, req).value
    ensures r.reply.status == Created ==>
      var u := Applicant(req, passwordHash, nowSec).(id := Some(newId));
      && u.username == req.username && u.email == Lowercase(Trim(req.email))
      && r.users == us + [u]
      && r.reply == Reply(Created, AuthBody(SignedIn(u, nowMs)))
    ensures RegisterCheck(us, req).None? && UserStore.IdInUse(us, newId) ==>
      r.reply == Failure(InternalServerError, "registration_failed", "Failed to create user")
  {
    match RegisterCheck(us, req)
    case Some(failure) => Registration(us, failure)
    case None =>
      var c := UserStore.CreateUser(us, Applicant(req, passwordHash, nowSec), newId);
      match c.user
      case None => Registration(c.docs, Failure(InternalServerError, "registration_failed", "Failed to create user"))
      case Some(created) => Registration(c.docs, Reply(Created, AuthBody(SignedIn(created, nowMs))))
  }

  /**
   * `POST /auth/login`: the first active account whose username or email is
   * the given identifier, and a password that checks against its hash.
   * Every failure gets the same answer.
   */
  function Login(us: seq<User>, req: LoginRequest, checkPassword: (string, string) -> bool, nowMs: int): (r: Reply)
    ensures r.status == OK <==>
      var found := UserStore.GetUserByUsernameOrEmail(us, req.username);
      found.Some? && checkPassword(req.password, found.value.passwordHash)
    ensures r.status != OK ==> r == Failure(Unauthorized, "invalid_credentials", "Invalid username/email or password")
    ensures r.status == OK ==>
      && r.body.AuthBody?
      && r.body.auth == SignedIn(UserStore.GetUserByUsernameOrEmail(us, req.username).value, nowMs)
  {
    match UserStore.GetUserByUsernameOrEmail(us, req.username)
    case None => Failure(Unauthorized, "invalid_credentials", "Invalid username/email or password")
    case Some(u) =>
      if !checkPassword(req.password, u.passwordHash) then
        Failure(Unauthorized, "invalid_credentials", "Invalid username/email or password")
      else
        Reply(OK, AuthBody(SignedIn(u, nowMs)))
  }

  method Register(users: UserRepo.UserRepository, req: RegisterRequest, hashPassword: string -> string,
                  nowSec: int, nowMs: int, newId: ObjectId) returns (reply: Reply)
    requires users.Valid()
    modifies users
    ensures users.Valid()
    ensures var r := RegisterFlow(old(users.users), req, hashPassword(req.password), nowSec, nowMs, newId);
      users.users == r.users && reply == r.reply
  {
    if !IsValidUsername(req.username) {
      return Failure(BadRequest, "validation_error", "Invalid username format");
    }
    if !IsValidEmail(req.email) {
      return Failure(BadRequest, "validation_error", "Invalid email format");
    }
    if !IsValidPassword(req.password) {
      return Failure(BadRequest, "validation_error", "Password must be at least 6 characters");
    }
    if UserStore.GetUserByUsername(users.users, req.username).Some? {
      return Failure(Conflict, "user_exists", "Username already taken");
    }
    if UserStore.GetUserByEmail(users.users, req.email).Some? {
      return Failure(Conflict, "user_exists", "Email already registered");
    }
    var user := Applicant(req, hashPassword(req.password), nowSec);
    var created := users.CreateUser(user, newId);
    if created.Some? {
      reply := Reply(Created, AuthBody(SignedIn(created.value, nowMs)));
    } else {
      reply := Failure(InternalServerError, "registration_failed", "Failed to create user");
    }
  }

  // ---- user routes ---------------------------------------------------------

  /** `GET /users/me` (with the caller's id) and `GET /users/{id}`. */
  function GetUser(us: seq<User>, userId: string): (r: Reply)
    ensures r.status == OK <==> UserStore.GetUserById(us, userId).Some?
    ensures r.status == OK ==> r.body == UserBody(UserToResponse(UserStore.GetUserById(us, userId).value))
    ensures r.status != OK ==> r == Failure(NotFound, "user_not_found", "User not found")
  {
    match UserStore.GetUserById(us, userId)
    case None => Failure(NotFound, "user_not_found", "User not found")
    case Some(u) => Reply(OK, UserBody(UserToResponse(u)))
  }

  /** `GET /users/{id}/memes`: the user's active memes, newest first, shaped for the caller. */
  function UserMemes(ms: seq<Meme>, userId: string, callerId: string, pageParam: Option<string>, limitParam: Option<string>): (r: FeedResponse)
    ensures |r.memes| <= LimitParam(limitParam)
    ensures forall k :: 0 <= k < |r.memes| ==> r.memes[k].userId == userId
    ensures ShownNewestFirst(r.memes)
    ensures r.nextCursor.Some? <==> r.hasMore
    ensures forall k :: 0 <= k < |r.memes| ==> (r.memes[k].isLiked <==> exists m :: m in ms && m.userId == userId && MemeToResponse(m, Some(callerId)) == r.memes[k] && callerId in m.likes)
    ensures var skip := Skip(PageParam(pageParam), LimitParam(limitParam));
      skip >= 0 ==> forall k :: 0 <= k < |r.memes| ==>
        && skip + k < |MemeStore.Newest(ms, MemeStore.OwnedBy(userId))|
        && r.memes[k] == MemeToResponse(MemeStore.Newest(ms, MemeStore.OwnedBy(userId))[skip + k], Some(callerId))
  {
    var page := PageParam(pageParam);
    var limit := LimitParam(limitParam);
    var rows := MemeStore.GetMemesByUserId(ms, userId, limit + 1, Skip(page, limit));
    PageMarksCallersLikes(ms, rows, userId, callerId, limit, page);
    PageKeepsOrder(rows, limit, page, Some(callerId));
    UserPageShowsWindow(ms, userId, callerId, limit, Skip(page, limit), page);
    Paginate(rows, limit, page, Some(callerId))
  }

  /** The user's page is the window of the user's newest-first active memes from the skip on. */
  lemma UserPageShowsWindow(ms: seq<Meme>, userId: string, callerId: string, limit: int, skip: int, page: int)
    requires limit >= 1
    ensures var r := Paginate(MemeStore.GetMemesByUserId(ms, userId, limit + 1, skip), limit, page, Some(callerId));
      skip >= 0 ==> forall k :: 0 <= k < |r.memes| ==>
        && skip + k < |MemeStore.Newest(ms, MemeStore.OwnedBy(userId))|
        && r.memes[k] == MemeToResponse(MemeStore.Newest(ms, MemeStore.OwnedBy(userId))[skip + k], Some(callerId))
  {
    if skip >= 0 {
      var rows := MemeStore.GetMemesByUserId(ms, userId, limit + 1, skip);
      PageShowsRows(MemeStore.Newest(ms, MemeStore.OwnedBy(userId)), rows, limit, skip, page, Some(callerId));
    }
  }

  lemma PageMarksCallersLikes(ms: seq<Meme>, rows: seq<Meme>, userId: string, callerId: string, limit: int, page: int)
    requires limit >= 1
    requires forall k :: 0 <= k < |rows| ==> rows[k] in ms && rows[k].userId == userId
    ensures var shown := Paginate(rows, limit, page, Some(callerId)).memes;
      forall k :: 0 <= k < |shown| ==>
        (shown[k].isLiked <==> exists m :: m in ms && m.userId == userId && MemeToResponse(m, Some(callerId)) == shown[k] && callerId in m.likes)
  {
    var shown := Paginate(rows, limit, page, Some(callerId)).memes;
    forall k | 0 <= k < |shown|
      ensures shown[k].isLiked <==> exists m :: m in ms && m.userId == userId && MemeToResponse(m, Some(callerId)) == shown[k] && callerId in m.likes
    {
      assert shown[k] == MemeToResponse(rows[k], Some(callerId));
    }
  }

  // ---- meme routes ---------------------------------------------------------

  /** The meme `POST /memes` builds for the caller: trimmed caption, normalised tags, the defaults. */
  function Submitted(callerId: string, callerName: string, req: CreateMemeRequest, nowSec: int): (m: Meme)
    ensures m == NewMeme(callerId, callerName, req.imageUrl, nowSec, TrimOption(req.caption), NormalizeTags(req.tags))
    ensures forall t :: t in m.tags ==> IsNormalTag(t)
    ensures m.caption.Some? ==> IsTrimmed(m.caption.value)
  {
    NewMeme(callerId, callerName, req.imageUrl, nowSec, TrimOption(req.caption), NormalizeTags(req.tags))
  }

  /** `POST /memes`. The reply shows the meme as built, whose id is still unset. */
  method CreateMeme(memes: MemeRepo.MemeRepository, callerId: string, callerName: string, req: CreateMemeRequest,
                    nowSec: int, newId: ObjectId) returns (reply: Reply)
    requires memes.Valid()
    modifies memes
    ensures memes.Valid()
    ensures !IsValidImageUrl(req.imageUrl) ==>
      reply == Failure(BadRequest, "invalid_image", "Invalid image URL") && memes.memes == old(memes.memes)
    ensures IsValidImageUrl(req.imageUrl) ==>
      var m := Submitted(callerId, callerName, req, nowSec);
      && memes.memes == MemeStore.InsertMeme(old(memes.memes), m, newId)
      && reply == Reply(Created, MemeBody(MemeToResponse(m, Some(callerId))))
      && reply.body.meme.id == "" && reply.body.meme.likesCount == 0 && !reply.body.meme.isLiked
  {
    if !IsValidImageUrl(req.imageUrl) {
      return Failure(BadRequest, "invalid_image", "Invalid image URL");
    }
    var meme := Submitted(callerId, callerName, req, nowSec);
    var created := memes.CreateMeme(meme, newId);
    reply := Reply(Created, MemeBody(MemeToResponse(created, Some(callerId))));
  }

  /** `GET /memes/{id}`: an active meme shaped for the caller, or 404. */
  function GetMeme(ms: seq<Meme>, memeId: string, callerId: string): (r: Reply)
    ensures r.status == OK <==> MemeStore.GetMemeById(ms, memeId).Some?
    ensures r.status == OK ==> r.body == MemeBody(MemeToResponse(MemeStore.GetMemeById(ms, memeId).value, Some(callerId)))
    ensures r.status != OK ==> r == Failure(NotFound, "meme_not_found", "Meme not found")
  {
    match MemeStore.GetMemeById(ms, memeId)
    case None => Failure(NotFound, "meme_not_found", "Meme not found")
    case Some(m) => Reply(OK, MemeBody(MemeToResponse(m, Some(callerId))))
  }

  /** `PUT /memes/{id}`: the caller's edit, with the caption trimmed and the tags normalised. */
  method UpdateMeme(memes: MemeRepo.MemeRepository, memeId: string, callerId: string, req: UpdateMemeRequest) returns (reply: Reply)
    requires memes.Valid()
    modifies memes
    ensures memes.Valid()
    ensures var r := MemeStore.UpdateMeme(old(memes.memes), memeId, callerId, TrimOption(req.caption), NormalizeTags(req.tags));
      && memes.memes == r.docs
      && reply == if r.ok then Done("Meme updated successfully")
                  else Failure(NotFound, "meme_not_found", "Meme not found or you don't have permission")
  {
    var updated := memes.UpdateMeme(memeId, callerId, TrimOption(req.caption), NormalizeTags(req.tags));
    if updated {
      reply := Done("Meme updated successfully");
    } else {
      reply := Failure(NotFound, "meme_not_found", "Meme not found or you don't have permission");
    }
  }

  /** `DELETE /memes/{id}`: the caller's soft delete. */
  method DeleteMeme(memes: MemeRepo.MemeRepository, memeId: string, callerId: string) returns (reply: Reply)
    requires memes.Valid()
    modifies memes
    ensures memes.Valid()
    ensures var r := MemeStore.DeleteMeme(old(memes.memes), memeId, callerId);
      && memes.memes == r.docs
      && reply == if r.ok then Done("Meme deleted successfully")
                  else Failure(NotFound, "meme_not_found", "Meme not found or you don't have permission")
  {
    var deleted := memes.DeleteMeme(memeId, callerId);
    if deleted {
      reply := Done("Meme deleted successfully");
    } else {
      reply := Failure(NotFound, "meme_not_found", "Meme not found or you don't have permission");
    }
  }

  /** `POST /memes/{id}/download`. */
  method Download(memes: MemeRepo.MemeRepository, memeId: string) returns (reply: Reply)
    requires memes.Valid()
    modifies memes
    ensures memes.Valid()
    ensures var r := MemeStore.IncrementDownloadCount(old(memes.memes), memeId);
      && memes.memes == r.docs
      && reply == if r.ok then Done("Download counted") else Failure(NotFound, "meme_not_found", "Meme not found")
  {
    var updated := memes.IncrementDownloadCount(memeId);
    if updated {
      reply := Done("Download counted");
    } else {
      reply := Failure(NotFound, "meme_not_found", "Meme not found");
    }
  }

  // ---- like and unlike ----------------------------------------------------

  /**
   * The second step of the like and unlike flows: the meme is read again
   * through the active-only lookup, and only if it is found is its owner's
   * `totalLikes` moved by `delta`. Only `totalLikes` can change.
   */
  function OwnerCredit(us: seq<User>, ms: seq<Meme>, memeId: string, delta: int): (r: seq<User>)
    ensures UserStore.SameAccounts(us, r)
    ensures forall j :: 0 <= j < |us| ==> r[j] == us[j].(totalLikes := r[j].totalLikes)
    ensures MemeStore.GetMemeById(ms, memeId).None? ==> r == us
  {
    match MemeStore.GetMemeById(ms, memeId)
    case None => us
    case Some(m) => UserStore.UpdateUserLikes(us, m.userId, delta).docs
  }

  /** The collections and the reply after a like or unlike request. */
  datatype Effect = Effect(memes: seq<Meme>, users: seq<User>, reply: Reply)

  /** The whole effect of `POST /memes/{id}/like`. */
  function LikeFlow(ms: seq<Meme>, us: seq<User>, memeId: string, callerId: string): (e: Effect)
    ensures var liked := MemeStore.LikeMeme(ms, memeId, callerId);
      && e.memes == liked.docs
      && (e.reply.status == OK <==> liked.ok)
      && (liked.ok ==> e.reply == Done("Meme liked") && e.users == OwnerCredit(us, liked.docs, memeId, 1))
      && (!liked.ok ==> e.reply == Failure(BadRequest, "already_liked", "Meme already liked or not found") && e.users == us)
  {
    var liked := MemeStore.LikeMeme(ms, memeId, callerId);
    if liked.ok then Effect(liked.docs, OwnerCredit(us, liked.docs, memeId, 1), Done("Meme liked"))
    else Effect(ms, us, Failure(BadRequest, "already_liked", "Meme already liked or not found"))
  }

  /** The whole effect of `DELETE /memes/{id}/like`. */
  function UnlikeFlow(ms: seq<Meme>, us: seq<User>, memeId: string, callerId: string): (e: Effect)
    ensures var unliked := MemeStore.UnlikeMeme(ms, memeId, callerId);
      && e.memes == unliked.docs
      && (e.reply.status == OK <==> unliked.ok)
      && (unliked.ok ==> e.reply == Done("Meme unliked") && e.users == OwnerCredit(us, unliked.docs, memeId, -1))
      && (!unliked.ok ==> e.reply == Failure(BadRequest, "not_liked", "Meme not liked or not found") && e.users == us)
  {
    var unliked := MemeStore.UnlikeMeme(ms, memeId, callerId);
    if unliked.ok then Effect(unliked.docs, OwnerCredit(us, unliked.docs, memeId, -1), Done("Meme unliked"))
    else Effect(ms, us, Failure(BadRequest, "not_liked", "Meme not liked or not found"))
  }

  method Like(memes: MemeRepo.MemeRepository, users: UserRepo.UserRepository, memeId: string, callerId: string) returns (reply: Reply)
    requires memes.Valid() && users.Valid()
    modifies memes, users
    ensures memes.Valid() && users.Valid()
    ensures var e := LikeFlow(old(memes.memes), old(users.users), memeId, callerId);
      memes.memes == e.memes && users.users == e.users && reply == e.reply
  {
    var liked := memes.LikeMeme(memeId, callerId);
    if liked {
      var meme := MemeStore.GetMemeById(memes.memes, memeId);
      if meme.Some? {
        var credited := users.UpdateUserLikes(meme.value.userId, 1);
      }
      reply := Done("Meme liked");
    } else {
      reply := Failure(BadRequest, "already_liked", "Meme already liked or not found");
    }
  }

  method Unlike(memes: MemeRepo.MemeRepository, users: UserRepo.UserRepository, memeId: string, callerId: string) returns (reply: Reply)
    requires memes.Valid() && users.Valid()
    modifies memes, users
    ensures memes.Valid() && users.Valid()
    ensures var e := UnlikeFlow(old(memes.memes), old(users.users), memeId, callerId);
      memes.memes == e.memes && users.users == e.users && reply == e.reply
  {
    var unliked := memes.UnlikeMeme(memeId, callerId);
    if unliked {
      var meme := MemeStore.GetMemeById(memes.memes, memeId);
      if meme.Some? {
        var debited := users.UpdateUserLikes(meme.value.userId, -1);
      }
      reply := Done("Meme unliked");
    } else {
      reply := Failure(BadRequest, "not_liked", "Meme not liked or not found");
    }
  }

  // ---- public feed routes --------------------------------------------------

  predicate ShownNewestFirst(shown: seq<MemeResponse>) {
    forall i, j :: 0 <= i < j < |shown| ==> shown[i].createdAt >= shown[j].createdAt
  }

  /** A page of rows sorted newest first is shown newest first. */
  lemma PageKeepsOrder(rows: seq<Meme>, limit: int, page: int, viewer: Option<string>)
    requires limit >= 1 && MemeStore.NewestFirst(rows)
    ensures ShownNewestFirst(Paginate(rows, limit, page, viewer).memes)
  {
    var shown := Paginate(rows, limit, page, viewer).memes;
    forall i, j | 0 <= i < j < |shown| ensures shown[i].createdAt >= shown[j].createdAt {
      assert shown[i] == MemeToResponse(rows[i], viewer) && shown[j] == MemeToResponse(rows[j], viewer);
    }
  }

  /** `sort` defaults to "recent"; only "popular" selects the popularity query. */
  function SortParam(param: Option<string>): string {
    param.GetOr("recent")
  }

  /** `GET /feed`: a page of active memes, newest first, shaped for nobody. */
  function Feed(ms: seq<Meme>, pageParam: Option<string>, limitParam: Option<string>, sortParam: Option<string>): (r: FeedResponse)
    ensures |r.memes| <= LimitParam(limitParam)
    ensures ShownNewestFirst(r.memes)
    ensures forall k :: 0 <= k < |r.memes| ==> !r.memes[k].isLiked
    ensures r.nextCursor.Some? <==> r.hasMore
  {
    var page := PageParam(pageParam);
    var limit := LimitParam(limitParam);
    var skip := Skip(page, limit);
    var rows := if SortParam(sortParam) == "popular" then MemeStore.GetFeedByPopularity(ms, limit + 1, skip)
                else MemeStore.GetFeed(ms, limit + 1, skip);
    var r := Paginate(rows, limit, page, None);
    PageKeepsOrder(rows, limit, page, None);
    r
  }

  /** `GET /feed/search?q=…`; the text index's match is the parameter `textMatch`. A missing `q` is a 400. */
  function Search(ms: seq<Meme>, textMatch: (string, Meme) -> bool, q: Option<string>,
                  pageParam: Option<string>, limitParam: Option<string>): (r: Reply)
    ensures q.None? ==> r == Failure(BadRequest, "missing_parameter", "Search query is required")
    ensures q.Some? ==> r.status == OK && r.body.FeedBody? && |r.body.feed.memes| <= LimitParam(limitParam)
    ensures q.Some? ==> ShownNewestFirst(r.body.feed.memes)
    ensures q.Some? ==> (r.body.feed.nextCursor.Some? <==> r.body.feed.hasMore)
  {
    match q
    case None => Failure(BadRequest, "missing_parameter", "Search query is required")
    case Some(query) =>
      var page := PageParam(pageParam);
      var limit := LimitParam(limitParam);
      var rows := MemeStore.SearchMemes(ms, textMatch, query, limit + 1, Skip(page, limit));
      var feed := Paginate(rows, limit, page, None);
      PageKeepsOrder(rows, limit, page, None);
      Reply(OK, FeedBody(feed))
  }

  /** `GET /feed/tags/{tag}`: memes carrying the lower-cased tag; the tag is not trimmed. */
  function TagFeed(ms: seq<Meme>, tag: string, pageParam: Option<string>, limitParam: Option<string>): (r: FeedResponse)
    ensures |r.memes| <= LimitParam(limitParam)
    ensures ShownNewestFirst(r.memes)
    ensures forall k :: 0 <= k < |r.memes| ==> Lowercase(tag) in r.memes[k].tags
    ensures r.nextCursor.Some? <==> r.hasMore
  {
    var page := PageParam(pageParam);
    var limit := LimitParam(limitParam);
    var rows := MemeStore.GetMemesByTags(ms, [Lowercase(tag)], limit + 1, Skip(page, limit));
    var r := Paginate(rows, limit, page, None);
    RowsCarryTag(rows, Lowercase(tag));
    PageKeepsOrder(rows, limit, page, None);
    r
  }

  lemma RowsCarryTag(rows: seq<Meme>, t: string)
    requires forall k :: 0 <= k < |rows| ==> MemeStore.SharesTag(rows[k].tags, [t])
    ensures forall k :: 0 <= k < |rows| ==> t in rows[k].tags
  {
    forall k | 0 <= k < |rows| ensures t in rows[k].tags {
      var u :| u in rows[k].tags && u in [t];
    }
  }
}
