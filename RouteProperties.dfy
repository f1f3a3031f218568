/** Properties of the Routes.kt handlers that span several requests. */
module RouteProperties {
  import opened Wrappers
  import opened KotlinInt
  import opened AsciiText
  import opened Auth
  import opened ObjectIds
  import opened Models
  import opened Responses
  import opened Paging
  import opened Routes
  import MemeStore
  import MemeProperties
  import UserStore

  // ---- like and unlike ------------------------------------------------------

  /** A first like of an active meme answers success and adds one to its owner's `totalLikes`, and nothing else. */
  lemma LikeCreditsOwnerOnce(ms: seq<Meme>, us: seq<User>, memeId: string, callerId: string, i: nat, j: nat)
    requires MemeStore.WellFormed(ms) && UserStore.WellFormed(us)
    requires i < |ms| && ms[i].HasId(memeId) && callerId !in ms[i].likes && ms[i].isActive
    requires j < |us| && us[j].HasId(ms[i].userId)
    ensures var e := LikeFlow(ms, us, memeId, callerId);
      && e.reply == Done("Meme liked")
      && e.memes == ms[i := ms[i].(likes := ms[i].likes + [callerId])]
      && e.users == us[j := us[j].(totalLikes := us[j].totalLikes + 1)]
  {
    var s := MemeStore.LikeMeme(ms, memeId, callerId).docs;
    MemeProperties.LikeShowsInResponse(ms, memeId, callerId, i);
    var k :| MemeStore.LikedAt(ms, s, k, memeId, callerId);
    MemeStore.IndexOfUniqueId(ms, memeId, i);
    UserStore.IndexOfUniqueId(us, ms[i].userId, j);
  }

  /** A repeated like answers `already_liked` and changes neither collection. */
  lemma RepeatedLikeChangesNothing(ms: seq<Meme>, us: seq<User>, memeId: string, callerId: string)
    requires MemeStore.WellFormed(ms) && LikeFlow(ms, us, memeId, callerId).reply.status == OK
    ensures var e := LikeFlow(ms, us, memeId, callerId);
      LikeFlow(e.memes, e.users, memeId, callerId)
        == Effect(e.memes, e.users, Failure(BadRequest, "already_liked", "Meme already liked or not found"))
  {
    MemeProperties.LikeTwiceIsRefused(ms, memeId, callerId);
  }

  /** Liking a soft-deleted meme succeeds, yet its owner's counter does not move: the second step reads through the active-only lookup. */
  lemma LikingDeletedMemeCreditsNobody(ms: seq<Meme>, us: seq<User>, memeId: string, callerId: string, i: nat)
    requires MemeStore.WellFormed(ms)
    requires i < |ms| && ms[i].HasId(memeId) && callerId !in ms[i].likes && !ms[i].isActive
    ensures var e := LikeFlow(ms, us, memeId, callerId);
      && e.reply == Done("Meme liked")
      && e.memes[i].likes == ms[i].likes + [callerId]
      && e.users == us
  {
    var s := MemeStore.LikeMeme(ms, memeId, callerId).docs;
    var k :| MemeStore.LikedAt(ms, s, k, memeId, callerId);
    MemeStore.IndexOfUniqueId(ms, memeId, i);
    MemeProperties.SameIdentitiesKeepWellFormed(ms, s);
    MemeProperties.LookupOfUniqueId(s, memeId, i);
  }

  /** Un-liking an active meme one has liked answers success and takes one from its owner's `totalLikes`. */
  lemma UnlikeDebitsOwnerOnce(ms: seq<Meme>, us: seq<User>, memeId: string, callerId: string, i: nat, j: nat)
    requires MemeStore.WellFormed(ms) && UserStore.WellFormed(us)
    requires i < |ms| && ms[i].HasId(memeId) && callerId in ms[i].likes && ms[i].isActive
    requires j < |us| && us[j].HasId(ms[i].userId)
    ensures var e := UnlikeFlow(ms, us, memeId, callerId);
      && e.reply == Done("Meme unliked")
      && callerId !in e.memes[i].likes
      && e.users == us[j := us[j].(totalLikes := us[j].totalLikes - 1)]
  {
    var s := MemeStore.UnlikeMeme(ms, memeId, callerId).docs;
    MemeStore.IndexOfUniqueId(ms, memeId, i);
    MemeProperties.SameIdentitiesKeepWellFormed(ms, s);
    MemeProperties.LookupOfUniqueId(s, memeId, i);
    UserStore.IndexOfUniqueId(us, ms[i].userId, j);
  }

  /** A like request followed by an unlike request from the same caller restores both collections. */
  lemma LikeThenUnlikeRestoresBoth(ms: seq<Meme>, us: seq<User>, memeId: string, callerId: string)
    requires MemeStore.WellFormed(ms) && UserStore.WellFormed(us)
    requires LikeFlow(ms, us, memeId, callerId).reply.status == OK
    ensures var e := LikeFlow(ms, us, memeId, callerId);
      UnlikeFlow(e.memes, e.users, memeId, callerId) == Effect(ms, us, Done("Meme unliked"))
  {
    var e := LikeFlow(ms, us, memeId, callerId);
    var s := e.memes;
    var i :| MemeStore.LikedAt(ms, s, i, memeId, callerId);
    MemeProperties.LikeThenUnlikeRestores(ms, memeId, callerId);
    MemeProperties.SameIdentitiesKeepWellFormed(ms, s);
    MemeProperties.LookupOfUniqueId(s, memeId, i);
    MemeProperties.LookupOfUniqueId(ms, memeId, i);
    if ms[i].isActive {
      var owner := ms[i].userId;
      match UserStore.IndexOfId(us, owner)
      case None =>
      case Some(j) =>
        UserStore.CreditThenDebitRestores(us, owner, j);
    }
  }

  // ---- registration and login ---------------------------------------------

  /** No two active accounts share a username. */
  predicate ActiveUsernamesDistinct(us: seq<User>) {
    forall i, j :: 0 <= i < j < |us| && us[i].isActive && us[j].isActive ==> us[i].username != us[j].username
  }

  /** Every active account's email contains an '@'. */
  predicate ActiveEmailsHaveAt(us: seq<User>) {
    forall j :: 0 <= j < |us| && us[j].isActive ==> '@' in us[j].email
  }

  /** Registration never creates a second active account with a taken username. */
  lemma RegisterKeepsUsernamesDistinct(us: seq<User>, req: RegisterRequest, passwordHash: string, nowSec: int, nowMs: int, newId: ObjectId)
    requires ActiveUsernamesDistinct(us)
    ensures ActiveUsernamesDistinct(RegisterFlow(us, req, passwordHash, nowSec, nowMs, newId).users)
  {
    var r := RegisterFlow(us, req, passwordHash, nowSec, nowMs, newId);
    if r.reply.status == Created {
      RegistrationCreated(us, req, passwordHash, nowSec, nowMs, newId);
      AppendedKeepsUsernamesDistinct(us, r.users[|us|]);
    }
  }

  lemma AppendedKeepsUsernamesDistinct(us: seq<User>, u: User)
    requires ActiveUsernamesDistinct(us)
    requires forall j :: 0 <= j < |us| ==> !(us[j].username == u.username && us[j].isActive)
    ensures ActiveUsernamesDistinct(us + [u])
  {
    var after := us + [u];
    forall i, j | 0 <= i < j < |after| && after[i].isActive && after[j].isActive
      ensures after[i].username != after[j].username
    {
      if j == |us| {
        assert after[i] == us[i];
      } else {
        assert after[i] == us[i] && after[j] == us[j];
      }
    }
  }

  lemma AtSurvivesNormalisation(email: string)
    requires '@' in email
    ensures '@' in Lowercase(Trim(email))
  {
    var k :| 0 <= k < |email| && email[k] == '@';
    TrimKeeps(email, k);
    LowercaseKeeps(Trim(email), '@');
  }

  /** What a successful registration has checked and stored. */
  lemma RegistrationCreated(us: seq<User>, req: RegisterRequest, passwordHash: string, nowSec: int, nowMs: int, newId: ObjectId)
    requires RegisterFlow(us, req, passwordHash, nowSec, nowMs, newId).reply.status == Created
    ensures IsValidUsername(req.username) && IsValidEmail(req.email)
    ensures UserStore.GetUserByUsername(us, req.username).None?
    ensures var u := Applicant(req, passwordHash, nowSec).(id := Some(newId));
      && RegisterFlow(us, req, passwordHash, nowSec, nowMs, newId).users == us + [u]
      && u.username == req.username && u.email == Lowercase(Trim(req.email)) && u.isActive
  {
  }

  /** Registration stores only emails that contain an '@'. */
  lemma RegisterKeepsEmailsWithAt(us: seq<User>, req: RegisterRequest, passwordHash: string, nowSec: int, nowMs: int, newId: ObjectId)
    requires ActiveEmailsHaveAt(us)
    ensures ActiveEmailsHaveAt(RegisterFlow(us, req, passwordHash, nowSec, nowMs, newId).users)
  {
    var r := RegisterFlow(us, req, passwordHash, nowSec, nowMs, newId);
    if r.reply.status == Created {
      RegistrationCreated(us, req, passwordHash, nowSec, nowMs, newId);
      AtSurvivesNormalisation(req.email);
      AppendedKeepsEmailsWithAt(us, Applicant(req, passwordHash, nowSec).(id := Some(newId)));
    }
  }

  lemma AppendedKeepsEmailsWithAt(us: seq<User>, u: User)
    requires ActiveEmailsHaveAt(us) && '@' in u.email
    ensures ActiveEmailsHaveAt(us + [u])
  {
    var docs := us + [u];
    forall j | 0 <= j < |docs| && docs[j].isActive ensures '@' in docs[j].email {
      if j < |us| {
        assert docs[j] == us[j];
      }
    }
  }

  lemma ValidUsernameHasNoAt(username: string)
    requires IsValidUsername(username)
    ensures '@' !in username
  {
    ValidUsernameExactly(username);
  }

  /**
   * A user who has just registered can sign in with the same username and
   * password, and gets their own account back.
   */
  lemma RegisterThenLogin(us: seq<User>, req: RegisterRequest, passwordHash: string, checkPassword: (string, string) -> bool,
                          nowSec: int, nowMs: int, loginMs: int, newId: ObjectId)
    requires ActiveEmailsHaveAt(us)
    requires checkPassword(req.password, passwordHash)
    requires RegisterFlow(us, req, passwordHash, nowSec, nowMs, newId).reply.status == Created
    ensures var r := RegisterFlow(us, req, passwordHash, nowSec, nowMs, newId);
      var login := Login(r.users, LoginRequest(req.username, req.password), checkPassword, loginMs);
      && login.status == OK
      && login.body.auth.user == UserToResponse(r.users[|us|])
      && login.body.auth.token.expiresAtMs == loginMs + VALIDITY_MS
  {
    var r := RegisterFlow(us, req, passwordHash, nowSec, nowMs, newId);
    RegistrationCreated(us, req, passwordHash, nowSec, nowMs, newId);
    ValidUsernameHasNoAt(req.username);
    var u := Applicant(req, passwordHash, nowSec).(id := Some(newId));
    forall j | 0 <= j < |us| && us[j].isActive
      ensures us[j].username != req.username && us[j].email != req.username
    {
      assert '@' in us[j].email;
    }
    OnlyAccountIsFound(us, u, req.username);
  }

  /** An identifier that names only the last account finds that account. */
  lemma OnlyAccountIsFound(us: seq<User>, u: User, ident: string)
    requires u.isActive && u.username == ident
    requires forall j :: 0 <= j < |us| && us[j].isActive ==> us[j].username != ident && us[j].email != ident
    ensures UserStore.GetUserByUsernameOrEmail(us + [u], ident) == Some(u)
  {
    var docs := us + [u];
    var found := UserStore.GetUserByUsernameOrEmail(docs, ident);
    assert found.Some? by {
      assert UserStore.GetUserByUsername(docs, ident).Some? by {
        assert docs[|us|].username == ident && docs[|us|].isActive;
      }
      UserStore.UsernameOrEmailFindsEither(docs, ident);
    }
    var j :| 0 <= j < |docs| && docs[j] == found.value;
  }

  /**
   * The email duplicate check compares the address as typed, while the stored
   * address is trimmed and lower-cased: "A@b.c" gets past an existing
   * "a@b.c" and a second active account with the same stored email is created.
   */
  lemma EmailCaseVariantIsAdmitted(alice: User, newId: ObjectId)
    requires alice.isActive && alice.username == "alice" && alice.email == "a@b.c" && alice.id != Some(newId)
    ensures var r := RegisterFlow([alice], RegisterRequest("bob", "A@b.c", "secret1"), "h2", 0, 0, newId);
      && r.reply.status == Created
      && |r.users| == 2 && r.users[0].isActive && r.users[1].isActive
      && r.users[0].email == r.users[1].email
  {
    ExampleCheckPasses(alice, newId);
    ExampleEmailNormalises();
    RegistrationCreated([alice], RegisterRequest("bob", "A@b.c", "secret1"), "h2", 0, 0, newId);
  }

  lemma ExampleCheckPasses(alice: User, newId: ObjectId)
    requires alice.username == "alice" && alice.email == "a@b.c" && alice.id != Some(newId)
    ensures RegisterCheck([alice], RegisterRequest("bob", "A@b.c", "secret1")).None?
    ensures !UserStore.IdInUse([alice], newId)
  {
    ExampleApplicantIsValid();
    ExampleLookupsMiss(alice);
  }

  /** Neither lookup of the registration check matches the one stored account. */
  lemma ExampleLookupsMiss(alice: User)
    requires alice.username == "alice" && alice.email == "a@b.c"
    ensures UserStore.GetUserByUsername([alice], "bob").None?
    ensures UserStore.GetUserByEmail([alice], "A@b.c").None?
  {
    assert "alice"[0] != "bob"[0];
    ExampleEmailNormalises();
  }

  lemma ExampleApplicantIsValid()
    ensures IsValidUsername("bob") && IsValidPassword("secret1") && IsValidEmail("A@b.c")
  {
    Utf16LengthOfBmp("bob");
    Utf16LengthOfBmp("secret1");
    assert "A@b.c"[1] == '@' && "A@b.c"[3] == '.';
  }

  lemma ExampleEmailNormalises()
    ensures Lowercase(Trim("A@b.c")) == "a@b.c"
    ensures "A@b.c" != "a@b.c"
  {
    assert "A@b.c"[0] != "a@b.c"[0];
    calc {
      Lowercase(Trim("A@b.c"));
      == { TrimOfTrimmed("A@b.c"); }
      Lowercase("A@b.c");
      == { assert "A@b.c" == ['A'] + "@b.c"; LowercaseCons('A', "@b.c"); }
      [LowerChar('A')] + Lowercase("@b.c");
      == { assert IsLowerCase("@b.c"); }
      ['a'] + "@b.c";
      ==
      "a@b.c";
    }
  }

  // ---- feeds ----------------------------------------------------------------

  /** The `sort` parameter makes no difference to the feed. */
  lemma FeedIgnoresSort(ms: seq<Meme>, pageParam: Option<string>, limitParam: Option<string>, sortParam: Option<string>)
    ensures Feed(ms, pageParam, limitParam, Some("popular")) == Feed(ms, pageParam, limitParam, sortParam)
  {
    MemeProperties.PopularFeedIsRecencyFeed(ms, LimitParam(limitParam) + 1, Skip(PageParam(pageParam), LimitParam(limitParam)));
  }

  /** The tag route is case-insensitive in the tag it is given. */
  lemma TagFeedIgnoresCase(ms: seq<Meme>, tag: string, pageParam: Option<string>, limitParam: Option<string>)
    ensures TagFeed(ms, Lowercase(tag), pageParam, limitParam) == TagFeed(ms, tag, pageParam, limitParam)
  {
  }

  lemma LimitParamExamples()
    ensures LimitParam(None) == 20
    ensures LimitParam(Some("abc")) == 20
    ensures LimitParam(Some("0")) == 1
    ensures LimitParam(Some("7")) == 7
    ensures LimitParam(Some("100")) == 50
    ensures PageParam(Some("x")) == 1
  {
    assert ToIntOrNull("0") == Some(0);
    assert ToIntOrNull("7") == Some(7);
    assert DigitsValue("10") == 10 by {
      assert "10"[..1] == "1";
    }
    assert DigitsValue("100") == 100 by {
      assert "100"[..2] == "10";
    }
    assert ToIntOrNull("100") == Some(100);
  }

  function Posted(createdAt: int): Meme {
    NewMeme("u1", "alice", "https://res.cloudinary.com/a.jpg", createdAt)
  }

  /**
   * `hasMore` on the feed says exactly that some active meme lies beyond the
   * page; a page holds `limit` memes, or what is left after the skip, and they
   * are the newest-first active memes from the skip on.
   */
  lemma FeedHasMoreExactly(ms: seq<Meme>, pageParam: Option<string>, limitParam: Option<string>, sortParam: Option<string>)
    ensures var limit := LimitParam(limitParam);
      var skip := Skip(PageParam(pageParam), limit);
      var n := |MemeStore.ActiveWhere(ms, MemeStore.Everything())|;
      var r := Feed(ms, pageParam, limitParam, sortParam);
      && (r.hasMore <==> skip >= 0 && n > skip + limit)
      && (skip >= 0 ==> |r.memes| == if n - skip >= limit then limit else if n > skip then n - skip else 0)
      && (skip < 0 ==> |r.memes| == 0)
      && (skip >= 0 ==> forall k :: 0 <= k < |r.memes| ==>
            r.memes[k] == MemeToResponse(MemeStore.Newest(ms, MemeStore.Everything())[skip + k], None))
  {
  }

  /**
   * A search page is the window of the newest-first active memes the text
   * match accepts for `query`, and `hasMore` says exactly that more of them
   * lie beyond the page.
   */
  lemma SearchHasMoreExactly(ms: seq<Meme>, textMatch: (string, Meme) -> bool, query: string,
                             pageParam: Option<string>, limitParam: Option<string>)
    ensures var limit := LimitParam(limitParam);
      var skip := Skip(PageParam(pageParam), limit);
      var matches := MemeStore.Newest(ms, MemeStore.TextMatches(textMatch, query));
      var n := |MemeStore.ActiveWhere(ms, MemeStore.TextMatches(textMatch, query))|;
      var r := Search(ms, textMatch, Some(query), pageParam, limitParam).body.feed;
      && (r.hasMore <==> skip >= 0 && n > skip + limit)
      && (skip >= 0 ==> |r.memes| == if n - skip >= limit then limit else if n > skip then n - skip else 0)
      && (skip < 0 ==> |r.memes| == 0)
      && (skip >= 0 ==> forall k :: 0 <= k < |r.memes| ==> r.memes[k] == MemeToResponse(matches[skip + k], None))
  {
  }

  /**
   * A tag page is the window of the newest-first active memes that carry the
   * lower-cased tag, and `hasMore` says exactly that more of them lie beyond
   * the page.
   */
  lemma TagFeedHasMoreExactly(ms: seq<Meme>, tag: string, pageParam: Option<string>, limitParam: Option<string>)
    ensures var limit := LimitParam(limitParam);
      var skip := Skip(PageParam(pageParam), limit);
      var matches := MemeStore.Newest(ms, MemeStore.TaggedWithAny([Lowercase(tag)]));
      var n := |MemeStore.ActiveWhere(ms, MemeStore.TaggedWithAny([Lowercase(tag)]))|;
      var r := TagFeed(ms, tag, pageParam, limitParam);
      && (r.hasMore <==> skip >= 0 && n > skip + limit)
      && (skip >= 0 ==> |r.memes| == if n - skip >= limit then limit else if n > skip then n - skip else 0)
      && (skip < 0 ==> |r.memes| == 0)
      && (skip >= 0 ==> forall k :: 0 <= k < |r.memes| ==> r.memes[k] == MemeToResponse(matches[skip + k], None))
  {
  }

  /**
   * `hasMore` on a user's list says exactly that more of the user's active
   * memes, as `getUserMemeCount` counts them, lie beyond the page.
   */
  lemma UserMemesHasMoreExactly(ms: seq<Meme>, userId: string, callerId: string, pageParam: Option<string>, limitParam: Option<string>)
    ensures var limit := LimitParam(limitParam);
      var skip := Skip(PageParam(pageParam), limit);
      var n := MemeStore.GetUserMemeCount(ms, userId);
      var r := UserMemes(ms, userId, callerId, pageParam, limitParam);
      && (r.hasMore <==> skip >= 0 && n > skip + limit)
      && (skip >= 0 ==> |r.memes| == if n - skip >= limit then limit else if n > skip then n - skip else 0)
      && (skip < 0 ==> |r.memes| == 0)
  {
  }



  lemma ExampleParams()
    ensures PageParam(Some("1")) == 1 && PageParam(Some("2")) == 2 && LimitParam(Some("2")) == 2
    ensures Skip(1, 2) == 0 && Skip(2, 2) == 2
    ensures IntToString(Wrap(1 + 1)) == "2"
  {
    assert ToIntOrNull("1") == Some(1);
    assert ToIntOrNull("2") == Some(2);
  }

  /**
   * Three active memes and `limit=2`: page 1 shows two memes, the newest
   * first, and points to page "2"; page 2 shows the last one and ends the feed.
   */
  lemma FeedPagesExample()
    ensures var ms := [Posted(1), Posted(2), Posted(3)];
      var first := Feed(ms, Some("1"), Some("2"), None);
      var second := Feed(ms, Some("2"), Some("2"), None);
      && |first.memes| == 2 && first.hasMore && first.nextCursor == Some("2")
      && first.memes[0].createdAt == 3
      && |second.memes| == 1 && !second.hasMore && second.nextCursor == None
  {
    var ms := [Posted(1), Posted(2), Posted(3)];
    ExampleParams();
    ActiveFeedOfThree();
    FeedHasMoreExactly(ms, Some("1"), Some("2"), None);
    FeedHasMoreExactly(ms, Some("2"), Some("2"), None);
    NewestOfThree();
    var rows := MemeStore.GetFeed(ms, 3, 0);
    assert rows[0] == MemeStore.Newest(ms, MemeStore.Everything())[0];
  }

  lemma NewestOfThree()
    ensures |MemeStore.Newest([Posted(1), Posted(2), Posted(3)], MemeStore.Everything())| == 3
    ensures MemeStore.Newest([Posted(1), Posted(2), Posted(3)], MemeStore.Everything())[0].createdAt == 3
  {
    var ms := [Posted(1), Posted(2), Posted(3)];
    var rows := MemeStore.Newest(ms, MemeStore.Everything());
    ActiveFeedOfThree();
    assert Posted(3) in ms;
    assert Posted(3) in rows;
    var k :| 0 <= k < |rows| && rows[k] == Posted(3);
    assert rows[0] in ms;
  }

  lemma ActiveFeedOfThree()
    ensures |MemeStore.ActiveWhere([Posted(1), Posted(2), Posted(3)], MemeStore.Everything())| == 3
  {
    var ms := [Posted(1), Posted(2), Posted(3)];
    assert ms[1..] == [Posted(2), Posted(3)];
    assert ms[1..][1..] == [Posted(3)];
    assert ms[1..][1..][1..] == [];
  }
}
