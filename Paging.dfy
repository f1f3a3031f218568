/**
 * The list handlers of Routes.kt: reading `page` and `limit`, the skip they
 * give, the look-ahead row that decides `hasMore`, the `nextCursor`, and the
 * normalisation applied to submitted tags.
 */
module Paging {
  import opened Wrappers
  import opened KotlinInt
  import opened AsciiText
  import opened Models
  import opened Responses
  import MemeStore

  const DEFAULT_PAGE: int := 1
  const DEFAULT_LIMIT: int := 20
  const MIN_LIMIT: int := 1
  const MAX_LIMIT: int := 50

  /** Kotlin's `coerceIn(lo, hi)`. */
  function CoerceIn(x: int, lo: int, hi: int): (r: int)
    requires lo <= hi
    ensures lo <= r <= hi
    ensures lo <= x <= hi ==> r == x
    ensures x < lo ==> r == lo
    ensures x > hi ==> r == hi
  {
    if x < lo then lo else if x > hi then hi else x
  }

  /** `queryParameters["page"]?.toIntOrNull() ?: 1`. */
  function PageParam(param: Option<string>): (page: int)
    ensures InInt32(page)
    ensures param.Some? && ToIntOrNull(param.value).Some? ==> page == ToIntOrNull(param.value).value
    ensures param.None? || ToIntOrNull(param.value).None? ==> page == DEFAULT_PAGE
  {
    match param
    case None => DEFAULT_PAGE
    case Some(s) => ToIntOrNull(s).GetOr(DEFAULT_PAGE)
  }

  /** `queryParameters["limit"]?.toIntOrNull()?.coerceIn(1, 50) ?: 20`. */
  function LimitParam(param: Option<string>): (limit: int)
    ensures MIN_LIMIT <= limit <= MAX_LIMIT
    ensures param.Some? && ToIntOrNull(param.value).Some? ==>
      limit == CoerceIn(ToIntOrNull(param.value).value, MIN_LIMIT, MAX_LIMIT)
    ensures param.None? || ToIntOrNull(param.value).None? ==> limit == DEFAULT_LIMIT
  {
    match param
    case None => DEFAULT_LIMIT
    case Some(s) =>
      match ToIntOrNull(s)
      case None => DEFAULT_LIMIT
      case Some(v) => CoerceIn(v, MIN_LIMIT, MAX_LIMIT)
  }

  /** `(page - 1) * limit` in 32-bit arithmetic: exact whenever the product fits. */
  function Skip(page: int, limit: int): (skip: int)
    requires InInt32(page) && MIN_LIMIT <= limit <= MAX_LIMIT
    ensures InInt32(skip)
    ensures InInt32((page - 1) * limit) ==> skip == (page - 1) * limit
  {
    ScaleBounds(page - 1, limit);
    Wrap(Wrap(page - 1) * limit)
  }

  lemma ScaleBounds(x: int, l: int)
    requires l >= 1
    ensures x >= 0 ==> x <= x * l
    ensures x < 0 ==> x * l <= x
  {
    assert x * l - x == x * (l - 1);
  }

  /**
   * The `FeedResponse` built from the rows fetched with limit `limit + 1`:
   * one row too many means there is another page; that row is dropped and
   * the next page number becomes the cursor.
   */
  function Paginate(rows: seq<Meme>, limit: int, page: int, viewer: Option<string>): (r: FeedResponse)
    requires limit >= 1
    ensures r.hasMore <==> |rows| > limit
    ensures |r.memes| == if r.hasMore then |rows| - 1 else |rows|
    ensures forall k :: 0 <= k < |r.memes| ==> r.memes[k] == MemeToResponse(rows[k], viewer)
    ensures r.nextCursor.Some? <==> r.hasMore
    ensures r.hasMore ==> r.nextCursor == Some(IntToString(Wrap(page + 1)))
    ensures |rows| <= limit + 1 ==> |r.memes| <= limit
  {
    var hasMore := |rows| > limit;
    var kept := if hasMore then rows[..|rows| - 1] else rows;
    FeedResponse(
      seq(|kept|, k requires 0 <= k < |kept| => MemeToResponse(kept[k], viewer)),
      hasMore,
      if hasMore then Some(IntToString(Wrap(page + 1))) else None)
  }

  /** A page built from a window of a sorted list shows that window, in order. */
  lemma PageShowsRows(sorted: seq<Meme>, rows: seq<Meme>, limit: int, skip: int, page: int, viewer: Option<string>)
    requires limit >= 1 && skip >= 0 && (rows != [] ==> skip + |rows| <= |sorted|)
    requires forall k :: 0 <= k < |rows| ==> rows[k] == sorted[skip + k]
    ensures var r := Paginate(rows, limit, page, viewer);
      forall k :: 0 <= k < |r.memes| ==> skip + k < |sorted| && r.memes[k] == MemeToResponse(sorted[skip + k], viewer)
  {
  }

  /** The cursor, sent back as `page`, asks for exactly the following page. */
  lemma NextCursorSelectsNextPage(rows: seq<Meme>, limit: int, page: int, viewer: Option<string>)
    requires limit >= 1 && InInt32(page) && page < MAX_INT
    requires Paginate(rows, limit, page, viewer).hasMore
    ensures PageParam(Paginate(rows, limit, page, viewer).nextCursor) == page + 1
  {
    IntToStringRoundTrip(page + 1);
  }

  /**
   * No two matches share a creation time, so the newest-first order of the
   * matches is the only one and every query sorts them alike.
   */
  predicate DistinctTimes(xs: seq<Meme>) {
    forall i, j :: 0 <= i < j < |xs| ==> xs[i].createdAt != xs[j].createdAt
  }

  /**
   * The look-ahead row of one window opens the window that starts `limit`
   * rows later, when the order of the matches does not depend on how ties
   * are broken.
   */
  lemma LookAheadOpensNextWindow(ms: seq<Meme>, p: Meme -> bool, limit: int, skip: int)
    requires limit >= 1 && skip >= 0
    requires DistinctTimes(MemeStore.ActiveWhere(ms, p))
    ensures var rows := MemeStore.Query(ms, p, limit + 1, skip);
      |rows| > limit ==>
        var next := MemeStore.Query(ms, p, limit + 1, skip + limit);
        |next| >= 1 && next[0] == rows[limit]
  {
    var rows := MemeStore.Query(ms, p, limit + 1, skip);
    if |rows| > limit {
      var n := |MemeStore.ActiveWhere(ms, p)|;
      assert n > skip + limit;
    }
  }

  lemma NextSkip(page: int, limit: int)
    ensures (page + 1 - 1) * limit == (page - 1) * limit + limit
    ensures page * limit == (page - 1) * limit + limit
  {
  }

  /**
   * Consecutive pages neither skip nor repeat a row: page `page` shows the
   * ordered matches from position `(page - 1) * limit` on, and its
   * look-ahead row is the first row of page `page + 1`. With two matches of
   * equal `createdAt` the two queries may order them differently, so the
   * matches' creation times must be distinct.
   */
  lemma PagesTile(ms: seq<Meme>, p: Meme -> bool, page: int, limit: int)
    requires MIN_LIMIT <= limit <= MAX_LIMIT && 1 <= page < MAX_INT && InInt32(page * limit)
    requires DistinctTimes(MemeStore.ActiveWhere(ms, p))
    ensures Skip(page, limit) == (page - 1) * limit
    ensures var rows := MemeStore.Query(ms, p, limit + 1, Skip(page, limit));
      && (forall k :: 0 <= k < |rows| ==> rows[k] == MemeStore.Newest(ms, p)[Skip(page, limit) + k])
      && (|rows| > limit ==>
           var next := MemeStore.Query(ms, p, limit + 1, Skip(page + 1, limit));
           |next| >= 1 && next[0] == rows[limit])
  {
    SkipsOfConsecutivePages(page, limit);
    LookAheadOpensNextWindow(ms, p, limit, Skip(page, limit));
  }

  lemma SkipsOfConsecutivePages(page: int, limit: int)
    requires MIN_LIMIT <= limit <= MAX_LIMIT && 1 <= page < MAX_INT && InInt32(page * limit)
    ensures Skip(page, limit) == (page - 1) * limit >= 0
    ensures Skip(page + 1, limit) == Skip(page, limit) + limit
  {
    ScaleBounds(page - 1, limit);
    NextSkip(page, limit);
  }

  // ---- tags -----------------------------------------------------------------

  /** `it.trim().lowercase()`. */
  function NormalizeTag(t: string): (r: string)
    ensures IsTrimmed(r) && IsLowerCase(r)
    ensures |r| <= |t|
  {
    LowercaseKeepsTrimmed(Trim(t));
    Lowercase(Trim(t))
  }

  predicate IsNormalTag(t: string) {
    t != [] && IsTrimmed(t) && IsLowerCase(t)
  }

  /** `tags.map { it.trim().lowercase() }.filter { it.isNotEmpty() }`. */
  function NormalizeTags(tags: seq<string>): (r: seq<string>)
    ensures |r| <= |tags|
    ensures forall t :: t in r ==> IsNormalTag(t)
  {
    if tags == [] then []
    else
      var t := NormalizeTag(tags[0]);
      var rest := NormalizeTags(tags[1..]);
      if t == [] then rest else [t] + rest
  }

  lemma NormalizeTagFixesNormalTags(t: string)
    requires IsTrimmed(t) && IsLowerCase(t)
    ensures NormalizeTag(t) == t
  {
    TrimOfTrimmed(t);
  }

  /** Normalisation keeps the order of the tags: it works tag by tag. */
  lemma {:induction false} NormalizeTagsDistributes(a: seq<string>, b: seq<string>)
    ensures NormalizeTags(a + b) == NormalizeTags(a) + NormalizeTags(b)
  {
    if a != [] {
      assert (a + b)[1..] == a[1..] + b;
      NormalizeTagsDistributes(a[1..], b);
    } else {
      assert a + b == b;
    }
  }

  /** Normalising already normalised tags changes nothing; in particular normalising twice is normalising once. */
  lemma NormalizeTagsIdempotent(tags: seq<string>)
    ensures NormalizeTags(NormalizeTags(tags)) == NormalizeTags(tags)
  {
    var r := NormalizeTags(tags);
    forall i | 0 <= i < |r| ensures IsNormalTag(r[i]) {
      assert r[i] in r;
    }
    NormalTagsAreFixed(r);
  }

  lemma {:induction false} NormalTagsAreFixed(tags: seq<string>)
    requires forall i :: 0 <= i < |tags| ==> IsNormalTag(tags[i])
    ensures NormalizeTags(tags) == tags
  {
    if tags != [] {
      calc {
        NormalizeTags(tags);
        == { NormalizeTagsOfNormalHead(tags); }
        [tags[0]] + NormalizeTags(tags[1..]);
        == { NormalTagsAreFixed(tags[1..]); }
        [tags[0]] + tags[1..];
        ==
        tags;
      }
    }
  }

  lemma NormalizeTagsOfNormalHead(tags: seq<string>)
    requires tags != [] && IsNormalTag(tags[0])
    ensures NormalizeTags(tags) == [tags[0]] + NormalizeTags(tags[1..])
  {
    NormalizeTagFixesNormalTags(tags[0]);
  }

  /** A step of `NormalizeTagsExample`. */
  lemma NormalizeFunExample()
    ensures NormalizeTag("Fun ") == "fun"
  {
    TrimFunExample();
    LowercaseFunExample();
  }

  /** A step of `NormalizeTagsExample`. */
  lemma NormalizeCatsExample()
    ensures NormalizeTag(" cats") == "cats"
  {
    calc {
      NormalizeTag(" cats");
      ==
      Lowercase(Trim(" cats"));
      == { TrimCatsExample(); }
      Lowercase("cats");
      == { assert IsLowerCase("cats"); }
      "cats";
    }
  }

  /** A step of `NormalizeTagsExample`. */
  lemma TrimFunExample()
    ensures Trim("Fun ") == "Fun"
  {
    var s := "Fun ";
    assert TrimStart(s) == s;
    assert s[..3] == "Fun";
    assert TrimEnd(s) == TrimEnd("Fun");
  }

  /** A step of `NormalizeTagsExample`. */
  lemma TrimCatsExample()
    ensures Trim(" cats") == "cats"
  {
    assert " cats" == [' '] + "cats";
    TrimStartSkips(' ', "cats");
    TrimOfTrimmed("cats");
  }

  /** A step of `NormalizeTagsExample`. */
  lemma LowercaseFunExample()
    ensures Lowercase("Fun") == "fun"
  {
    assert "Fun" == ['F'] + "un";
    LowercaseCons('F', "un");
    assert IsLowerCase("un");
    assert ['f'] + "un" == "fun";
  }

  /** The two tags ["Fun ", " cats"] are stored as ["fun", "cats"]; a blank tag disappears. */
  lemma NormalizeTagsExample()
    ensures NormalizeTags(["Fun ", " cats"]) == ["fun", "cats"]
    ensures NormalizeTags(["  "]) == []
  {
    NormalizeFunExample();
    NormalizeCatsExample();
    assert ["Fun ", " cats"][1..] == [" cats"];
    assert NormalizeTags([" cats"]) == ["cats"] by {
      assert [" cats"][1..] == [];
    }
    assert "  "[..1] == " " && " "[..0] == "";
    assert Trim("  ") == "";
  }
}
