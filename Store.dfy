/**
 * An in-memory document collection standing in for MongoDB: the
 * primitives the repositories build their queries and updates from.
 */
module Store {
  import opened Wrappers

  /** The position of the first document the filter matches. */
  function FirstIndex<T>(docs: seq<T>, filter: T -> bool): (r: Option<nat>)
    ensures r.Some? ==> r.value < |docs| && filter(docs[r.value])
    ensures r.Some? ==> forall j :: 0 <= j < r.value ==> !filter(docs[j])
    ensures r.None? <==> forall j :: 0 <= j < |docs| ==> !filter(docs[j])
  {
    if |docs| == 0 then None
    else if filter(docs[0]) then Some(0)
    else
      match FirstIndex(docs[1..], filter)
      case None => None
      case Some(k) => Some(k + 1)
  }

  /** `find(filter).firstOrNull()`. */
  function FindOne<T>(docs: seq<T>, filter: T -> bool): (r: Option<T>)
    ensures r.Some? ==> r.value in docs && filter(r.value)
    ensures r.None? <==> forall j :: 0 <= j < |docs| ==> !filter(docs[j])
  {
    match FirstIndex(docs, filter)
    case None => None
    case Some(i) => Some(docs[i])
  }

  /** The documents the filter matches, in collection order. */
  function Filter<T(!new)>(docs: seq<T>, p: T -> bool): (r: seq<T>)
    ensures |r| <= |docs|
    ensures forall x :: x in r <==> x in docs && p(x)
  {
    if |docs| == 0 then []
    else (if p(docs[0]) then [docs[0]] else []) + Filter(docs[1..], p)
  }

  /** `countDocuments(filter)`. */
  function Count<T(!new)>(docs: seq<T>, p: T -> bool): (n: nat)
    ensures n <= |docs|
  {
    |Filter(docs, p)|
  }

  /** Replacing one document changes the count by what the old and the new document contribute. */
  lemma {:induction false} CountAfterReplace<T(!new)>(docs: seq<T>, i: nat, y: T, p: T -> bool)
    requires i < |docs|
    ensures Count(docs[i := y], p) == Count(docs, p) - (if p(docs[i]) then 1 else 0) + (if p(y) then 1 else 0)
  {
    var after := docs[i := y];
    if i == 0 {
      assert after[1..] == docs[1..];
    } else {
      assert after[1..] == docs[1..][i - 1 := y];
      CountAfterReplace(docs[1..], i - 1, y, p);
    }
  }

  predicate SortedDescending<T>(xs: seq<T>, key: T -> int) {
    forall i, j :: 0 <= i < j < |xs| ==> key(xs[i]) >= key(xs[j])
  }

  lemma SortedCons<T>(a: T, xs: seq<T>, key: T -> int)
    requires SortedDescending(xs, key)
    requires |xs| == 0 || key(a) >= key(xs[0])
    ensures SortedDescending([a] + xs, key)
  {
    var ys := [a] + xs;
    forall i, j | 0 <= i < j < |ys|
      ensures key(ys[i]) >= key(ys[j])
    {
      if i == 0 {
        assert ys[j] == xs[j - 1];
      } else {
        assert ys[i] == xs[i - 1] && ys[j] == xs[j - 1];
      }
    }
  }

  /** Places `x` in front of the first element whose key is not larger. */
  function InsertDescending<T>(x: T, xs: seq<T>, key: T -> int): (r: seq<T>)
    requires SortedDescending(xs, key)
    ensures SortedDescending(r, key)
    ensures multiset(r) == multiset(xs) + multiset{x}
    ensures |r| == |xs| + 1
    ensures r[0] == x || (|xs| > 0 && r[0] == xs[0])
  {
    if |xs| == 0 || key(x) >= key(xs[0]) then
      SortedCons(x, xs, key);
      [x] + xs
    else
      var tail := InsertDescending(x, xs[1..], key);
      assert |xs| > 1 ==> key(xs[0]) >= key(xs[1]);
      SortedCons(xs[0], tail, key);
      assert xs == [xs[0]] + xs[1..];
      [xs[0]] + tail
  }

  /** `sort(Sorts.descending(key))`, by insertion; documents with equal keys keep their collection order. */
  function SortDescending<T>(xs: seq<T>, key: T -> int): (r: seq<T>)
    ensures SortedDescending(r, key)
    ensures multiset(r) == multiset(xs)
    ensures |r| == |xs|
  {
    if |xs| == 0 then []
    else
      assert xs == [xs[0]] + xs[1..];
      InsertDescending(xs[0], SortDescending(xs[1..], key), key)
  }

  function Abs(x: int): nat {
    if x < 0 then -x else x
  }

  /** How many rows a window leaves of `n` rows. */
  function WindowSize(n: nat, limit: int, skip: nat): nat {
    var available := if skip >= n then 0 else n - skip;
    if limit == 0 || Abs(limit) >= available then available else Abs(limit)
  }

  /**
   * `.limit(limit).skip(skip)`: the server skips first and then limits, in
   * whichever order the two calls are written. A negative skip is refused by
   * the server (the repositories turn the error into an empty list); a limit
   * of 0 means no limit and a negative limit counts as its absolute value.
   */
  function Window<T>(rows: seq<T>, limit: int, skip: int): (r: seq<T>)
    ensures skip < 0 ==> r == []
    ensures skip >= 0 ==> |r| == WindowSize(|rows|, limit, skip)
    ensures skip >= 0 ==> forall k :: 0 <= k < |r| ==> r[k] == rows[skip + k]
    ensures limit != 0 ==> |r| <= Abs(limit)
    ensures forall k :: 0 <= k < |r| ==> r[k] in rows
  {
    if skip < 0 then []
    else
      var rest := if skip >= |rows| then [] else rows[skip..];
      if limit == 0 || Abs(limit) >= |rest| then rest else rest[..Abs(limit)]
  }

  datatype UpdateResult<T> = UpdateResult(docs: seq<T>, modifiedCount: nat)

  /**
   * `updateOne(filter, update)`: applies the update to the first matching
   * document only; `modifiedCount` is 1 exactly when that changed the collection.
   */
  function UpdateOne<T(==)>(docs: seq<T>, filter: T -> bool, update: T -> T): (r: UpdateResult<T>)
    ensures |r.docs| == |docs| && r.modifiedCount <= 1
    ensures r.modifiedCount == 0 <==> r.docs == docs
    ensures forall j :: 0 <= j < |docs| && !filter(docs[j]) ==> r.docs[j] == docs[j]
    ensures match FirstIndex(docs, filter)
      case None => r.docs == docs
      case Some(i) => r.docs == docs[i := update(docs[i])]
  {
    match FirstIndex(docs, filter)
    case None => UpdateResult(docs, 0)
    case Some(i) =>
      var changed := update(docs[i]);
      assert changed != docs[i] ==> docs[i := changed][i] != docs[i];
      UpdateResult(docs[i := changed], if changed == docs[i] then 0 else 1)
  }
}
