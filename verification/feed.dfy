/** Listing posts newest first: the whole feed one page at a time, and
    every post of one author. */
module Feed {
  import opened Results
  import opened JsText
  import opened Seqs
  import opened PostStore

  /** Newest first. Posts with the same `createdAt` may come in any order:
      the store breaks no ties. */
  predicate NonIncreasing(s: seq<Post>) {
    forall i, j :: 0 <= i < j < |s| ==> s[i].createdAt >= s[j].createdAt
  }

  /** `ordered` is what `find().sort({ createdAt: -1 })` may return for
      `store`: the same posts, newest first. */
  predicate IsFeedOrder(store: Store, ordered: seq<Post>) {
    multiset(ordered) == multiset(store) && NonIncreasing(ordered)
  }

  /** Places `p` into a newest-first sequence, before the first post
      that is not newer. */
  function InsertByRecency(p: Post, s: seq<Post>): (r: seq<Post>)
    ensures multiset(r) == multiset(s) + multiset{p}
    ensures |r| == |s| + 1
    ensures r[0] == p || (s != [] && r[0] == s[0])
  {
    if s == [] || p.createdAt >= s[0].createdAt then
      [p] + s
    else
      assert s == [s[0]] + s[1..];
      [s[0]] + InsertByRecency(p, s[1..])
  }

  /** Inserting keeps a sequence newest first. */
  lemma {:induction false} InsertKeepsOrder(p: Post, s: seq<Post>)
    requires NonIncreasing(s)
    ensures NonIncreasing(InsertByRecency(p, s))
  {
    if s != [] && p.createdAt < s[0].createdAt {
      var rest := InsertByRecency(p, s[1..]);
      InsertKeepsOrder(p, s[1..]);
      assert s[0].createdAt >= rest[0].createdAt;
      forall i | 0 <= i < |rest|
        ensures s[0].createdAt >= rest[i].createdAt
      {
        assert i == 0 || rest[0].createdAt >= rest[i].createdAt;
      }
      assert InsertByRecency(p, s) == [s[0]] + rest;
    }
  }

  /** One ordering of the store that the sort may produce; its existence
      shows that every store has a feed order. */
  function SortByRecency(store: Store): (r: seq<Post>)
    ensures IsFeedOrder(store, r)
  {
    if store == [] then []
    else
      assert store == [store[0]] + store[1..];
      var rest := SortByRecency(store[1..]);
      InsertKeepsOrder(store[0], rest);
      InsertByRecency(store[0], rest)
  }

  const DefaultPage: int := 1
  const DefaultLimit: int := 10

  function Abs(x: int): nat {
    if x < 0 then -x else x
  }

  function Min(a: int, b: int): int {
    if a < b then a else b
  }

  /** The page and limit a request asks for, and the number of posts it
      skips. The parameters arrive as `parseInt` left them, with `None`
      for NaN; NaN and 0 fall back to the default, any other number
      (negative ones included) is kept. */
  function PageOf(pageParam: Option<int>): (r: int)
    ensures r != 0
    ensures pageParam.Some? && pageParam.value != 0 ==> r == pageParam.value
    ensures pageParam.None? || pageParam.value == 0 ==> r == 1
  {
    NumberOr(pageParam, DefaultPage)
  }

  function LimitOf(limitParam: Option<int>): (r: int)
    ensures r != 0
    ensures limitParam.Some? && limitParam.value != 0 ==> r == limitParam.value
    ensures limitParam.None? || limitParam.value == 0 ==> r == 10
  {
    NumberOr(limitParam, DefaultLimit)
  }

  /** Page 1 skips nothing; a later page skips a forward distance when
      the limit is positive and a backward one (which the store refuses)
      when it is negative; a page below 1 with a positive limit skips
      backward too. */
  function SkipOf(pageParam: Option<int>, limitParam: Option<int>): (r: int)
    ensures r == 0 <==> PageOf(pageParam) == 1
    ensures r < 0 <==> (PageOf(pageParam) > 1 && LimitOf(limitParam) < 0)
                       || (PageOf(pageParam) < 1 && LimitOf(limitParam) > 0)
  {
    var page, limit := PageOf(pageParam), LimitOf(limitParam);
    ProductSign(page - 1, limit);
    (page - 1) * limit
  }

  /** The sign of a product with a nonzero second factor. */
  lemma ProductSign(a: int, b: int)
    requires b != 0
    ensures a * b == 0 <==> a == 0
    ensures a * b < 0 <==> (a > 0 && b < 0) || (a < 0 && b > 0)
  {
    if a > 0 && b > 0 {
      assert a * b >= b;
    } else if a > 0 && b < 0 {
      assert a * b <= b;
    } else if a < 0 && b > 0 {
      assert a * b <= -b;
    } else if a < 0 && b < 0 {
      assert a * b >= -b;
    }
  }

  /** The body of a feed reply: `count`, `total`, `page`, `hasMore`, `data`. */
  datatype FeedPage = FeedPage(count: nat, total: nat, page: int, hasMore: bool, data: seq<Post>)

  /** `.skip(skip).limit(size)` over an ordered sequence. */
  function Window(s: seq<Post>, skip: nat, size: nat): (r: seq<Post>)
    ensures |r| <= size
    ensures |r| == (if skip >= |s| then 0 else Min(size, |s| - skip))
    ensures forall i :: 0 <= i < |r| ==> r[i] == s[skip + i]
  {
    if skip >= |s| then [] else s[skip..Min(skip + size, |s|)]
  }

  /** `getPosts`. The store rejects a negative skip, which the handler
      forwards as an unexpected error; a negative limit asks the store for
      at most that many posts in absolute value. */
  function GetPosts(store: Store, ordered: seq<Post>, pageParam: Option<int>, limitParam: Option<int>): (r: Result<FeedPage, Failure>)
    requires IsFeedOrder(store, ordered)
    ensures r.Fail? <==> SkipOf(pageParam, limitParam) < 0
    ensures r.Fail? ==> r.error == Unhandled
    ensures r.Ok? ==> r.value.page == PageOf(pageParam)
    ensures r.Ok? ==> r.value.total == |store|
    ensures r.Ok? ==> r.value.count == |r.value.data| <= Abs(LimitOf(limitParam))
    ensures r.Ok? ==> (r.value.hasMore <==> SkipOf(pageParam, limitParam) + r.value.count < r.value.total)
    ensures r.Ok? && 0 <= SkipOf(pageParam, limitParam) < |ordered| ==>
              r.value.data == ordered[SkipOf(pageParam, limitParam)..Min(SkipOf(pageParam, limitParam) + Abs(LimitOf(limitParam)), |ordered|)]
    ensures r.Ok? && SkipOf(pageParam, limitParam) >= |ordered| ==> r.value.data == []
    ensures r.Ok? ==> NonIncreasing(r.value.data)
  {
    assert |ordered| == |multiset(ordered)| == |store|;
    var page, limit, skip := PageOf(pageParam), LimitOf(limitParam), SkipOf(pageParam, limitParam);
    if skip < 0 then Fail(Unhandled)
    else
      var data := Window(ordered, skip, Abs(limit));
      var total := |store|;
      Ok(FeedPage(|data|, total, page, skip + |data| < total, data))
  }

  /** `hasMore` is exactly whether the next page has posts. */
  lemma HasMoreIffNextPageNonEmpty(store: Store, ordered: seq<Post>, page: int, limit: int)
    requires IsFeedOrder(store, ordered)
    requires page >= 1 && limit >= 1
    ensures GetPosts(store, ordered, Some(page), Some(limit)).Ok?
    ensures GetPosts(store, ordered, Some(page + 1), Some(limit)).Ok?
    ensures GetPosts(store, ordered, Some(page), Some(limit)).value.hasMore
            <==> |GetPosts(store, ordered, Some(page + 1), Some(limit)).value.data| > 0
  {
    assert |ordered| == |multiset(ordered)| == |store|;
    assert SkipOf(Some(page + 1), Some(limit)) == SkipOf(Some(page), Some(limit)) + limit;
  }

  /** The posts of pages 1 to `n`, one after the other. */
  function FirstPages(store: Store, ordered: seq<Post>, n: nat, limit: int): seq<Post>
    requires IsFeedOrder(store, ordered) && limit >= 1
  {
    if n == 0 then []
    else FirstPages(store, ordered, n - 1, limit) + PageData(store, ordered, n, limit)
  }

  /** The posts of page `n`: the slice between the first `(n - 1) * limit`
      and the first `n * limit` posts of the ordering. */
  function PageData(store: Store, ordered: seq<Post>, n: nat, limit: int): (r: seq<Post>)
    requires IsFeedOrder(store, ordered) && limit >= 1 && n >= 1
    ensures (n - 1) * limit <= n * limit
    ensures r == ordered[Min((n - 1) * limit, |ordered|)..Min(n * limit, |ordered|)]
  {
    PageIsSlice(store, ordered, n, limit);
    GetPosts(store, ordered, Some(n), Some(limit)).value.data
  }

  /** Consecutive pages neither overlap nor leave gaps: pages 1 to `n`
      together are the first `n * limit` posts of the feed. */
  lemma {:induction false} PagesTileFeed(store: Store, ordered: seq<Post>, n: nat, limit: int)
    requires IsFeedOrder(store, ordered) && limit >= 1
    ensures FirstPages(store, ordered, n, limit) == ordered[..Min(n * limit, |ordered|)]
  {
    if n > 0 {
      PagesTileFeed(store, ordered, n - 1, limit);
      var data := PageData(store, ordered, n, limit);
      PrefixThenSlice(ordered, Min((n - 1) * limit, |ordered|), Min(n * limit, |ordered|));
    }
  }

  lemma PrefixThenSlice(s: seq<Post>, lo: int, hi: int)
    requires 0 <= lo <= hi <= |s|
    ensures s[..lo] + s[lo..hi] == s[..hi]
  {
  }

  /** Page `n` is the slice between the first `(n - 1) * limit` and the
      first `n * limit` posts. */
  lemma PageIsSlice(store: Store, ordered: seq<Post>, n: nat, limit: int)
    requires IsFeedOrder(store, ordered) && limit >= 1 && n >= 1
    ensures (n - 1) * limit <= n * limit
    ensures GetPosts(store, ordered, Some(n), Some(limit)).Ok?
    ensures GetPosts(store, ordered, Some(n), Some(limit)).value.data
            == ordered[Min((n - 1) * limit, |ordered|)..Min(n * limit, |ordered|)]
  {
    var skip := (n - 1) * limit;
    assert skip >= 0 && skip + limit == n * limit;
    assert SkipOf(Some(n), Some(limit)) == skip;
  }

  /** With 15 posts and 10 per page, page 1 holds 10 posts and announces
      more, page 2 holds the other 5 and announces none. */
  lemma FifteenPostsTwoPages(store: Store, ordered: seq<Post>)
    requires IsFeedOrder(store, ordered) && |store| == 15
    ensures var p1 := GetPosts(store, ordered, Some(1), Some(10));
            var p2 := GetPosts(store, ordered, Some(2), Some(10));
            && p1.Ok? && p2.Ok?
            && p1.value.count == 10 && p1.value.hasMore
            && p2.value.count == 5 && !p2.value.hasMore
            && p1.value.data + p2.value.data == ordered
  {
    assert |ordered| == |multiset(ordered)| == 15;
    assert SkipOf(Some(1), Some(10)) == 0 && SkipOf(Some(2), Some(10)) == 10;
    var p1 := GetPosts(store, ordered, Some(1), Some(10));
    var p2 := GetPosts(store, ordered, Some(2), Some(10));
    assert p1.value.data == ordered[0..10];
    assert p2.value.data == ordered[10..15];
    assert ordered[0..10] + ordered[10..15] == ordered;
  }

  /** No two different posts share a `createdAt`. */
  predicate DistinctTimes(s: seq<Post>) {
    forall i, j :: 0 <= i < |s| && 0 <= j < |s| && s[i].createdAt == s[j].createdAt ==> s[i] == s[j]
  }

  /** Two newest-first orderings of the same posts are the same ordering
      when no two different posts share a `createdAt`. */
  lemma {:induction false} NewestFirstUnique(a: seq<Post>, b: seq<Post>)
    requires multiset(a) == multiset(b) && NonIncreasing(a) && NonIncreasing(b)
    requires DistinctTimes(a)
    ensures a == b
  {
    assert |a| == |multiset(a)| == |b|;
    if a != [] {
      SameNewest(a, b);
      DropSameHead(a, b);
      DistinctTail(a);
      NewestFirstUnique(a[1..], b[1..]);
      assert a == [a[0]] + a[1..] && b == [b[0]] + b[1..];
    }
  }

  /** The newest post of two such orderings is the same post. */
  lemma SameNewest(a: seq<Post>, b: seq<Post>)
    requires multiset(a) == multiset(b) && NonIncreasing(a) && NonIncreasing(b)
    requires DistinctTimes(a) && a != []
    ensures b != [] && a[0] == b[0]
  {
    assert a[0] in multiset(b) && a[0] in b;
    var i :| 0 <= i < |b| && b[i] == a[0];
    assert b[0] in multiset(a) && b[0] in a;
    var j :| 0 <= j < |a| && a[j] == b[0];
    assert a[0].createdAt == a[j].createdAt;
  }

  lemma DistinctTail(a: seq<Post>)
    requires DistinctTimes(a) && a != []
    ensures DistinctTimes(a[1..]) && (NonIncreasing(a) ==> NonIncreasing(a[1..]))
  {
    assert forall k :: 0 <= k < |a[1..]| ==> a[1..][k] == a[k + 1];
  }

  /** Equal multisets with the same first element have equal tails. */
  lemma DropSameHead(a: seq<Post>, b: seq<Post>)
    requires multiset(a) == multiset(b) && a != [] && b != [] && a[0] == b[0]
    ensures multiset(a[1..]) == multiset(b[1..])
  {
    assert a == [a[0]] + a[1..] && b == [b[0]] + b[1..];
    assert multiset(a) == multiset{a[0]} + multiset(a[1..]);
    assert multiset(b) == multiset{a[0]} + multiset(b[1..]);
    forall x
      ensures multiset(a[1..])[x] == multiset(b[1..])[x]
    {
      assert multiset(a)[x] == multiset{a[0]}[x] + multiset(a[1..])[x];
    }
  }

  /** When no two different posts share a `createdAt`, the sort has only
      one possible result. */
  lemma FeedOrderUnique(store: Store, a: seq<Post>, b: seq<Post>)
    requires DistinctTimes(store)
    requires IsFeedOrder(store, a) && IsFeedOrder(store, b)
    ensures a == b
  {
    forall i, j | 0 <= i < |a| && 0 <= j < |a| && a[i].createdAt == a[j].createdAt
      ensures a[i] == a[j]
    {
      assert a[i] in multiset(store) && a[j] in multiset(store);
      var k :| 0 <= k < |store| && store[k] == a[i];
      var l :| 0 <= l < |store| && store[l] == a[j];
    }
    NewestFirstUnique(a, b);
  }

  /** The posts of pages 1 to `|orders|` when every page is its own
      query: page `k` is cut from `orders[k - 1]`. */
  function QueriedPages(store: Store, orders: seq<seq<Post>>, limit: int): seq<Post>
    requires forall k :: 0 <= k < |orders| ==> IsFeedOrder(store, orders[k])
    requires limit >= 1
  {
    if orders == [] then []
    else
      QueriedPages(store, orders[..|orders| - 1], limit)
        + PageData(store, orders[|orders| - 1], |orders|, limit)
  }

  /** Requests for pages 1 to n, each sorted on its own, tile the feed
      as long as no two posts share a `createdAt`: together they are the
      first n * limit posts of the one possible feed order. */
  lemma {:induction false} SeparateQueriesTileFeed(store: Store, orders: seq<seq<Post>>, limit: int)
    requires forall k :: 0 <= k < |orders| ==> IsFeedOrder(store, orders[k])
    requires limit >= 1 && DistinctTimes(store)
    ensures QueriedPages(store, orders, limit) == SortByRecency(store)[..Min(|orders| * limit, |store|)]
  {
    var sorted := SortByRecency(store);
    SameOrderPages(store, orders, sorted, limit);
    PagesTileFeed(store, sorted, |orders|, limit);
    assert |sorted| == |multiset(sorted)| == |store|;
  }

  /** With a single possible order, separate queries see the same order. */
  lemma {:induction false} SameOrderPages(store: Store, orders: seq<seq<Post>>, sorted: seq<Post>, limit: int)
    requires forall k :: 0 <= k < |orders| ==> IsFeedOrder(store, orders[k])
    requires limit >= 1 && DistinctTimes(store) && IsFeedOrder(store, sorted)
    ensures QueriedPages(store, orders, limit) == FirstPages(store, sorted, |orders|, limit)
  {
    if orders != [] {
      SameOrderPages(store, orders[..|orders| - 1], sorted, limit);
      FeedOrderUnique(store, orders[|orders| - 1], sorted);
    }
  }

  /** Without distinct times the pages need not tile the feed: two posts
      with the same `createdAt` may come in either order, and when page 1
      and page 2 are sorted differently both show the same post and the
      other is never shown. */
  lemma TiedPostsCanRepeat(p: Post, q: Post)
    requires p != q && p.createdAt == q.createdAt
    ensures IsFeedOrder([p, q], [p, q]) && IsFeedOrder([p, q], [q, p])
    ensures QueriedPages([p, q], [[p, q], [q, p]], 1) == [p, p]
  {
    assert multiset([q, p]) == multiset([p, q]);
    assert SkipOf(Some(1), Some(1)) == 0 && SkipOf(Some(2), Some(1)) == 1;
    var store, orders := [p, q], [[p, q], [q, p]];
    var first := GetPosts(store, [p, q], Some(1), Some(1)).value.data;
    var second := GetPosts(store, [q, p], Some(2), Some(1)).value.data;
    assert first == [p] && second == [p];
    assert orders[..1] == [[p, q]] && orders[..1][..0] == [];
    assert QueriedPages(store, orders[..1], 1) == [] + first;
    assert QueriedPages(store, orders, 1) == QueriedPages(store, orders[..1], 1) + second;
  }

  function ByUser(u: UserId): Post -> bool {
    (p: Post) => p.user == u
  }

  /** `getPostsByUser`: the author's posts, newest first. */
  function GetPostsByUser(store: Store, ordered: seq<Post>, u: UserId): (r: seq<Post>)
    requires IsFeedOrder(store, ordered)
    ensures IsFeedOrder(Filter(store, ByUser(u)), r)
    ensures forall i :: 0 <= i < |r| ==> r[i].user == u
  {
    FilterMultiset(ordered, store, ByUser(u));
    FilterKeepsNonIncreasing(ordered, ByUser(u));
    Filter(ordered, ByUser(u))
  }

  /** A filtered newest-first sequence is still newest first. */
  lemma {:induction false} FilterKeepsNonIncreasing(s: seq<Post>, keep: Post -> bool)
    requires NonIncreasing(s)
    ensures NonIncreasing(Filter(s, keep))
  {
    if s != [] {
      FilterKeepsNonIncreasing(s[1..], keep);
      var rest := Filter(s[1..], keep);
      if keep(s[0]) {
        FilterKeepsBound(s[1..], keep, s[0].createdAt);
        assert Filter(s, keep) == [s[0]] + rest;
      } else {
        assert Filter(s, keep) == rest;
      }
    }
  }

  /** Filtering keeps every post at or before a given time. */
  lemma {:induction false} FilterKeepsBound(s: seq<Post>, keep: Post -> bool, t: nat)
    requires forall i :: 0 <= i < |s| ==> s[i].createdAt <= t
    ensures forall i :: 0 <= i < |Filter(s, keep)| ==> Filter(s, keep)[i].createdAt <= t
  {
    if s != [] {
      FilterKeepsBound(s[1..], keep, t);
      if keep(s[0]) {
        assert Filter(s, keep) == [s[0]] + Filter(s[1..], keep);
      } else {
        assert Filter(s, keep) == Filter(s[1..], keep);
      }
    }
  }
}
