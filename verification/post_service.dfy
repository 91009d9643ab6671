/** The browser-side post service: the normaliser that turns a feed reply
    into `{posts, total, hasMore, page, limit, success}`, and the argument
    checks each request makes before anything is sent. */
module PostService {
  import opened Results
  import opened JsText
  import opened PostStore
  import opened PostRoutes
  import Feed
  import PostsController

  /** The `success` field of a reply object: absent, the literal `false`,
      or any other value. */
  datatype SuccessField = Undefined | LiteralFalse | OtherValue

  /** `response.data` as the normaliser sees it. `Falsy` is any falsy
      value (missing, `null`, `0`, `""`, `false`); `Scalar` any truthy
      value that is neither an array nor an object with the fields below.
      In an object, `data` and `posts` are `Some` exactly when they are
      arrays, and `count` and `total` are `None` when absent. */
  datatype Body<T> =
    | Falsy
    | Scalar
    | ArrayBody(items: seq<T>)
    | ObjectBody(success: SuccessField, data: Option<seq<T>>, count: Option<int>,
                 posts: Option<seq<T>>, total: Option<int>)

  /** What the normaliser returns; `error` is present only when there was
      no data. */
  datatype Formatted<T> = Formatted(posts: seq<T>, total: int, hasMore: bool, page: int, limit: int,
                                    success: bool, error: Option<string>)

  const NoData := "No data received from server"

  predicate HasData<T>(response: Option<Body<T>>) {
    response.Some? && !response.value.Falsy?
  }

  /** The reply carries a `success` field: the first recognised format. */
  predicate SuccessFlagged<T>(response: Option<Body<T>>) {
    response.Some? && response.value.ObjectBody? && !response.value.success.Undefined?
  }

  /** The reply carries a `posts` array and no `success` field: the third
      format. */
  predicate NestedPosts<T>(response: Option<Body<T>>) {
    response.Some? && response.value.ObjectBody? && response.value.success.Undefined?
    && response.value.posts.Some?
  }

  /** The posts of a reply, the same in both normalisers. */
  function PostsOf<T>(b: Body<T>): seq<T> {
    match b
    case ArrayBody(items) => items
    case ObjectBody(success, data, _, posts, _) =>
      if !success.Undefined? then ValueOr(data, [])
      else ValueOr(posts, [])
    case _ => []
  }

  /** `formatPostsResponse` as written: in the success-flagged format the
      total is `count || posts.length`. */
  function FormatPostsResponse<T>(response: Option<Body<T>>, page: int, limit: int): (r: Formatted<T>)
    ensures r.page == page && r.limit == limit
    ensures !HasData(response) ==> r == Formatted([], 0, false, page, limit, false, Some(NoData))
    ensures HasData(response) ==> r.error.None? && (r.hasMore <==> page * limit < r.total)
    ensures !r.success <==> !HasData(response) || (response.value.ObjectBody? && response.value.success.LiteralFalse?)
    ensures SuccessFlagged(response) ==>
              r.posts == ValueOr(response.value.data, []) && r.total == NumberOr(response.value.count, |r.posts|)
    ensures response.Some? && response.value.ArrayBody? ==>
              r.posts == response.value.items && r.total == |r.posts|
    ensures NestedPosts(response) ==>
              r.posts == response.value.posts.value && r.total == NumberOr(response.value.total, |r.posts|)
    ensures HasData(response) && !SuccessFlagged(response) && !NestedPosts(response) && !response.value.ArrayBody? ==>
              r.posts == [] && r.total == 0
  {
    if !HasData(response) then Formatted([], 0, false, page, limit, false, Some(NoData))
    else
      var b := response.value;
      var posts := PostsOf(b);
      var total :=
        match b
        case ArrayBody(items) => |items|
        case ObjectBody(success, _, count, nested, total) =>
          if !success.Undefined? then NumberOr(count, |posts|)
          else if nested.Some? then NumberOr(total, |posts|)
          else 0
        case _ => 0;
      Formatted(posts, total, page * limit < total, page, limit,
                !(b.ObjectBody? && b.success.LiteralFalse?), None)
  }

  /** The normaliser with the total taken from `total || count ||
      posts.length` in the success-flagged format; everything else as in
      `FormatPostsResponse`. */
  function FormatPostsResponseFixed<T>(response: Option<Body<T>>, page: int, limit: int): (r: Formatted<T>)
    ensures r.page == page && r.limit == limit
    ensures !r.success <==> !HasData(response) || (response.value.ObjectBody? && response.value.success.LiteralFalse?)
    ensures SuccessFlagged(response) ==>
              r.posts == ValueOr(response.value.data, [])
              && r.total == NumberOr(response.value.total, NumberOr(response.value.count, |r.posts|))
    ensures !SuccessFlagged(response) ==> r == FormatPostsResponse(response, page, limit)
    ensures HasData(response) ==> r.error.None? && (r.hasMore <==> page * limit < r.total)
  {
    var r := FormatPostsResponse(response, page, limit);
    if SuccessFlagged(response) then
      var total := NumberOr(response.value.total, NumberOr(response.value.count, |r.posts|));
      r.(total := total, hasMore := page * limit < total)
    else r
  }

  /** The body `getPosts` sends: `success: true`, `count`, `total`,
      `page`, `hasMore`, `data`, as the client receives it. */
  function FeedBody(p: Feed.FeedPage): (b: Body<Post>)
    ensures b.ObjectBody? && b.success == OtherValue && b.data == Some(p.data) && b.posts.None?
    ensures b.count == Some(p.count as int) && b.total == Some(p.total as int)
  {
    ObjectBody(OtherValue, Some(p.data), Some(p.count), None, Some(p.total))
  }

  /** The client asks for page `page` with `limit` posts, the server
      answers with a feed page, and the client normalises the answer. */
  function FetchPage(store: Store, ordered: seq<Post>, page: int, limit: int): (r: Feed.FeedPage)
    requires Feed.IsFeedOrder(store, ordered) && page >= 1 && limit >= 1
    ensures Feed.GetPosts(store, ordered, Some(page), Some(limit)) == Ok(r)
  {
    assert Feed.SkipOf(Some(page), Some(limit)) >= 0;
    Feed.GetPosts(store, ordered, Some(page), Some(limit)).value
  }

  /** As written, a real server page never announces more: the page size
      it reports as `count` is at most `limit`, so `page * limit < count`
      never holds. */
  lemma AsWrittenNeverHasMore(store: Store, ordered: seq<Post>, page: int, limit: int)
    requires Feed.IsFeedOrder(store, ordered) && page >= 1 && limit >= 1
    ensures !FormatPostsResponse(Some(FeedBody(FetchPage(store, ordered, page, limit))), page, limit).hasMore
  {
    var p := FetchPage(store, ordered, page, limit);
    PageSizeBounded(store, ordered, page, limit);
    var r := FormatPostsResponse(Some(FeedBody(p)), page, limit);
    assert r.total == p.count;
    LimitWithinPageEnd(page, limit);
  }

  /** A server page holds at most `limit` posts and reports its size as
      `count`. */
  lemma PageSizeBounded(store: Store, ordered: seq<Post>, page: int, limit: int)
    requires Feed.IsFeedOrder(store, ordered) && page >= 1 && limit >= 1
    ensures FetchPage(store, ordered, page, limit).count <= limit
    ensures FetchPage(store, ordered, page, limit).count == |FetchPage(store, ordered, page, limit).data|
  {
    assert Feed.LimitOf(Some(limit)) == limit;
  }

  lemma LimitWithinPageEnd(page: int, limit: int)
    requires page >= 1 && limit >= 1
    ensures limit <= page * limit
    ensures page * limit == (page - 1) * limit + limit
  {
  }

  /** The discrepancy on a concrete feed: with eleven posts and ten per
      page, the server says a second page exists and the client, as
      written, reports that it does not. */
  lemma ElevenPostsLoseSecondPage(store: Store, ordered: seq<Post>)
    requires Feed.IsFeedOrder(store, ordered) && |store| == 11
    ensures FetchPage(store, ordered, 1, 10).hasMore
    ensures !FormatPostsResponse(Some(FeedBody(FetchPage(store, ordered, 1, 10))), 1, 10).hasMore
  {
    assert |ordered| == |multiset(ordered)| == 11;
    assert Feed.SkipOf(Some(1), Some(10)) == 0;
    AsWrittenNeverHasMore(store, ordered, 1, 10);
  }

  /** With the total taken from `total`, the client's `hasMore` is the
      server's, its `total` the store size and its posts the page's. */
  lemma FixedAgreesWithServer(store: Store, ordered: seq<Post>, page: int, limit: int)
    requires Feed.IsFeedOrder(store, ordered) && page >= 1 && limit >= 1
    ensures var p := FetchPage(store, ordered, page, limit);
            var r := FormatPostsResponseFixed(Some(FeedBody(p)), page, limit);
            && r.posts == p.data && r.total == |store| && r.hasMore == p.hasMore && r.success
  {
    var p := FetchPage(store, ordered, page, limit);
    var r := FormatPostsResponseFixed(Some(FeedBody(p)), page, limit);
    PageSizeBounded(store, ordered, page, limit);
    ServerPageShape(store, ordered, page, limit);
    var skip := (page - 1) * limit;
    LimitWithinPageEnd(page, limit);
    if |store| == 0 {
      assert p.count == 0;
    }
    assert r.total == |store|;
    assert r.hasMore <==> skip + limit < |store|;
    assert p.hasMore <==> skip + p.count < |store|;
  }

  /** How many posts a server page holds: a full page while posts remain
      beyond it, the rest of the feed on the last page, none past it. */
  lemma ServerPageShape(store: Store, ordered: seq<Post>, page: int, limit: int)
    requires Feed.IsFeedOrder(store, ordered) && page >= 1 && limit >= 1
    ensures var p := FetchPage(store, ordered, page, limit);
            var skip := (page - 1) * limit;
            && skip >= 0
            && p.total == |store|
            && (p.hasMore <==> skip + p.count < |store|)
            && (skip + limit <= |store| ==> p.count == limit)
            && (skip < |store| < skip + limit ==> p.count == |store| - skip)
            && (skip >= |store| ==> p.count == 0)
  {
    assert |ordered| == |multiset(ordered)| == |store|;
    assert Feed.LimitOf(Some(limit)) == limit;
    assert Feed.SkipOf(Some(page), Some(limit)) == (page - 1) * limit;
  }

  /** A request the service sends: the verb, the path and, for a comment,
      the `text` it carries. */
  datatype Verb = Get | Put | PostVerb | Delete
  datatype Request = Request(verb: Verb, path: string, text: Option<string>)

  /** A request is either sent or refused before sending with an error. */
  datatype Call = Send(request: Request) | Refuse(message: string)

  const PostIdRequired := "Post ID is required"
  const CommentDataRequired := "Post ID and comment data are required"
  const CommentIdRequired := "Post ID and Comment ID are required"


  /** `getPostById`. */
  function GetPostById(postId: Option<string>): (r: Call)
    ensures r.Refuse? <==> !Truthy(postId)
    ensures r.Refuse? ==> r.message == PostIdRequired
    ensures r.Send? ==> r.request == Request(Get, PostsPath + postId.value, None)
  {
    if !Truthy(postId) then Refuse(PostIdRequired) else Send(Request(Get, PostsPath + postId.value, None))
  }

  /** `deletePost`. */
  function DeletePost(postId: Option<string>): (r: Call)
    ensures r.Refuse? <==> !Truthy(postId)
    ensures r.Refuse? ==> r.message == PostIdRequired
    ensures r.Send? ==> r.request == Request(Delete, PostsPath + postId.value, None)
  {
    if !Truthy(postId) then Refuse(PostIdRequired) else Send(Request(Delete, PostsPath + postId.value, None))
  }

  /** `likePost`. */
  function LikePost(postId: Option<string>): (r: Call)
    ensures r.Refuse? <==> !Truthy(postId)
    ensures r.Refuse? ==> r.message == PostIdRequired
    ensures r.Send? ==> r.request == Request(Put, PostsPath + postId.value + "/like", None)
  {
    if !Truthy(postId) then Refuse(PostIdRequired) else Send(Request(Put, PostsPath + postId.value + "/like", None))
  }

  /** `deleteComment`: both ids are required. */
  function DeleteComment(postId: Option<string>, commentId: Option<string>): (r: Call)
    ensures r.Refuse? <==> !Truthy(postId) || !Truthy(commentId)
    ensures r.Refuse? ==> r.message == CommentIdRequired
    ensures r.Send? ==> r.request == Request(Delete, PostsPath + postId.value + "/comments/" + commentId.value, None)
  {
    if !Truthy(postId) || !Truthy(commentId) then Refuse(CommentIdRequired)
    else Send(Request(Delete, PostsPath + postId.value + "/comments/" + commentId.value, None))
  }

  /** The `text` and `content` fields of the comment object a caller
      passes. */
  datatype CommentData = CommentData(text: Option<string>, content: Option<string>)

  /** `addComment`: the text sent is `text`, else `content`, else the
      empty string. */
  function AddComment(postId: Option<string>, commentData: Option<CommentData>): (r: Call)
    ensures r.Refuse? <==> !Truthy(postId) || commentData.None?
    ensures r.Refuse? ==> r.message == CommentDataRequired
    ensures r.Send? ==> r.request.verb == PostVerb && r.request.path == PostsPath + "comment/" + postId.value
    ensures r.Send? && Truthy(commentData.value.text) ==> r.request.text == commentData.value.text
    ensures r.Send? && !Truthy(commentData.value.text) && Truthy(commentData.value.content) ==>
              r.request.text == commentData.value.content
    ensures r.Send? && !Truthy(commentData.value.text) && !Truthy(commentData.value.content) ==>
              r.request.text == Some("")
  {
    if !Truthy(postId) || commentData.None? then Refuse(CommentDataRequired)
    else
      var d := commentData.value;
      Send(Request(PostVerb, PostsPath + "comment/" + postId.value, OrElse(d.text, OrElse(d.content, Some("")))))
  }

  /** The post requests name exactly the plain id they were given, as
      the routes read it. */
  lemma PostPathsRoundTrip(postId: string)
    requires IsPlainId(postId)
    ensures GetPostById(Some(postId)).Send? && PostIdOfPath(GetPostById(Some(postId)).request.path) == Some(postId)
    ensures DeletePost(Some(postId)).Send? && PostIdOfPath(DeletePost(Some(postId)).request.path) == Some(postId)
    ensures LikePost(Some(postId)).Send? && PostIdOfLikePath(LikePost(Some(postId)).request.path) == Some(postId)
  {
    PostRoutesRoundTrip(postId);
  }

  /** The client's comment-deletion path reaches the server's route only
      for a post whose id spells `comment` in some letter case. */
  lemma ClientCommentPathShape(postId: string, commentId: string)
    requires '/' !in postId
    ensures CommentIdsOfPath(PostsPath + postId + "/comments/" + commentId).Some? ==> LowerAscii(postId) == "comment"
  {
    var path := PostsPath + postId + "/comments/" + commentId;
    if CommentIdsOfPath(path).Some? {
      ClientPathAsRoute(postId, commentId);
    }
  }

  lemma ClientPathAsRoute(postId: string, commentId: string)
    requires '/' !in postId
    requires |PostsPath + postId + "/comments/" + commentId| > |CommentRoutePrefix|
    requires MatchesLiteral((PostsPath + postId + "/comments/" + commentId)[..|CommentRoutePrefix|], CommentRoutePrefix)
    ensures LowerAscii(postId) == "comment"
  {
    var path := PostsPath + postId + "/comments/" + commentId;
    var s, t := path[|PostsPath|..], path[..|CommentRoutePrefix|];
    assert s == postId + ("/comments/" + commentId);
    assert forall i :: 0 <= i < 8 ==> s[i] == t[7 + i];
    assert forall i :: 0 <= i < 8 ==> LowerAscii(t)[7 + i] == ("comment" + "/")[i];
    LowerSegment(s, postId, "/comments/" + commentId, "comment");
  }

  /** When `s` is a segment `x` followed by '/', and `s` starts with a
      spelling of `w` followed by '/', then `x` spells `w`. */
  lemma LowerSegment(s: string, x: string, u: string, w: string)
    requires s == x + u && '/' !in x && u != [] && u[0] == '/'
    requires '/' !in w && |s| > |w|
    requires forall i :: 0 <= i <= |w| ==> LowerChar(s[i]) == (w + "/")[i]
    ensures LowerAscii(x) == w
  {
    assert LowerChar(s[|w|]) == '/';
    forall i | 0 <= i < |w|
      ensures s[i] != '/'
    {
      assert LowerChar(s[i]) == w[i];
    }
    assert s[|x|] == '/';
    forall i | 0 <= i < |x|
      ensures s[i] == x[i] && s[i] != '/'
    {
    }
    assert |x| == |w|;
    forall i | 0 <= i < |w|
      ensures LowerAscii(x)[i] == w[i]
    {
      assert LowerChar(s[i]) == (w + "/")[i];
    }
  }

  /** The client's `deleteComment` never reaches the server's route
      unless the post id spells `comment`. */
  lemma ClientCommentPathMissesRoute(postId: string, commentId: string)
    requires IsPlainId(postId) && IsPlainId(commentId)
    requires LowerAscii(postId) != "comment"
    ensures DeleteComment(Some(postId), Some(commentId)).Send?
    ensures CommentIdsOfPath(DeleteComment(Some(postId), Some(commentId)).request.path) == None
  {
    PlainIdHasNoSlash(postId);
    ClientCommentPathShape(postId, commentId);
  }

  /** ... and it does reach it, as a request to delete comment
      `commentId` of the post `comments`, when the post id spells
      `comment` in any letter case. */
  lemma ClientCommentPathHitsRoute(postId: string, commentId: string)
    requires LowerAscii(postId) == "comment" && IsPlainId(commentId)
    ensures DeleteComment(Some(postId), Some(commentId)).Send?
    ensures CommentIdsOfPath(DeleteComment(Some(postId), Some(commentId)).request.path) == Some(("comments", commentId))
  {
    PlainIdHasNoSlash(commentId);
    var head := PostsPath + postId + "/";
    LowerHead(postId);
    assert PostsPath + postId + "/comments/" + commentId == head + "comments" + "/" + commentId;
    CommentRouteReads(head, "comments", commentId);
  }

  lemma LowerHead(postId: string)
    requires LowerAscii(postId) == "comment"
    ensures |PostsPath + postId + "/"| == |CommentRoutePrefix|
    ensures MatchesLiteral(PostsPath + postId + "/", CommentRoutePrefix)
  {
    var head := PostsPath + postId + "/";
    forall i | 0 <= i < |head|
      ensures LowerAscii(head)[i] == CommentRoutePrefix[i]
    {
      if 7 <= i < 14 {
        assert head[i] == postId[i - 7];
        assert LowerChar(postId[i - 7]) == LowerAscii(postId)[i - 7];
      }
    }
  }

  /** A comment with text reaches the post unchanged: the server puts a
      comment with exactly that text in front. */
  lemma CommentTextReachesServer(store: Store, postId: string, who: Requester, commentId: string, d: CommentData)
    requires postId != [] && Truthy(d.text) && FindPost(store, postId).Some?
    ensures var call := AddComment(Some(postId), Some(d));
            var reply := PostsController.AddComment(store, postId, who, call.request.text, commentId).reply;
            && call.Send?
            && reply.Ok?
            && reply.value[0].text == d.text.value
  {
  }

  /** A comment with neither text nor content is still sent, with empty
      text, and the server turns it away with 400 and leaves the store as
      it was. */
  lemma EmptyCommentRejectedByServer(store: Store, postId: string, who: Requester, commentId: string, d: CommentData)
    requires postId != []
    requires !Truthy(d.text) && !Truthy(d.content)
    ensures var call := AddComment(Some(postId), Some(d));
            && call.Send?
            && PostsController.AddComment(store, postId, who, call.request.text, commentId)
               == Step(store, Fail(ErrorResponse(BadRequest, PostsController.TextRequired)))
  {
  }
}
