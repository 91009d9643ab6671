/** The post router's path patterns: which ids a request path names.
    Express matches the literal parts of a route without regard to the
    case of letters, and a parameter is one non-empty segment without '/'. */
module PostRoutes {
  import opened Results
  import opened JsText
  import Seqs

  /** Where the post router is mounted, below the API prefix. */
  const PostsPath := "/posts/"
  /** The literal tail of `/:id/like`. */
  const LikeSuffix := "/like"
  /** The literal head of `/comment/:id/:comment_id`. */
  const CommentRoutePrefix := "/posts/comment/"

  /** `lit` is the lower-case spelling of `s`: what a case-blind match of
      the route literal `lit` accepts. */
  predicate MatchesLiteral(s: string, lit: string) {
    LowerAscii(s) == lit
  }

  /** A character of an id as the store writes ids: an ASCII letter or
      digit. */
  predicate IdChar(c: char) {
    'a' <= c <= 'z' || 'A' <= c <= 'Z' || '0' <= c <= '9'
  }

  /** An id made of letters and digits only, like the hexadecimal text of
      an `ObjectId`: the URL parser and Express leave it as it is. */
  predicate IsPlainId(s: string) {
    s != [] && forall i :: 0 <= i < |s| ==> IdChar(s[i])
  }

  /** The id a `/posts/<id>` path names, as the route `/posts/:id` reads
      it. */
  function PostIdOfPath(path: string): (r: Option<string>)
    ensures r.Some? ==> |path| > |PostsPath| && MatchesLiteral(path[..|PostsPath|], PostsPath)
                        && path[|PostsPath|..] == r.value
    ensures r.Some? ==> r.value != [] && '/' !in r.value
  {
    if |path| > |PostsPath| && MatchesLiteral(path[..|PostsPath|], PostsPath) && '/' !in path[|PostsPath|..]
    then Some(path[|PostsPath|..]) else None
  }

  /** The id a `/posts/<id>/like` path names, as the route `/posts/:id/like`
      reads it. */
  function PostIdOfLikePath(path: string): (r: Option<string>)
    ensures r.Some? ==> |path| > |PostsPath| + |LikeSuffix|
                        && MatchesLiteral(path[..|PostsPath|], PostsPath)
                        && MatchesLiteral(path[|path| - |LikeSuffix|..], LikeSuffix)
                        && path[|PostsPath|..|path| - |LikeSuffix|] == r.value
    ensures r.Some? ==> r.value != [] && '/' !in r.value
  {
    if |path| >= |PostsPath| + |LikeSuffix| && MatchesLiteral(path[|path| - |LikeSuffix|..], LikeSuffix)
    then
      var head := path[..|path| - |LikeSuffix|];
      assert head[..|PostsPath|] == path[..|PostsPath|];
      PostIdOfPath(head)
    else None
  }

  function IsSlash(c: char): bool {
    c == '/'
  }

  /** The post id and comment id a path names, as the route
      `/posts/comment/:id/:comment_id` reads them. */
  function CommentIdsOfPath(path: string): (r: Option<(string, string)>)
    ensures r.Some? ==> |path| > |CommentRoutePrefix| && MatchesLiteral(path[..|CommentRoutePrefix|], CommentRoutePrefix)
                        && path[|CommentRoutePrefix|..] == r.value.0 + "/" + r.value.1
    ensures r.Some? ==> r.value.0 != [] && r.value.1 != [] && '/' !in r.value.0 && '/' !in r.value.1
  {
    var n := |CommentRoutePrefix|;
    if |path| <= n || !MatchesLiteral(path[..n], CommentRoutePrefix) then None
    else
      var rest := path[n..];
      match Seqs.FirstIndex(rest, IsSlash)
      case None => None
      case Some(k) =>
        if k == 0 || k + 1 == |rest| || '/' in rest[k + 1..] then None
        else
          var id, commentId := rest[..k], rest[k + 1..];
          assert forall j :: 0 <= j < k ==> id[j] == rest[j];
          assert rest == id + "/" + commentId;
          Some((id, commentId))
  }

  /** The route literals are written in lower case, so each matches its
      own spelling. */
  lemma LiteralsMatchThemselves()
    ensures MatchesLiteral(PostsPath, PostsPath)
    ensures MatchesLiteral(LikeSuffix, LikeSuffix)
    ensures MatchesLiteral(CommentRoutePrefix, CommentRoutePrefix)
  {
    assert LowerAscii(PostsPath) == PostsPath;
    assert LowerAscii(LikeSuffix) == LikeSuffix;
    assert LowerAscii(CommentRoutePrefix) == CommentRoutePrefix;
  }

  /** A plain id holds no '/'. */
  lemma PlainIdHasNoSlash(s: string)
    requires IsPlainId(s)
    ensures '/' !in s
  {
    forall i | 0 <= i < |s|
      ensures s[i] != '/'
    {
      assert IdChar(s[i]);
    }
  }

  /** The post routes read back a plain id a path was built from. */
  lemma PostRoutesRoundTrip(postId: string)
    requires IsPlainId(postId)
    ensures PostIdOfPath(PostsPath + postId) == Some(postId)
    ensures PostIdOfLikePath(PostsPath + postId + LikeSuffix) == Some(postId)
  {
    PlainIdHasNoSlash(postId);
    LiteralsMatchThemselves();
    var path := PostsPath + postId;
    assert path[..|PostsPath|] == PostsPath;
    assert path[|PostsPath|..] == postId;
    var like := path + LikeSuffix;
    assert like[|like| - |LikeSuffix|..] == LikeSuffix;
    assert like[..|like| - |LikeSuffix|] == path;
  }

  /** The comment route reads back the plain ids a path to it was built
      from. */
  lemma CommentRouteRoundTrip(postId: string, commentId: string)
    requires IsPlainId(postId) && IsPlainId(commentId)
    ensures CommentIdsOfPath(CommentRoutePrefix + postId + "/" + commentId) == Some((postId, commentId))
  {
    PlainIdHasNoSlash(postId);
    PlainIdHasNoSlash(commentId);
    LiteralsMatchThemselves();
    CommentRouteReads(CommentRoutePrefix, postId, commentId);
  }

  /** Any spelling of the mount path followed by one segment without '/'
      names that segment. */
  lemma PostRouteReads(head: string, a: string)
    requires |head| == |PostsPath| && MatchesLiteral(head, PostsPath)
    requires a != [] && '/' !in a
    ensures PostIdOfPath(head + a) == Some(a)
  {
    var path := head + a;
    assert path[..|PostsPath|] == head;
    assert path[|PostsPath|..] == a;
  }

  /** Any spelling of the mount path, one segment without '/', and any
      spelling of `/like` name that segment. */
  lemma LikeRouteReads(head: string, a: string, tail: string)
    requires |head| == |PostsPath| && MatchesLiteral(head, PostsPath)
    requires |tail| == |LikeSuffix| && MatchesLiteral(tail, LikeSuffix)
    requires a != [] && '/' !in a
    ensures PostIdOfLikePath(head + a + tail) == Some(a)
  {
    var path := head + a + tail;
    assert path[|path| - |LikeSuffix|..] == tail;
    assert path[..|path| - |LikeSuffix|] == head + a;
    PostRouteReads(head, a);
  }

  /** Any spelling of the route's literal head, followed by two segments
      without '/', names those two segments. */
  lemma CommentRouteReads(head: string, a: string, b: string)
    requires |head| == |CommentRoutePrefix| && MatchesLiteral(head, CommentRoutePrefix)
    requires a != [] && b != [] && '/' !in a && '/' !in b
    ensures CommentIdsOfPath(head + a + "/" + b) == Some((a, b))
  {
    var path := head + a + "/" + b;
    var n := |CommentRoutePrefix|;
    var rest := path[n..];
    assert path[..n] == head;
    assert rest == a + "/" + b;
    assert rest[|a|] == '/';
    assert forall j :: 0 <= j < |a| ==> rest[j] == a[j] && !IsSlash(rest[j]);
    assert rest[..|a|] == a && rest[|a| + 1..] == b;
  }
}
