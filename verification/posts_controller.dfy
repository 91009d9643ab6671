/** The post handlers: create, read, delete, like, unlike, comment and
    delete a comment. Each takes the store and returns the store after it
    together with its reply. */
module PostsController {
  import opened Results
  import opened JsText
  import opened Seqs
  import opened PostStore
  import opened Engagement
  import opened Feed
  import Uploads

  const PleaseAddText := "Please add some text"
  const PostNotFound := "Post not found"
  const UserNotAuthorized := "User not authorized"
  const NotYetLiked := "Post has not yet been liked"
  const TextRequired := "Text is required"
  const CommentNotFound := "Comment not found"

  /** `createPost`. `file` is the name the upload was stored under, if a
      file came with the request; `newId` and `now` are what the store
      assigns to `_id` and `createdAt`. */
  function CreatePost(store: Store, who: Requester, text: Option<string>, file: Option<string>, newId: PostId, now: nat): (r: Step<Store, Post>)
    ensures r.reply.Fail? <==> text.None? || IsBlank(text.value)
    ensures r.reply.Fail? ==> r.reply.error == ErrorResponse(BadRequest, PleaseAddText) && r.state == store
    ensures r.reply.Ok? ==> r.state == store + [r.reply.value]
    ensures r.reply.Ok? ==>
      var p := r.reply.value;
      && p.id == newId && p.user == who.id && p.name == who.name
      && p.avatar == ValueOr(who.avatar, "") && p.text == text.value && p.createdAt == now
      && p.likes == [] && p.comments == []
      && (p.image.Some? <==> file.Some?)
      && (file.Some? ==> p.image.value == "/uploads/" + file.value)
  {
    if text.None? then Step(store, Fail(ErrorResponse(BadRequest, PleaseAddText)))
    else
      if !Truthy(text) || Trim(text.value) == "" then Step(store, Fail(ErrorResponse(BadRequest, PleaseAddText)))
      else
        var image := if file.Some? then Some("/uploads/" + file.value) else None;
        var p := Post(newId, who.id, who.name, OrElse(who.avatar, Some("")).value, text.value, image, now, [], []);
        Step(store + [p], Ok(p))
  }

  /** The route `POST /posts`: the upload middleware runs first, and a
      refused file ends the request with an error before `createPost`. */
  function CreatePostRoute(store: Store, who: Requester, text: Option<string>, upload: Option<Uploads.Upload>, newId: PostId, now: nat): (r: Step<Store, Post>)
    ensures upload.Some? && !Uploads.Accepts(upload.value) ==> r == Step(store, Fail(Unhandled))
    ensures upload.None? ==> r == CreatePost(store, who, text, None, newId, now)
    ensures upload.Some? && Uploads.Accepts(upload.value) ==>
              r == CreatePost(store, who, text, Some(upload.value.storedName), newId, now)
  {
    match upload
    case None => CreatePost(store, who, text, None, newId, now)
    case Some(u) =>
      if !Uploads.Accepts(u) then Step(store, Fail(Unhandled))
      else CreatePost(store, who, text, Some(u.storedName), newId, now)
  }

  /** `getPost`. */
  function GetPost(store: Store, id: PostId): (r: Result<Post, Failure>)
    ensures r.Fail? <==> forall i :: 0 <= i < |store| ==> store[i].id != id
    ensures r.Fail? ==> r.error == ErrorResponse(NotFound, PostNotFound)
    ensures r.Ok? ==> r.value in store && r.value.id == id
  {
    match FindPost(store, id)
    case None => Fail(ErrorResponse(NotFound, PostNotFound))
    case Some(i) => Ok(store[i])
  }

  /** `deletePost`: only the post's author may delete it. */
  function DeletePost(store: Store, id: PostId, requester: UserId): (r: Step<Store, ()>)
    ensures r.reply.Ok? <==> FindPost(store, id).Some? && store[FindPost(store, id).value].user == requester
    ensures FindPost(store, id).None? ==> r == Step(store, Fail(ErrorResponse(NotFound, PostNotFound)))
    ensures FindPost(store, id).Some? && store[FindPost(store, id).value].user != requester ==>
              r == Step(store, Fail(ErrorResponse(NotAuthorized, UserNotAuthorized)))
    ensures r.reply.Ok? ==>
              exists i :: 0 <= i < |store| && store[i].id == id && store[i].user == requester
                          && r.state == store[..i] + store[i + 1..]
    ensures r.reply.Ok? ==> |r.state| == |store| - 1 && IsSubsequence(r.state, store)
  {
    match FindPost(store, id)
    case None => Step(store, Fail(ErrorResponse(NotFound, PostNotFound)))
    case Some(i) =>
      if store[i].user != requester then Step(store, Fail(ErrorResponse(NotAuthorized, UserNotAuthorized)))
      else
        RemovalIsSubsequence(store, i);
        Step(RemoveAt(store, i), Ok(()))
  }

  /** `likePost`: toggles the requester's like. */
  function LikePost(store: Store, id: PostId, u: UserId): (r: Step<Store, seq<UserId>>)
    ensures r.reply.Fail? <==> FindPost(store, id).None?
    ensures r.reply.Fail? ==> r == Step(store, Fail(ErrorResponse(NotFound, PostNotFound)))
    ensures r.reply.Ok? ==>
      var i := FindPost(store, id).value;
      var before, after := store[i].likes, r.reply.value;
      && r.state == store[i := store[i].(likes := after)]
      && (u in before ==> u !in after && IsSubsequence(after, before))
      && (u !in before ==> after == [u] + before)
      && (forall v {:trigger multiset(after)[v]} :: v != u ==> multiset(after)[v] == multiset(before)[v])
  {
    match FindPost(store, id)
    case None => Step(store, Fail(ErrorResponse(NotFound, PostNotFound)))
    case Some(i) =>
      var likes := ToggleLike(store[i].likes, u);
      assert u !in store[i].likes ==> likes == [u] + store[i].likes;
      Step(Replace(store, i, store[i].(likes := likes)), Ok(likes))
  }

  /** `unlikePost`. A missing post is dereferenced, which fails as an
      unexpected error rather than as "not found". */
  function UnlikePost(store: Store, id: PostId, u: UserId): (r: Step<Store, seq<UserId>>)
    ensures r.reply.Ok? <==> FindPost(store, id).Some? && u in store[FindPost(store, id).value].likes
    ensures FindPost(store, id).None? ==> r == Step(store, Fail(Unhandled))
    ensures FindPost(store, id).Some? && u !in store[FindPost(store, id).value].likes ==>
              r == Step(store, Fail(ErrorResponse(BadRequest, NotYetLiked)))
    ensures r.reply.Ok? ==>
      var i := FindPost(store, id).value;
      var before, after := store[i].likes, r.reply.value;
      && u in before
      && r.state == store[i := store[i].(likes := after)]
      && u !in after && IsSubsequence(after, before)
      && (forall v {:trigger multiset(after)[v]} :: v != u ==> multiset(after)[v] == multiset(before)[v])
  {
    match FindPost(store, id)
    case None => Step(store, Fail(Unhandled))
    case Some(i) =>
      if u !in store[i].likes then Step(store, Fail(ErrorResponse(BadRequest, NotYetLiked)))
      else
        var likes := WithoutLiker(store[i].likes, u);
        Step(Replace(store, i, store[i].(likes := likes)), Ok(likes))
  }

  /** `addComment`. The text is checked before the post is looked up, and
      only for being missing or empty: whitespace is accepted. A missing
      post is dereferenced and fails as an unexpected error. */
  function AddComment(store: Store, id: PostId, who: Requester, text: Option<string>, commentId: string): (r: Step<Store, seq<Comment>>)
    ensures !Truthy(text) ==> r == Step(store, Fail(ErrorResponse(BadRequest, TextRequired)))
    ensures Truthy(text) && FindPost(store, id).None? ==> r == Step(store, Fail(Unhandled))
    ensures r.reply.Ok? <==> Truthy(text) && FindPost(store, id).Some?
    ensures r.reply.Ok? ==>
      var i := FindPost(store, id).value;
      var before, after := store[i].comments, r.reply.value;
      && r.state == store[i := store[i].(comments := after)]
      && |after| == |before| + 1
      && after[0] == Comment(commentId, who.id, who.name, who.avatar, text.value)
      && after[1..] == before
  {
    if !Truthy(text) then Step(store, Fail(ErrorResponse(BadRequest, TextRequired)))
    else
      match FindPost(store, id)
      case None => Step(store, Fail(Unhandled))
      case Some(i) =>
        var c := Comment(commentId, who.id, who.name, who.avatar, text.value);
        var comments := [c] + store[i].comments;
        assert comments[1..] == store[i].comments;
        Step(Replace(store, i, store[i].(comments := comments)), Ok(comments))
  }

  /** `deleteComment`: the first comment with the id decides existence and
      authorship; then every comment with that id is removed. A missing
      post is dereferenced and fails as an unexpected error. */
  function DeleteComment(store: Store, id: PostId, commentId: string, u: UserId): (r: Step<Store, seq<Comment>>)
    ensures r.reply.Ok? <==>
      && FindPost(store, id).Some?
      && var before := store[FindPost(store, id).value].comments;
         FindComment(before, commentId).Some? && before[FindComment(before, commentId).value].user == u
    ensures FindPost(store, id).None? ==> r == Step(store, Fail(Unhandled))
    ensures FindPost(store, id).Some? ==>
      var i := FindPost(store, id).value;
      var before := store[i].comments;
      && (FindComment(before, commentId).None? ==>
            r == Step(store, Fail(ErrorResponse(NotFound, CommentNotFound))))
      && (FindComment(before, commentId).Some? && before[FindComment(before, commentId).value].user != u ==>
            r == Step(store, Fail(ErrorResponse(NotAuthorized, UserNotAuthorized))))
    ensures r.reply.Ok? ==>
      var i := FindPost(store, id).value;
      var before, after := store[i].comments, r.reply.value;
      && r.state == store[i := store[i].(comments := after)]
      && FindComment(before, commentId).Some?
      && before[FindComment(before, commentId).value].user == u
      && (forall k :: 0 <= k < |after| ==> after[k].id != commentId)
      && IsSubsequence(after, before)
      && (forall c: Comment {:trigger multiset(after)[c]} :: c.id != commentId ==> multiset(after)[c] == multiset(before)[c])
  {
    match FindPost(store, id)
    case None => Step(store, Fail(Unhandled))
    case Some(i) =>
      var before := store[i].comments;
      match FindComment(before, commentId)
      case None => Step(store, Fail(ErrorResponse(NotFound, CommentNotFound)))
      case Some(k) =>
        if before[k].user != u then Step(store, Fail(ErrorResponse(NotAuthorized, UserNotAuthorized)))
        else
          var after := WithoutComment(before, commentId);
          Step(Replace(store, i, store[i].(comments := after)), Ok(after))
  }
}
