/** Properties that relate several handler calls: the store invariant
    they all keep, and the round trips of liking and commenting. */
module PostInvariants {
  import opened Results
  import opened JsText
  import opened Seqs
  import opened PostStore
  import opened Engagement
  import opened Feed
  import opened PostsController

  /** Comment ids are unique within a post. */
  predicate UniqueCommentIds(comments: seq<Comment>) {
    forall i, j :: 0 <= i < j < |comments| ==> comments[i].id != comments[j].id
  }

  /** The store invariant: post ids are unique, nobody appears twice in a
      post's likes, and comment ids are unique within each post. */
  predicate WellFormed(store: Store) {
    && UniqueIds(store)
    && (forall i :: 0 <= i < |store| ==> NoDup(store[i].likes))
    && (forall i :: 0 <= i < |store| ==> UniqueCommentIds(store[i].comments))
  }

  /** Rewriting the engagement of one post keeps its position. */
  lemma FindAfterReplace(store: Store, id: PostId, i: nat, p: Post)
    requires FindPost(store, id) == Some(i) && p.id == id
    ensures FindPost(store[i := p], id) == Some(i)
  {
    var s := store[i := p];
    assert s[i].id == id;
  }

  /** Replacing one post by a well-formed one with the same id keeps the
      store well formed. */
  lemma ReplaceKeepsWellFormed(store: Store, i: nat, p: Post)
    requires WellFormed(store) && i < |store| && p.id == store[i].id
    requires NoDup(p.likes) && UniqueCommentIds(p.comments)
    ensures WellFormed(store[i := p])
  {
    ReplaceKeepsUniqueIds(store, i, p);
  }

  /** Creating a post under a fresh id keeps the store well formed. */
  lemma CreateKeepsWellFormed(store: Store, who: Requester, text: Option<string>, file: Option<string>, newId: PostId, now: nat)
    requires WellFormed(store) && FindPost(store, newId).None?
    ensures WellFormed(CreatePost(store, who, text, file, newId, now).state)
  {
    var r := CreatePost(store, who, text, file, newId, now);
    if r.reply.Ok? {
      var s := r.state;
      assert s == store + [r.reply.value];
      forall i, j | 0 <= i < j < |s|
        ensures s[i].id != s[j].id
      {
        if j < |store| {
          assert s[i] == store[i] && s[j] == store[j];
        } else {
          assert s[i] == store[i];
        }
      }
      assert forall i :: 0 <= i < |store| ==> s[i] == store[i];
    }
  }

  /** Deleting a post keeps the store well formed, and afterwards the post
      can neither be read nor listed among its author's posts. */
  lemma DeleteRemovesPost(store: Store, id: PostId, u: UserId, ordered: seq<Post>, author: UserId)
    requires WellFormed(store) && DeletePost(store, id, u).reply.Ok?
    requires IsFeedOrder(DeletePost(store, id, u).state, ordered)
    ensures WellFormed(DeletePost(store, id, u).state)
    ensures GetPost(DeletePost(store, id, u).state, id) == Fail(ErrorResponse(NotFound, PostNotFound))
    ensures forall k :: 0 <= k < |GetPostsByUser(DeletePost(store, id, u).state, ordered, author)| ==>
              GetPostsByUser(DeletePost(store, id, u).state, ordered, author)[k].id != id
  {
    var i := FindPost(store, id).value;
    var s := DeletePost(store, id, u).state;
    assert s == RemoveAt(store, i);
    RemoveAtForgetsId(store, i);
    forall k | 0 <= k < |s|
      ensures NoDup(s[k].likes) && UniqueCommentIds(s[k].comments)
    {
      if k < i { assert s[k] == store[k]; } else { assert s[k] == store[k + 1]; }
    }
    var listed := GetPostsByUser(s, ordered, author);
    forall k | 0 <= k < |listed|
      ensures listed[k].id != id
    {
      assert listed[k] in multiset(Filter(s, ByUser(author)));
      assert listed[k] in Filter(s, ByUser(author));
    }
  }

  /** Liking and unliking keep the store well formed. */
  lemma LikesKeepWellFormed(store: Store, id: PostId, u: UserId)
    requires WellFormed(store)
    ensures WellFormed(LikePost(store, id, u).state)
    ensures WellFormed(UnlikePost(store, id, u).state)
  {
    if FindPost(store, id).Some? {
      var i := FindPost(store, id).value;
      ToggleKeepsNoDup(store[i].likes, u);
      var liked := store[i].(likes := ToggleLike(store[i].likes, u));
      ReplaceKeepsWellFormed(store, i, liked);
      FilterKeepsNoDup(store[i].likes, Others(u));
      var unliked := store[i].(likes := WithoutLiker(store[i].likes, u));
      ReplaceKeepsWellFormed(store, i, unliked);
    }
  }

  /** A comment under a fresh id can go in front of comments with unique
      ids. */
  lemma PrependKeepsUniqueCommentIds(c: Comment, cs: seq<Comment>)
    requires UniqueCommentIds(cs) && FindComment(cs, c.id).None?
    ensures UniqueCommentIds([c] + cs)
  {
    var added := [c] + cs;
    forall a, b | 0 <= a < b < |added|
      ensures added[a].id != added[b].id
    {
      assert added[b] == cs[b - 1];
      if a > 0 { assert added[a] == cs[a - 1]; }
    }
  }

  /** Removing one comment keeps the remaining ids unique. */
  lemma RemovalKeepsUniqueCommentIds(cs: seq<Comment>, k: nat)
    requires UniqueCommentIds(cs) && k < |cs|
    ensures UniqueCommentIds(cs[..k] + cs[k + 1..])
  {
    var kept := cs[..k] + cs[k + 1..];
    forall a, b | 0 <= a < b < |kept|
      ensures kept[a].id != kept[b].id
    {
      var a', b' := if a < k then a else a + 1, if b < k then b else b + 1;
      assert kept[a] == cs[a'] && kept[b] == cs[b'];
    }
  }

  /** Commenting under a fresh comment id keeps the store well formed. */
  lemma AddCommentKeepsWellFormed(store: Store, id: PostId, who: Requester, text: Option<string>, commentId: string)
    requires WellFormed(store)
    requires FindPost(store, id).Some? && FindComment(store[FindPost(store, id).value].comments, commentId).None?
    ensures WellFormed(AddComment(store, id, who, text, commentId).state)
  {
    var i := FindPost(store, id).value;
    var r := AddComment(store, id, who, text, commentId);
    if r.reply.Ok? {
      var added := r.reply.value;
      assert added == [added[0]] + store[i].comments;
      PrependKeepsUniqueCommentIds(added[0], store[i].comments);
      ReplaceKeepsWellFormed(store, i, store[i].(comments := added));
    }
  }

  /** Deleting a comment keeps the store well formed. */
  lemma DeleteCommentKeepsWellFormed(store: Store, id: PostId, commentId: string, u: UserId)
    requires WellFormed(store)
    ensures WellFormed(DeleteComment(store, id, commentId, u).state)
  {
    if DeleteComment(store, id, commentId, u).reply.Ok? {
      var i := FindPost(store, id).value;
      var cs := store[i].comments;
      var k := FindComment(cs, commentId).value;
      WithoutUniqueComment(cs, k);
      RemovalKeepsUniqueCommentIds(cs, k);
      ReplaceKeepsWellFormed(store, i, store[i].(comments := cs[..k] + cs[k + 1..]));
    }
  }

  /** In a well-formed store, deleting a comment removes exactly that one
      comment and keeps the others in order. */
  lemma DeleteCommentRemovesOne(store: Store, id: PostId, commentId: string, u: UserId)
    requires WellFormed(store) && DeleteComment(store, id, commentId, u).reply.Ok?
    ensures var i := FindPost(store, id).value;
            var cs := store[i].comments;
            var k := FindComment(cs, commentId).value;
            DeleteComment(store, id, commentId, u).reply.value == cs[..k] + cs[k + 1..]
  {
    var i := FindPost(store, id).value;
    WithoutUniqueComment(store[i].comments, FindComment(store[i].comments, commentId).value);
  }

  /** Starting from a post the user has not liked, liking it twice gives
      back the very same store. */
  lemma LikeTwiceRestoresStore(store: Store, id: PostId, u: UserId)
    requires FindPost(store, id).Some? && u !in store[FindPost(store, id).value].likes
    ensures LikePost(LikePost(store, id, u).state, id, u).state == store
  {
    var i := FindPost(store, id).value;
    var once := LikePost(store, id, u).state;
    FindAfterReplace(store, id, i, once[i]);
    ToggleTwiceRestores(store[i].likes, u);
    assert once[i].likes == ToggleLike(store[i].likes, u);
    assert LikePost(once, id, u).state == once[i := once[i].(likes := ToggleLike(once[i].likes, u))];
  }

  /** Starting from a post the user has not liked, a like followed by an
      explicit unlike succeeds and gives back the very same store. */
  lemma UnlikeUndoesLike(store: Store, id: PostId, u: UserId)
    requires FindPost(store, id).Some? && u !in store[FindPost(store, id).value].likes
    ensures UnlikePost(LikePost(store, id, u).state, id, u).reply.Ok?
    ensures UnlikePost(LikePost(store, id, u).state, id, u).state == store
  {
    var i := FindPost(store, id).value;
    var once := LikePost(store, id, u).state;
    FindAfterReplace(store, id, i, once[i]);
    ToggleTwiceRestores(store[i].likes, u);
    assert once[i].likes == [u] + store[i].likes;
    assert u in once[i].likes;
    assert WithoutLiker(once[i].likes, u) == ToggleLike(once[i].likes, u);
    assert UnlikePost(once, id, u).state == once[i := once[i].(likes := WithoutLiker(once[i].likes, u))];
  }

  /** Adding a comment and then deleting it as its author gives back the
      very same store, when the new comment's id was not already used. */
  lemma AddThenDeleteCommentRestores(store: Store, id: PostId, who: Requester, text: Option<string>, commentId: string)
    requires Truthy(text) && FindPost(store, id).Some?
    requires FindComment(store[FindPost(store, id).value].comments, commentId).None?
    ensures AddComment(store, id, who, text, commentId).reply.Ok?
    ensures DeleteComment(AddComment(store, id, who, text, commentId).state, id, commentId, who.id)
            == Step(store, Ok(store[FindPost(store, id).value].comments))
  {
    var i := FindPost(store, id).value;
    var cs := store[i].comments;
    var added := AddComment(store, id, who, text, commentId);
    var s1 := added.state;
    FindAfterReplace(store, id, i, s1[i]);
    var c1 := s1[i].comments;
    assert c1 == [c1[0]] + cs;
    assert FindComment(c1, commentId) == Some(0);
    FilterKeepsAll(cs, NotCommentId(commentId));
    assert WithoutComment(c1, commentId) == cs;
    assert s1[i := s1[i].(comments := cs)] == store;
  }
}
