/** The list rules behind likes and comments: toggling a like, removing
    a liker, prepending a comment and removing a comment by id. */
module Engagement {
  import opened Results
  import opened Seqs
  import opened PostStore

  function Others(u: UserId): UserId -> bool {
    (v: UserId) => v != u
  }

  /** The likes with every entry of `u` removed (`filter`). */
  function WithoutLiker(likes: seq<UserId>, u: UserId): (r: seq<UserId>)
    ensures u !in r
    ensures IsSubsequence(r, likes)
    ensures forall v {:trigger multiset(r)[v]} :: v != u ==> multiset(r)[v] == multiset(likes)[v]
  {
    FilterIsSubsequence(likes, Others(u));
    FilterCounts(likes, Others(u));
    Filter(likes, Others(u))
  }

  /** The toggle of a like: drop every entry of `u` when `u` already
      liked, otherwise put one entry for `u` in front. */
  function ToggleLike(likes: seq<UserId>, u: UserId): (r: seq<UserId>)
    ensures u in likes ==> u !in r
    ensures u in likes ==> IsSubsequence(r, likes)
    ensures forall v {:trigger multiset(r)[v]} :: v != u ==> multiset(r)[v] == multiset(likes)[v]
    ensures u !in likes ==> |r| == |likes| + 1 && r[0] == u && r[1..] == likes
  {
    if u in likes then WithoutLiker(likes, u) else [u] + likes
  }

  /** A toggle flips whether `u` has liked, and whether anyone else has
      liked is untouched. */
  lemma ToggleFlips(likes: seq<UserId>, u: UserId, v: UserId)
    ensures u in ToggleLike(likes, u) <==> u !in likes
    ensures v != u ==> (v in ToggleLike(likes, u) <==> v in likes)
  {
    var r := ToggleLike(likes, u);
    if v != u {
      assert multiset(r)[v] == multiset(likes)[v];
      assert v in r <==> v in multiset(r);
      assert v in likes <==> v in multiset(likes);
    }
  }

  /** From the not-liked state, two toggles give back the very same
      likes sequence. */
  lemma ToggleTwiceRestores(likes: seq<UserId>, u: UserId)
    requires u !in likes
    ensures ToggleLike(ToggleLike(likes, u), u) == likes
  {
    var once := [u] + likes;
    assert once[1..] == likes;
    assert Filter(once, Others(u)) == Filter(likes, Others(u));
    FilterKeepsAll(likes, Others(u));
  }

  /** From any state, two toggles give back the same set of likers
      (the order, and duplicates of `u`, may differ). */
  lemma ToggleTwiceSameLikers(likes: seq<UserId>, u: UserId)
    ensures (set v | v in ToggleLike(ToggleLike(likes, u), u)) == (set v | v in likes)
  {
    var r := ToggleLike(ToggleLike(likes, u), u);
    forall v
      ensures v in r <==> v in likes
    {
      ToggleFlips(likes, u, v);
      ToggleFlips(ToggleLike(likes, u), u, v);
    }
  }

  /** A duplicate-free likes sequence stays duplicate-free. */
  lemma ToggleKeepsNoDup(likes: seq<UserId>, u: UserId)
    requires NoDup(likes)
    ensures NoDup(ToggleLike(likes, u))
  {
    if u in likes {
      FilterKeepsNoDup(likes, Others(u));
    }
  }

  function HasCommentId(id: string): Comment -> bool {
    (c: Comment) => c.id == id
  }

  function NotCommentId(id: string): Comment -> bool {
    (c: Comment) => c.id != id
  }

  /** `comments.find(c => c.id === id)`: the position of the first
      comment with that id. */
  function FindComment(comments: seq<Comment>, id: string): (r: Option<nat>)
    ensures r.Some? ==> r.value < |comments| && comments[r.value].id == id
    ensures r.Some? ==> forall j :: 0 <= j < r.value ==> comments[j].id != id
    ensures r.None? <==> forall i :: 0 <= i < |comments| ==> comments[i].id != id
  {
    FirstIndex(comments, HasCommentId(id))
  }

  /** The comments without those carrying the id, in their order. */
  function WithoutComment(comments: seq<Comment>, id: string): (r: seq<Comment>)
    ensures forall i :: 0 <= i < |r| ==> r[i].id != id
    ensures IsSubsequence(r, comments)
    ensures forall c: Comment {:trigger multiset(r)[c]} :: c.id != id ==> multiset(r)[c] == multiset(comments)[c]
  {
    FilterIsSubsequence(comments, NotCommentId(id));
    FilterCounts(comments, NotCommentId(id));
    Filter(comments, NotCommentId(id))
  }

  /** When comment ids are unique, exactly one comment goes. */
  lemma WithoutUniqueComment(comments: seq<Comment>, k: nat)
    requires k < |comments|
    requires forall i, j :: 0 <= i < j < |comments| ==> comments[i].id != comments[j].id
    ensures WithoutComment(comments, comments[k].id) == comments[..k] + comments[k + 1..]
  {
    var id := comments[k].id;
    var keep := NotCommentId(id);
    var before, after := comments[..k], comments[k + 1..];
    assert comments == before + ([comments[k]] + after);
    forall i | 0 <= i < |before|
      ensures keep(before[i])
    {
      assert before[i] == comments[i];
    }
    forall i | 0 <= i < |after|
      ensures keep(after[i])
    {
      assert after[i] == comments[k + 1 + i];
    }
    FilterKeepsAll(before, keep);
    FilterKeepsAll(after, keep);
    FilterAppend(before, [comments[k]] + after, keep);
    FilterAppend([comments[k]], after, keep);
    assert Filter([comments[k]], keep) == [];
  }
}
