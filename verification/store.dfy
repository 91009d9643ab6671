/** Post records and the in-memory collection that stands for the
    document store's `posts` collection. */
module PostStore {
  import opened Results
  import opened Seqs

  type UserId = string
  type PostId = string

  /** An embedded comment: its id, author id, author name and avatar
      (copied from the requester), and its text. */
  datatype Comment = Comment(id: string, user: UserId, name: string, avatar: Option<string>, text: string)

  /** A post. `likes` lists the ids of the users who liked it, most recent
      first; `comments` lists its comments, most recent first. */
  datatype Post = Post(
    id: PostId,
    user: UserId,
    name: string,
    avatar: string,
    text: string,
    image: Option<string>,
    createdAt: nat,
    likes: seq<UserId>,
    comments: seq<Comment>)

  /** The posts collection in insertion order. */
  type Store = seq<Post>

  /** The authenticated user a request acts for. */
  datatype Requester = Requester(id: UserId, name: string, avatar: Option<string>)

  /** No two posts share an id, as the store guarantees for `_id`. */
  predicate UniqueIds(store: Store) {
    forall i, j :: 0 <= i < j < |store| ==> store[i].id != store[j].id
  }

  function HasId(id: PostId): Post -> bool {
    (p: Post) => p.id == id
  }

  /** `findById`: the position of the first post with that id. */
  function FindPost(store: Store, id: PostId): (r: Option<nat>)
    ensures r.Some? ==> r.value < |store| && store[r.value].id == id
    ensures r.Some? ==> forall j :: 0 <= j < r.value ==> store[j].id != id
    ensures r.None? <==> forall i :: 0 <= i < |store| ==> store[i].id != id
  {
    FirstIndex(store, HasId(id))
  }

  /** `post.save()` on the document found at position `i`. */
  function Replace(store: Store, i: nat, p: Post): (r: Store)
    requires i < |store|
  {
    store[i := p]
  }

  /** `post.deleteOne()` on the document found at position `i`. */
  function RemoveAt(store: Store, i: nat): (r: Store)
    requires i < |store|
  {
    store[..i] + store[i + 1..]
  }

  /** With unique ids, the position found is the only one holding the id. */
  lemma FindPostIsOnly(store: Store, id: PostId, i: nat)
    requires UniqueIds(store) && FindPost(store, id) == Some(i)
    ensures forall j :: 0 <= j < |store| && j != i ==> store[j].id != id
  {
  }

  /** Rewriting one post without changing its id keeps ids unique. */
  lemma ReplaceKeepsUniqueIds(store: Store, i: nat, p: Post)
    requires UniqueIds(store) && i < |store| && p.id == store[i].id
    ensures UniqueIds(Replace(store, i, p))
  {
  }

  /** Removing a post keeps ids unique, and with unique ids the removed
      id is no longer found. */
  lemma RemoveAtForgetsId(store: Store, i: nat)
    requires UniqueIds(store) && i < |store|
    ensures UniqueIds(RemoveAt(store, i))
    ensures FindPost(RemoveAt(store, i), store[i].id).None?
  {
    var r := RemoveAt(store, i);
    forall k | 0 <= k < |r|
      ensures r[k].id != store[i].id
    {
      if k < i {
        assert r[k] == store[k];
      } else {
        assert r[k] == store[k + 1];
      }
    }
  }
}
