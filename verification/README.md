# Social feed core: posts, profiles and the feed normaliser

A Dafny model of the request logic of a small social network. There are three parts:

- **Post handlers** (`backend/controllers/posts.js`). Posts can be created with text and an optional image. The feed is listed newest first, one page at a time, and can be listed per author. An author can delete their own post. Users can toggle a like, remove a like, add a comment, and remove their own comment.
- **Profile handlers** (`backend/controllers/users.js`). These read a profile, list a user's connections, and let the owner update six profile fields.
- **Browser post service** (`frontend/src/services/postService.jsx`). This normalises a feed reply into `{posts, total, hasMore, page, limit, success}` and checks the arguments of each request before it is sent.

The database is a sequence of records in insertion order:

- `findById` is the first record with that id.
- `save` replaces the record at its position.
- `deleteOne` removes it.

Each handler is a pure function from the store (and the request's inputs) to a `Step`: the store afterwards plus a reply. A reply is either the value sent back or a `Failure`:

- `ErrorResponse(status, message)` is a handler's own `next(new ErrorResponse(..))`.
- `Unhandled` stands for `next(error)`. That covers the exceptions the handlers do not anticipate: dereferencing a post that does not exist, the store refusing a negative skip, the upload middleware refusing a file.

Inputs from outside the handlers become parameters:

- the requester (decoded from the token);
- the id and the timestamp the store assigns;
- the stored file name;
- the order of posts with equal timestamps;
- the store's id-format check `ObjectId.isValid`.

Modules, one per file:

| module | file | what it holds |
|---|---|---|
| `Results` | results.dfy | `Option`, `Result`, `Failure`, `Step`, HTTP status codes |
| `JsText` | jstext.dfy | JavaScript truthiness on strings, `trim`, `a \|\| b`, ASCII lower-casing, substring search |
| `Seqs` | seqs.dfy | subsequences, first index, order-keeping filter |
| `PostStore` | store.dfy | `Post`, `Comment`, the store, lookup by id |
| `Engagement` | engagement.dfy | likes toggling and removal, comment lookup and removal |
| `Feed` | feed.dfy | newest-first order, page/limit parsing, `getPosts`, `getPostsByUser` |
| `Uploads` | uploads.dfy | `path.extname` and the image-type filter of the upload middleware |
| `PostsController` | posts_controller.dfy | the post handlers |
| `PostInvariants` | invariants.dfy | store well-formedness and round trips across handlers |
| `UsersController` | users_controller.dfy | the profile handlers |
| `PostRoutes` | routes.dfy | the post router's path patterns |
| `PostService` | post_service.dfy | the browser-side normaliser and request guards |

## Model

| member | source | states |
|---|---|---|
| PostStore.FindPost | backend/controllers/posts.js:120 | the position found holds the id and is the first such position; there is none exactly when no post has the id |
| PostStore.RemoveAtForgetsId | backend/controllers/posts.js:127 | removing a post from a store with unique ids keeps ids unique and leaves no post with the removed id |
| PostStore.ReplaceKeepsUniqueIds | backend/controllers/posts.js:159 | saving a post back under its own id keeps the ids unique |
| PostStore.FindPostIsOnly | backend/controllers/posts.js:120 | with unique ids, the post found is the only one with that id |
| JsText.TrimStart | backend/controllers/posts.js:38 | the result is a suffix of the input, starts with a non-whitespace character, and only whitespace was dropped |
| JsText.TrimEnd | backend/controllers/posts.js:38 | the result is a prefix of the input, ends with a non-whitespace character, and only whitespace was dropped |
| JsText.Trim | backend/controllers/posts.js:38 | `trim` cuts only whitespace, from both ends, and keeps a contiguous slice that neither starts nor ends with whitespace; nothing is left exactly when every character is JavaScript whitespace |
| JsText.NumberOr | backend/controllers/posts.js:68-69 | `parseInt(x) \|\| d`: the parsed number when it is a number other than 0, the default for NaN and 0 |
| JsText.OrElse | backend/controllers/posts.js:46 | `a \|\| b` on strings: `a` when it is present and non-empty, `b` otherwise |
| Seqs.FirstIndex | backend/controllers/posts.js:215 | `find`: the index returned satisfies the predicate and no earlier index does; none exactly when no element does |
| Seqs.FilterIsSubsequence | backend/controllers/posts.js:151-153 | `filter` only deletes: the result is a subsequence of the input, in the same relative order |
| Seqs.FilterCounts | backend/controllers/posts.js:179 | `filter` keeps every element it accepts exactly as many times as it occurs |
| Seqs.FilterKeepsAll | backend/controllers/posts.js:221 | when every element is accepted, `filter` returns the sequence itself |
| Seqs.FilterKeepsNoDup | backend/controllers/posts.js:151-153 | `filter` of a duplicate-free sequence is duplicate-free |
| Seqs.FilterMultiset | backend/controllers/posts.js:96-97 | filtering two orderings of the same elements gives the same elements |
| Seqs.FilterAppend | backend/controllers/posts.js:221 | filtering a concatenation is the concatenation of the filtered parts |
| Seqs.RemovalIsSubsequence | backend/controllers/posts.js:127 | deleting the element at one position leaves a subsequence |
| Engagement.WithoutLiker | backend/controllers/posts.js:179 | the user no longer occurs, the rest keep their relative order, and every other liker keeps its count |
| Engagement.ToggleLike | backend/controllers/posts.js:145-157 | if the user liked, all of their entries go and the others keep order and counts; otherwise exactly one entry for the user is put in front |
| Engagement.ToggleFlips | backend/controllers/posts.js:145-157 | a toggle flips whether the user has liked and leaves whether anyone else has liked unchanged |
| Engagement.ToggleTwiceRestores | backend/controllers/posts.js:149-157 | starting from not liked, two toggles give back the identical likes sequence |
| Engagement.ToggleTwiceSameLikers | backend/controllers/posts.js:149-157 | from any likes sequence, two toggles give back the same set of likers |
| Engagement.ToggleKeepsNoDup | backend/controllers/posts.js:149-157 | a duplicate-free likes sequence stays duplicate-free after a toggle |
| Engagement.FindComment | backend/controllers/posts.js:215 | the first comment with the id, or none exactly when no comment has it |
| Engagement.WithoutComment | backend/controllers/posts.js:221 | no comment with the id remains, the rest keep their order, and every other comment keeps its count |
| Engagement.WithoutUniqueComment | backend/controllers/posts.js:221 | when comment ids are unique, removal by id deletes exactly the one comment at its position |
| Feed.InsertByRecency | backend/controllers/posts.js:71-73 | insertion adds exactly one occurrence of the post and one element, and puts it first or after the old head |
| Feed.InsertKeepsOrder | backend/controllers/posts.js:71-73 | inserting into a newest-first sequence keeps it newest first |
| Feed.SortByRecency | backend/controllers/posts.js:71-73 | every store has an ordering that holds the same posts newest first (ties in any order) |
| Feed.PageOf | backend/controllers/posts.js:68 | the page is never 0: the parsed page when it is a nonzero number, 1 for NaN and 0 |
| Feed.LimitOf | backend/controllers/posts.js:69 | the limit is never 0: the parsed limit when it is a nonzero number, 10 for NaN and 0 |
| Feed.SkipOf | backend/controllers/posts.js:70 | page 1 and only page 1 skips nothing; the skip is negative exactly when a page above 1 meets a negative limit or a page below 1 meets a positive one |
| Feed.Window | backend/controllers/posts.js:73-74 | `skip`/`limit`: at most `size` posts, exactly `min(size, n - skip)` of them, the i-th being the (skip+i)-th of the input |
| Feed.GetPosts | backend/controllers/posts.js:66-84 | page and limit default to 1 and 10 when unparsable or 0; a negative skip fails unexpectedly; otherwise the reply holds the slice `[skip, skip + abs(limit))` of the newest-first feed, `count` is its size and at most the limit, `total` is the store size, `hasMore` holds iff `skip + count < total`, and the page is newest first |
| Feed.HasMoreIffNextPageNonEmpty | backend/controllers/posts.js:83 | for positive page and limit, `hasMore` holds exactly when the next page has posts |
| Feed.PageData | backend/controllers/posts.js:68-75 | for page n ≥ 1 and limit ≥ 1, the page is the slice of the ordering between positions (n-1)·limit and n·limit |
| Feed.PagesTileFeed | backend/controllers/posts.js:68-74 | pages 1 to n cut from one and the same ordering, concatenated, are exactly its first n·limit posts: no overlap, no gap |
| Feed.NewestFirstUnique | backend/controllers/posts.js:72-73 | two newest-first orderings of the same posts are equal when no two different posts share a `createdAt` |
| Feed.FeedOrderUnique | backend/controllers/posts.js:72-73 | with distinct timestamps the sort `{ createdAt: -1 }` has exactly one possible result |
| Feed.SeparateQueriesTileFeed | backend/controllers/posts.js:66-84 | pages 1 to n, each from its own request and its own sort, concatenated, are exactly the first n·limit posts of the feed when no two posts share a `createdAt` |
| Feed.SameOrderPages | backend/controllers/posts.js:72-75 | with distinct timestamps, pages from separate requests are the pages of one ordering |
| Feed.TiedPostsCanRepeat | backend/controllers/posts.js:72-75 | two posts with the same `createdAt` may be sorted either way; when page 1 and page 2 (limit 1) are sorted differently, both show the same post and the other is never shown |
| Feed.FifteenPostsTwoPages | backend/controllers/posts.js:66-84 | with 15 posts and the default limit, page 1 holds 10 and announces more, page 2 holds 5 and announces none, and together they are the feed |
| Feed.GetPostsByUser | backend/controllers/posts.js:94-99 | the reply holds exactly the author's posts, each as often as stored, newest first |
| Feed.FilterKeepsNonIncreasing | backend/controllers/posts.js:96-97 | selecting posts out of a newest-first sequence keeps them newest first |
| Uploads.LastIndex | backend/controllers/posts.js:22 | the last position of the character, or -1 when it does not occur |
| Uploads.StripTrailingSlashes | backend/controllers/posts.js:22 | the input without its trailing slashes: a prefix, not ending in `/`, with only slashes dropped |
| Uploads.Basename | backend/controllers/posts.js:22 | the last path segment is the suffix of the slash-stripped path after its last `/`: it holds no `/` and is either the whole stripped path or preceded by a `/` |
| Uploads.SegmentExt | backend/controllers/posts.js:22 | the extension of one segment is empty exactly when the segment is empty, has no `.` past its first character, or is `..`; otherwise it is the proper tail of the segment from its last `.` |
| Uploads.Extname | backend/controllers/posts.js:22 | the extension is empty exactly when the last segment has no extension (no `.` past its first character, or `..`); otherwise it is the proper tail of that segment from its last `.`, holding no other `.` and no `/` |
| Uploads.DotAfterFirst | backend/controllers/posts.js:22 | a `.` occurs past the first character exactly when the last `.` is past the first character |
| Uploads.ExtnameOfFileName | backend/controllers/posts.js:22 | the extension of `name.ext` is `.ext` for a plain file name |
| Uploads.ExtensionCaseIgnored | backend/controllers/posts.js:20-25 | the filter's verdict does not depend on the case of the file extension |
| Uploads.NoExtensionRefused | backend/controllers/posts.js:20-25 | a file whose last segment has no extension is refused whatever its MIME type |
| Uploads.FileNameFiltered | backend/controllers/posts.js:20-25 | for a plain file name `name.ext`, the filter passes exactly when the lower-cased `.ext` and the MIME type both contain `jpeg`, `jpg` or `png` |
| Uploads.FileNameAccepted | backend/controllers/posts.js:17-25 | an upload of `name.ext` passes exactly when the filter passes and the file is at most 5 MB |
| Uploads.ImageExtensions | backend/controllers/posts.js:21-22 | `.png`, `.PNG`, `.jpg` and `.JPEG` count as image extensions |
| Uploads.UpperCaseMimeTypeRefused | backend/controllers/posts.js:21-25 | the filter compares its raw `mimetype` argument case-sensitively: called with `IMAGE/PNG` it refuses even `photo.png`; an upload never brings that value, because the multipart parser lower-cases the type first |
| PostsController.CreatePost | backend/controllers/posts.js:34-54 | fails with 400 "Please add some text" exactly when the text is missing, empty or all whitespace, store unchanged; otherwise appends one post with the requester's id, name and avatar (or ""), empty likes and comments, and an image path `/uploads/<file>` exactly when a file came with the request |
| PostsController.CreatePostRoute | backend/controllers/posts.js:17-31 | a file the upload filter refuses ends the request with an unexpected error before the handler runs; an accepted file's stored name becomes the image |
| PostsController.GetPost | backend/controllers/posts.js:106-111 | 404 exactly when no post has the id, otherwise a stored post with that id |
| PostsController.DeletePost | backend/controllers/posts.js:118-129 | succeeds exactly when the post exists and the requester is its author; 404 when absent and 401 when the requester is not the author, store unchanged in both; otherwise exactly one post with that id, by the requester, is removed and all others stay in order |
| PostsController.LikePost | backend/controllers/posts.js:136-164 | 404 exactly when absent, store unchanged; otherwise only that post's likes change, by the toggle rule |
| PostsController.UnlikePost | backend/controllers/posts.js:171-182 | succeeds exactly when the post exists and the user is among its likers; a missing post fails unexpectedly, a post not liked by the user fails with 400, both with the store unchanged; otherwise every entry of the user is removed and the other likers keep order and counts |
| PostsController.AddComment | backend/controllers/posts.js:189-205 | missing or empty text fails with 400 before the lookup (whitespace is accepted); a missing post fails unexpectedly; otherwise the new comment is first, the old ones follow in order, and the count grows by one |
| PostsController.DeleteComment | backend/controllers/posts.js:212-224 | succeeds exactly when the post exists and the first comment with the id exists and is the requester's; a missing post fails unexpectedly; 404 when no comment has the id and 401 when the first such comment is not the requester's, store unchanged; otherwise no comment with the id remains and the rest keep order and counts |
| PostInvariants.FindAfterReplace | backend/controllers/posts.js:159 | after saving a post back, looking up its id still finds the same position |
| PostInvariants.ReplaceKeepsWellFormed | backend/controllers/posts.js:159 | saving a post with its own id, duplicate-free likes and unique comment ids keeps the store well formed |
| PostInvariants.CreateKeepsWellFormed | backend/controllers/posts.js:42-54 | creating a post under a fresh id keeps the store well formed |
| PostInvariants.DeleteRemovesPost | backend/controllers/posts.js:118-129 | after a delete the store stays well formed, the post is no longer found and no longer listed under any author |
| PostInvariants.LikesKeepWellFormed | backend/controllers/posts.js:136-182 | liking and unliking keep the store well formed |
| PostInvariants.PrependKeepsUniqueCommentIds | backend/controllers/posts.js:202 | putting a comment with a fresh id in front keeps comment ids unique |
| PostInvariants.RemovalKeepsUniqueCommentIds | backend/controllers/posts.js:221 | removing one comment keeps the remaining comment ids unique |
| PostInvariants.AddCommentKeepsWellFormed | backend/controllers/posts.js:189-205 | adding a comment under a fresh comment id keeps the store well formed |
| PostInvariants.DeleteCommentKeepsWellFormed | backend/controllers/posts.js:212-224 | deleting a comment keeps the store well formed |
| PostInvariants.DeleteCommentRemovesOne | backend/controllers/posts.js:214-221 | in a well-formed store, deleting a comment removes exactly that comment from its post |
| PostInvariants.LikeTwiceRestoresStore | backend/controllers/posts.js:136-159 | from not liked, liking twice restores the whole store |
| PostInvariants.UnlikeUndoesLike | backend/controllers/posts.js:149-182 | from not liked, a like followed by an explicit unlike succeeds and restores the whole store |
| PostInvariants.AddThenDeleteCommentRestores | backend/controllers/posts.js:189-224 | adding a comment under a fresh id and deleting it as its author restores the whole store |
| UsersController.FindUser | backend/controllers/users.js:23 | the position found holds the id; none exactly when no user has it |
| UsersController.CheckUserId | backend/controllers/users.js:14-21 | an empty id or the text "undefined" gives 400 "User ID is required"; otherwise an id the format check rejects gives 400 "Invalid user ID format"; otherwise no error |
| UsersController.GetUserById | backend/controllers/users.js:9-32 | succeeds exactly when the id passes both checks and a user has it; the id checks first, then 404 "User not found"; a success is the public profile of a user with that id |
| UsersController.ValidationPrecedesLookup | backend/controllers/users.js:14-23 | for a missing or malformed id both read handlers fail with the same answer whatever the directory holds |
| UsersController.ProfileHidesOnlyPassword | backend/controllers/users.js:23 | `select('-password')`: two users show the same profile exactly when they differ at most in their passwords |
| UsersController.PasswordNotDisclosed | backend/controllers/users.js:23 | directories that differ only in passwords give the same profile reply |
| UsersController.SameIdsSameFind | backend/controllers/users.js:23 | directories with the same ids at the same positions find a user at the same position |
| UsersController.Populate | backend/controllers/users.js:56-58 | the ids of the listed connections are the stored ones that still exist, in stored order, each with that user's name, email and avatar |
| UsersController.PopulateAllKnown | backend/controllers/users.js:56-68 | when every connection exists, all of them are listed, in stored order |
| UsersController.GetUserConnections | backend/controllers/users.js:42-68 | succeeds exactly when the id passes both checks and a user has it; the same id checks and 404; on success `count` equals the number listed, the listed ids are the user's existing connections in stored order, and each entry carries that user's id, name, email and avatar |
| UsersController.ApplyUpdate | backend/controllers/users.js:88-98 | an update never changes the id, password or connections |
| UsersController.UpdateUserProfile | backend/controllers/users.js:76-108 | succeeds exactly when the path id is the requester's and a user has it; 403 when the path id is not the requester's, before any lookup; 404 when absent; both leave the directory unchanged; otherwise only that user changes, each of the six fields takes the body's value when present and keeps its own otherwise, and the reply is the public profile |
| UsersController.OnlyUpdatableFieldsMatter | backend/controllers/users.js:86-97 | bodies that agree on `name, email, bio, location, company, avatar` have the same effect: other keys are ignored |
| UsersController.UpdateIdempotent | backend/controllers/users.js:88-98 | sending the same update twice leaves the directory as sending it once |
| UsersController.ReadAfterUpdate | backend/controllers/users.js:23-32 | after a successful update, reading the profile with a well-formed id returns exactly the profile the update replied with |
| PostService.FormatPostsResponse | frontend/src/services/postService.jsx:13-74 | no response or falsy data gives no posts, total 0, no more, failure and the "No data" error with page and limit echoed; `success` is false only for a literal `false`; the success-flagged format takes the `data` array and `count \|\| posts.length`; a bare array is itself with its length; a nested `posts` array takes `total \|\| posts.length`; any other shape gives no posts and total 0; `hasMore` iff `page·limit < total` |
| PostService.FormatPostsResponseFixed | frontend/src/services/postService.jsx:48 | the success-flagged format takes `total \|\| count \|\| posts.length`, with hasMore from that total; page and limit are echoed and success is false exactly when there is no data or `success` is literally `false`, as in the normaliser; every other format is as in the normaliser |
| PostService.FeedBody | backend/controllers/posts.js:79-86 | the feed reply as the client receives it: success set, `data`, `count` and `total` carried over, no `posts` field |
| PostService.PageSizeBounded | backend/controllers/posts.js:73-80 | a server page with a positive limit holds at most `limit` posts and reports that size as `count` |
| PostService.ServerPageShape | backend/controllers/posts.js:70-83 | a server page is full while posts remain beyond it, holds the rest on the last page and is empty past it, with `total` the store size |
| PostService.AsWrittenNeverHasMore | frontend/src/services/postService.jsx:48-62 | for any store and positive page and limit, the client's `hasMore` for a real server page is false |
| PostService.ElevenPostsLoseSecondPage | frontend/src/services/postService.jsx:48-62 | with 11 posts and 10 per page, the server announces a second page and the client, as written, does not |
| PostService.FixedAgreesWithServer | frontend/src/services/postService.jsx:48-62 | with the corrected total, the client's posts are the page's, its total is the store size and its `hasMore` is the server's |
| PostService.GetPostById | frontend/src/services/postService.jsx:131-136 | refused with "Post ID is required" exactly when the id is missing or empty; otherwise `GET /posts/<id>` |
| PostService.DeletePost | frontend/src/services/postService.jsx:157-162 | refused with "Post ID is required" exactly when the id is missing or empty; otherwise `DELETE /posts/<id>` |
| PostService.LikePost | frontend/src/services/postService.jsx:170-175 | refused with "Post ID is required" exactly when the id is missing or empty; otherwise `PUT /posts/<id>/like` |
| PostService.DeleteComment | frontend/src/services/postService.jsx:202-207 | refused exactly when either id is missing or empty; otherwise `DELETE /posts/<id>/comments/<commentId>` |
| PostService.AddComment | frontend/src/services/postService.jsx:183-190 | refused exactly when the post id is missing or empty or there is no comment object; otherwise `POST /posts/comment/<id>` with text `text`, else `content`, else "" |
| PostRoutes.PostIdOfPath | backend/routes/posts.js:22-24 | an id is read only from a path whose first seven characters spell `/posts/` in some letter case; it is the rest of the path, non-empty and without `/` (PostRouteReads gives the converse) |
| PostRoutes.PostIdOfLikePath | backend/routes/posts.js:29 | an id is read only from a path that starts with `/posts/` and ends with `/like`, each in some letter case; it is the segment between them, non-empty and without `/` (LikeRouteReads gives the converse) |
| PostRoutes.CommentIdsOfPath | backend/routes/posts.js:33 | a `/posts/comment/:id/:comment_id` path, its literal part matched in any letter case, yields two non-empty ids without `/` that make up the rest of the path |
| PostRoutes.PostRoutesRoundTrip | backend/routes/posts.js:22-29 | the `/:id` and `/:id/like` routes read back an id of letters and digits that the path was built from |
| PostRoutes.CommentRouteRoundTrip | backend/routes/posts.js:33 | the comment route reads back two ids of letters and digits that the path was built from |
| PostRoutes.PostRouteReads | backend/routes/posts.js:22-24 | any letter-case spelling of `/posts/` followed by a non-empty segment without `/` is read as that id |
| PostRoutes.LikeRouteReads | backend/routes/posts.js:29 | any letter-case spelling of `/posts/`, a non-empty segment without `/` and any letter-case spelling of `/like` are read as that id |
| PostRoutes.CommentRouteReads | backend/routes/posts.js:33 | any letter-case spelling of `/posts/comment/` followed by two segments without `/` names exactly those two segments |
| PostService.PostPathsRoundTrip | frontend/src/services/postService.jsx:136 | the read, delete and like requests for an id of letters and digits name exactly that id, as the routes read it |
| PostService.ClientCommentPathShape | frontend/src/services/postService.jsx:208 | the client's comment-deletion path can reach the server's comment route only when the post id spells `comment` in some letter case |
| PostService.ClientCommentPathMissesRoute | frontend/src/services/postService.jsx:202-210 | for ids of letters and digits whose post id does not spell `comment`, the client's `deleteComment` request never reaches the server's comment-deletion route |
| PostService.ClientCommentPathHitsRoute | frontend/src/services/postService.jsx:208 | when the post id spells `comment` in any letter case, the client's path does reach that route, as a deletion of the comment from the post `comments` |
| PostService.EmptyCommentRejectedByServer | frontend/src/services/postService.jsx:189 | a comment object with neither text nor content is still sent, and the server answers 400 "Text is required" with the store unchanged |
| PostService.CommentTextReachesServer | frontend/src/services/postService.jsx:188-190 | a comment object with text is sent with that text, and the server puts a comment with exactly that text first |

## Left out

- Persistence: the MongoDB queries become functions on an in-memory sequence. Cast errors for malformed post ids are not modelled: the post handlers treat every id string as a lookup key.
- The read-modify-write in like, unlike, comment and delete-comment is not atomic. Concurrent requests are out of scope.
- `parseInt` string parsing: page and limit come in already parsed, with `None` for NaN.
- Non-numeric `count` or `total` values in a client reply are not modelled: they are either absent or integers.
- The multipart parser in front of the file filter is not modelled. It lower-cases the declared MIME type, and `Upload.mimeType` stands for that lower-cased value.
- The upload middleware's disk storage and its `Date.now()` file names are not modelled: the stored name is an input. The type filter and the 5 MB size limit are modelled by `Uploads.Accepts`.
- JsText.LowerAscii: lower-cases A-Z only, while JavaScript's `toLowerCase` covers all of Unicode. Only ASCII letters can turn a name into `jpeg`, `jpg` or `png`, so the filter's verdict on ASCII extensions is unaffected.
- `populate('user', 'name avatar')` in `getPostsByUser` is not modelled. The listed posts carry the author's id, not the populated author.
- Feed.GetPostsByUser: no error path. The store's cast error for a malformed author id is not modelled.
- UsersController.UpdateUserProfile: the store's `runValidators` rejections and cast errors are not modelled, and body values are strings only. A body value of `null` or of another JSON type is out of scope.
- The stored user record is reduced to the fields the handlers name. The user schema is not part of this model.
- Authentication: the token check and the middleware that sets the requester are not part of this model. The requester is a trusted input.
- Routing beyond path parsing: the routes `/posts/:id`, `/posts/:id/like` and `/posts/comment/:id/:comment_id` are modelled as path parsers that match their literal parts in any letter case, as Express does by default. Express's dispatch between routes, the mount prefix `/api`, the optional trailing `/` a non-strict route accepts, and the other routes are not modelled. The client deletes a comment through `/posts/<id>/comments/<commentId>`, which reaches the server's comment route only for a post id spelling `comment`; both are modelled as written.
- Request paths are compared as raw text. The browser's resolution of `.` and `..` segments, its cut at `?` and `#`, and Express's percent-decoding of parameters are not modelled.
- PostService.PostPathsRoundTrip: stated for ids of ASCII letters and digits only, such as the hexadecimal text of an `ObjectId`. Ids like `.`, `a?b` or `a%41` are changed by URL resolution or decoding before a route reads them.
- PostRoutes.CommentRouteRoundTrip: stated for ids of ASCII letters and digits only, for the same reason.
- PostService.ClientCommentPathMissesRoute: stated for ids of ASCII letters and digits only; a comment id with `../` segments could be resolved by the browser into a path that reaches the route.
- Post and user ids are compared as exact strings. The store casts them to `ObjectId`, so a 24-digit hex id written in upper case finds the record there, while the model answers 404.
- Request text is `Option<string>`: a JSON body whose `text` is a number, an object or an array is out of scope. For `{"text": 5}` the source's `createPost` throws at `trim` (an unexpected error), and `addComment` stores the text `"5"`.
- Page, limit and skip are unbounded integers, where the source computes with JavaScript doubles; a skip beyond what the store accepts as a 64-bit integer is a store error that the model does not produce.
- Feed.PagesTileFeed: cuts every page from one and the same ordering. Separate requests sort separately, and posts with equal `createdAt` may come in a different order each time; `Feed.SeparateQueriesTileFeed` states the tiling for separate requests when timestamps are distinct, and `Feed.TiedPostsCanRepeat` shows that with ties a post can appear on two pages while another appears on none.
- Feed.FifteenPostsTwoPages: like `PagesTileFeed`, reads both pages from one ordering; with distinct timestamps this is no restriction (`Feed.FeedOrderUnique`), with ties the two requests may disagree.
- The error middleware is not part of this model. `Unhandled` stands for whatever it sends.
- The client's `handleApiError`, the axios calls, `createPost`, `updatePost` and `getUserPosts` (HTTP plumbing), and the unwrapping `response.data.data || response.data` in `getPostById` are not modelled.
- The `_original` debugging echo and console logging in the normaliser are not modelled.
- The React pages, components, context and date formatting are out of scope.

## Findings

| source | as written | input that shows it | evidently intended | confidence | as-written member | corrected member |
|---|---|---|---|---|---|---|
| frontend/src/services/postService.jsx:48 | in the success-flagged format, `total` is `count`, which the server sets to the size of the returned page, so `page * limit < total` is false for every page the server sends | 11 posts, page 1, limit 10: the server replies `count: 10, total: 11, hasMore: true`, the client computes `hasMore = 10 < 10 = false`, and the home feed never asks for page 2 | take the total from the reply's `total` (`total \|\| count \|\| posts.length`), so the client's `hasMore` agrees with the server's | not executed | PostService.AsWrittenNeverHasMore | PostService.FixedAgreesWithServer |
