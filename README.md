# Article listing engine of a social publishing API, in Dafny

This project models the core of a Laravel blogging API. Users write articles, follow other users and favourite articles. Clients page through article listings with a keyset cursor. The modelled code lives in `ArticlesController` and `UserController`.

The three listing actions share one engine:

- `index` lists all articles, or one author's.
- `feed` lists the articles of the users the viewer follows.
- `favoriteArticleFeed` lists the articles the viewer has favourited.

Each action does four things:

1. It validates `limit` and takes `min(limit ?? 10, 100)` as the page size.
2. It applies its base filter.
3. It orders the rows by `created_at DESC, id DESC` and cuts a page after the cursor. It fetches one extra row to decide `has_more`.
4. It annotates every row with `is_favorited_by_auth_user` and `favorited_by_users_count`.

Next to the engine sit two tables that the controllers change in place:

- the `article_user` favourite pivot (`attach`, `detach`, existence check);
- the directed `user_follower` table (`syncWithoutDetaching`, `detach`, existence check).

The `feed` filter reads the follow table.

Modules:

- `Wrappers`: `Option`, `Result`, `Outcome`.
- `Store`: the article row, the ordering position, the error responses, lookup by slug, and deletion by id.
- `Ordering`: the listing order as a strict total order, and sorting.
- `Paging`: the keyset cut, the page and its metadata, and the lemmas that successive pages tile the listing.
- `Favorites`: pivot rows, counts, and the `FavoriteTable` class.
- `Follows`: users, follow edges, `show`, and the `FollowTable` class.
- `Listing`: filters, the annotator, `Paginate`, `Index`, `Feed`, `FavoriteFeed`, and the lemma that a client following `next_cursor` receives every filtered article exactly once.
- `Articles`: `destroy`, `favoriteArticle`, `unfavoriteArticle`, `checkIsFavorite`.

Inputs the source obtains from the environment are explicit parameters:

- The authenticated user (`auth()->id()`, `$request->user()`) is a parameter. It is an `Option` where the route is public (`index`, `checkIsFollowed`). It is a plain id where the route requires login.
- The contents of the `articles`, `users`, `article_user` and `user_follower` tables are parameters, or fields of the table classes.

Timestamps are integers. The cursor is the abstract position `(created_at, id)` of a row.

Points where the code behaves differently from what one might expect:

- **Page size.** A `limit` above 100 is refused with 422 by the validator (`max:100`) before `min(…, 100)` runs, so the cap never changes a validated limit (`ValidateLimit`).
- **Favouriting twice.** `attach` inserts a pivot row without checking for an existing one, so favouriting twice leaves two rows and counts two (`Favorites.AttachTwiceCountsTwice`). Whether a unique index refuses the second insert depends on a migration that is not part of this model.
- **Unknown slugs.** `favoriteArticle`, `unfavoriteArticle` and `destroy` call a method or read a property on the `null` lookup result, which ends in a server error (500) before any write. Only `checkIsFavorite` checks for `null`, and answers 404.
- **Zero ids.** PHP truthiness decides `->when($authorFilter, …)` and `$userId ? … : false`. An author filter or a viewer id of 0 therefore acts as absent (`Listing.Truthy`).

## Model

| member | source | states |
|---|---|---|
| Store.FindBySlug | app/Http/Controllers/api/ArticlesController.php:342 | null exactly when no row has the slug; otherwise a stored row with that slug |
| Store.RemoveId | app/Http/Controllers/api/ArticlesController.php:354 | after a delete, a row remains exactly when it was stored and has a different id; unique ids stay unique |
| Ordering.Precedes | app/Http/Controllers/api/ArticlesController.php:61-62 | a row precedes another only when they differ; a newer created_at comes first, and on equal created_at the larger id comes first |
| Ordering.PrecedesIsStrictTotalOrder | app/Http/Controllers/api/ArticlesController.php:58-62 | (created_at DESC, id DESC) is irreflexive, asymmetric, transitive, and total on distinct positions |
| Ordering.Insert | app/Http/Controllers/api/ArticlesController.php:61-62 | inserting into the ordered rows adds exactly that row (as multisets) |
| Ordering.SortByKey | app/Http/Controllers/api/ArticlesController.php:61-62 | ordering the rows is a permutation of them |
| Ordering.InsertSorted | app/Http/Controllers/api/ArticlesController.php:58-62 | inserting a row with a new id into a strictly ordered listing keeps it strictly ordered |
| Ordering.SortByKeySorted | app/Http/Controllers/api/ArticlesController.php:58-62 | with unique ids, ordering yields a strictly sorted permutation: no two rows compare equal |
| Ordering.SortedNoRepeats | app/Http/Controllers/api/ArticlesController.php:58-60 | a strictly ordered listing repeats no row and no ordering key |
| Paging.After | app/Http/Controllers/api/ArticlesController.php:66 | the rows kept after a cursor are exactly the rows strictly after its position in the order; all rows without a cursor |
| Paging.CursorPaginate | app/Http/Controllers/api/ArticlesController.php:89-97 | a page has at most perPage rows; it is the first min(perPage, remaining) rows after the cursor; has_more iff more than perPage rows remain; next_cursor null iff no more, and otherwise the last row's position; prev_cursor null on the first page, and the first row's position on a later non-empty page |
| Paging.AfterSorted | app/Http/Controllers/api/ArticlesController.php:58-62 | cutting after a cursor keeps an ordered listing ordered |
| Paging.AfterAt | app/Http/Controllers/api/ArticlesController.php:58-60 | in an ordered listing, the rows after the position of row i are exactly the rows behind it |
| Paging.AfterAfter | app/Http/Controllers/api/ArticlesController.php:58-60 | cutting after an earlier and then a later position equals cutting after the later one |
| Paging.PageAdvance | app/Http/Controllers/api/ArticlesController.php:58-60 | the rows after a page's next_cursor are exactly the rows that followed that page: no duplicate, no gap |
| Paging.NoRedeliveryAfterWrites | app/Http/Controllers/api/ArticlesController.php:58-62 | whatever rows are written between two requests, no delivered row appears after the next cursor, and every current row that sorts after it does |
| Favorites.HasFavorite | app/Http/Controllers/api/ArticlesController.php:397-400 | true exactly when some pivot row has that user_id and article_id |
| Favorites.FavoriteCount | app/Http/Controllers/api/ArticlesController.php:53 | the count is zero exactly when no pivot row names the article, and never exceeds the number of rows |
| Favorites.WithoutRow | app/Http/Controllers/api/ArticlesController.php:377 | after detach, a row remains exactly when it was present and is not the detached pair; every other row keeps its multiplicity and the pair's rows are all gone |
| Favorites.CountAppend | app/Http/Controllers/api/ArticlesController.php:366 | attaching adds one to that article's count and leaves every other article's count unchanged |
| Favorites.CountWithoutOther | app/Http/Controllers/api/ArticlesController.php:377 | detaching one article's pair leaves every other article's count unchanged |
| Favorites.CountWithoutSame | app/Http/Controllers/api/ArticlesController.php:377 | detaching lowers the article's count by exactly the number of rows the pair had: never raises it, and lowers it when the pair was present |
| Favorites.DetachUndoesAttach | app/Http/Controllers/api/ArticlesController.php:377 | detaching a pair just attached to a table that lacked it restores the table exactly |
| Favorites.AttachTwiceCountsTwice | app/Http/Controllers/api/ArticlesController.php:366 | attach is not idempotent: attaching the same pair twice raises the count by two |
| Favorites.FavoriteTable.Attach | app/Http/Controllers/api/ArticlesController.php:366 | appends exactly the (viewer, article) row; every existing pair stays |
| Favorites.FavoriteTable.Detach | app/Http/Controllers/api/ArticlesController.php:377 | removes the (viewer, article) pair and no other pair |
| Favorites.FavoriteTable.Exists | app/Http/Controllers/api/ArticlesController.php:397-400 | true exactly when some row has that user_id and article_id |
| Follows.FindByUsername | app/Http/Controllers/api/UserController.php:17 | null exactly when no user has the name; otherwise a stored user with that name |
| Follows.Show | app/Http/Controllers/api/UserController.php:13-34 | 404 exactly when no user has the username; otherwise that user |
| Follows.Followings | app/Http/Controllers/api/ArticlesController.php:127-129 | a user id is followed exactly when the edge (viewer, id) exists |
| Follows.FollowingsAfterFollow | app/Http/Controllers/api/UserController.php:39 | following adds exactly the target to the follower's followings; nobody else's change |
| Follows.FollowingsAfterUnfollow | app/Http/Controllers/api/UserController.php:47 | unfollowing removes exactly the target from the follower's followings; nobody else's change |
| Follows.FollowTwiceIsSingleEdge | app/Http/Controllers/api/UserController.php:39 | following twice leaves one edge; the edge count grows by one only when the edge was absent |
| Follows.UnfollowUndoesFollow | app/Http/Controllers/api/UserController.php:47 | unfollowing a user just followed, who was not followed before, restores every edge |
| Follows.FollowIsDirected | app/Http/Controllers/api/UserController.php:57-59 | adding A to B makes B a following of A but not A a following of B |
| Follows.FollowTable.SyncWithoutDetaching | app/Http/Controllers/api/UserController.php:39 | the edge set gains the (viewer, target) edge and loses nothing |
| Follows.FollowTable.Detach | app/Http/Controllers/api/UserController.php:47 | the edge set loses the (viewer, target) edge and nothing else; a no-op when absent |
| Follows.FollowTable.FollowUser | app/Http/Controllers/api/UserController.php:36-42 | 404 and no change for an unknown username; otherwise the viewer follows that user and all other edges stay |
| Follows.FollowTable.UnfollowUser | app/Http/Controllers/api/UserController.php:44-50 | 404 and no change for an unknown username; otherwise exactly that edge is gone |
| Follows.FollowTable.CheckIsFollowed | app/Http/Controllers/api/UserController.php:52-72 | true exactly when the current user is known and the edge (current user, viewUserId) exists; false for a guest |
| Listing.Truthy | app/Http/Controllers/api/ArticlesController.php:48 | PHP truthiness of an optional id: null and 0 are false, every other id is true |
| Listing.Matches | app/Http/Controllers/api/ArticlesController.php:55-57 | no filter passes every row; an author filter passes exactly that author's rows; the followed-authors filter (line 142) exactly the rows by a followed author; the favourites filter (lines 212-214) exactly the rows with a pivot row for the viewer |
| Listing.ListingOf | app/Http/Controllers/api/ArticlesController.php:43-62 | the ordered listing is a permutation of the filtered rows; `ListingContents` and `ListingSound` state its contents and its order |
| Listing.Select | app/Http/Controllers/api/ArticlesController.php:55-57 | a row passes exactly when it is stored and matches the filter; unique ids stay unique |
| Listing.SelectEverything | app/Http/Controllers/api/ArticlesController.php:55-57 | without an author filter no row is excluded, and the rows keep their order |
| Listing.ListingContents | app/Http/Controllers/api/ArticlesController.php:55-62 | the listing holds exactly the stored rows that match the filter, so without a filter nothing is excluded |
| Listing.ListingSound | app/Http/Controllers/api/ArticlesController.php:58-62 | with unique ids the listing is strictly sorted and holds exactly the matching rows |
| Listing.Annotate | app/Http/Controllers/api/ArticlesController.php:71-73 | the row keeps its article; the flag is false for a guest and, for a viewer, true exactly when the viewer has a pivot row for it; the count is zero exactly when no pivot row names it; a set flag implies a count of at least one |
| Listing.AnnotateAll | app/Http/Controllers/api/ArticlesController.php:69-73 | each row keeps its article and position; the flag is true exactly when the annotation viewer has a pivot row for it; the count is the article's pivot-row count |
| Listing.Paginate | app/Http/Controllers/api/ArticlesController.php:43-99 | at most perPage rows, each stored and matching the filter, strictly ordered; each flag and count as annotated; has_more iff rows remain after the page; next_cursor null iff not has_more; no prev_cursor on the first page |
| Listing.PerPage | app/Http/Controllers/api/ArticlesController.php:32 | never above 100; 10 without a limit; a limit up to 100 as given; a larger one cut to 100 |
| Listing.ValidateLimit | app/Http/Controllers/api/ArticlesController.php:17-32 | 422 exactly when a limit outside [1,100] is given; otherwise a page size in [1,100], 10 when absent, the given limit when present |
| Listing.Index | app/Http/Controllers/api/ArticlesController.php:14-101 | 422 iff the limit is invalid; otherwise a page of at most perPage (in [1,100], default 10) stored rows, all by the author when an author is given; all flags false for a guest, and for a signed-in viewer true exactly on their favourites |
| Listing.Feed | app/Http/Controllers/api/ArticlesController.php:103-184 | 422 iff the limit is invalid; otherwise only articles whose author the viewer follows, flagged exactly on the viewer's favourites; an empty page with no cursors and no more pages when the viewer follows nobody |
| Listing.FavoriteFeed | app/Http/Controllers/api/ArticlesController.php:186-264 | 422 iff the limit is invalid; otherwise only articles the viewer favourited, each flagged true and with a count of at least one |
| Listing.CountIgnoresViewer | app/Http/Controllers/api/ArticlesController.php:47-53 | rows, order, metadata and favourite counts are the same whoever the viewer is |
| Listing.DrainPages | app/Http/Controllers/api/ArticlesController.php:89-97 | following next_cursor until has_more is false yields exactly the annotated rows after the starting cursor |
| Listing.EveryArticleExactlyOnce | app/Http/Controllers/api/ArticlesController.php:58-60 | paging from the start delivers every matching article, nothing else, strictly ordered and each exactly once |
| Listing.InsertBetweenPages | app/Http/Controllers/api/ArticlesController.php:58-62 | after an insert between two requests, the later pages repeat no delivered row, keep every undelivered older row, and, when the new row passes the filter, contain it exactly when it sorts after the cursor |
| Listing.TieBreakExample | app/Http/Controllers/api/ArticlesController.php:58-62 | rows (100,5), (100,3), (90,9) with two per page give [(100,5),(100,3)], has_more and cursor (100,3), then [(90,9)] with nothing more |
| Articles.ArticleTable.Destroy | app/Http/Controllers/api/ArticlesController.php:339-359 | 500 for an unknown slug and 403 for a non-author, both without deleting; otherwise exactly that article's row is deleted |
| Articles.FavoriteArticle | app/Http/Controllers/api/ArticlesController.php:361-370 | 500 and no change for an unknown slug; otherwise the article is returned and exactly one (viewer, article) row is appended |
| Articles.UnfavoriteArticle | app/Http/Controllers/api/ArticlesController.php:372-382 | 500 and no change for an unknown slug; otherwise exactly the (viewer, article) rows are deleted |
| Articles.CheckIsFavorite | app/Http/Controllers/api/ArticlesController.php:384-411 | 404 exactly when no article has the slug; otherwise true exactly when the viewer has a pivot row for the first article with that slug |
| Articles.DeletedArticleIsNotListed | app/Http/Controllers/api/ArticlesController.php:354 | after a delete the article is in no listing, whatever the filter, and every other matching article still is |
| Articles.FavoriteAnnotation | app/Http/Controllers/api/ArticlesController.php:366 | after favouriting, the flag is true for that viewer, the article's count is one higher, and other articles' counts are unchanged |
| Articles.UnfavoriteAnnotation | app/Http/Controllers/api/ArticlesController.php:377 | after unfavouriting, the flag is false for that viewer, the article's count drops by exactly the viewer's rows for it (by one when there was one), and other articles' counts are unchanged |

## Left out

- Cursor encoding: the cursor's wire format, its decoding and tamper detection are Laravel framework code, outside this repository. The cursor is the abstract position of a row, so there is no invalid-cursor error and no round-trip law.
- Backward paging: following `prev_cursor` makes the library reverse the query and flip `has_more` and `next_cursor`; that is Laravel framework code, outside this repository. Only forward cursors are modelled. `prev_cursor` is modelled as the first row's position, present when a cursor was given and the page is non-empty.
- Validation rules other than `limit` are not modelled: `author` being an integer that `exists:users,id`, and `cursor` being a string.
- Authentication, JWT login and route middleware are not modelled. `feed`, `favoriteArticleFeed`, `destroy` and the favourite actions take a non-null viewer, as their `auth:api` routes guarantee.
- `feed`: `User::find($userId)` returning null for a viewer id missing from `users` is not modelled.
- Query shape: the batched eager loads and `withCount` are modelled by the values they produce. The number of queries (no N+1) is not.
- Output formatting is not modelled: `profile_image_url`, JSON serialisation, the `unset` of the loaded relation, and the catch-all `Throwable` branch of `UserController::show`.
- `ArticlesController::show`, `store`, `update` and `generateUniqueSlug` are not modelled. They use random slugs and database existence loops, and `show` reads the lookup result before its null check. An insert between requests is modelled by appending a row (`Listing.InsertBetweenPages`).
- Articles.ArticleTable.Destroy: compares `user_id` with the viewer as integers. If the database driver returns ids as strings, the source's `!==` would refuse every author; that case is not modelled.
- Articles.ArticleTable.Destroy: cascade deletion of the article's pivot rows depends on a migration that is not part of this model. Left-over rows name no listed article.
- String comparison: `Store.FindBySlug` and `Follows.FindByUsername` compare slugs and usernames exactly. The database's `where('slug', …)` and `where('username', …)` follow the column collation, which under MySQL's default is case-insensitive; that is not modelled.
- Favorites.FavoriteTable.Attach: assumes no unique index on (article_id, user_id). With such an index a second `attach` of the same pair would fail with a 500 and add no row; the model appends the row.
- Concurrency and isolation: requests are modelled one after another. A write between two requests is a change of the store passed to the second request.
- CommentsController and AuthController are not part of this model.
