/**
 * The three listing actions of the articles controller (`index`, `feed`,
 * `favoriteArticleFeed`). Each one validates `limit`, chooses a base filter,
 * lists the matching articles in listing order, cuts a keyset page after the
 * cursor, and annotates each row for the viewer.
 */
module Listing {
  import opened Wrappers
  import opened Store
  import opened Ordering
  import opened Paging
  import opened Favorites
  import opened Follows

  /** PHP truthiness of an optional id: null and 0 are both false. */
  predicate Truthy(o: Option<int>): (b: bool)
    ensures o.None? ==> !b
    ensures o == Some(0) ==> !b
    ensures o.Some? && o.value != 0 ==> b
  {
    o.Some? && o.value != 0
  }

  /** The base filter of a listing. */
  datatype Filter =
    | Everything                       // `index` without an author
    | AuthorIs(author: UserId)         // `index` with `->where('user_id', $authorFilter)`
    | AuthorIn(authors: set<UserId>)   // `feed`: `->whereIn('user_id', $followedUserIds)`
    | FavoritedBy(viewer: UserId)      // `favoriteArticleFeed`: `->whereHas('favoritedByUsers', user_id = viewer)`

  /** Whether the row passes the filter's `where` clause. */
  predicate Matches(f: Filter, a: Article, favs: seq<Favorite>): (r: bool)
    ensures f.Everything? ==> r
    ensures f.AuthorIs? ==> (r <==> a.userId == f.author)
    ensures f.AuthorIn? ==> (r <==> a.userId in f.authors)
    ensures f.FavoritedBy? ==>
              (r <==> exists i :: 0 <= i < |favs| && favs[i].userId == f.viewer && favs[i].articleId == a.id)
  {
    match f
    case Everything => true
    case AuthorIs(u) => a.userId == u
    case AuthorIn(us) => a.userId in us
    case FavoritedBy(v) => HasFavorite(favs, v, a.id)
  }

  /** The rows of the store that pass the filter. */
  function Select(store: seq<Article>, f: Filter, favs: seq<Favorite>): (r: seq<Article>)
    ensures forall a :: a in r <==> a in store && Matches(f, a, favs)
    ensures DistinctIds(store) ==> DistinctIds(r)
  {
    if store == [] then []
    else
      var rest := Select(store[1..], f, favs);
      assert DistinctIds(store) ==> DistinctIds(store[1..]) && forall a :: a in rest ==> a.id != store[0].id by {
        if DistinctIds(store) {
          forall a | a in rest ensures a.id != store[0].id {
            var k :| 0 <= k < |store[1..]| && store[1..][k] == a;
            assert store[k + 1] == a;
          }
          forall i, j | 0 <= i < j < |store[1..]| ensures store[1..][i].id != store[1..][j].id {
            assert store[1..][i] == store[i + 1] && store[1..][j] == store[j + 1];
          }
        }
      }
      if Matches(f, store[0], favs) then
        var r := [store[0]] + rest;
        assert DistinctIds(store) ==> DistinctIds(r) by {
          if DistinctIds(store) {
            forall i, j | 0 <= i < j < |r| ensures r[i].id != r[j].id {
              if i == 0 {
                assert r[j] == rest[j - 1] && r[j] in rest;
              } else {
                assert r[i] == rest[i - 1] && r[j] == rest[j - 1];
              }
            }
          }
        }
        r
      else rest
  }

  /** The filtered store in listing order (`->orderByDesc('created_at')->orderByDesc('id')`). */
  function ListingOf(store: seq<Article>, f: Filter, favs: seq<Favorite>): (r: seq<Article>)
    ensures multiset(r) == multiset(Select(store, f, favs))
  {
    SortByKey(Select(store, f, favs))
  }

  /** The listing holds exactly the rows of the store that pass the filter. */
  lemma ListingContents(store: seq<Article>, f: Filter, favs: seq<Favorite>)
    ensures forall a :: a in ListingOf(store, f, favs) <==> a in store && Matches(f, a, favs)
  {
    var sel := Select(store, f, favs);
    forall a ensures a in ListingOf(store, f, favs) <==> a in sel {
      assert a in ListingOf(store, f, favs) <==> a in multiset(ListingOf(store, f, favs));
    }
  }

  /** With unique ids, the listing is strictly sorted and holds exactly the rows of the store that pass the filter. */
  lemma ListingSound(store: seq<Article>, f: Filter, favs: seq<Favorite>)
    requires DistinctIds(store)
    ensures Sorted(ListingOf(store, f, favs))
    ensures forall a :: a in ListingOf(store, f, favs) <==> a in store && Matches(f, a, favs)
  {
    SortByKeySorted(Select(store, f, favs));
    ListingContents(store, f, favs);
  }

  /** An article as it is returned: the stored row plus the two per-viewer attributes. */
  datatype AnnotatedArticle = AnnotatedArticle(
    article: Article,
    isFavoritedByAuthUser: bool,
    favoritedByUsersCount: nat)

  /**
   * The `map` closure: `viewer` is the user the `favoritedByUsers` eager load
   * was restricted to (None for a guest), and the count comes from `withCount`.
   */
  function Annotate(a: Article, viewer: Option<UserId>, favs: seq<Favorite>): (r: AnnotatedArticle)
    ensures r.article == a
    ensures viewer.None? ==> !r.isFavoritedByAuthUser
    ensures viewer.Some? ==> (r.isFavoritedByAuthUser <==> Favorite(viewer.value, a.id) in favs)
    ensures r.favoritedByUsersCount == 0 <==> forall e :: e in favs ==> e.articleId != a.id
    ensures r.isFavoritedByAuthUser ==> r.favoritedByUsersCount >= 1
  {
    AnnotatedArticle(
      a,
      viewer.Some? && HasFavorite(favs, viewer.value, a.id),
      FavoriteCount(favs, a.id))
  }

  /** Annotates every row of a page, keeping their order. */
  function AnnotateAll(s: seq<Article>, viewer: Option<UserId>, favs: seq<Favorite>): (r: seq<AnnotatedArticle>)
    ensures |r| == |s|
    ensures forall i :: 0 <= i < |s| ==> r[i].article == s[i]
    ensures forall i :: 0 <= i < |s| ==>
              (r[i].isFavoritedByAuthUser <==> viewer.Some? && HasFavorite(favs, viewer.value, s[i].id))
    ensures forall i :: 0 <= i < |s| ==> r[i].favoritedByUsersCount == FavoriteCount(favs, s[i].id)
  {
    seq(|s|, i requires 0 <= i < |s| => Annotate(s[i], viewer, favs))
  }

  lemma AnnotateAllAppend(s: seq<Article>, t: seq<Article>, viewer: Option<UserId>, favs: seq<Favorite>)
    ensures AnnotateAll(s + t, viewer, favs) == AnnotateAll(s, viewer, favs) + AnnotateAll(t, viewer, favs)
  {
    var l := AnnotateAll(s + t, viewer, favs);
    var r := AnnotateAll(s, viewer, favs) + AnnotateAll(t, viewer, favs);
    forall i | 0 <= i < |l| ensures l[i] == r[i] {
      if i < |s| {
        assert (s + t)[i] == s[i];
      } else {
        assert (s + t)[i] == t[i - |s|];
      }
    }
  }

  /** The `meta` object of a listing response. */
  datatype Meta = Meta(
    perPage: nat,
    hasMore: bool,
    nextCursor: Option<Position>,
    prevCursor: Option<Position>)

  /** A listing response: `data` and `meta`. */
  datatype Response = Response(data: seq<AnnotatedArticle>, meta: Meta)

  /** The engine every listing action shares: filter, order, page, annotate. */
  function Paginate(store: seq<Article>, favs: seq<Favorite>, f: Filter, viewer: Option<UserId>,
                    perPage: nat, cursor: Option<Position>): (r: Response)
    requires perPage >= 1
    ensures r.meta.perPage == perPage
    ensures |r.data| <= perPage
    ensures forall i :: 0 <= i < |r.data| ==> r.data[i].article in store && Matches(f, r.data[i].article, favs)
    ensures forall i :: 0 <= i < |r.data| ==>
              (r.data[i].isFavoritedByAuthUser <==> viewer.Some? && HasFavorite(favs, viewer.value, r.data[i].article.id))
    ensures forall i :: 0 <= i < |r.data| ==> r.data[i].favoritedByUsersCount == FavoriteCount(favs, r.data[i].article.id)
    ensures DistinctIds(store) ==>
              forall i, j :: 0 <= i < j < |r.data| ==> Precedes(Key(r.data[i].article), Key(r.data[j].article))
    ensures r.meta.hasMore <==> |After(ListingOf(store, f, favs), cursor)| > perPage
    ensures r.meta.nextCursor.None? <==> !r.meta.hasMore
    ensures cursor.None? ==> r.meta.prevCursor.None?
  {
    var p := CursorPaginate(ListingOf(store, f, favs), perPage, cursor);
    PageRowsFromStore(store, f, favs, perPage, cursor);
    Response(AnnotateAll(p.items, viewer, favs), Meta(p.perPage, p.hasMore, p.nextCursor, p.prevCursor))
  }

  /** The rows of a page come from the store, pass the filter, and (with unique ids) are strictly sorted. */
  lemma PageRowsFromStore(store: seq<Article>, f: Filter, favs: seq<Favorite>, perPage: nat, cursor: Option<Position>)
    requires perPage >= 1
    ensures var items := CursorPaginate(ListingOf(store, f, favs), perPage, cursor).items;
      && (forall i :: 0 <= i < |items| ==> items[i] in store && Matches(f, items[i], favs))
      && (DistinctIds(store) ==> Sorted(items))
  {
    var listing := ListingOf(store, f, favs);
    var rest := After(listing, cursor);
    var items := CursorPaginate(listing, perPage, cursor).items;
    forall i | 0 <= i < |items| ensures items[i] in store && Matches(f, items[i], favs) {
      assert items[i] == rest[i];
      assert items[i] in listing;
      assert items[i] in multiset(listing);
    }
    if DistinctIds(store) {
      ListingSound(store, f, favs);
      AfterSorted(listing, cursor);
      forall i, j | 0 <= i < j < |items| ensures Precedes(Key(items[i]), Key(items[j])) {
        assert items[i] == rest[i] && items[j] == rest[j];
      }
    }
  }

  /**
   * Who is looking changes only the favourite flag: the same rows, in the same
   * order, with the same favourite counts and the same metadata.
   */
  lemma CountIgnoresViewer(store: seq<Article>, favs: seq<Favorite>, f: Filter, v1: Option<UserId>, v2: Option<UserId>,
                           perPage: nat, cursor: Option<Position>)
    requires perPage >= 1
    ensures var r1 := Paginate(store, favs, f, v1, perPage, cursor);
      var r2 := Paginate(store, favs, f, v2, perPage, cursor);
      && ArticlesOf(r1.data) == ArticlesOf(r2.data)
      && r1.meta == r2.meta
      && forall i :: 0 <= i < |r1.data| ==> r1.data[i].favoritedByUsersCount == r2.data[i].favoritedByUsersCount
  {
    PageData(store, favs, f, v1, perPage, cursor);
    PageData(store, favs, f, v2, perPage, cursor);
  }

  /** `min($validated['limit'] ?? 10, 100)`. */
  function PerPage(limit: Option<int>): (n: int)
    ensures n <= 100
    ensures limit.None? ==> n == 10
    ensures limit.Some? && limit.value <= 100 ==> n == limit.value
    ensures limit.Some? && limit.value > 100 ==> n == 100
  {
    var l := limit.GetOr(10);
    if l < 100 then l else 100
  }

  /**
   * The `limit` rule `nullable|integer|min:1|max:100` followed by the default
   * and the cap: a limit outside [1, 100] is refused with 422 before the cap is
   * reached, so the cap never changes a validated limit.
   */
  function ValidateLimit(limit: Option<int>): (r: Result<nat, ApiError>)
    ensures r.Err? <==> limit.Some? && !(1 <= limit.value <= 100)
    ensures r.Err? ==> r.error == Unprocessable
    ensures r.Ok? ==> 1 <= r.value <= 100
    ensures limit.None? ==> r == Ok(10)
    ensures r.Ok? && limit.Some? ==> r.value == limit.value
  {
    if limit.Some? && !(1 <= limit.value <= 100) then Err(Unprocessable)
    else Ok(PerPage(limit))
  }

  /** `index`: all articles, or one author's when `author` is truthy; anyone may call it. */
  function Index(store: seq<Article>, favs: seq<Favorite>, viewer: Option<UserId>,
                 limit: Option<int>, author: Option<UserId>, cursor: Option<Position>): (r: Result<Response, ApiError>)
    ensures r.Err? <==> limit.Some? && !(1 <= limit.value <= 100)
    ensures r.Err? ==> r.error == Unprocessable
    ensures r.Ok? ==> 1 <= r.value.meta.perPage <= 100 && |r.value.data| <= r.value.meta.perPage
    ensures r.Ok? && limit.None? ==> r.value.meta.perPage == 10
    ensures r.Ok? ==> forall d :: d in r.value.data ==> d.article in store
    ensures r.Ok? && Truthy(author) ==> forall d :: d in r.value.data ==> d.article.userId == author.value
    ensures r.Ok? && !Truthy(viewer) ==> forall d :: d in r.value.data ==> !d.isFavoritedByAuthUser
    ensures r.Ok? && Truthy(viewer) ==>
              forall d :: d in r.value.data ==> (d.isFavoritedByAuthUser <==> HasFavorite(favs, viewer.value, d.article.id))
  {
    match ValidateLimit(limit)
    case Err(e) => Err(e)
    case Ok(perPage) =>
      var f := if Truthy(author) then AuthorIs(author.value) else Everything;
      var annotateFor := if Truthy(viewer) then Some(viewer.value) else None;
      Ok(Paginate(store, favs, f, annotateFor, perPage, cursor))
  }

  /** `feed`: the articles of the users the (authenticated) viewer follows. */
  function Feed(store: seq<Article>, favs: seq<Favorite>, follows: set<Follow>, viewer: UserId,
                limit: Option<int>, cursor: Option<Position>): (r: Result<Response, ApiError>)
    ensures r.Err? <==> limit.Some? && !(1 <= limit.value <= 100)
    ensures r.Err? ==> r.error == Unprocessable
    ensures r.Ok? ==> 1 <= r.value.meta.perPage <= 100 && |r.value.data| <= r.value.meta.perPage
    ensures r.Ok? ==> forall d :: d in r.value.data ==> d.article in store && Follow(viewer, d.article.userId) in follows
    ensures r.Ok? ==>
              forall d :: d in r.value.data ==> (d.isFavoritedByAuthUser <==> HasFavorite(favs, viewer, d.article.id))
    ensures r.Ok? && Followings(follows, viewer) == {} ==>
              r.value.data == [] && !r.value.meta.hasMore && r.value.meta.nextCursor.None? && r.value.meta.prevCursor.None?
  {
    match ValidateLimit(limit)
    case Err(e) => Err(e)
    case Ok(perPage) =>
      var f := AuthorIn(Followings(follows, viewer));
      var resp := Paginate(store, favs, f, Some(viewer), perPage, cursor);
      assert Followings(follows, viewer) == {} ==> resp.data == [] && !resp.meta.hasMore by {
        if Followings(follows, viewer) == {} {
          NothingMatchesEmptyAuthorSet(store, favs, cursor);
        }
      }
      Ok(resp)
  }

  lemma NothingMatchesEmptyAuthorSet(store: seq<Article>, favs: seq<Favorite>, cursor: Option<Position>)
    ensures After(ListingOf(store, AuthorIn({}), favs), cursor) == []
  {
    SelectNothing(store, AuthorIn({}), favs);
    var l := ListingOf(store, AuthorIn({}), favs);
    assert multiset(l) == multiset{};
    assert l == [];
  }

  lemma {:induction false} SelectNothing(store: seq<Article>, f: Filter, favs: seq<Favorite>)
    requires forall a :: a in store ==> !Matches(f, a, favs)
    ensures Select(store, f, favs) == []
  {
    if store != [] {
      assert store[0] in store;
      assert forall a :: a in store[1..] ==> a in store;
      SelectNothing(store[1..], f, favs);
    }
  }

  /** `favoriteArticleFeed`: the articles the (authenticated) viewer has favourited. */
  function FavoriteFeed(store: seq<Article>, favs: seq<Favorite>, viewer: UserId,
                        limit: Option<int>, cursor: Option<Position>): (r: Result<Response, ApiError>)
    ensures r.Err? <==> limit.Some? && !(1 <= limit.value <= 100)
    ensures r.Err? ==> r.error == Unprocessable
    ensures r.Ok? ==> 1 <= r.value.meta.perPage <= 100 && |r.value.data| <= r.value.meta.perPage
    ensures r.Ok? ==>
              forall d :: d in r.value.data ==>
                d.article in store && HasFavorite(favs, viewer, d.article.id) && d.isFavoritedByAuthUser
    ensures r.Ok? ==> forall d :: d in r.value.data ==> d.favoritedByUsersCount >= 1
  {
    match ValidateLimit(limit)
    case Err(e) => Err(e)
    case Ok(perPage) =>
      var resp := Paginate(store, favs, FavoritedBy(viewer), Some(viewer), perPage, cursor);
      assert forall d :: d in resp.data ==> d.favoritedByUsersCount >= 1 by {
        forall d | d in resp.data ensures d.favoritedByUsersCount >= 1 {
          var i :| 0 <= i < |resp.data| && resp.data[i] == d;
          assert Favorite(viewer, d.article.id) in favs;
        }
      }
      Ok(resp)
  }

  /**
   * A client that keeps following `next_cursor` until `has_more` is false; the
   * concatenation of the `data` arrays it receives.
   */
  function DrainPages(store: seq<Article>, favs: seq<Favorite>, f: Filter, viewer: Option<UserId>,
                      perPage: nat, cursor: Option<Position>): (r: seq<AnnotatedArticle>)
    requires DistinctIds(store) && perPage >= 1
    ensures r == AnnotateAll(After(ListingOf(store, f, favs), cursor), viewer, favs)
    decreases |After(ListingOf(store, f, favs), cursor)|
  {
    var page := Paginate(store, favs, f, viewer, perPage, cursor);
    PageData(store, favs, f, viewer, perPage, cursor);
    if !page.meta.hasMore then
      page.data
    else
      ListingSound(store, f, favs);
      DrainStep(ListingOf(store, f, favs), perPage, cursor, viewer, favs);
      page.data + DrainPages(store, favs, f, viewer, perPage, page.meta.nextCursor)
  }

  /** The response of the engine is the annotated page of the listing, with the page's metadata. */
  lemma PageData(store: seq<Article>, favs: seq<Favorite>, f: Filter, viewer: Option<UserId>,
                 perPage: nat, cursor: Option<Position>)
    requires perPage >= 1
    ensures var page := Paginate(store, favs, f, viewer, perPage, cursor);
      var p := CursorPaginate(ListingOf(store, f, favs), perPage, cursor);
      && page.data == AnnotateAll(p.items, viewer, favs)
      && page.meta.hasMore == p.hasMore
      && page.meta.nextCursor == p.nextCursor
      && (!p.hasMore ==> p.items == After(ListingOf(store, f, favs), cursor))
  {
  }

  /** One step of the client loop: this page followed by everything after its next cursor is everything after this cursor. */
  lemma DrainStep(listing: seq<Article>, perPage: nat, cursor: Option<Position>, viewer: Option<UserId>, favs: seq<Favorite>)
    requires Sorted(listing) && perPage >= 1
    requires CursorPaginate(listing, perPage, cursor).hasMore
    ensures var p := CursorPaginate(listing, perPage, cursor);
      && |After(listing, p.nextCursor)| < |After(listing, cursor)|
      && AnnotateAll(After(listing, cursor), viewer, favs)
         == AnnotateAll(p.items, viewer, favs) + AnnotateAll(After(listing, p.nextCursor), viewer, favs)
  {
    var p := CursorPaginate(listing, perPage, cursor);
    var rest := After(listing, cursor);
    PageAdvance(listing, perPage, cursor);
    assert rest == p.items + rest[perPage..];
    AnnotateAllAppend(p.items, rest[perPage..], viewer, favs);
  }

  /** The stored rows behind a sequence of annotated rows. */
  function ArticlesOf(r: seq<AnnotatedArticle>): (s: seq<Article>)
    ensures |s| == |r| && forall i :: 0 <= i < |r| ==> s[i] == r[i].article
  {
    seq(|r|, i requires 0 <= i < |r| => r[i].article)
  }

  /**
   * Paging from the start delivers every article that passes the filter exactly
   * once, in listing order, and nothing else.
   */
  lemma EveryArticleExactlyOnce(store: seq<Article>, favs: seq<Favorite>, f: Filter, viewer: Option<UserId>,
                                perPage: nat)
    requires DistinctIds(store) && perPage >= 1
    ensures var delivered := ArticlesOf(DrainPages(store, favs, f, viewer, perPage, None));
      && (forall a :: a in delivered <==> a in store && Matches(f, a, favs))
      && Sorted(delivered)
      && (forall i, j :: 0 <= i < j < |delivered| ==> delivered[i] != delivered[j])
  {
    var listing := ListingOf(store, f, favs);
    var delivered := ArticlesOf(DrainPages(store, favs, f, viewer, perPage, None));
    AfterKeepsEverything(listing);
    assert delivered == listing;
    ListingSound(store, f, favs);
    SortedNoRepeats(listing);
  }

  lemma {:induction false} AfterKeepsEverything(s: seq<Article>)
    ensures After(s, None) == s
  {
    if s != [] {
      AfterKeepsEverything(s[1..]);
    }
  }

  /**
   * An article created between two requests is never a duplicate: the next
   * page after the cursor holds none of the rows already delivered, still holds
   * every older row not yet delivered, and holds the new row exactly when it
   * sorts after the cursor position.
   */
  lemma InsertBetweenPages(store: seq<Article>, x: Article, favs: seq<Favorite>, f: Filter,
                           viewer: Option<UserId>, perPage: nat, cursor: Option<Position>)
    requires DistinctIds(store) && perPage >= 1
    requires forall a :: a in store ==> a.id != x.id
    requires Paginate(store, favs, f, viewer, perPage, cursor).meta.hasMore
    ensures DistinctIds(store + [x])
    ensures var first := ArticlesOf(Paginate(store, favs, f, viewer, perPage, cursor).data);
      var next := Paginate(store, favs, f, viewer, perPage, cursor).meta.nextCursor;
      var later := ArticlesOf(DrainPages(store + [x], favs, f, viewer, perPage, next));
      && (forall a :: a in first ==> a !in later)
      && (forall a :: a in After(ListingOf(store, f, favs), cursor)[perPage..] ==> a in later)
      && (Matches(f, x, favs) ==> (x in later <==> Precedes(next.value, Key(x))))
  {
    var store' := store + [x];
    DistinctAppend(store, x);
    var listing := ListingOf(store, f, favs);
    var listing' := ListingOf(store', f, favs);
    var page := Paginate(store, favs, f, viewer, perPage, cursor);
    var p := CursorPaginate(listing, perPage, cursor);
    PageData(store, favs, f, viewer, perPage, cursor);
    var next := page.meta.nextCursor;
    var later := ArticlesOf(DrainPages(store', favs, f, viewer, perPage, next));
    assert later == After(listing', next);
    assert ArticlesOf(page.data) == p.items;
    ListingSound(store, f, favs);
    ListingContents(store', f, favs);
    NoRedeliveryAfterWrites(listing, perPage, cursor, listing');
    PageAdvance(listing, perPage, cursor);
    forall a | a in After(listing, cursor)[perPage..] ensures a in later {
      assert a in After(listing, next);
      assert a in listing;
    }
  }

  lemma DistinctAppend(store: seq<Article>, x: Article)
    requires DistinctIds(store)
    requires forall a :: a in store ==> a.id != x.id
    ensures DistinctIds(store + [x])
  {
    var store' := store + [x];
    forall i, j | 0 <= i < j < |store'| ensures store'[i].id != store'[j].id {
      if j == |store| {
        assert store'[i] == store[i] && store[i] in store;
      } else {
        assert store'[i] == store[i] && store'[j] == store[j];
      }
    }
  }

  /**
   * A tie-break scenario: A (t=100, id 5), B (t=100, id 3), C (t=90, id 9) and
   * two rows per page give [A, B] with more to come and a next cursor at B's
   * position (100, 3), and then [C] with nothing more.
   */
  lemma TieBreakExample(a: Article, b: Article, c: Article)
    requires a.createdAt == 100 && a.id == 5
    requires b.createdAt == 100 && b.id == 3
    requires c.createdAt == 90 && c.id == 9
    ensures var listing := ListingOf([c, b, a], Everything, []);
      var first := CursorPaginate(listing, 2, None);
      var second := CursorPaginate(listing, 2, first.nextCursor);
      && first.items == [a, b] && first.hasMore && first.nextCursor == Some(Position(100, 3))
      && second.items == [c] && !second.hasMore && second.nextCursor.None?
  {
    ExampleListing(a, b, c);
    var listing := [a, b, c];
    AfterKeepsEverything(listing);
    ExampleSecondCut(a, b, c);
    var first := CursorPaginate(listing, 2, None);
    assert listing[..2] == [a, b];
    assert first.items == [a, b];
    assert Key(b) == Position(100, 3);
    var second := CursorPaginate(listing, 2, Some(Position(100, 3)));
    assert second.items == [c];
  }

  lemma ExampleListing(a: Article, b: Article, c: Article)
    requires a.createdAt == 100 && a.id == 5
    requires b.createdAt == 100 && b.id == 3
    requires c.createdAt == 90 && c.id == 9
    ensures ListingOf([c, b, a], Everything, []) == [a, b, c]
  {
    SelectEverything([c, b, a], []);
    ExampleSort(a, b, c);
  }

  lemma ExampleSort(a: Article, b: Article, c: Article)
    requires a.createdAt == 100 && a.id == 5
    requires b.createdAt == 100 && b.id == 3
    requires c.createdAt == 90 && c.id == 9
    ensures SortByKey([c, b, a]) == [a, b, c]
  {
    assert [a][1..] == [] && [b][1..] == [];
    assert SortByKey([a]) == [a];
    assert Insert(b, [a]) == [a, b];
    assert [b, a][1..] == [a];
    assert SortByKey([b, a]) == [a, b];
    assert [a, b][1..] == [b];
    assert Insert(c, [b]) == [b, c];
    assert Insert(c, [a, b]) == [a, b, c];
    assert [c, b, a][1..] == [b, a];
  }

  /** Without a filter nothing is excluded, and the rows keep their order. */
  lemma {:induction false} SelectEverything(store: seq<Article>, favs: seq<Favorite>)
    ensures Select(store, Everything, favs) == store
  {
    if store != [] {
      SelectEverything(store[1..], favs);
    }
  }

  lemma ExampleSecondCut(a: Article, b: Article, c: Article)
    requires a.createdAt == 100 && a.id == 5
    requires b.createdAt == 100 && b.id == 3
    requires c.createdAt == 90 && c.id == 9
    ensures After([a, b, c], Some(Position(100, 3))) == [c]
  {
    assert [a, b, c][1..] == [b, c] && [b, c][1..] == [c];
    assert After([c], Some(Position(100, 3))) == [c];
  }
}
