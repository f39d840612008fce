/**
 * The state-changing actions of the articles controller that the listings
 * depend on: deleting an article (author only) and favouriting,
 * unfavouriting and checking a favourite by slug.
 */
module Articles {
  import opened Wrappers
  import opened Store
  import opened Favorites
  import opened Listing

  /** The `articles` table, whose rows `destroy` deletes. */
  class ArticleTable {
    var rows: seq<Article>

    constructor (initial: seq<Article>)
      ensures rows == initial
    {
      rows := initial;
    }

    /**
     * `destroy`: only the article's author may delete it (403 otherwise). The
     * looked-up article is dereferenced without a null check, so an unknown
     * slug ends in a server error; neither error deletes anything.
     */
    method Destroy(slug: string, viewer: UserId) returns (r: Outcome<ApiError>)
      modifies this
      ensures FindBySlug(old(rows), slug).None? ==> r == Fail(ServerError) && rows == old(rows)
      ensures FindBySlug(old(rows), slug).Some? && FindBySlug(old(rows), slug).value.userId != viewer ==>
                r == Fail(Forbidden) && rows == old(rows)
      ensures FindBySlug(old(rows), slug).Some? && FindBySlug(old(rows), slug).value.userId == viewer ==>
                r == Pass && rows == RemoveId(old(rows), FindBySlug(old(rows), slug).value.id)
    {
      var found := FindBySlug(rows, slug);
      if found.None? {
        return Fail(ServerError);
      }
      if found.value.userId != viewer {
        return Fail(Forbidden);
      }
      rows := RemoveId(rows, found.value.id);
      r := Pass;
    }
  }

  /**
   * `favoriteArticle`: attaches the viewer to the article found by slug. An
   * unknown slug dereferences null (a server error) and attaches nothing.
   * `articles` is the current content of the `articles` table (the `rows` of
   * an `ArticleTable`), which this action only reads.
   */
  method FavoriteArticle(articles: seq<Article>, table: FavoriteTable, slug: string, viewer: UserId)
    returns (r: Result<Article, ApiError>)
    modifies table
    ensures FindBySlug(articles, slug).None? ==> r == Err(ServerError) && table.rows == old(table.rows)
    ensures FindBySlug(articles, slug).Some? ==>
              r == Ok(FindBySlug(articles, slug).value)
              && table.rows == old(table.rows) + [Favorite(viewer, r.value.id)]
  {
    var found := FindBySlug(articles, slug);
    if found.None? {
      return Err(ServerError);
    }
    table.Attach(viewer, found.value.id);
    r := Ok(found.value);
  }

  /**
   * `unfavoriteArticle`: detaches the viewer from the article found by slug. An
   * unknown slug dereferences null (a server error) and detaches nothing.
   * `articles` is the current content of the `articles` table, read only.
   */
  method UnfavoriteArticle(articles: seq<Article>, table: FavoriteTable, slug: string, viewer: UserId)
    returns (r: Outcome<ApiError>)
    modifies table
    ensures FindBySlug(articles, slug).None? ==> r == Fail(ServerError) && table.rows == old(table.rows)
    ensures FindBySlug(articles, slug).Some? ==>
              r == Pass && table.rows == WithoutRow(old(table.rows), Favorite(viewer, FindBySlug(articles, slug).value.id))
  {
    var found := FindBySlug(articles, slug);
    if found.None? {
      return Fail(ServerError);
    }
    table.Detach(viewer, found.value.id);
    r := Pass;
  }

  /**
   * `checkIsFavorite`: 404 for an unknown slug, otherwise whether the viewer's
   * pivot row for that article exists. `articles` is the current content of
   * the `articles` table, read only.
   */
  method CheckIsFavorite(articles: seq<Article>, table: FavoriteTable, slug: string, viewer: UserId)
    returns (r: Result<bool, ApiError>)
    ensures r.Err? <==> forall a :: a in articles ==> a.slug != slug
    ensures r.Err? ==> r.error == NotFound
    ensures r.Ok? ==> (r.value <==> HasFavorite(table.rows, viewer, FindBySlug(articles, slug).value.id))
  {
    var found := FindBySlug(articles, slug);
    if found.None? {
      return Err(NotFound);
    }
    var b := table.Exists(viewer, found.value.id);
    r := Ok(b);
  }

  /** After a delete, the article is in no listing, whatever the filter. */
  lemma DeletedArticleIsNotListed(store: seq<Article>, id: ArticleId, favs: seq<Favorite>, f: Filter)
    ensures forall a :: a in ListingOf(RemoveId(store, id), f, favs) ==> a.id != id
    ensures forall a :: a in store && a.id != id && Matches(f, a, favs) ==> a in ListingOf(RemoveId(store, id), f, favs)
  {
    ListingContents(RemoveId(store, id), f, favs);
  }

  /**
   * Favouriting raises the article's `favorited_by_users_count` by one and makes
   * the flag true for that viewer; no other article's count moves.
   */
  lemma FavoriteAnnotation(rows: seq<Favorite>, viewer: UserId, a: Article, other: Article)
    requires other.id != a.id
    ensures Annotate(a, Some(viewer), rows + [Favorite(viewer, a.id)]).isFavoritedByAuthUser
    ensures Annotate(a, Some(viewer), rows + [Favorite(viewer, a.id)]).favoritedByUsersCount
            == FavoriteCount(rows, a.id) + 1
    ensures Annotate(other, Some(viewer), rows + [Favorite(viewer, a.id)]).favoritedByUsersCount
            == FavoriteCount(rows, other.id)
  {
    CountAppend(rows, Favorite(viewer, a.id), a.id);
    CountAppend(rows, Favorite(viewer, a.id), other.id);
  }

  /**
   * Unfavouriting makes the flag false for that viewer, lowers the article's
   * count by the viewer's rows for it (by one after a single favourite), and
   * moves no other article's count.
   */
  lemma UnfavoriteAnnotation(rows: seq<Favorite>, viewer: UserId, a: Article, other: Article)
    requires other.id != a.id
    ensures !Annotate(a, Some(viewer), WithoutRow(rows, Favorite(viewer, a.id))).isFavoritedByAuthUser
    ensures Annotate(a, Some(viewer), WithoutRow(rows, Favorite(viewer, a.id))).favoritedByUsersCount
            == FavoriteCount(rows, a.id) - multiset(rows)[Favorite(viewer, a.id)]
    ensures multiset(rows)[Favorite(viewer, a.id)] == 1 ==>
              Annotate(a, Some(viewer), WithoutRow(rows, Favorite(viewer, a.id))).favoritedByUsersCount
              == FavoriteCount(rows, a.id) - 1
    ensures Annotate(other, Some(viewer), WithoutRow(rows, Favorite(viewer, a.id))).favoritedByUsersCount
            == FavoriteCount(rows, other.id)
  {
    CountWithoutSame(rows, Favorite(viewer, a.id));
    CountWithoutOther(rows, Favorite(viewer, a.id), other.id);
  }
}
