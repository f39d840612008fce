/** The persisted records of the article store and the error responses of the API. */
module Store {
  import opened Wrappers

  type UserId = int
  type ArticleId = int

  /** A row of the `articles` table; `createdAt` is the `created_at` timestamp as an integer. */
  datatype Article = Article(
    id: ArticleId,
    userId: UserId,
    slug: string,
    title: string,
    description: string,
    body: string,
    createdAt: int)

  /** A position in the listing order: the pair of ordering columns (created_at, id). */
  datatype Position = Position(createdAt: int, id: ArticleId)

  /** The ordering key of an article, which is also what a cursor records. */
  function Key(a: Article): (p: Position) {
    Position(a.createdAt, a.id)
  }

  /** The error responses the controllers produce. */
  datatype ApiError =
    | Unprocessable  // a validator rejected the query parameters
    | NotFound       // a looked-up record does not exist
    | Forbidden      // an action on an article attempted by someone other than its author
    | ServerError    // an exception escaped the controller (e.g. a method called on null)

  /** The primary key is unique: no two rows of the table share an id. */
  ghost predicate DistinctIds(s: seq<Article>) {
    forall i, j :: 0 <= i < j < |s| ==> s[i].id != s[j].id
  }

  /** `Articles::where('slug', $slug)->first()`: the first row with that slug, or null. */
  function FindBySlug(s: seq<Article>, slug: string): (r: Option<Article>)
    ensures r.None? <==> forall a :: a in s ==> a.slug != slug
    ensures r.Some? ==> r.value in s && r.value.slug == slug
  {
    if s == [] then None
    else if s[0].slug == slug then Some(s[0])
    else FindBySlug(s[1..], slug)
  }

  /** The table after `$article->delete()`: every row with that primary key is gone, the rest keep their order. */
  function RemoveId(s: seq<Article>, id: ArticleId): (r: seq<Article>)
    ensures forall a :: a in r <==> a in s && a.id != id
    ensures DistinctIds(s) ==> DistinctIds(r)
  {
    if s == [] then []
    else if s[0].id == id then RemoveId(s[1..], id)
    else [s[0]] + RemoveId(s[1..], id)
  }
}
