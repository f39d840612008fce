/**
 * The `article_user` pivot table (columns article_id, user_id) behind the
 * `favoritedByUsers` relation. It is kept as a sequence of rows because
 * `attach` inserts a row without looking for an existing one.
 */
module Favorites {
  import opened Store

  /** A pivot row: user `userId` has favourited article `articleId`. */
  datatype Favorite = Favorite(userId: UserId, articleId: ArticleId)

  /** Some row links the user to the article (`->where('user_id', ..)->where('article_id', ..)->first()` is non-null). */
  predicate HasFavorite(rows: seq<Favorite>, userId: UserId, articleId: ArticleId): (b: bool)
    ensures b <==> exists i :: 0 <= i < |rows| && rows[i].userId == userId && rows[i].articleId == articleId
  {
    Favorite(userId, articleId) in rows
  }

  /** `withCount('favoritedByUsers')`: the number of pivot rows of the article, whoever holds them. */
  function FavoriteCount(rows: seq<Favorite>, articleId: ArticleId): (n: nat)
    ensures n <= |rows|
    ensures n == 0 <==> forall e :: e in rows ==> e.articleId != articleId
  {
    if rows == [] then 0
    else (if rows[0].articleId == articleId then 1 else 0) + FavoriteCount(rows[1..], articleId)
  }

  /** The pivot table after `detach`: every row equal to `e` is deleted, the others stay in order. */
  function WithoutRow(rows: seq<Favorite>, e: Favorite): (r: seq<Favorite>)
    ensures forall x :: x in r <==> x in rows && x != e
    ensures multiset(r) == multiset(rows)[e := 0]
  {
    if rows == [] then []
    else
      assert rows == [rows[0]] + rows[1..];
      if rows[0] == e then WithoutRow(rows[1..], e)
      else [rows[0]] + WithoutRow(rows[1..], e)
  }

  /** Appending a row adds one to that article's count and leaves every other article's count as it was. */
  lemma {:induction false} CountAppend(rows: seq<Favorite>, e: Favorite, articleId: ArticleId)
    ensures FavoriteCount(rows + [e], articleId)
            == FavoriteCount(rows, articleId) + (if e.articleId == articleId then 1 else 0)
  {
    if rows != [] {
      assert (rows + [e])[1..] == rows[1..] + [e];
      CountAppend(rows[1..], e, articleId);
    }
  }

  /** Deleting a user's row for one article does not change any other article's count. */
  lemma {:induction false} CountWithoutOther(rows: seq<Favorite>, e: Favorite, articleId: ArticleId)
    requires e.articleId != articleId
    ensures FavoriteCount(WithoutRow(rows, e), articleId) == FavoriteCount(rows, articleId)
  {
    if rows != [] {
      CountWithoutOther(rows[1..], e, articleId);
    }
  }

  /**
   * Detaching a pair lowers its article's count by exactly the number of rows
   * the pair had, so never raises it and lowers it when the pair was there.
   */
  lemma {:induction false} CountWithoutSame(rows: seq<Favorite>, e: Favorite)
    ensures FavoriteCount(WithoutRow(rows, e), e.articleId) == FavoriteCount(rows, e.articleId) - multiset(rows)[e]
    ensures FavoriteCount(WithoutRow(rows, e), e.articleId) <= FavoriteCount(rows, e.articleId)
    ensures e in rows ==> FavoriteCount(WithoutRow(rows, e), e.articleId) < FavoriteCount(rows, e.articleId)
  {
    if rows != [] {
      assert rows == [rows[0]] + rows[1..];
      assert multiset(rows)[e] == multiset{rows[0]}[e] + multiset(rows[1..])[e];
      CountWithoutSame(rows[1..], e);
    }
  }

  /** Detaching a pair that was attached once to a table without it gives back the table as it was. */
  lemma {:induction false} DetachUndoesAttach(rows: seq<Favorite>, e: Favorite)
    requires e !in rows
    ensures WithoutRow(rows + [e], e) == rows
  {
    if rows == [] {
      assert [e][1..] == [];
    } else {
      assert (rows + [e])[1..] == rows[1..] + [e];
      DetachUndoesAttach(rows[1..], e);
    }
  }

  /**
   * `attach` is not idempotent: attaching the same pair twice leaves two rows,
   * so the article's count goes up by two (unless a unique index, which is not
   * part of this model, refuses the second insert).
   */
  lemma AttachTwiceCountsTwice(rows: seq<Favorite>, e: Favorite)
    ensures FavoriteCount(rows + [e] + [e], e.articleId) == FavoriteCount(rows, e.articleId) + 2
  {
    CountAppend(rows, e, e.articleId);
    CountAppend(rows + [e], e, e.articleId);
  }

  /** The pivot table, whose rows the favourite actions change in place. */
  class FavoriteTable {
    var rows: seq<Favorite>

    constructor ()
      ensures rows == []
    {
      rows := [];
    }

    /** `favoritedByUsers()->attach($userId)`: inserts one pivot row. */
    method Attach(userId: UserId, articleId: ArticleId)
      modifies this
      ensures rows == old(rows) + [Favorite(userId, articleId)]
      ensures HasFavorite(rows, userId, articleId)
      ensures forall u, a :: HasFavorite(old(rows), u, a) ==> HasFavorite(rows, u, a)
    {
      rows := rows + [Favorite(userId, articleId)];
    }

    /** `favoritedByUsers()->detach($userId)`: deletes the pair's rows and no other row. */
    method Detach(userId: UserId, articleId: ArticleId)
      modifies this
      ensures rows == WithoutRow(old(rows), Favorite(userId, articleId))
      ensures !HasFavorite(rows, userId, articleId)
      ensures forall u, a :: (u, a) != (userId, articleId) ==>
                (HasFavorite(rows, u, a) <==> HasFavorite(old(rows), u, a))
    {
      rows := WithoutRow(rows, Favorite(userId, articleId));
    }

    /** The `DB::table('article_user')->where(..)->where(..)->first()` existence query. */
    method Exists(userId: UserId, articleId: ArticleId) returns (b: bool)
      ensures b <==> exists i :: 0 <= i < |rows| && rows[i].userId == userId && rows[i].articleId == articleId
    {
      b := Favorite(userId, articleId) in rows;
      if b {
        var i :| 0 <= i < |rows| && rows[i] == Favorite(userId, articleId);
      }
    }
  }
}
