/**
 * Keyset (cursor) pagination over a listing that is already in listing order:
 * keep the rows strictly after the cursor position, fetch one row more than a
 * page, and use the extra row only to decide whether another page exists.
 */
module Paging {
  import opened Wrappers
  import opened Store
  import opened Ordering

  /** The rows strictly after the cursor position (`(created_at, id) < cursor` in DESC order); all rows without a cursor. */
  function After(s: seq<Article>, cursor: Option<Position>): (r: seq<Article>)
    ensures forall a :: a in r <==> a in s && (cursor.None? || Precedes(cursor.value, Key(a)))
    ensures |r| <= |s|
  {
    if s == [] then []
    else if cursor.None? || Precedes(cursor.value, Key(s[0])) then [s[0]] + After(s[1..], cursor)
    else After(s[1..], cursor)
  }

  /** One page of rows and the paginator's metadata. */
  datatype Page = Page(
    items: seq<Article>,
    perPage: nat,
    hasMore: bool,
    nextCursor: Option<Position>,
    prevCursor: Option<Position>)

  /**
   * `cursorPaginate($perPage)`: fetch perPage + 1 rows after the cursor, keep
   * perPage of them; the next cursor is the position of the last row kept, the
   * previous cursor the position of the first row (only when a cursor was given).
   */
  function CursorPaginate(s: seq<Article>, perPage: nat, cursor: Option<Position>): (p: Page)
    requires perPage >= 1
    ensures p.perPage == perPage
    ensures |p.items| <= perPage
    ensures |p.items| == (if |After(s, cursor)| < perPage then |After(s, cursor)| else perPage)
    ensures p.items == After(s, cursor)[..|p.items|]
    ensures p.hasMore <==> |After(s, cursor)| > perPage
    ensures p.nextCursor.None? <==> !p.hasMore
    ensures p.hasMore ==> p.nextCursor == Some(Key(p.items[perPage - 1]))
    ensures cursor.None? ==> p.prevCursor.None?
    ensures p.prevCursor.Some? ==> p.items != [] && p.prevCursor == Some(Key(p.items[0]))
    ensures cursor.Some? && p.items != [] ==> p.prevCursor == Some(Key(p.items[0]))
  {
    var rest := After(s, cursor);
    var fetched := if |rest| <= perPage + 1 then rest else rest[..perPage + 1];
    var hasMore := |fetched| > perPage;
    var items := if hasMore then fetched[..perPage] else fetched;
    Page(
      items,
      perPage,
      hasMore,
      if hasMore then Some(Key(items[|items| - 1])) else None,
      if cursor.Some? && items != [] then Some(Key(items[0])) else None)
  }

  lemma {:induction false} AfterSorted(s: seq<Article>, cursor: Option<Position>)
    requires Sorted(s)
    ensures Sorted(After(s, cursor))
  {
    if s != [] {
      SortedTail(s);
      AfterSorted(s[1..], cursor);
      if cursor.None? || Precedes(cursor.value, Key(s[0])) {
        SortedCons(s[0], After(s[1..], cursor));
      }
    }
  }

  /** When every row is after the cursor, nothing is cut. */
  lemma {:induction false} AfterKeepsAll(s: seq<Article>, k: Position)
    requires forall a :: a in s ==> Precedes(k, Key(a))
    ensures After(s, Some(k)) == s
  {
    if s != [] {
      assert s[0] in s;
      assert forall a :: a in s[1..] ==> a in s;
      AfterKeepsAll(s[1..], k);
    }
  }

  /** In a sorted listing, the rows after the position of row i are exactly the rows behind it. */
  lemma {:induction false} AfterAt(s: seq<Article>, i: nat)
    requires Sorted(s) && i < |s|
    ensures After(s, Some(Key(s[i]))) == s[i + 1..]
  {
    SortedTail(s);
    if i == 0 {
      AfterKeepsAll(s[1..], Key(s[0]));
    } else {
      assert !Precedes(Key(s[i]), Key(s[0])) by {
        assert Precedes(Key(s[0]), Key(s[i]));
      }
      assert s[1..][i - 1] == s[i];
      AfterAt(s[1..], i - 1);
      assert s[1..][i..] == s[i + 1..];
    }
  }

  /** Cutting after an earlier position and then after a later one is the same as cutting after the later one. */
  lemma {:induction false} AfterAfter(s: seq<Article>, cursor: Option<Position>, k: Position)
    requires cursor.None? || Precedes(cursor.value, k)
    ensures After(After(s, cursor), Some(k)) == After(s, Some(k))
  {
    if s != [] {
      AfterAfter(s[1..], cursor, k);
      if Precedes(k, Key(s[0])) && cursor.Some? {
        PrecedesIsStrictTotalOrder(cursor.value, k, Key(s[0]));
      }
    }
  }

  /**
   * Following the next cursor of a page gives exactly the rows that came after
   * that page: none is delivered twice and none is skipped.
   */
  lemma PageAdvance(s: seq<Article>, perPage: nat, cursor: Option<Position>)
    requires Sorted(s) && perPage >= 1
    requires CursorPaginate(s, perPage, cursor).hasMore
    ensures After(s, CursorPaginate(s, perPage, cursor).nextCursor) == After(s, cursor)[perPage..]
  {
    var rest := After(s, cursor);
    var p := CursorPaginate(s, perPage, cursor);
    var k := Key(rest[perPage - 1]);
    assert p.nextCursor == Some(k);
    assert rest[perPage - 1] in rest;
    AfterSorted(s, cursor);
    AfterAfter(s, cursor, k);
    AfterAt(rest, perPage - 1);
  }

  /**
   * Writes between two requests do not make a delivered row come back: whatever
   * the listing has become, the page after the next cursor holds none of the
   * rows just delivered, and holds every row of the new listing that sorts after
   * the cursor (so a row inserted there is delivered, one inserted before it is not).
   */
  lemma {:induction false} NoRedeliveryAfterWrites(s: seq<Article>, perPage: nat, cursor: Option<Position>, s': seq<Article>)
    requires Sorted(s) && perPage >= 1
    requires CursorPaginate(s, perPage, cursor).hasMore
    ensures var p := CursorPaginate(s, perPage, cursor);
      && (forall a :: a in p.items ==> a !in After(s', p.nextCursor))
      && (forall a :: a in s' && Precedes(p.nextCursor.value, Key(a)) ==> a in After(s', p.nextCursor))
  {
    var p := CursorPaginate(s, perPage, cursor);
    var rest := After(s, cursor);
    AfterSorted(s, cursor);
    forall a | a in p.items ensures a !in After(s', p.nextCursor) {
      var i :| 0 <= i < |p.items| && p.items[i] == a;
      assert a == rest[i];
      if i < perPage - 1 {
        assert Precedes(Key(rest[i]), Key(rest[perPage - 1]));
        PrecedesIsStrictTotalOrder(Key(rest[i]), Key(rest[perPage - 1]), Key(a));
      }
    }
  }
}
