/** The listing order `ORDER BY created_at DESC, id DESC` shared by every listing action. */
module Ordering {
  import opened Store

  /** `p` comes strictly before `q` in the listing: newer first, and the larger id first on equal timestamps. */
  predicate Precedes(p: Position, q: Position): (r: bool)
    ensures r ==> p != q
    ensures p.createdAt != q.createdAt ==> (r <==> p.createdAt > q.createdAt)
    ensures p.createdAt == q.createdAt ==> (r <==> p.id > q.id)
  {
    p.createdAt > q.createdAt || (p.createdAt == q.createdAt && p.id > q.id)
  }

  /** Precedes is a strict total order on positions. */
  lemma PrecedesIsStrictTotalOrder(p: Position, q: Position, r: Position)
    ensures !Precedes(p, p)
    ensures Precedes(p, q) ==> !Precedes(q, p)
    ensures Precedes(p, q) && Precedes(q, r) ==> Precedes(p, r)
    ensures p != q ==> Precedes(p, q) || Precedes(q, p)
  {
  }

  /** Strictly sorted in listing order: every earlier row precedes every later row, so no two rows compare equal. */
  ghost predicate Sorted(s: seq<Article>) {
    forall i, j :: 0 <= i < j < |s| ==> Precedes(Key(s[i]), Key(s[j]))
  }

  /** Inserts `x` in front of the first row it precedes. */
  function Insert(x: Article, s: seq<Article>): (r: seq<Article>)
    ensures multiset(r) == multiset(s) + multiset{x}
  {
    if s == [] then [x]
    else if Precedes(Key(x), Key(s[0])) then [x] + s
    else
      assert s == [s[0]] + s[1..];
      [s[0]] + Insert(x, s[1..])
  }

  /** The rows of `s` in listing order (the database's ORDER BY, written as an insertion sort). */
  function SortByKey(s: seq<Article>): (r: seq<Article>)
    ensures multiset(r) == multiset(s)
  {
    if s == [] then []
    else
      assert s == [s[0]] + s[1..];
      Insert(s[0], SortByKey(s[1..]))
  }

  lemma SortedCons(x: Article, s: seq<Article>)
    requires Sorted(s)
    requires forall y :: y in s ==> Precedes(Key(x), Key(y))
    ensures Sorted([x] + s)
  {
    var t := [x] + s;
    forall i, j | 0 <= i < j < |t| ensures Precedes(Key(t[i]), Key(t[j])) {
      if i > 0 {
        assert t[i] == s[i - 1] && t[j] == s[j - 1];
      } else {
        assert t[j] == s[j - 1];
      }
    }
  }

  lemma SortedTail(s: seq<Article>)
    requires Sorted(s) && |s| > 0
    ensures Sorted(s[1..])
    ensures forall y :: y in s[1..] ==> Precedes(Key(s[0]), Key(y))
  {
    forall y | y in s[1..] ensures Precedes(Key(s[0]), Key(y)) {
      var k :| 0 <= k < |s[1..]| && s[1..][k] == y;
      assert s[k + 1] == y;
    }
  }

  /** Inserting a row whose id differs from all others keeps a sorted sequence sorted. */
  lemma {:induction false} InsertSorted(x: Article, s: seq<Article>)
    requires Sorted(s)
    requires forall y :: y in s ==> y.id != x.id
    ensures Sorted(Insert(x, s))
  {
    if s == [] {
    } else if Precedes(Key(x), Key(s[0])) {
      SortedTail(s);
      SortedCons(x, s);
    } else {
      SortedTail(s);
      InsertSorted(x, s[1..]);
      var t := Insert(x, s[1..]);
      assert Precedes(Key(s[0]), Key(x));
      forall y | y in t ensures Precedes(Key(s[0]), Key(y)) {
        assert y in multiset(t);
      }
      SortedCons(s[0], t);
    }
  }

  /** With unique ids, the listing order is strict: sorting yields a strictly sorted permutation. */
  lemma {:induction false} SortByKeySorted(s: seq<Article>)
    requires DistinctIds(s)
    ensures Sorted(SortByKey(s))
    ensures multiset(SortByKey(s)) == multiset(s)
  {
    if s != [] {
      assert DistinctIds(s[1..]) by {
        forall i, j | 0 <= i < j < |s[1..]| ensures s[1..][i].id != s[1..][j].id {
          assert s[1..][i] == s[i + 1] && s[1..][j] == s[j + 1];
        }
      }
      SortByKeySorted(s[1..]);
      forall y | y in SortByKey(s[1..]) ensures y.id != s[0].id {
        assert y in multiset(SortByKey(s[1..]));
        var k :| 0 <= k < |s[1..]| && s[1..][k] == y;
        assert s[k + 1] == y;
      }
      InsertSorted(s[0], SortByKey(s[1..]));
    }
  }

  /** A strictly sorted sequence repeats no row: no two of its rows even share an ordering key. */
  lemma SortedNoRepeats(s: seq<Article>)
    requires Sorted(s)
    ensures forall i, j :: 0 <= i < j < |s| ==> Key(s[i]) != Key(s[j]) && s[i] != s[j]
  {
    forall i, j | 0 <= i < j < |s| ensures Key(s[i]) != Key(s[j]) {
      assert Precedes(Key(s[i]), Key(s[j]));
    }
  }
}
