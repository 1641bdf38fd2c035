/**
 * `ORDER BY created_at DESC`, the order of every listing in backend/blog/repositories.py,
 * as a stable insertion sort on stamps.
 */
module Ordering {
  import opened Models

  /** Newest first: stamps never increase along the sequence. */
  predicate NewestFirst(s: seq<Post>)
  {
    forall i, j :: 0 <= i < j < |s| ==> s[i].createdAt >= s[j].createdAt
  }

  /** Puts `p` in front of the first row that is not newer than it. */
  function InsertByStamp(p: Post, s: seq<Post>): (r: seq<Post>)
    requires NewestFirst(s)
    ensures NewestFirst(r)
    ensures multiset(r) == multiset(s) + multiset{p}
  {
    if s == [] then [p]
    else if p.createdAt >= s[0].createdAt then [p] + s
    else
      var tail := InsertByStamp(p, s[1..]);
      assert s == [s[0]] + s[1..];
      ConsNewestFirst(s[0], tail, s[1..], p);
      [s[0]] + tail
  }

  /** Prepending a row at least as new as every row of `tail` keeps the order. */
  lemma ConsNewestFirst(h: Post, tail: seq<Post>, rest: seq<Post>, p: Post)
    requires NewestFirst(tail)
    requires multiset(tail) == multiset(rest) + multiset{p}
    requires forall x :: x in rest ==> h.createdAt >= x.createdAt
    requires h.createdAt >= p.createdAt
    ensures NewestFirst([h] + tail)
  {
    var r := [h] + tail;
    forall i, j | 0 <= i < j < |r| ensures r[i].createdAt >= r[j].createdAt {
      if i == 0 {
        var x := tail[j - 1];
        assert x in multiset(tail);
        assert x in multiset(rest) || x == p;
      }
    }
  }

  /** The rows of `s`, newest first: a permutation of `s` whose stamps never increase. */
  function SortNewestFirst(s: seq<Post>): (r: seq<Post>)
    ensures NewestFirst(r)
    ensures multiset(r) == multiset(s)
    ensures |r| == |s|
  {
    if s == [] then []
    else
      assert s == [s[0]] + s[1..];
      InsertByStamp(s[0], SortNewestFirst(s[1..]))
  }

  /** Sorting keeps exactly the rows it was given. */
  lemma SortKeepsRows(s: seq<Post>, x: Post)
    ensures x in SortNewestFirst(s) <==> x in s
  {
    assert x in SortNewestFirst(s) <==> x in multiset(SortNewestFirst(s));
    assert x in s <==> x in multiset(s);
  }

  /**
   * A row newer than every row already there comes first in the sorted order, and the
   * other rows keep the order they had without it.
   */
  lemma {:induction false} SortAppendNewest(s: seq<Post>, p: Post)
    requires forall x :: x in s ==> x.createdAt < p.createdAt
    ensures SortNewestFirst(s + [p]) == [p] + SortNewestFirst(s)
  {
    if s == [] {
      assert s + [p] == [p];
    } else {
      var t := s + [p];
      assert t[0] == s[0] && t[1..] == s[1..] + [p];
      assert forall x :: x in s[1..] ==> x in s;
      SortAppendNewest(s[1..], p);
      var rest := SortNewestFirst(s[1..]);
      var l := [p] + rest;
      assert NewestFirst(l) by {
        forall i, j | 0 <= i < j < |l| ensures l[i].createdAt >= l[j].createdAt {
          if i == 0 {
            SortKeepsRows(s[1..], l[j]);
            assert l[j] in rest;
          }
        }
      }
      assert l[0] == p && l[1..] == rest;
      assert InsertByStamp(s[0], l) == [p] + InsertByStamp(s[0], rest);
    }
  }
}
