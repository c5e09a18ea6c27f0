/** What the store does for `findMany`: a `where` filter that keeps storage order,
    and `orderBy: { createdAt: 'desc' }`. */
module Ordering {
  import opened Store

  /** Newest first: creation times never increase along the sequence. */
  ghost predicate NewestFirst<R>(s: seq<Row<R>>) {
    forall i, j :: 0 <= i < j < |s| ==> s[i].createdAt >= s[j].createdAt
  }

  /** `r` is obtained from `s` by deleting elements, keeping the order of the rest. */
  ghost predicate IsSubsequence<T>(r: seq<T>, s: seq<T>)
    decreases |s|
  {
    || r == []
    || (&& s != []
        && ((r[0] == s[0] && IsSubsequence(r[1..], s[1..])) || IsSubsequence(r, s[1..])))
  }

  /** A row no older than the head of a newest-first sequence can go in front of it. */
  lemma ConsNewestFirst<R>(x: Row<R>, s: seq<Row<R>>)
    requires NewestFirst(s)
    requires s == [] || x.createdAt >= s[0].createdAt
    ensures NewestFirst([x] + s)
  {
    var r := [x] + s;
    forall i, j | 0 <= i < j < |r| ensures r[i].createdAt >= r[j].createdAt {
      assert r[j] == s[j - 1];
      if i > 0 {
        assert r[i] == s[i - 1];
      }
    }
  }

  /** Places `x` in a newest-first sequence before every row that is not newer than it. */
  function InsertNewestFirst<R>(x: Row<R>, s: seq<Row<R>>): (r: seq<Row<R>>)
    requires NewestFirst(s)
    ensures NewestFirst(r)
    ensures multiset(r) == multiset(s) + multiset{x}
  {
    if s == [] || x.createdAt >= s[0].createdAt then
      ConsNewestFirst(x, s);
      [x] + s
    else
      var rest := InsertNewestFirst(x, s[1..]);
      assert s == [s[0]] + s[1..];
      assert rest != [] && rest[0] in multiset(rest);
      assert rest[0] == x || rest[0] in s[1..];
      ConsNewestFirst(s[0], rest);
      [s[0]] + rest
  }

  /** `orderBy: { createdAt: 'desc' }`: the same rows, newest first.
      Rows created at the same instant may come in any order. */
  function SortNewestFirst<R>(s: seq<Row<R>>): (r: seq<Row<R>>)
    ensures NewestFirst(r)
    ensures multiset(r) == multiset(s)
  {
    if s == [] then []
    else
      assert s == [s[0]] + s[1..];
      InsertNewestFirst(s[0], SortNewestFirst(s[1..]))
  }

  /** What `Filter` promises, for a result `r` of an input `s`. */
  ghost predicate FilterOf<T>(r: seq<T>, s: seq<T>, p: T -> bool) {
    && (forall i :: 0 <= i < |r| ==> r[i] in s && p(r[i]))
    && (forall i :: 0 <= i < |s| && p(s[i]) ==> s[i] in r)
    && IsSubsequence(r, s)
    && multiset(r) <= multiset(s)
    && (forall i :: 0 <= i < |s| && p(s[i]) ==> multiset(r)[s[i]] == multiset(s)[s[i]])
  }

  /** A step of `Filter` that keeps the head. */
  lemma FilterKeepsHead<T>(s: seq<T>, rest: seq<T>, p: T -> bool)
    requires s != [] && p(s[0]) && FilterOf(rest, s[1..], p)
    ensures FilterOf([s[0]] + rest, s, p)
  {
    var r := [s[0]] + rest;
    assert s == [s[0]] + s[1..];
    assert r[1..] == rest;
    assert multiset(s) == multiset{s[0]} + multiset(s[1..]);
    assert multiset(r) == multiset{s[0]} + multiset(rest);
    if s[0] in s[1..] {
      var m :| 0 <= m < |s[1..]| && s[1..][m] == s[0];
    }
    forall i | 0 <= i < |r| ensures r[i] in s && p(r[i]) {
      if i > 0 {
        assert r[i] == rest[i - 1];
      }
    }
    forall i | 0 <= i < |s| && p(s[i]) ensures s[i] in r && multiset(r)[s[i]] == multiset(s)[s[i]] {
      if i > 0 {
        assert s[i] == s[1..][i - 1];
      }
    }
  }

  /** A step of `Filter` that drops the head. */
  lemma FilterDropsHead<T>(s: seq<T>, rest: seq<T>, p: T -> bool)
    requires s != [] && !p(s[0]) && FilterOf(rest, s[1..], p)
    ensures FilterOf(rest, s, p)
  {
    assert s == [s[0]] + s[1..];
    assert multiset(s) == multiset{s[0]} + multiset(s[1..]);
    forall i | 0 <= i < |s| && p(s[i]) ensures s[i] in rest && multiset(rest)[s[i]] == multiset(s)[s[i]] {
      assert i > 0 && s[i] == s[1..][i - 1];
    }
  }

  /** `where` / `Array.prototype.filter`: the elements satisfying `p`, in their original
      order, each as often as in `s`. */
  function Filter<T>(s: seq<T>, p: T -> bool): (r: seq<T>)
    ensures forall i :: 0 <= i < |r| ==> r[i] in s && p(r[i])
    ensures forall i :: 0 <= i < |s| && p(s[i]) ==> s[i] in r
    ensures IsSubsequence(r, s)
    ensures multiset(r) <= multiset(s)
    ensures forall i :: 0 <= i < |s| && p(s[i]) ==> multiset(r)[s[i]] == multiset(s)[s[i]]
  {
    if s == [] then []
    else
      var rest := Filter(s[1..], p);
      if p(s[0]) then
        FilterKeepsHead(s, rest, p);
        [s[0]] + rest
      else
        FilterDropsHead(s, rest, p);
        rest
  }

  /** `findMany` with both a `where` and `orderBy: { createdAt: 'desc' }`: exactly the
      passing rows, newest first. */
  lemma SortedFilterMembers<R>(s: seq<Row<R>>, p: Row<R> -> bool)
    ensures forall i :: 0 <= i < |SortNewestFirst(Filter(s, p))| ==>
      SortNewestFirst(Filter(s, p))[i] in s && p(SortNewestFirst(Filter(s, p))[i])
    ensures forall i :: 0 <= i < |s| && p(s[i]) ==> s[i] in SortNewestFirst(Filter(s, p))
  {
    var f := Filter(s, p);
    var r := SortNewestFirst(f);
    forall i | 0 <= i < |r| ensures r[i] in s && p(r[i]) {
      assert r[i] in multiset(f);
    }
    forall i | 0 <= i < |s| && p(s[i]) ensures s[i] in r {
      assert s[i] in multiset(r);
    }
  }

  lemma {:induction false} SubsequenceMembers<T>(r: seq<T>, s: seq<T>)
    requires IsSubsequence(r, s)
    ensures forall i :: 0 <= i < |r| ==> r[i] in s
    decreases |s|
  {
    if r != [] {
      if r[0] == s[0] && IsSubsequence(r[1..], s[1..]) {
        SubsequenceMembers(r[1..], s[1..]);
        assert forall i :: 0 < i < |r| ==> r[i] == r[1..][i - 1];
      } else {
        SubsequenceMembers(r, s[1..]);
      }
    }
  }

  /** Deleting rows from a newest-first sequence leaves it newest first. */
  lemma {:induction false} SubsequenceKeepsNewestFirst<R>(r: seq<Row<R>>, s: seq<Row<R>>)
    requires IsSubsequence(r, s) && NewestFirst(s)
    ensures NewestFirst(r)
    decreases |s|
  {
    if r != [] {
      if r[0] == s[0] && IsSubsequence(r[1..], s[1..]) {
        SubsequenceKeepsNewestFirst(r[1..], s[1..]);
        SubsequenceMembers(r[1..], s[1..]);
        forall j | 0 < j < |r| ensures r[0].createdAt >= r[j].createdAt {
          assert r[j] == r[1..][j - 1];
          assert r[j] in s[1..];
          var m :| 0 <= m < |s[1..]| && s[1..][m] == r[j];
          assert s[m + 1] == r[j];
        }
      } else {
        SubsequenceKeepsNewestFirst(r, s[1..]);
      }
    }
  }
}
