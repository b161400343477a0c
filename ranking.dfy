/** Ordering the rows a selection query returns: a stable insertion sort by a
    "ranks at least as high as" relation, plus the LIMIT that follows it. */
module Ranking {

  /** Any two rows can be compared. */
  ghost predicate Total<T(!new)>(ge: (T, T) -> bool)
  {
    forall a, b :: ge(a, b) || ge(b, a)
  }

  ghost predicate Transitive<T(!new)>(ge: (T, T) -> bool)
  {
    forall a, b, c :: ge(a, b) && ge(b, c) ==> ge(a, c)
  }

  /** Every row ranks at least as high as every row after it. */
  ghost predicate Ranked<T>(s: seq<T>, ge: (T, T) -> bool)
  {
    forall i, j :: 0 <= i < j < |s| ==> ge(s[i], s[j])
  }

  /** Puts `x` before the first row it ranks at least as high as. */
  function Insert<T(==)>(x: T, s: seq<T>, ge: (T, T) -> bool): (r: seq<T>)
    ensures multiset(r) == multiset(s) + multiset{x}
  {
    if s == [] || ge(x, s[0]) then [x] + s
    else
      assert s == [s[0]] + s[1..];
      [s[0]] + Insert(x, s[1..], ge)
  }

  /** The rows, highest ranking first; rows that rank equally keep their order. */
  function Sort<T(==)>(s: seq<T>, ge: (T, T) -> bool): (r: seq<T>)
    ensures multiset(r) == multiset(s)
  {
    if s == [] then []
    else
      assert s == [s[0]] + s[1..];
      Insert(s[0], Sort(s[1..], ge), ge)
  }

  lemma {:induction false} InsertRanked<T(!new)>(x: T, s: seq<T>, ge: (T, T) -> bool)
    requires Total(ge) && Transitive(ge)
    requires Ranked(s, ge)
    ensures Ranked(Insert(x, s, ge), ge)
  {
    if s != [] && !ge(x, s[0]) {
      InsertRanked(x, s[1..], ge);
      var rest := Insert(x, s[1..], ge);
      assert ge(s[0], x);
      forall j | 0 <= j < |rest| ensures ge(s[0], rest[j]) {
        assert rest[j] in multiset(rest);
        assert rest[j] in multiset(s[1..]) + multiset{x};
        if rest[j] != x {
          assert rest[j] in multiset(s[1..]);
          var k :| 0 <= k < |s[1..]| && s[1..][k] == rest[j];
          assert s[k + 1] == rest[j];
        }
      }
    }
  }

  /** The sorted rows are a permutation of the input, ranked highest first. */
  lemma {:induction false} SortRanked<T(!new)>(s: seq<T>, ge: (T, T) -> bool)
    requires Total(ge) && Transitive(ge)
    ensures Ranked(Sort(s, ge), ge)
  {
    if s != [] {
      SortRanked(s[1..], ge);
      InsertRanked(s[0], Sort(s[1..], ge), ge);
    }
  }

  /** `LIMIT n`: the first `n` rows, or all of them when there are fewer. */
  function Limit<T>(s: seq<T>, n: nat): (r: seq<T>)
    ensures |r| == if |s| < n then |s| else n
    ensures forall i :: 0 <= i < |r| ==> r[i] == s[i]
  {
    if |s| <= n then s else s[..n]
  }

  /** The rows that satisfy the query's WHERE clause. */
  function Keep<T(==,!new)>(s: seq<T>, p: T -> bool): (r: seq<T>)
    ensures |r| <= |s|
    ensures forall x :: x in r <==> x in s && p(x)
    ensures forall x :: p(x) ==> multiset(r)[x] == multiset(s)[x]
    ensures forall x :: !p(x) ==> multiset(r)[x] == 0
  {
    if s == [] then []
    else
      assert s == [s[0]] + s[1..];
      (if p(s[0]) then [s[0]] else []) + Keep(s[1..], p)
  }
}
