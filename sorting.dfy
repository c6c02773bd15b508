/** Filtering a result set (`WHERE`) and ordering it by an integer key (`ORDER BY`). */
module Sorting {

  ghost predicate SortedBy<T>(s: seq<T>, key: T -> int) {
    forall i, j :: 0 <= i < j < |s| ==> key(s[i]) <= key(s[j])
  }

  /** Places `x` before the first element whose key is not smaller. */
  function Insert<T>(x: T, s: seq<T>, key: T -> int): (r: seq<T>)
    ensures multiset(r) == multiset(s) + multiset{x}
  {
    if s == [] || key(x) <= key(s[0]) then [x] + s
    else
      assert s == [s[0]] + s[1..];
      [s[0]] + Insert(x, s[1..], key)
  }

  /** Inserting into a sorted sequence keeps it sorted. */
  lemma {:induction false} InsertSorted<T>(x: T, s: seq<T>, key: T -> int)
    requires SortedBy(s, key)
    ensures SortedBy(Insert(x, s, key), key)
  {
    if s != [] && key(x) > key(s[0]) {
      var rest := Insert(x, s[1..], key);
      InsertSorted(x, s[1..], key);
      forall j | 0 <= j < |rest| ensures key(s[0]) <= key(rest[j]) {
        assert rest[j] in multiset(rest);
        if rest[j] != x {
          assert rest[j] in multiset(s[1..]);
          var m :| 0 <= m < |s[1..]| && s[1..][m] == rest[j];
          assert s[m + 1] == rest[j];
        }
      }
    }
  }

  /** Insertion sort: the same elements, in ascending key order. */
  function SortBy<T>(s: seq<T>, key: T -> int): (r: seq<T>)
    ensures SortedBy(r, key)
    ensures multiset(r) == multiset(s)
  {
    if s == [] then []
    else
      assert s == [s[0]] + s[1..];
      var sorted := SortBy(s[1..], key);
      InsertSorted(s[0], sorted, key);
      Insert(s[0], sorted, key)
  }

  ghost predicate StrictlyIncreasing<T>(s: seq<T>, key: T -> int) {
    forall i, j :: 0 <= i < j < |s| ==> key(s[i]) < key(s[j])
  }

  /** The rows satisfying `p`, in their original order. */
  function Filter<T(!new)>(s: seq<T>, p: T -> bool): (r: seq<T>)
    ensures |r| <= |s|
    ensures forall x :: x in r <==> x in s && p(x)
    ensures forall x :: multiset(r)[x] == if p(x) then multiset(s)[x] else 0
  {
    if s == [] then []
    else
      assert s == [s[0]] + s[1..];
      (if p(s[0]) then [s[0]] else []) + Filter(s[1..], p)
  }

  /** Filtering keeps rows in table order, so a strictly increasing key stays strictly increasing. */
  lemma {:induction false} FilterKeepsOrder<T(!new)>(s: seq<T>, p: T -> bool, key: T -> int)
    ensures StrictlyIncreasing(s, key) ==> StrictlyIncreasing(Filter(s, p), key)
  {
    if s != [] && StrictlyIncreasing(s, key) {
      var tail := s[1..];
      TailAbove(s, key);
      FilterKeepsOrder(tail, p, key);
      FilterAbove(tail, p, key, key(s[0]));
      var rest := Filter(tail, p);
      if p(s[0]) {
        assert Filter(s, p) == [s[0]] + rest;
        PrependBelow(s[0], rest, key);
      } else {
        assert Filter(s, p) == rest;
      }
    }
  }

  lemma TailAbove<T>(s: seq<T>, key: T -> int)
    requires s != [] && StrictlyIncreasing(s, key)
    ensures StrictlyIncreasing(s[1..], key)
    ensures forall i :: 0 <= i < |s[1..]| ==> key(s[0]) < key(s[1..][i])
  {
    assert forall i :: 0 <= i < |s[1..]| ==> s[1..][i] == s[i + 1];
  }

  lemma PrependBelow<T>(x: T, rest: seq<T>, key: T -> int)
    requires StrictlyIncreasing(rest, key)
    requires forall y :: y in rest ==> key(x) < key(y)
    ensures StrictlyIncreasing([x] + rest, key)
  {
    var r := [x] + rest;
    forall i, j | 0 <= i < j < |r| ensures key(r[i]) < key(r[j]) {
      assert r[j] == rest[j - 1];
      if i > 0 { assert r[i] == rest[i - 1]; }
    }
  }

  /** Rows whose keys all exceed a bound still exceed it after filtering. */
  lemma FilterAbove<T(!new)>(t: seq<T>, p: T -> bool, key: T -> int, bound: int)
    requires forall i :: 0 <= i < |t| ==> bound < key(t[i])
    ensures forall y :: y in Filter(t, p) ==> bound < key(y)
  {
    forall y | y in Filter(t, p) ensures bound < key(y) {
      var m :| 0 <= m < |t| && t[m] == y;
    }
  }

  /** A row appended to the table is appended to the result when it qualifies. */
  lemma {:induction false} FilterAppend<T(!new)>(s: seq<T>, x: T, p: T -> bool)
    ensures Filter(s + [x], p) == Filter(s, p) + (if p(x) then [x] else [])
  {
    var last: seq<T> := if p(x) then [x] else [];
    if s == [] {
      assert s + [x] == [x] && [x][1..] == [];
      assert Filter([x], p) == last + Filter([], p);
    } else {
      var head: seq<T> := if p(s[0]) then [s[0]] else [];
      assert (s + [x])[0] == s[0] && (s + [x])[1..] == s[1..] + [x];
      assert Filter(s + [x], p) == head + Filter(s[1..] + [x], p);
      FilterAppend(s[1..], x, p);
      assert Filter(s, p) == head + Filter(s[1..], p);
      ConcatAssoc(head, Filter(s[1..], p), last);
    }
  }

  lemma ConcatAssoc<T>(a: seq<T>, b: seq<T>, c: seq<T>)
    ensures a + (b + c) == (a + b) + c
  {
  }

  /** Two conditions that agree on every row select the same rows. */
  lemma {:induction false} FilterAgreeing<T(!new)>(s: seq<T>, p: T -> bool, q: T -> bool)
    requires forall x :: x in s ==> p(x) == q(x)
    ensures Filter(s, p) == Filter(s, q)
  {
    if s != [] {
      assert s[0] in s;
      assert forall x :: x in s[1..] ==> x in s;
      FilterAgreeing(s[1..], p, q);
    }
  }

  /** Sequences holding the same multiset hold the same elements. */
  lemma SameElements<T>(a: seq<T>, b: seq<T>)
    requires multiset(a) == multiset(b)
    ensures forall x :: x in a <==> x in b
  {
    forall x ensures x in a <==> x in b {
      assert x in a <==> x in multiset(a);
      assert x in b <==> x in multiset(b);
    }
  }
}
