/** Python's `sorted`, for the three orders the tool sorts by. Each order is
    made strict and total on the values sorted (ties broken the way the
    source's sort leaves them), so the sorted sequence is unique. */
module Sorting {

  /** `lt` is a strict total order on the values of `u`. */
  ghost predicate StrictTotalOn<T>(u: seq<T>, lt: (T, T) -> bool)
  {
    && (forall x :: x in u ==> !lt(x, x))
    && (forall x, y :: x in u && y in u && x != y ==> lt(x, y) || lt(y, x))
    && (forall x, y, z :: x in u && y in u && z in u && lt(x, y) && lt(y, z) ==> lt(x, z))
  }

  /** Every earlier element is below every later one. */
  ghost predicate SortedBy<T>(s: seq<T>, lt: (T, T) -> bool)
  {
    forall p, q :: 0 <= p < q < |s| ==> lt(s[p], s[q])
  }

  function Insert<T>(x: T, s: seq<T>, lt: (T, T) -> bool, ghost u: seq<T>): (r: seq<T>)
    requires StrictTotalOn(u, lt)
    requires x in u && forall y :: y in s ==> y in u
    requires x !in s && SortedBy(s, lt)
    ensures multiset(r) == multiset(s) + multiset{x}
    ensures SortedBy(r, lt)
  {
    if s == [] then [x]
    else if lt(x, s[0]) then
      InsertFront(x, s, lt, u);
      [x] + s
    else
      TailSorted(x, s, lt, u);
      var rest := Insert(x, s[1..], lt, u);
      InsertBehind(x, s, rest, lt, u);
      [s[0]] + rest
  }

  /** The tail of a sorted sequence meets the requirements on `s`. */
  lemma TailSorted<T>(x: T, s: seq<T>, lt: (T, T) -> bool, u: seq<T>)
    requires forall y :: y in s ==> y in u
    requires s != [] && x !in s && SortedBy(s, lt)
    ensures forall y :: y in s[1..] ==> y in u
    ensures x !in s[1..] && SortedBy(s[1..], lt)
  {
    var t := s[1..];
    assert forall p :: 0 <= p < |t| ==> t[p] == s[p + 1];
  }

  lemma InsertFront<T>(x: T, s: seq<T>, lt: (T, T) -> bool, u: seq<T>)
    requires StrictTotalOn(u, lt)
    requires x in u && forall y :: y in s ==> y in u
    requires s != [] && lt(x, s[0]) && SortedBy(s, lt)
    ensures SortedBy([x] + s, lt)
  {
    var r := [x] + s;
    forall p, q | 0 <= p < q < |r| ensures lt(r[p], r[q]) {
      if p == 0 && q > 1 {
        assert s[0] in u && s[q - 1] in u;
        assert lt(s[0], s[q - 1]);
      }
    }
  }

  lemma InsertBehind<T>(x: T, s: seq<T>, rest: seq<T>, lt: (T, T) -> bool, u: seq<T>)
    requires StrictTotalOn(u, lt)
    requires x in u && forall y :: y in s ==> y in u
    requires s != [] && x !in s && !lt(x, s[0]) && SortedBy(s, lt)
    requires multiset(rest) == multiset(s[1..]) + multiset{x} && SortedBy(rest, lt)
    ensures SortedBy([s[0]] + rest, lt)
    ensures multiset([s[0]] + rest) == multiset(s) + multiset{x}
  {
    assert s == [s[0]] + s[1..];
    var r := [s[0]] + rest;
    assert s[0] in s;
    forall p, q | 0 <= p < q < |r| ensures lt(r[p], r[q]) {
      if p == 0 {
        var y := rest[q - 1];
        assert y in multiset(rest);
        if y == x {
          assert x != s[0];
        } else {
          assert y in multiset(s[1..]);
          var k :| 0 <= k < |s[1..]| && s[1..][k] == y;
          assert s[k + 1] == y;
        }
      }
    }
  }

  /** `sorted(s)` under the strict total order `lt`. */
  function SortBy<T>(s: seq<T>, lt: (T, T) -> bool, ghost u: seq<T>): (r: seq<T>)
    requires StrictTotalOn(u, lt)
    requires forall y :: y in s ==> y in u
    requires forall p, q :: 0 <= p < q < |s| ==> s[p] != s[q]
    ensures multiset(r) == multiset(s)
    ensures SortedBy(r, lt)
  {
    if s == [] then []
    else
      DistinctTail(s, u);
      var rest := SortBy(s[1..], lt, u);
      SortedTail(s, rest, u);
      Insert(s[0], rest, lt, u)
  }

  /** The tail of a sequence without repeats has none, and lacks the head. */
  lemma DistinctTail<T>(s: seq<T>, u: seq<T>)
    requires s != [] && forall y :: y in s ==> y in u
    requires forall p, q :: 0 <= p < q < |s| ==> s[p] != s[q]
    ensures s[0] in u && s[0] !in s[1..]
    ensures forall y :: y in s[1..] ==> y in u
    ensures forall p, q :: 0 <= p < q < |s[1..]| ==> s[1..][p] != s[1..][q]
  {
    var t := s[1..];
    assert forall p :: 0 <= p < |t| ==> t[p] == s[p + 1];
  }

  /** The sorted tail holds the same values as the tail. */
  lemma SortedTail<T>(s: seq<T>, rest: seq<T>, u: seq<T>)
    requires s != [] && s[0] !in s[1..] && forall y :: y in s[1..] ==> y in u
    requires multiset(rest) == multiset(s[1..])
    ensures s[0] !in rest && forall y :: y in rest ==> y in u
    ensures multiset(rest) + multiset{s[0]} == multiset(s)
  {
    assert s[0] !in multiset(rest);
    forall y | y in rest ensures y in u {
      assert y in multiset(s[1..]);
    }
    assert s == [s[0]] + s[1..];
  }
}
