/** Python's sorted(): a stable insertion sort under a caller-supplied
    "less than or equal" relation, with the facts the models need about it. */
module Sorting {

  /** le is total and transitive: what sorted() needs from a key order. */
  ghost predicate TotalPreorder<T(!new)>(le: (T, T) -> bool)
  {
    && (forall a, b :: le(a, b) || le(b, a))
    && (forall a, b, c :: le(a, b) && le(b, c) ==> le(a, c))
  }

  predicate SortedBy<T>(s: seq<T>, le: (T, T) -> bool)
  {
    forall i, j :: 0 <= i < j < |s| ==> le(s[i], s[j])
  }

  /** No two different elements of s are equivalent under le. */
  ghost predicate DistinctKeys<T>(s: seq<T>, le: (T, T) -> bool)
  {
    forall i, j :: 0 <= i < |s| && 0 <= j < |s| && le(s[i], s[j]) && le(s[j], s[i]) ==> s[i] == s[j]
  }

  /** Places x before the first element it is not greater than. */
  function Insert<T(!new)>(x: T, s: seq<T>, le: (T, T) -> bool): (r: seq<T>)
    requires TotalPreorder(le) && SortedBy(s, le)
    ensures SortedBy(r, le)
    ensures multiset(r) == multiset(s) + multiset{x}
    ensures |r| == |s| + 1
  {
    if s == [] then [x]
    else if le(x, s[0]) then
      var r := [x] + s;
      assert forall j :: 0 < j < |r| ==> le(x, r[j]) by {
        forall j | 0 < j < |r| ensures le(x, r[j]) {
          if j > 1 {
            assert le(s[0], s[j - 1]);
          }
        }
      }
      r
    else
      var t := Insert(x, s[1..], le);
      var r := [s[0]] + t;
      assert s == [s[0]] + s[1..];
      assert forall j :: 0 <= j < |t| ==> le(s[0], t[j]) by {
        forall j | 0 <= j < |t| ensures le(s[0], t[j]) {
          assert t[j] in multiset(t);
          if t[j] != x {
            assert t[j] in multiset(s[1..]);
            var k :| 0 <= k < |s[1..]| && s[1..][k] == t[j];
            assert le(s[0], s[k + 1]);
          }
        }
      }
      r
  }

  /** sorted(s) under le. */
  function Sort<T(!new)>(s: seq<T>, le: (T, T) -> bool): (r: seq<T>)
    requires TotalPreorder(le)
    ensures SortedBy(r, le)
    ensures multiset(r) == multiset(s)
    ensures |r| == |s|
  {
    if s == [] then []
    else
      assert s == [s[0]] + s[1..];
      Insert(s[0], Sort(s[1..], le), le)
  }

  lemma SortedHeadsEqual<T(!new)>(a: seq<T>, b: seq<T>, le: (T, T) -> bool)
    requires TotalPreorder(le)
    requires SortedBy(a, le) && SortedBy(b, le) && multiset(a) == multiset(b)
    requires DistinctKeys(a, le)
    requires a != []
    ensures b != [] && a[0] == b[0]
  {
    assert a[0] in multiset(b);
    var j :| 0 <= j < |b| && b[j] == a[0];
    assert b[0] in multiset(a);
    var i :| 0 <= i < |a| && a[i] == b[0];
    assert le(a[0], a[i]);
    assert le(b[0], b[j]);
  }

  lemma TailsAgree<T>(a: seq<T>, b: seq<T>)
    requires a != [] && b != [] && a[0] == b[0] && multiset(a) == multiset(b)
    ensures multiset(a[1..]) == multiset(b[1..])
  {
    assert a == [a[0]] + a[1..];
    assert b == [b[0]] + b[1..];
    assert multiset(a[1..]) == multiset(a) - multiset{a[0]};
    assert multiset(b[1..]) == multiset(b) - multiset{b[0]};
  }

  /** Two sorted arrangements of the same elements agree when no two different elements
      are equivalent: the result of sorted() does not depend on the input order. */
  lemma {:induction false} SortedUnique<T(!new)>(a: seq<T>, b: seq<T>, le: (T, T) -> bool)
    requires TotalPreorder(le)
    requires SortedBy(a, le) && SortedBy(b, le) && multiset(a) == multiset(b)
    requires DistinctKeys(a, le)
    ensures a == b
  {
    if a == [] {
      assert |multiset(b)| == 0;
    } else {
      SortedHeadsEqual(a, b, le);
      TailsAgree(a, b);
      assert DistinctKeys(a[1..], le);
      SortedUnique(a[1..], b[1..], le);
      assert a == [a[0]] + a[1..];
      assert b == [b[0]] + b[1..];
    }
  }

  /** Sorting what is already sorted changes nothing. */
  lemma SortSorted<T(!new)>(s: seq<T>, le: (T, T) -> bool)
    requires TotalPreorder(le) && SortedBy(s, le) && DistinctKeys(s, le)
    ensures Sort(s, le) == s
  {
    SortedUnique(s, Sort(s, le), le);
  }

  predicate Distinct<T(==)>(s: seq<T>)
  {
    forall i, j :: 0 <= i < j < |s| ==> s[i] != s[j]
  }

  /** The elements of a finite set in some order (Python's iteration order over a set or
      dict is not modelled; every use below sorts afterwards or does not depend on it). */
  ghost function SetToSeq<T>(s: set<T>): (r: seq<T>)
    ensures multiset(r) == multiset(s)
    ensures |r| == |s|
  {
    if s == {} then []
    else
      var x :| x in s;
      var r := [x] + SetToSeq(s - {x});
      assert multiset(s) == multiset{x} + multiset(s - {x}) by {
        assert s == {x} + (s - {x});
      }
      r
  }

  lemma {:induction false} DistinctMultiset<T>(s: seq<T>)
    requires Distinct(s)
    ensures multiset(s) == multiset(set x | x in s)
  {
    if s != [] {
      var t := s[1..];
      assert Distinct(t);
      DistinctMultiset(t);
      assert s == [s[0]] + t;
      var st := set x | x in t;
      assert s[0] !in st;
      assert (set x | x in s) == {s[0]} + st;
    }
  }
}
