/** The three read queries the handlers issue against a collection, over its documents in natural order. */
module Queries {
  import opened Common

  /** No element occurs twice. */
  ghost predicate Distinct<T>(s: seq<T>) {
    forall i, j :: 0 <= i < j < |s| ==> s[i] != s[j]
  }

  /** `findOne(filter)`: the position of the first document, in collection order, that matches. */
  function FirstWhere<T>(s: seq<T>, p: T -> bool): (r: Option<nat>)
    ensures r.Some? ==> r.value < |s| && p(s[r.value]) && forall k :: 0 <= k < r.value ==> !p(s[k])
    ensures r.None? ==> forall k :: 0 <= k < |s| ==> !p(s[k])
    decreases |s|
  {
    if s == [] then None
    else if p(s[0]) then Some(0)
    else match FirstWhere(s[1..], p)
      case None => None
      case Some(i) => Some(i + 1)
  }

  /** `find(filter)`: every matching document, in collection order. */
  function Filter<T(!new)>(s: seq<T>, p: T -> bool): (r: seq<T>)
    ensures forall x :: x in r <==> x in s && p(x)
    ensures |r| <= |s|
    decreases |s|
  {
    if s == [] then [] else (if p(s[0]) then [s[0]] else []) + Filter(s[1..], p)
  }

  /** `countDocuments(filter)`. */
  function CountWhere<T>(s: seq<T>, p: T -> bool): nat
    decreases |s|
  {
    if s == [] then 0 else (if p(s[0]) then 1 else 0) + CountWhere(s[1..], p)
  }

  /** Counting the matches and listing them agree. */
  lemma {:induction false} CountIsFilterLength<T(!new)>(s: seq<T>, p: T -> bool)
    ensures CountWhere(s, p) == |Filter(s, p)|
    decreases |s|
  {
    if s != [] {
      CountIsFilterLength(s[1..], p);
    }
  }

  /** `findOne` looks only at what its filter reads: documents that agree there give the same answer. */
  lemma {:induction false} FirstWhereAgrees<T>(s: seq<T>, t: seq<T>, p: T -> bool)
    requires |s| == |t| && forall k :: 0 <= k < |s| ==> p(s[k]) == p(t[k])
    ensures FirstWhere(s, p) == FirstWhere(t, p)
    decreases |s|
  {
    if s != [] && !p(s[0]) {
      FirstWhereAgrees(s[1..], t[1..], p);
    }
  }

  /** Filtering a list without repeats gives a list without repeats. */
  lemma {:induction false} FilterDistinct<T(!new)>(s: seq<T>, p: T -> bool)
    requires Distinct(s)
    ensures Distinct(Filter(s, p))
    decreases |s|
  {
    if s != [] {
      FilterDistinct(s[1..], p);
      var t := Filter(s[1..], p);
      forall k | 0 <= k < |t|
        ensures t[k] != s[0]
      {
        assert t[k] in s[1..];
      }
      var r := Filter(s, p);
      if p(s[0]) {
        assert r == [s[0]] + t;
        forall i, j | 0 <= i < j < |r|
          ensures r[i] != r[j]
        {
          assert r[j] == t[j - 1];
          if i > 0 {
            assert r[i] == t[i - 1];
          }
        }
      } else {
        assert r == t;
      }
    }
  }

  /** Filtering a list that holds every value once keeps each value that passes, once. */
  lemma FilterOfEnumeration<T(!new)>(s: seq<T>, p: T -> bool)
    requires forall x :: x in s
    requires Distinct(s)
    ensures forall x :: x in Filter(s, p) <==> p(x)
    ensures Distinct(Filter(s, p))
  {
    FilterDistinct(s, p);
  }
}
