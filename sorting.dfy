/** Ordering a result by a string field, as MongoDB's ascending `sort` does. */
module Sorting {
  import opened Strings

  /** `s` is in ascending order of `key`; equal keys may come in either order. */
  predicate SortedBy<T>(s: seq<T>, key: T -> string) {
    forall i, j :: 0 <= i < j < |s| ==> !LexLess(key(s[j]), key(s[i]))
  }

  /** `s` is in strictly ascending order of `key`, so no key repeats. */
  predicate StrictlySortedBy<T>(s: seq<T>, key: T -> string) {
    forall i, j :: 0 <= i < j < |s| ==> LexLess(key(s[i]), key(s[j]))
  }

  /** No two elements of `s` share a key. */
  predicate DistinctKeys<T>(s: seq<T>, key: T -> string) {
    forall i, j :: 0 <= i < j < |s| ==> key(s[i]) != key(s[j])
  }

  /** Places `x` before the first element whose key is not below its own. */
  function InsertBy<T>(x: T, s: seq<T>, key: T -> string): seq<T>
    decreases |s|
  {
    if s == [] || !LexLess(key(s[0]), key(x)) then [x] + s
    else [s[0]] + InsertBy(x, s[1..], key)
  }

  /** Insertion sort on `key`: one of the orders MongoDB's ascending sort may return. */
  function SortBy<T>(s: seq<T>, key: T -> string): seq<T>
    decreases |s|
  {
    if s == [] then [] else InsertBy(s[0], SortBy(s[1..], key), key)
  }

  lemma {:induction false} InsertByPermutes<T>(x: T, s: seq<T>, key: T -> string)
    ensures multiset(InsertBy(x, s, key)) == multiset(s) + multiset{x}
    decreases |s|
  {
    if s != [] && LexLess(key(s[0]), key(x)) {
      InsertByPermutes(x, s[1..], key);
      assert InsertBy(x, s, key) == [s[0]] + InsertBy(x, s[1..], key);
      assert s == [s[0]] + s[1..];
      assert multiset(s) == multiset{s[0]} + multiset(s[1..]);
    }
  }

  lemma {:induction false} InsertBySorted<T>(x: T, s: seq<T>, key: T -> string)
    requires SortedBy(s, key)
    ensures SortedBy(InsertBy(x, s, key), key)
    decreases |s|
  {
    var r := InsertBy(x, s, key);
    if s == [] || !LexLess(key(s[0]), key(x)) {
      forall j | 0 < j < |r|
        ensures !LexLess(key(r[j]), key(x))
      {
        assert r[j] == s[j - 1];
        LexLessTotal(key(x), key(s[0]));
        if LexLess(key(r[j]), key(x)) && key(x) != key(s[0]) {
          LexLessTransitive(key(r[j]), key(x), key(s[0]));
        }
      }
    } else {
      var t := InsertBy(x, s[1..], key);
      InsertBySorted(x, s[1..], key);
      InsertByPermutes(x, s[1..], key);
      forall j | 0 <= j < |t|
        ensures !LexLess(key(t[j]), key(s[0]))
      {
        assert t[j] in multiset(t);
        if t[j] != x {
          assert t[j] in multiset(s[1..]);
          var k :| 0 <= k < |s[1..]| && s[1..][k] == t[j];
          assert s[k + 1] == t[j];
        } else {
          LexLessAsymmetric(key(s[0]), key(x));
        }
      }
    }
  }

  /** The sorted result is ascending by `key`. */
  lemma {:induction false} SortBySorted<T>(s: seq<T>, key: T -> string)
    ensures SortedBy(SortBy(s, key), key)
    decreases |s|
  {
    if s != [] {
      SortBySorted(s[1..], key);
      InsertBySorted(s[0], SortBy(s[1..], key), key);
    }
  }

  /** The sorted result holds exactly the elements given, each as often. */
  lemma {:induction false} SortByPermutes<T>(s: seq<T>, key: T -> string)
    ensures multiset(SortBy(s, key)) == multiset(s)
    decreases |s|
  {
    if s != [] {
      SortByPermutes(s[1..], key);
      InsertByPermutes(s[0], SortBy(s[1..], key), key);
      assert s == [s[0]] + s[1..];
    }
  }

  lemma {:induction false} InsertByStrict<T>(x: T, s: seq<T>, key: T -> string)
    requires StrictlySortedBy(s, key)
    requires forall i :: 0 <= i < |s| ==> key(s[i]) != key(x)
    ensures StrictlySortedBy(InsertBy(x, s, key), key)
    decreases |s|
  {
    if s == [] || !LexLess(key(s[0]), key(x)) {
      if s != [] {
        LexLessTotal(key(x), key(s[0]));
        forall j | 0 < j < |s|
          ensures LexLess(key(x), key(s[j]))
        {
          LexLessTransitive(key(x), key(s[0]), key(s[j]));
        }
      }
    } else {
      var t := InsertBy(x, s[1..], key);
      InsertByStrict(x, s[1..], key);
      InsertByPermutes(x, s[1..], key);
      forall j | 0 <= j < |t|
        ensures LexLess(key(s[0]), key(t[j]))
      {
        assert t[j] in multiset(t);
        if t[j] != x {
          assert t[j] in multiset(s[1..]);
          var k :| 0 <= k < |s[1..]| && s[1..][k] == t[j];
          assert s[k + 1] == t[j];
        }
      }
    }
  }

  /** When no key repeats, the sorted result is strictly ascending. */
  lemma {:induction false} SortByStrict<T>(s: seq<T>, key: T -> string)
    requires DistinctKeys(s, key)
    ensures StrictlySortedBy(SortBy(s, key), key)
    decreases |s|
  {
    if s != [] {
      var t := SortBy(s[1..], key);
      SortByStrict(s[1..], key);
      SortByPermutes(s[1..], key);
      forall i | 0 <= i < |t|
        ensures key(t[i]) != key(s[0])
      {
        assert t[i] in multiset(s[1..]);
        var k :| 0 <= k < |s[1..]| && s[1..][k] == t[i];
        assert s[k + 1] == t[i];
      }
      InsertByStrict(s[0], t, key);
    }
  }

  /** Two strictly ascending lists with the same elements are the same list. */
  lemma {:induction false} StrictlySortedUnique<T>(a: seq<T>, b: seq<T>, key: T -> string)
    requires StrictlySortedBy(a, key) && StrictlySortedBy(b, key)
    requires forall x :: x in a <==> x in b
    ensures a == b
    decreases |a|
  {
    if b != [] {
      assert b[0] in b;
    }
    if a != [] {
      assert a[0] in b;
      var j :| 0 <= j < |b| && b[j] == a[0];
      assert b[0] in b && b[0] in a;
      var i :| 0 <= i < |a| && a[i] == b[0];
      if i > 0 && j > 0 {
        LexLessAsymmetric(key(a[0]), key(b[0]));
      }
      assert a[0] == b[0];
      forall x
        ensures x in a[1..] <==> x in b[1..]
      {
        if x in a[1..] {
          var k :| 0 <= k < |a[1..]| && a[1..][k] == x;
          LexLessIrreflexive(key(a[0]));
          assert x in b && x != b[0];
        }
        if x in b[1..] {
          var k :| 0 <= k < |b[1..]| && b[1..][k] == x;
          LexLessIrreflexive(key(b[0]));
          assert x in a && x != a[0];
        }
      }
      StrictlySortedUnique(a[1..], b[1..], key);
      assert a == [a[0]] + a[1..] && b == [b[0]] + b[1..];
    }
  }
}
