/** Sorting a sequence by an integer key, as the C++ code does with std::sort. */
module Sorting {

  ghost predicate SortedBy<T>(s: seq<T>, key: T -> int) {
    forall i, j :: 0 <= i < j < |s| ==> key(s[i]) <= key(s[j])
  }

  function Insert<T>(x: T, s: seq<T>, key: T -> int): seq<T> {
    if s == [] || key(x) <= key(s[0]) then [x] + s else [s[0]] + Insert(x, s[1..], key)
  }

  function Sort<T>(s: seq<T>, key: T -> int): seq<T> {
    if s == [] then [] else Insert(s[0], Sort(s[1..], key), key)
  }

  lemma {:induction false} InsertElements<T>(x: T, s: seq<T>, key: T -> int)
    ensures multiset(Insert(x, s, key)) == multiset{x} + multiset(s)
  {
    if s != [] {
      assert s == [s[0]] + s[1..];
      if key(x) > key(s[0]) {
        InsertElements(x, s[1..], key);
      }
    }
  }

  lemma {:induction false} InsertSorts<T>(x: T, s: seq<T>, key: T -> int)
    requires SortedBy(s, key)
    ensures SortedBy(Insert(x, s, key), key)
  {
    if s != [] && key(x) > key(s[0]) {
      InsertSorts(x, s[1..], key);
      InsertElements(x, s[1..], key);
      var r := Insert(x, s[1..], key);
      forall j | 0 <= j < |r| ensures key(s[0]) <= key(r[j]) {
        assert r[j] in multiset(r);
        assert r[j] == x || r[j] in s[1..];
      }
    }
  }

  /** The result is ordered by key and is a permutation of the input. */
  lemma {:induction false} SortSorts<T>(s: seq<T>, key: T -> int)
    ensures SortedBy(Sort(s, key), key)
    ensures multiset(Sort(s, key)) == multiset(s)
  {
    if s != [] {
      SortSorts(s[1..], key);
      InsertSorts(s[0], Sort(s[1..], key), key);
      InsertElements(s[0], Sort(s[1..], key), key);
      assert s == [s[0]] + s[1..];
    }
  }

  lemma SameElements<T>(s: seq<T>, r: seq<T>)
    requires multiset(s) == multiset(r)
    ensures |s| == |r|
    ensures forall x :: x in s <==> x in r
  {
    assert |multiset(s)| == |s| && |multiset(r)| == |r|;
    forall x ensures x in s <==> x in r {
      assert x in s <==> x in multiset(s);
      assert x in r <==> x in multiset(r);
    }
  }

  ghost predicate Pairwise<T>(s: seq<T>, r: (T, T) -> bool) {
    forall i, j :: 0 <= i < j < |s| ==> r(s[i], s[j])
  }

  lemma {:induction false} InsertKeepsPairwise<T(!new)>(x: T, s: seq<T>, key: T -> int, r: (T, T) -> bool)
    requires forall a, b :: r(a, b) ==> r(b, a)
    requires Pairwise(s, r) && forall i :: 0 <= i < |s| ==> r(x, s[i])
    ensures Pairwise(Insert(x, s, key), r)
  {
    if s != [] && key(x) > key(s[0]) {
      InsertKeepsPairwise(x, s[1..], key, r);
      InsertElements(x, s[1..], key);
      var t := Insert(x, s[1..], key);
      forall j | 0 <= j < |t| ensures r(s[0], t[j]) {
        assert t[j] in multiset(t);
        assert t[j] == x || t[j] in s[1..];
      }
    }
  }

  /** A symmetric relation between any two elements survives sorting. */
  lemma {:induction false} SortKeepsPairwise<T(!new)>(s: seq<T>, key: T -> int, r: (T, T) -> bool)
    requires forall a, b :: r(a, b) ==> r(b, a)
    requires Pairwise(s, r)
    ensures Pairwise(Sort(s, key), r)
  {
    if s != [] {
      SortKeepsPairwise(s[1..], key, r);
      SortSorts(s[1..], key);
      var t := Sort(s[1..], key);
      forall i | 0 <= i < |t| ensures r(s[0], t[i]) {
        assert t[i] in multiset(t);
        assert t[i] in s[1..];
      }
      InsertKeepsPairwise(s[0], t, key, r);
    }
  }
}
