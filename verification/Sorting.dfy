/** Sorting by an integer key, as the standard library's `sort_unstable_by_key` does up to the order of ties. */
module Sorting {

  ghost predicate SortedBy<T(!new)>(s: seq<T>, key: T -> int) {
    forall i, j | 0 <= i < j < |s| :: key(s[i]) <= key(s[j])
  }

  ghost predicate AtMost<T(!new)>(s: seq<T>, key: T -> int, c: int) {
    forall i | 0 <= i < |s| :: key(s[i]) <= c
  }

  /** Insertion behind every element with a smaller or equal key. */
  function Place<T>(s: seq<T>, x: T, key: T -> int): seq<T> {
    if s == [] || key(s[|s| - 1]) <= key(x) then s + [x]
    else Place(s[..|s| - 1], x, key) + [s[|s| - 1]]
  }

  function SortBy<T>(s: seq<T>, key: T -> int): seq<T> {
    if s == [] then [] else Place(SortBy(s[..|s| - 1], key), s[|s| - 1], key)
  }

  lemma {:induction false} PlaceSorts<T(!new)>(s: seq<T>, x: T, key: T -> int, c: int)
    requires SortedBy(s, key)
    ensures SortedBy(Place(s, x, key), key)
    ensures AtMost(s, key, c) && key(x) <= c ==> AtMost(Place(s, x, key), key, c)
  {
    if s != [] && key(s[|s| - 1]) > key(x) {
      PlaceSorts(s[..|s| - 1], x, key, c);
      PlaceSorts(s[..|s| - 1], x, key, key(s[|s| - 1]));
    }
  }

  lemma {:induction false} PlacePermutes<T(!new)>(s: seq<T>, x: T, key: T -> int)
    ensures |Place(s, x, key)| == |s| + 1
    ensures multiset(Place(s, x, key)) == multiset(s + [x])
  {
    if s != [] && key(s[|s| - 1]) > key(x) {
      var init := s[..|s| - 1];
      PlacePermutes(init, x, key);
      assert s + [x] == init + [s[|s| - 1]] + [x];
    }
  }

  lemma {:induction false} SortSorts<T(!new)>(s: seq<T>, key: T -> int)
    ensures SortedBy(SortBy(s, key), key)
    ensures |SortBy(s, key)| == |s| && multiset(SortBy(s, key)) == multiset(s)
  {
    if s != [] {
      var init := s[..|s| - 1];
      SortSorts(init, key);
      PlaceSorts(SortBy(init, key), s[|s| - 1], key, 0);
      PlacePermutes(SortBy(init, key), s[|s| - 1], key);
      assert s == init + [s[|s| - 1]];
    }
  }

  /** Sorting neither adds nor drops an element. */
  lemma SameMembers<T(!new)>(s: seq<T>, key: T -> int)
    ensures forall x :: x in SortBy(s, key) <==> x in s
  {
    SortSorts(s, key);
    forall x ensures x in SortBy(s, key) <==> x in s {
      assert x in multiset(SortBy(s, key)) <==> x in multiset(s);
    }
  }
}
