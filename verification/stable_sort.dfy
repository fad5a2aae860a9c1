// The stable sort behind Array.prototype.sort, by descending integer key.

module StableSort {
  import opened Sequences

  /** Puts `x` behind every element whose key is at least its own. */
  function Insert<T>(key: T -> int, sorted: seq<T>, x: T): seq<T> {
    if sorted == [] then [x]
    else
      var n := |sorted| - 1;
      if key(sorted[n]) >= key(x) then sorted + [x] else Insert(key, sorted[..n], x) + [sorted[n]]
  }

  function Sort<T>(key: T -> int, s: seq<T>): seq<T> {
    if s == [] then [] else Insert(key, Sort(key, s[..|s| - 1]), s[|s| - 1])
  }

  ghost predicate Descending<T>(key: T -> int, s: seq<T>) {
    forall i, j :: 0 <= i < j < |s| ==> key(s[i]) >= key(s[j])
  }

  function WithKey<T>(key: T -> int, k: int): T -> bool {
    (x: T) => key(x) == k
  }

  lemma {:induction false} InsertMembers<T>(key: T -> int, sorted: seq<T>, x: T, y: T)
    ensures y in Insert(key, sorted, x) <==> y == x || y in sorted
  {
    if sorted != [] {
      var n := |sorted| - 1;
      assert sorted == sorted[..n] + [sorted[n]];
      InsertMembers(key, sorted[..n], x, y);
    }
  }

  lemma {:induction false} InsertLosesNothing<T>(key: T -> int, sorted: seq<T>, x: T)
    ensures multiset(Insert(key, sorted, x)) == multiset(sorted) + multiset{x}
  {
    if sorted != [] {
      var n := |sorted| - 1;
      assert sorted == sorted[..n] + [sorted[n]];
      if key(sorted[n]) < key(x) {
        InsertLosesNothing(key, sorted[..n], x);
      }
    }
  }

  lemma {:induction false} InsertSorts<T>(key: T -> int, sorted: seq<T>, x: T)
    requires Descending(key, sorted)
    ensures Descending(key, Insert(key, sorted, x))
  {
    if sorted != [] {
      var n := |sorted| - 1;
      if key(sorted[n]) < key(x) {
        InsertSorts(key, sorted[..n], x);
        var init := Insert(key, sorted[..n], x);
        forall i | 0 <= i < |init| ensures key(init[i]) >= key(sorted[n]) {
          InsertMembers(key, sorted[..n], x, init[i]);
        }
      }
    }
  }

  lemma {:induction false} InsertKeepsEqualsInOrder<T>(key: T -> int, sorted: seq<T>, x: T, k: int)
    requires Descending(key, sorted)
    ensures Filter(WithKey(key, k), Insert(key, sorted, x)) == Filter(WithKey(key, k), sorted + [x])
  {
    var p := WithKey(key, k);
    FilterSnoc(p, sorted, x);
    if sorted != [] {
      var n := |sorted| - 1;
      assert sorted == sorted[..n] + [sorted[n]];
      if key(sorted[n]) < key(x) {
        InsertKeepsEqualsInOrder(key, sorted[..n], x, k);
        FilterSnoc(p, sorted[..n], x);
        FilterSnoc(p, sorted[..n], sorted[n]);
        FilterSnoc(p, Insert(key, sorted[..n], x), sorted[n]);
        if key(sorted[n]) == k {
          assert Filter(p, sorted[..n] + [x]) == Filter(p, sorted[..n]);
        }
      }
    }
  }

  /** The result is a descending permutation in which elements with equal keys keep their order. */
  lemma {:induction false} SortIsStable<T>(key: T -> int, s: seq<T>)
    ensures Descending(key, Sort(key, s))
    ensures multiset(Sort(key, s)) == multiset(s)
    ensures forall k :: Filter(WithKey(key, k), Sort(key, s)) == Filter(WithKey(key, k), s)
  {
    if s != [] {
      var init, last := s[..|s| - 1], s[|s| - 1];
      assert s == init + [last];
      SortIsStable(key, init);
      InsertSorts(key, Sort(key, init), last);
      InsertLosesNothing(key, Sort(key, init), last);
      forall k ensures Filter(WithKey(key, k), Sort(key, s)) == Filter(WithKey(key, k), s) {
        InsertKeepsEqualsInOrder(key, Sort(key, init), last, k);
        FilterSnoc(WithKey(key, k), Sort(key, init), last);
        FilterSnoc(WithKey(key, k), init, last);
      }
    }
  }

  lemma SortMembers<T>(key: T -> int, s: seq<T>)
    ensures |Sort(key, s)| == |s|
    ensures forall x :: x in Sort(key, s) <==> x in s
  {
    SortIsStable(key, s);
    assert |multiset(Sort(key, s))| == |multiset(s)|;
    forall x ensures x in Sort(key, s) <==> x in s {
      assert x in multiset(Sort(key, s)) <==> x in multiset(s);
    }
  }

  /** Sorting what is already sorted changes nothing. */
  lemma {:induction false} SortOfDescending<T>(key: T -> int, s: seq<T>)
    requires Descending(key, s)
    ensures Sort(key, s) == s
  {
    if s != [] {
      var init := s[..|s| - 1];
      SortOfDescending(key, init);
      assert s == init + [s[|s| - 1]];
    }
  }
}
