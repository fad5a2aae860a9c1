// The occlusion filter by paint order (packages/browser-core/src/dom-serializer.ts).

module PaintOrder {
  import opened Sequences
  import opened StableSort

  datatype Box = Box(x: real, y: real, width: real, height: real)

  /** A missing paint order counts as 0. */
  datatype Element = Element(index: int, paintOrder: int, box: Box)

  predicate FullyContained(a: Box, b: Box) {
    a.x >= b.x && a.y >= b.y && a.x + a.width <= b.x + b.width && a.y + a.height <= b.y + b.height
  }

  predicate Inside(x: real, y: real, box: Box) {
    box.x <= x <= box.x + box.width && box.y <= y <= box.y + box.height
  }

  /** Containment of a box that has an extent is containment of its points. */
  lemma ContainedByPoints(a: Box, b: Box)
    requires a.width >= 0.0 && a.height >= 0.0
    ensures FullyContained(a, b) <==> forall x, y :: Inside(x, y, a) ==> Inside(x, y, b)
  {
    if forall x, y :: Inside(x, y, a) ==> Inside(x, y, b) {
      assert Inside(a.x, a.y, a);
      assert Inside(a.x + a.width, a.y + a.height, a);
    }
  }

  function Paint(): Element -> int {
    (e: Element) => e.paintOrder
  }

  ghost predicate DistinctIndices(elements: seq<Element>) {
    forall i, j :: 0 <= i < j < |elements| ==> elements[i].index != elements[j].index
  }

  /** Contained in something that stands before it, whether or not that one is kept. */
  ghost predicate Occluded(s: seq<Element>, i: nat)
    requires i < |s|
  {
    exists j :: 0 <= j < i && FullyContained(s[i].box, s[j].box)
  }

  // ---- The filter as the source runs it -----------------------------------------------

  /** What was kept and which indices were excluded among the first `n`. */
  ghost function Scan(s: seq<Element>, n: nat): (seq<Element>, set<int>)
    requires n <= |s|
  {
    if n == 0 then ([], {})
    else
      var (kept, excluded) := Scan(s, n - 1);
      if s[n - 1].index in excluded then (kept, excluded)
      else if Occluded(s, n - 1) then (kept, excluded + {s[n - 1].index})
      else (kept + [s[n - 1]], excluded)
  }

  method FilterByPaintOrder(elements: seq<Element>) returns (filtered: seq<Element>, filteredCount: nat)
    ensures var sorted := Sort(Paint(), elements);
      filtered == Scan(sorted, |sorted|).0 && filteredCount == |Scan(sorted, |sorted|).1|
  {
    var sorted := Sort(Paint(), elements);
    var excluded: set<int> := {};
    filtered := [];
    for i := 0 to |sorted|
      invariant (filtered, excluded) == Scan(sorted, i)
    {
      var current := sorted[i];
      if current.index in excluded {
        continue;
      }
      var isOccluded := false;
      for j := 0 to i
        invariant !isOccluded
        invariant forall k :: 0 <= k < j ==> !FullyContained(current.box, sorted[k].box)
      {
        if FullyContained(current.box, sorted[j].box) {
          isOccluded := true;
          break;
        }
      }
      assert isOccluded <==> Occluded(sorted, i);
      if !isOccluded {
        filtered := filtered + [current];
      } else {
        excluded := excluded + {current.index};
      }
    }
    filteredCount := |excluded|;
  }

  ghost function Kept(elements: seq<Element>): seq<Element> {
    var sorted := Sort(Paint(), elements);
    Scan(sorted, |sorted|).0
  }

  // ---- What it keeps ---------------------------------------------------------------------

  /** The elements of `s` before position `n` that are not occluded, in order, and those that are. */
  ghost function Visible(s: seq<Element>, n: nat): seq<Element>
    requires n <= |s|
  {
    if n == 0 then [] else Visible(s, n - 1) + if Occluded(s, n - 1) then [] else [s[n - 1]]
  }

  ghost function Covered(s: seq<Element>, n: nat): seq<Element>
    requires n <= |s|
  {
    if n == 0 then [] else Covered(s, n - 1) + if Occluded(s, n - 1) then [s[n - 1]] else []
  }

  lemma {:induction false} ScanSeparates(s: seq<Element>, n: nat)
    requires n <= |s| && DistinctIndices(s)
    ensures Scan(s, n).0 == Visible(s, n)
    ensures Scan(s, n).1 == set e | e in Covered(s, n) :: e.index
    ensures |Scan(s, n).1| == |Covered(s, n)|
    ensures forall e :: e in Covered(s, n) ==> e in s[..n]
  {
    if n > 0 {
      ScanSeparates(s, n - 1);
      var last := s[n - 1];
      forall e | e in Covered(s, n - 1) ensures e.index != last.index {
        var i :| 0 <= i < n - 1 && s[..n - 1][i] == e;
        assert s[i].index != last.index;
      }
      assert last.index !in Scan(s, n - 1).1;
      assert last in s[..n] && forall e :: e in s[..n - 1] ==> e in s[..n];
      assert Scan(s, n).1 == set e | e in Covered(s, n) :: e.index;
    }
  }

  lemma {:induction false} SeparatedNothingLost(s: seq<Element>, n: nat)
    requires n <= |s|
    ensures multiset(Visible(s, n)) + multiset(Covered(s, n)) == multiset(s[..n])
  {
    if n > 0 {
      SeparatedNothingLost(s, n - 1);
      assert s[..n] == s[..n - 1] + [s[n - 1]];
    }
  }

  lemma {:induction false} VisibleMembers(s: seq<Element>, n: nat)
    requires n <= |s|
    ensures forall e :: e in Visible(s, n) <==> exists i :: 0 <= i < n && s[i] == e && !Occluded(s, i)
    ensures forall e :: e in Covered(s, n) <==> exists i :: 0 <= i < n && s[i] == e && Occluded(s, i)
  {
    if n > 0 {
      VisibleMembers(s, n - 1);
    }
  }

  lemma ContainmentIsTransitive(a: Box, b: Box, c: Box)
    requires FullyContained(a, b) && FullyContained(b, c)
    ensures FullyContained(a, c)
  {
  }

  /** Through chains of covered elements, everything covered lies in something visible before it. */
  lemma {:induction false} CoveredByVisible(s: seq<Element>, i: nat) returns (j: nat)
    requires i < |s| && Occluded(s, i)
    ensures j < i && !Occluded(s, j) && FullyContained(s[i].box, s[j].box)
  {
    j :| 0 <= j < i && FullyContained(s[i].box, s[j].box);
    if Occluded(s, j) {
      var k := CoveredByVisible(s, j);
      ContainmentIsTransitive(s[i].box, s[j].box, s[k].box);
      j := k;
    }
  }

  lemma {:induction false} VisibleAreIndependent(s: seq<Element>, n: nat)
    requires n <= |s|
    ensures forall i, j :: 0 <= j < i < |Visible(s, n)| ==> !FullyContained(Visible(s, n)[i].box, Visible(s, n)[j].box)
  {
    if n > 0 {
      VisibleAreIndependent(s, n - 1);
      VisibleMembers(s, n - 1);
      var before := Visible(s, n - 1);
      if !Occluded(s, n - 1) {
        forall j | 0 <= j < |before| ensures !FullyContained(s[n - 1].box, before[j].box) {
          assert before[j] in before;
        }
      }
    }
  }

  lemma {:induction false} VisibleDescend(s: seq<Element>, n: nat)
    requires n <= |s| && Descending(Paint(), s)
    ensures Descending(Paint(), Visible(s, n))
  {
    if n > 0 {
      VisibleDescend(s, n - 1);
      VisibleMembers(s, n - 1);
      var before := Visible(s, n - 1);
      forall j | 0 <= j < |before| ensures Paint()(before[j]) >= Paint()(s[n - 1]) {
        assert before[j] in before;
      }
    }
  }

  lemma SortedKeepDistinctIndices(elements: seq<Element>)
    requires DistinctIndices(elements)
    ensures DistinctIndices(Sort(Paint(), elements))
  {
    var sorted := Sort(Paint(), elements);
    SortIsStable(Paint(), elements);
    SortMembers(Paint(), elements);
    forall i, j | 0 <= i < j < |sorted| ensures sorted[i].index != sorted[j].index {
      assert sorted[i] in elements && sorted[j] in elements;
      IndicesIdentify(elements, sorted[i], sorted[j]);
      OccursOnce(elements, sorted[i]);
      EqualsCountTwice(sorted, i, j);
    }
  }

  lemma IndicesIdentify(elements: seq<Element>, x: Element, y: Element)
    requires DistinctIndices(elements) && x in elements && y in elements
    ensures x.index == y.index ==> x == y
  {
    var a :| 0 <= a < |elements| && elements[a] == x;
    var b :| 0 <= b < |elements| && elements[b] == y;
    assert a < b ==> elements[a].index != elements[b].index;
    assert b < a ==> elements[b].index != elements[a].index;
  }

  lemma {:induction false} OccursOnce(elements: seq<Element>, x: Element)
    requires DistinctIndices(elements)
    ensures multiset(elements)[x] <= 1
  {
    if elements != [] {
      var init, last := elements[..|elements| - 1], elements[|elements| - 1];
      assert elements == init + [last];
      OccursOnce(init, x);
      assert x == last ==> x !in init;
      assert x == last ==> multiset(init)[x] == 0;
    }
  }

  lemma EqualsCountTwice<T>(s: seq<T>, i: nat, j: nat)
    requires i < j < |s|
    ensures s[i] == s[j] ==> multiset(s)[s[i]] >= 2
  {
    assert s == s[..j] + [s[j]] + s[j + 1..];
    assert s[..j][i] in s[..j];
    assert multiset(s)[s[i]] == multiset(s[..j])[s[i]] + multiset([s[j]])[s[i]] + multiset(s[j + 1..])[s[i]];
  }

  // ---- The promises of the filter ---------------------------------------------------------

  /**
   * For elements with their own indices: every removed one lies in a kept one that is painted no earlier, no
   * kept one lies in an earlier kept one, nothing is lost, and the count is right.
   */
  lemma FilterKeepsWhatIsNotHidden(elements: seq<Element>)
    requires DistinctIndices(elements)
    ensures var sorted := Sort(Paint(), elements);
      var kept, removed := Kept(elements), Covered(sorted, |sorted|);
      && multiset(kept) + multiset(removed) == multiset(elements)
      && |Scan(sorted, |sorted|).1| == |removed|
      && (forall x :: x in removed ==>
            exists y :: y in kept && FullyContained(x.box, y.box) && y.paintOrder >= x.paintOrder)
      && (forall i, j :: 0 <= j < i < |kept| ==> !FullyContained(kept[i].box, kept[j].box))
      && Descending(Paint(), kept)
  {
    var sorted := Sort(Paint(), elements);
    var n := |sorted|;
    SortIsStable(Paint(), elements);
    SortedKeepDistinctIndices(elements);
    ScanSeparates(sorted, n);
    SeparatedNothingLost(sorted, n);
    assert sorted[..n] == sorted;
    VisibleAreIndependent(sorted, n);
    VisibleDescend(sorted, n);
    VisibleMembers(sorted, n);
    forall x | x in Covered(sorted, n)
      ensures exists y :: y in Kept(elements) && FullyContained(x.box, y.box) && y.paintOrder >= x.paintOrder
    {
      var i :| 0 <= i < n && sorted[i] == x && Occluded(sorted, i);
      var j := CoveredByVisible(sorted, i);
      assert Paint()(sorted[j]) >= Paint()(sorted[i]);
      assert sorted[j] in Visible(sorted, n);
    }
  }

  lemma {:induction false} NothingOccluded(s: seq<Element>, n: nat)
    requires n <= |s|
    requires forall i, j :: 0 <= j < i < |s| ==> !FullyContained(s[i].box, s[j].box)
    ensures Visible(s, n) == s[..n]
  {
    if n > 0 {
      NothingOccluded(s, n - 1);
      assert s[..n] == s[..n - 1] + [s[n - 1]];
    }
  }

  lemma {:induction false} VisibleKeepDistinctIndices(s: seq<Element>, n: nat)
    requires n <= |s| && DistinctIndices(s)
    ensures DistinctIndices(Visible(s, n))
  {
    if n > 0 {
      VisibleKeepDistinctIndices(s, n - 1);
      VisibleMembers(s, n - 1);
      var before := Visible(s, n - 1);
      forall j | 0 <= j < |before| ensures before[j].index != s[n - 1].index {
        assert before[j] in before;
      }
    }
  }

  /** Filtering what was kept changes nothing. */
  lemma FilteringTwiceIsFilteringOnce(elements: seq<Element>)
    requires DistinctIndices(elements)
    ensures Kept(Kept(elements)) == Kept(elements)
  {
    var sorted, kept := Sort(Paint(), elements), Kept(elements);
    FilterKeepsWhatIsNotHidden(elements);
    SortedKeepDistinctIndices(elements);
    ScanSeparates(sorted, |sorted|);
    VisibleKeepDistinctIndices(sorted, |sorted|);
    SortOfDescending(Paint(), kept);
    ScanSeparates(kept, |kept|);
    NothingOccluded(kept, |kept|);
    assert kept[..|kept|] == kept;
  }

  // ---- In terms of the input order ----------------------------------------------------------

  ghost predicate Precedes<T>(s: seq<T>, x: T, y: T) {
    exists i, j :: 0 <= i < j < |s| && s[i] == x && s[j] == y
  }

  lemma {:induction false} FilterKeepsOrder<T>(p: T -> bool, s: seq<T>, x: T, y: T)
    requires p(x) && p(y)
    ensures Precedes(Filter(p, s), x, y) <==> Precedes(s, x, y)
  {
    if s != [] {
      var n := |s| - 1;
      var init := s[..n];
      FilterKeepsOrder(p, init, x, y);
      FilterMembers(p, init);
      var f := Filter(p, init);
      if p(s[n]) {
        SnocOrder(f, s[n], x, y);
      }
      SnocOrder(init, s[n], x, y);
      assert s == init + [s[n]];
    }
  }

  lemma SnocOrder<T>(s: seq<T>, last: T, x: T, y: T)
    ensures Precedes(s + [last], x, y) <==> Precedes(s, x, y) || (y == last && x in s)
  {
    var all := s + [last];
    if Precedes(all, x, y) {
      var i, j :| 0 <= i < j < |all| && all[i] == x && all[j] == y;
      assert s[i] == x;
    }
    if y == last && x in s {
      var i :| 0 <= i < |s| && s[i] == x;
      assert all[i] == x && all[|s|] == y;
    }
    if Precedes(s, x, y) {
      var i, j :| 0 <= i < j < |s| && s[i] == x && s[j] == y;
      assert all[i] == x && all[j] == y;
    }
  }

  /** Painted later, or at the same level and earlier in the input. */
  ghost predicate InFrontOf(elements: seq<Element>, y: Element, x: Element) {
    && x in elements && y in elements
    && (y.paintOrder > x.paintOrder || (y.paintOrder == x.paintOrder && Precedes(elements, y, x)))
  }

  lemma SortedOrder(elements: seq<Element>, x: Element, y: Element)
    requires DistinctIndices(elements)
    ensures Precedes(Sort(Paint(), elements), y, x) <==> InFrontOf(elements, y, x)
  {
    var sorted := Sort(Paint(), elements);
    SortIsStable(Paint(), elements);
    SortMembers(Paint(), elements);
    if x in elements && y in elements && y.paintOrder != x.paintOrder {
      var i :| 0 <= i < |sorted| && sorted[i] == x;
      var j :| 0 <= j < |sorted| && sorted[j] == y;
      assert Paint()(sorted[i]) == x.paintOrder && Paint()(sorted[j]) == y.paintOrder;
    } else if x.paintOrder == y.paintOrder {
      var p := WithKey(Paint(), x.paintOrder);
      FilterKeepsOrder(p, sorted, y, x);
      FilterKeepsOrder(p, elements, y, x);
      if Precedes(elements, y, x) {
        assert x in elements && y in elements;
      }
    }
  }

  /** Kept is exactly what no element in front of it fully contains. */
  lemma KeptExactlyWhenNothingInFrontContainsIt(elements: seq<Element>, x: Element)
    requires DistinctIndices(elements) && x in elements
    ensures x in Kept(elements) <==> !exists y :: InFrontOf(elements, y, x) && FullyContained(x.box, y.box)
  {
    var sorted := Sort(Paint(), elements);
    SortMembers(Paint(), elements);
    SortedKeepDistinctIndices(elements);
    ScanSeparates(sorted, |sorted|);
    VisibleMembers(sorted, |sorted|);
    var i :| 0 <= i < |sorted| && sorted[i] == x;
    assert x in Kept(elements) <==> !Occluded(sorted, i) by {
      forall k | 0 <= k < |sorted| && sorted[k] == x ensures k == i {
        assert sorted[k].index == sorted[i].index;
      }
    }
    if y :| InFrontOf(elements, y, x) && FullyContained(x.box, y.box) {
      SortedOrder(elements, x, y);
      var j, k :| 0 <= j < k < |sorted| && sorted[j] == y && sorted[k] == x;
      assert sorted[k].index == sorted[i].index;
      assert Occluded(sorted, i);
    }
    if Occluded(sorted, i) {
      var j :| 0 <= j < i && FullyContained(sorted[i].box, sorted[j].box);
      assert Precedes(sorted, sorted[j], x);
      SortedOrder(elements, x, sorted[j]);
    }
  }
}
