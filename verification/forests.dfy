// Parent pointers over an ordered set of nodes, and the forest they describe.

module Forests {
  import opened Options
  import opened Sequences

  datatype Tree<K> = Tree(key: K, children: seq<Tree<K>>)

  /** Nodes in order, each with the node it hangs under, if any. */
  datatype Parents<!K(==)> = Parents(order: seq<K>, parent: map<K, Option<K>>)

  ghost predicate Distinct<K>(s: seq<K>) {
    forall i, j :: 0 <= i < j < |s| ==> s[i] != s[j]
  }

  lemma DistinctPositions<K>(s: seq<K>, i: nat, j: nat)
    requires Distinct(s) && i < j < |s|
    ensures s[i] != s[j]
  {
  }

  lemma DistinctCopiesOfOneValue<K>(s: seq<K>, x: K)
    requires Distinct(s) && forall i :: 0 <= i < |s| ==> s[i] == x
    ensures s == [] || s == [x]
  {
    if |s| > 1 {
      DistinctPositions(s, 0, 1);
      assert false;
    }
  }

  ghost predicate WellFormed<K(!new)>(p: Parents<K>) {
    && Distinct(p.order)
    && (forall k :: k in p.parent <==> k in p.order)
    && (forall k :: k in p.parent && p.parent[k].Some? ==> p.parent[k].value in p.parent)
  }

  /** A ranking that grows strictly from parent to child witnesses that there is no cycle. */
  ghost predicate Ranked<K(!new)>(p: Parents<K>, rank: K -> nat) {
    forall k :: k in p.parent && p.parent[k].Some? ==> rank(p.parent[k].value) < rank(k)
  }

  /** A rank no listed node exceeds. */
  ghost function TopRank<K(!new)>(order: seq<K>, rank: K -> nat): (top: nat)
    ensures forall k :: k in order ==> rank(k) <= top
  {
    if order == [] then 0
    else
      var below := TopRank(order[1..], rank);
      assert order == [order[0]] + order[1..];
      if rank(order[0]) > below then rank(order[0]) else below
  }

  function HangsUnder<K(==)>(p: Parents<K>, parent: Option<K>): K -> bool {
    (k: K) => k in p.parent && p.parent[k] == parent
  }

  /** The children of a node, or the roots, in node order. */
  function ChildrenOf<K(==)>(p: Parents<K>, parent: Option<K>): seq<K> {
    Filter(HangsUnder(p, parent), p.order)
  }

  // ---- The forest --------------------------------------------------------------

  ghost function Grow<K(!new)>(p: Parents<K>, rank: K -> nat, bound: nat, k: K): Tree<K>
    requires Ranked(p, rank) && rank(k) <= bound
    requires forall x :: x in p.parent ==> rank(x) <= bound
    decreases bound - rank(k), 1, 0
  {
    FilterMembers(HangsUnder(p, Some(k)), p.order);
    Tree(k, GrowAll(p, rank, bound, Some(k), ChildrenOf(p, Some(k))))
  }

  ghost function GrowAll<K(!new)>(p: Parents<K>, rank: K -> nat, bound: nat, parent: Option<K>,
      ks: seq<K>): (trees: seq<Tree<K>>)
    requires Ranked(p, rank)
    requires forall x :: x in p.parent ==> rank(x) <= bound
    requires forall k :: k in ks ==> k in p.parent && p.parent[k] == parent
    ensures |trees| == |ks| && forall i :: 0 <= i < |ks| ==> trees[i].key == ks[i]
    decreases if parent.None? then bound + 1 else bound - rank(parent.value), 0, |ks|
  {
    if ks == [] then []
    else
      var n := |ks| - 1;
      assert ks[n] in ks;
      GrowAll(p, rank, bound, parent, ks[..n]) + [Grow(p, rank, bound, ks[n])]
  }

  ghost function Forest<K(!new)>(p: Parents<K>, rank: K -> nat, bound: nat): seq<Tree<K>>
    requires Ranked(p, rank)
    requires forall x :: x in p.parent ==> rank(x) <= bound
  {
    FilterMembers(HangsUnder(p, None), p.order);
    GrowAll(p, rank, bound, None, ChildrenOf(p, None))
  }

  function Keys<K>(tree: Tree<K>): seq<K>
    decreases tree
  {
    [tree.key] + KeysOfAll(tree.children)
  }

  function KeysOfAll<K>(trees: seq<Tree<K>>): seq<K>
    decreases trees
  {
    if trees == [] then [] else Keys(trees[0]) + KeysOfAll(trees[1..])
  }

  ghost predicate Before<K>(order: seq<K>, x: K, y: K) {
    exists a, b :: 0 <= a < b < |order| && order[a] == x && order[b] == y
  }

  /** The keys occur in this order in the list of all nodes. */
  ghost predicate InOrder<K>(order: seq<K>, keys: seq<K>) {
    forall i, j :: 0 <= i < j < |keys| ==> Before(order, keys[i], keys[j])
  }

  function Roots<K>(trees: seq<Tree<K>>): (keys: seq<K>)
    ensures |keys| == |trees| && forall i :: 0 <= i < |trees| ==> keys[i] == trees[i].key
  {
    seq(|trees|, i requires 0 <= i < |trees| => trees[i].key)
  }

  /** Each tree hangs under `parent`, each of its nodes under the node above it, and siblings are in node order. */
  ghost predicate Follow<K(!new)>(p: Parents<K>, parent: Option<K>, trees: seq<Tree<K>>)
    decreases trees
  {
    && InOrder(p.order, Roots(trees))
    && forall i :: 0 <= i < |trees| ==>
         && trees[i].key in p.parent && p.parent[trees[i].key] == parent
         && Follow(p, Some(trees[i].key), trees[i].children)
  }

  lemma {:induction false} ChildrenAreInOrder<K(!new)>(p: K -> bool, order: seq<K>)
    ensures InOrder(order, Filter(p, order))
  {
    if order != [] {
      var init, last := order[..|order| - 1], order[|order| - 1];
      ChildrenAreInOrder(p, init);
      FilterMembers(p, init);
      InOrderSnoc(init, Filter(p, init), last);
      assert order == init + [last];
    }
  }

  /** The children of a node are those whose parent it is, in node order. */
  lemma ChildrenAreThoseBelow<K(!new)>(p: Parents<K>, parent: Option<K>)
    ensures forall k :: k in ChildrenOf(p, parent) <==> k in p.order && k in p.parent && p.parent[k] == parent
    ensures InOrder(p.order, ChildrenOf(p, parent))
  {
    FilterMembers(HangsUnder(p, parent), p.order);
    ChildrenAreInOrder(HangsUnder(p, parent), p.order);
  }

  lemma InOrderSnoc<K(!new)>(order: seq<K>, keys: seq<K>, last: K)
    requires InOrder(order, keys) && forall k :: k in keys ==> k in order
    ensures InOrder(order + [last], keys) && InOrder(order + [last], keys + [last])
  {
    var longer, all := order + [last], keys + [last];
    forall i, j | 0 <= i < j < |all| ensures Before(longer, all[i], all[j]) {
      assert keys[i] in order;
      if j < |keys| {
        assert Before(order, keys[i], keys[j]);
        var a, b :| 0 <= a < b < |order| && order[a] == keys[i] && order[b] == keys[j];
        assert longer[a] == all[i] && longer[b] == all[j];
      } else {
        var a :| 0 <= a < |order| && order[a] == keys[i];
        assert longer[a] == all[i] && longer[|order|] == all[j];
      }
    }
    forall i, j | 0 <= i < j < |keys| ensures Before(longer, keys[i], keys[j]) {
      assert all[i] == keys[i] && all[j] == keys[j];
    }
  }

  lemma {:induction false} GrownTreesFollow<K(!new)>(p: Parents<K>, rank: K -> nat, bound: nat, parent: Option<K>,
      ks: seq<K>)
    requires Ranked(p, rank)
    requires forall x :: x in p.parent ==> rank(x) <= bound
    requires forall k :: k in ks ==> k in p.parent && p.parent[k] == parent
    ensures forall i :: 0 <= i < |ks| ==> Follow(p, Some(ks[i]), GrowAll(p, rank, bound, parent, ks)[i].children)
    decreases if parent.None? then bound + 1 else bound - rank(parent.value), 0, |ks|
  {
    if ks != [] {
      var n := |ks| - 1;
      assert ks[n] in ks;
      GrownTreesFollow(p, rank, bound, parent, ks[..n]);
      FilterMembers(HangsUnder(p, Some(ks[n])), p.order);
      ChildrenAreInOrder(HangsUnder(p, Some(ks[n])), p.order);
      var below := ChildrenOf(p, Some(ks[n]));
      GrownTreesFollow(p, rank, bound, Some(ks[n]), below);
      var trees := GrowAll(p, rank, bound, Some(ks[n]), below);
      assert Roots(trees) == below;
      assert forall i :: 0 <= i < |below| ==> below[i] in below;
      assert Follow(p, Some(ks[n]), trees);
    }
  }

  lemma {:induction false} KeysOfAllSnoc<K>(trees: seq<Tree<K>>, tree: Tree<K>)
    ensures KeysOfAll(trees + [tree]) == KeysOfAll(trees) + Keys(tree)
  {
    if trees == [] {
      assert KeysOfAll([tree]) == Keys(tree) + KeysOfAll([tree][1..]);
      assert trees + [tree] == [tree];
    } else {
      KeysOfAllSnoc(trees[1..], tree);
      assert (trees + [tree])[1..] == trees[1..] + [tree];
    }
  }

  /** The node and everything it hangs under, nearest first. */
  ghost function Lineage<K(!new)>(p: Parents<K>, rank: K -> nat, k: K): seq<K>
    requires Ranked(p, rank)
    decreases rank(k)
  {
    if k in p.parent && p.parent[k].Some? then [k] + Lineage(p, rank, p.parent[k].value) else [k]
  }

  /** Nothing on a lineage outranks its start, and only the start has the start's rank. */
  lemma {:induction false} LineageRanks<K(!new)>(p: Parents<K>, rank: K -> nat, k: K, a: K)
    requires Ranked(p, rank) && a in Lineage(p, rank, k)
    ensures rank(a) <= rank(k) && (rank(a) == rank(k) ==> a == k)
    decreases rank(k)
  {
    if a != k {
      LineageRanks(p, rank, p.parent[k].value, a);
    }
  }

  lemma {:induction false} LineageIsTransitive<K(!new)>(p: Parents<K>, rank: K -> nat, k: K, b: K, a: K)
    requires Ranked(p, rank) && b in Lineage(p, rank, k) && a in Lineage(p, rank, b)
    ensures a in Lineage(p, rank, k)
    decreases rank(k)
  {
    if b != k {
      LineageIsTransitive(p, rank, p.parent[k].value, b, a);
    }
  }

  /** Two different nodes of one lineage never hang under the same node. */
  lemma {:induction false} SiblingsHaveDisjointLines<K(!new)>(p: Parents<K>, rank: K -> nat, k: K, a: K, b: K)
    requires Ranked(p, rank) && WellFormed(p)
    requires a in Lineage(p, rank, k) && b in Lineage(p, rank, k)
    requires a in p.parent && b in p.parent && p.parent[a] == p.parent[b]
    ensures a == b
    decreases rank(k)
  {
    if a == k && b != k {
      LineageRanks(p, rank, p.parent[k].value, b);
    } else if b == k && a != k {
      LineageRanks(p, rank, p.parent[k].value, a);
    } else if a != k && b != k {
      SiblingsHaveDisjointLines(p, rank, p.parent[k].value, a, b);
    }
  }

  lemma LineageSteps<K(!new)>(p: Parents<K>, rank: K -> nat, k: K, a: K)
    requires Ranked(p, rank) && WellFormed(p) && k in p.parent && a in Lineage(p, rank, k)
    ensures a == k || exists c :: c in p.parent && p.parent[c] == Some(a) && c in Lineage(p, rank, k)
    decreases rank(k)
  {
    if a != k {
      var up := p.parent[k].value;
      LineageSteps(p, rank, up, a);
      if a == up {
        assert k in p.parent && p.parent[k] == Some(a) && k in Lineage(p, rank, k);
      }
    }
  }

  /** A grown tree holds exactly the nodes whose lineage passes its root, each once. */
  lemma {:induction false} TreeHoldsItsLine<K(!new)>(p: Parents<K>, rank: K -> nat, bound: nat, k: K)
    requires Ranked(p, rank) && WellFormed(p) && k in p.parent
    requires forall x :: x in p.parent ==> rank(x) <= bound
    ensures Distinct(Keys(Grow(p, rank, bound, k)))
    ensures forall x :: x in Keys(Grow(p, rank, bound, k)) <==> x in p.parent && k in Lineage(p, rank, x)
    decreases bound - rank(k), 1, 0
  {
    var kids := ChildrenOf(p, Some(k));
    FilterMembers(HangsUnder(p, Some(k)), p.order);
    FilterKeepsDistinct(HangsUnder(p, Some(k)), p.order);
    TreesHoldTheirLines(p, rank, bound, Some(k), kids);
    var below := KeysOfAll(GrowAll(p, rank, bound, Some(k), kids));
    forall x ensures x in below <==> x in p.parent && x != k && k in Lineage(p, rank, x) {
      if x in below {
        var c :| c in kids && c in Lineage(p, rank, x);
        assert k in Lineage(p, rank, c);
        LineageIsTransitive(p, rank, x, c, k);
        LineageRanks(p, rank, x, c);
      }
      if x in p.parent && x != k && k in Lineage(p, rank, x) {
        LineageSteps(p, rank, x, k);
        var c :| c in p.parent && p.parent[c] == Some(k) && c in Lineage(p, rank, x);
        assert c in kids;
      }
    }
  }

  lemma {:induction false} TreesHoldTheirLines<K(!new)>(p: Parents<K>, rank: K -> nat, bound: nat, parent: Option<K>,
      ks: seq<K>)
    requires Ranked(p, rank) && WellFormed(p) && Distinct(ks)
    requires forall x :: x in p.parent ==> rank(x) <= bound
    requires forall k :: k in ks ==> k in p.parent && p.parent[k] == parent
    ensures Distinct(KeysOfAll(GrowAll(p, rank, bound, parent, ks)))
    ensures forall x :: x in KeysOfAll(GrowAll(p, rank, bound, parent, ks)) <==>
                        x in p.parent && exists c :: c in ks && c in Lineage(p, rank, x)
    decreases if parent.None? then bound + 1 else bound - rank(parent.value), 0, |ks|
  {
    if ks != [] {
      var n := |ks| - 1;
      var init, last := ks[..n], ks[n];
      assert ks == init + [last];
      assert last in p.parent && p.parent[last] == parent;
      TreesHoldTheirLines(p, rank, bound, parent, init);
      TreeHoldsItsLine(p, rank, bound, last);
      KeysOfAllSnoc(GrowAll(p, rank, bound, parent, init), Grow(p, rank, bound, last));
      var left, right := KeysOfAll(GrowAll(p, rank, bound, parent, init)), Keys(Grow(p, rank, bound, last));
      LinesDoNotMeet(p, rank, parent, init, last, left, right);
      assert KeysOfAll(GrowAll(p, rank, bound, parent, ks)) == left + right;
    }
  }

  /** The lines of siblings have no node in common. */
  lemma LinesDoNotMeet<K(!new)>(p: Parents<K>, rank: K -> nat, parent: Option<K>, init: seq<K>, last: K,
      left: seq<K>, right: seq<K>)
    requires Ranked(p, rank) && WellFormed(p) && Distinct(init + [last])
    requires forall k :: k in init + [last] ==> k in p.parent && p.parent[k] == parent
    requires Distinct(left) && forall x :: x in left <==>
               x in p.parent && exists c :: c in init && c in Lineage(p, rank, x)
    requires Distinct(right) && forall x :: x in right <==> x in p.parent && last in Lineage(p, rank, x)
    ensures Distinct(left + right)
    ensures forall x :: x in left + right <==>
              x in p.parent && exists c :: c in init + [last] && c in Lineage(p, rank, x)
  {
    var all := init + [last];
    assert all[|init|] == last && forall i :: 0 <= i < |init| ==> all[i] == init[i];
    assert forall c :: c in all <==> c in init || c == last;
    forall x | x in left ensures x !in right {
      var c :| c in init && c in Lineage(p, rank, x);
      if last in Lineage(p, rank, x) {
        SiblingsHaveDisjointLines(p, rank, x, c, last);
      }
    }
    DisjointStayDistinct(left, right);
    forall x | x in p.parent && last in Lineage(p, rank, x) ensures exists c :: c in all && c in Lineage(p, rank, x) {
      assert last in all;
    }
  }

  lemma DisjointStayDistinct<K>(left: seq<K>, right: seq<K>)
    requires Distinct(left) && Distinct(right) && forall x :: x in left ==> x !in right
    ensures Distinct(left + right) && forall x :: x in left + right <==> x in left || x in right
  {
    var all := left + right;
    forall i, j | 0 <= i < j < |all| ensures all[i] != all[j] {
      if i < |left| <= j {
        assert left[i] in left && right[j - |left|] in right;
      }
    }
  }

  lemma {:induction false} FilterKeepsDistinct<K>(f: K -> bool, s: seq<K>)
    requires Distinct(s)
    ensures Distinct(Filter(f, s))
    ensures forall i :: 0 <= i < |Filter(f, s)| ==> Filter(f, s)[i] in s
  {
    if s != [] {
      var n := |s| - 1;
      FilterKeepsDistinct(f, s[..n]);
      var kept := Filter(f, s[..n]);
      forall i | 0 <= i < |kept| ensures kept[i] != s[n] && kept[i] in s {
        var j :| 0 <= j < n && s[..n][j] == kept[i];
        assert s[j] == kept[i];
      }
    }
  }

  lemma {:induction false} EveryLineHasARoot<K(!new)>(p: Parents<K>, rank: K -> nat, k: K)
    requires Ranked(p, rank) && WellFormed(p) && k in p.parent
    ensures exists r :: r in p.parent && p.parent[r] == None && r in Lineage(p, rank, k)
    decreases rank(k)
  {
    if p.parent[k].Some? {
      var up := p.parent[k].value;
      EveryLineHasARoot(p, rank, up);
      var r :| r in p.parent && p.parent[r] == None && r in Lineage(p, rank, up);
      assert r in Lineage(p, rank, k);
    }
  }

  /** In the forest every node hangs under its parent, and siblings are in node order. */
  lemma ForestFollows<K(!new)>(p: Parents<K>, rank: K -> nat, bound: nat)
    requires Ranked(p, rank) && forall x :: x in p.parent ==> rank(x) <= bound
    ensures Follow(p, None, Forest(p, rank, bound))
  {
    var roots := ChildrenOf(p, None);
    FilterMembers(HangsUnder(p, None), p.order);
    ChildrenAreInOrder(HangsUnder(p, None), p.order);
    GrownTreesFollow(p, rank, bound, None, roots);
    assert Roots(Forest(p, rank, bound)) == roots;
    assert forall i :: 0 <= i < |roots| ==> roots[i] in roots;
  }

  /** Without cycles the roots span a forest that holds every node exactly once. */
  lemma ForestHoldsEachNodeOnce<K(!new)>(p: Parents<K>, rank: K -> nat, bound: nat)
    requires Ranked(p, rank) && WellFormed(p)
    requires forall x :: x in p.parent ==> rank(x) <= bound
    ensures Distinct(KeysOfAll(Forest(p, rank, bound)))
    ensures forall x :: x in KeysOfAll(Forest(p, rank, bound)) <==> x in p.order
  {
    var roots := ChildrenOf(p, None);
    FilterMembers(HangsUnder(p, None), p.order);
    FilterKeepsDistinct(HangsUnder(p, None), p.order);
    TreesHoldTheirLines(p, rank, bound, None, roots);
    forall x | x in p.parent ensures exists c :: c in roots && c in Lineage(p, rank, x) {
      EveryLineHasARoot(p, rank, x);
      var r :| r in p.parent && p.parent[r] == None && r in Lineage(p, rank, x);
      assert r in roots;
    }
  }

  // ---- When the parent relation has cycles ------------------------------------------

  /** The node is `depth` links below a root. */
  ghost predicate AtDepth<K>(p: Parents<K>, k: K, depth: nat) {
    && k in p.parent
    && (if depth == 0 then p.parent[k] == None
        else p.parent[k].Some? && AtDepth(p, p.parent[k].value, depth - 1))
  }

  ghost predicate ReachesARoot<K>(p: Parents<K>, k: K) {
    exists depth: nat :: AtDepth(p, k, depth)
  }

  lemma RootsAreReached<K>(p: Parents<K>, k: K)
    requires k in p.parent && p.parent[k].None?
    ensures ReachesARoot(p, k)
  {
    assert AtDepth(p, k, 0);
  }

  lemma {:induction false} DepthIsUnique<K>(p: Parents<K>, k: K, m: nat, n: nat)
    requires AtDepth(p, k, m) && AtDepth(p, k, n)
    ensures m == n
  {
    if m > 0 {
      DepthIsUnique(p, p.parent[k].value, m - 1, n - 1);
    }
  }

  lemma {:induction false} RankedNodesHaveADepth<K(!new)>(p: Parents<K>, rank: K -> nat, k: K)
    requires Ranked(p, rank) && WellFormed(p) && k in p.parent
    ensures ReachesARoot(p, k)
    decreases rank(k)
  {
    if p.parent[k].Some? {
      var up := p.parent[k].value;
      RankedNodesHaveADepth(p, rank, up);
      var depth: nat :| AtDepth(p, up, depth);
      assert AtDepth(p, k, depth + 1);
    } else {
      assert AtDepth(p, k, 0);
    }
  }

  /** `n` links up. */
  ghost function Ascend<K>(p: Parents<K>, k: K, n: nat): Option<K> {
    if n == 0 then Some(k)
    else
      var below := Ascend(p, k, n - 1);
      if below.Some? && below.value in p.parent then p.parent[below.value] else None
  }

  /** `n` links lead from the node back to itself. */
  ghost predicate CycleAt<K>(p: Parents<K>, k: K, n: nat) {
    n > 0 && Ascend(p, k, n) == Some(k)
  }

  lemma {:induction false} AscendFurther<K>(p: Parents<K>, k: K, m: nat, n: nat)
    requires Ascend(p, k, m).Some?
    ensures Ascend(p, k, m + n) == Ascend(p, Ascend(p, k, m).value, n)
  {
    if n > 0 {
      AscendFurther(p, k, m, n - 1);
    }
  }

  lemma {:induction false} AscendDefined<K>(p: Parents<K>, k: K, m: nat, n: nat)
    requires m <= n && Ascend(p, k, n).Some?
    ensures Ascend(p, k, m).Some?
    decreases n
  {
    if m < n {
      AscendDefined(p, k, m, n - 1);
    }
  }

  ghost predicate IsPathUp<K>(p: Parents<K>, path: seq<K>) {
    && (forall i :: 0 <= i < |path| ==> path[i] in p.parent)
    && forall i, j :: 0 <= i && j == i + 1 && j < |path| ==> p.parent[path[i]] == Some(path[j])
  }

  lemma {:induction false} PathsAreAscents<K>(p: Parents<K>, path: seq<K>, i: nat, j: nat)
    requires IsPathUp(p, path) && i <= j < |path|
    ensures Ascend(p, path[i], j - i) == Some(path[j])
    decreases j
  {
    if i < j {
      PathsAreAscents(p, path, i, j - 1);
    }
  }

  /** A path up from which no root is reached; `left` holds the nodes off it. */
  ghost predicate ClimbsInVain<K>(p: Parents<K>, path: seq<K>, left: set<K>) {
    && IsPathUp(p, path) && path != [] && !ReachesARoot(p, path[|path| - 1])
    && forall k :: k in p.parent ==> k in path || k in left
  }

  lemma OneHigher<K(!new)>(p: Parents<K>, path: seq<K>, left: set<K>)
    requires WellFormed(p) && ClimbsInVain(p, path, left)
    ensures p.parent[path[|path| - 1]].Some?
    ensures var up := p.parent[path[|path| - 1]].value;
            up !in path ==> up in left && ClimbsInVain(p, path + [up], left - {up})
  {
    var last := path[|path| - 1];
    if p.parent[last].None? {
      assert AtDepth(p, last, 0);
    } else if depth: nat :| AtDepth(p, p.parent[last].value, depth) {
      assert AtDepth(p, last, depth + 1);
    }
  }

  /** Whoever reaches no root runs into a cycle: the nodes are finite in number. */
  lemma {:induction false} UnreachableLeadsToCycle<K(!new)>(p: Parents<K>, path: seq<K>, left: set<K>)
    requires WellFormed(p) && ClimbsInVain(p, path, left)
    ensures exists c: K, n: nat :: CycleAt(p, c, n)
    decreases left
  {
    OneHigher(p, path, left);
    var up := p.parent[path[|path| - 1]].value;
    if i :| 0 <= i < |path| && path[i] == up {
      PathsAreAscents(p, path, i, |path| - 1);
      assert CycleAt(p, up, |path| - i);
    } else {
      UnreachableLeadsToCycle(p, path + [up], left - {up});
    }
  }

  ghost function DepthOf<K>(p: Parents<K>, k: K): nat {
    if ReachesARoot(p, k) then (var depth: nat :| AtDepth(p, k, depth); depth) else 0
  }

  ghost predicate Acyclic<K(!new)>(p: Parents<K>) {
    exists rank: K -> nat :: Ranked(p, rank)
  }

  lemma DepthRanksReachableNodes<K(!new)>(p: Parents<K>)
    requires WellFormed(p)
    requires forall k :: k in p.parent ==> ReachesARoot(p, k)
    ensures Acyclic(p)
  {
    var rank: K -> nat := (k: K) => DepthOf(p, k);
    forall k | k in p.parent && p.parent[k].Some? ensures rank(p.parent[k].value) < rank(k) {
      var up := p.parent[k].value;
      var m: nat :| AtDepth(p, k, m);
      DepthIsUnique(p, k, m, DepthOf(p, k));
      DepthIsUnique(p, up, m - 1, DepthOf(p, up));
    }
    assert Ranked(p, rank);
  }

  /** Every node can be reached from a root exactly when the parent relation has no cycle. */
  lemma AllReachableExactlyWhenAcyclic<K(!new)>(p: Parents<K>)
    requires WellFormed(p)
    ensures (forall k :: k in p.parent ==> ReachesARoot(p, k)) <==> Acyclic(p)
  {
    if Acyclic(p) {
      var rank: K -> nat :| Ranked(p, rank);
      forall k | k in p.parent ensures ReachesARoot(p, k) {
        RankedNodesHaveADepth(p, rank, k);
      }
    }
    if forall k :: k in p.parent ==> ReachesARoot(p, k) {
      DepthRanksReachableNodes(p);
    }
  }
}
