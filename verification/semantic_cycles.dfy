// What becomes of the semantic forest when the combined parent relation has
// cycles (packages/browser-core/src/browser-semantic-tree.ts).

module SemanticCycles {
  import opened Options
  import opened Sequences
  import opened Forests
  import opened SemanticRegistry
  import opened SemanticTree

  /** `n` steps up the combined parent relation. */
  ghost function Climb(r: Registry, key: NodeKey, n: nat): Option<NodeKey> {
    if n == 0 then Some(key)
    else
      var below := Climb(r, key, n - 1);
      if below.None? then None else ParentKey(r, below.value)
  }

  /** Each of the two lies above the other. */
  ghost predicate OnOneCycle(r: Registry, a: NodeKey, b: NodeKey) {
    && (exists m: nat :: m > 0 && Climb(r, a, m) == Some(b))
    && (exists n: nat :: n > 0 && Climb(r, b, n) == Some(a))
  }

  /** A cycle of the combined parent relation holds two different semantic nodes. */
  ghost predicate CycleHoldsTwo(r: Registry, h: Heuristics) {
    exists a, b :: a != b && IsSemantic(r, h, a) && IsSemantic(r, h, b) && OnOneCycle(r, a, b)
  }

  lemma {:induction false} ClimbFurther(r: Registry, key: NodeKey, m: nat, n: nat)
    requires Climb(r, key, m).Some?
    ensures Climb(r, key, m + n) == Climb(r, Climb(r, key, m).value, n)
  {
    if n > 0 {
      ClimbFurther(r, key, m, n - 1);
    }
  }

  // ---- What the search finds, on any input ---------------------------------------------

  ghost predicate NoneBefore(r: Registry, semantic: set<NodeKey>, from: NodeKey, n: nat) {
    forall j: nat :: j < n && Climb(r, from, j).Some? ==> Climb(r, from, j).value !in semantic
  }

  /** A result is the first semantic node on the way up. */
  lemma {:induction false} FoundIsFirst(r: Registry, semantic: set<NodeKey>, from: NodeKey,
      visited: set<NodeKey>) returns (n: nat)
    requires SearchUp(r, semantic, Some(from), visited).Some?
    ensures Climb(r, from, n) == SearchUp(r, semantic, Some(from), visited)
    ensures NoneBefore(r, semantic, from, n)
    decreases r.nodes.Keys - visited
  {
    if from in semantic {
      n := 0;
    } else {
      var up := ParentKey(r, from).value;
      var k := FoundIsFirst(r, semantic, up, visited + {from});
      n := k + 1;
      ClimbFurther(r, from, 1, k);
      forall j: nat | j < n && Climb(r, from, j).Some? ensures Climb(r, from, j).value !in semantic {
        if j > 0 {
          assert Climb(r, from, 1) == Some(up);
          ClimbFurther(r, from, 1, j - 1);
        }
      }
    }
  }

  /** The nodes visited so far are not semantic, and their parents are visited too, or come next. */
  ghost predicate Exhausted(r: Registry, semantic: set<NodeKey>, visited: set<NodeKey>, next: Option<NodeKey>) {
    forall v :: v in visited ==>
      && v !in semantic
      && (ParentKey(r, v).None? || ParentKey(r, v).value in visited || ParentKey(r, v) == next)
  }

  lemma {:induction false} StaysAmongVisited(r: Registry, semantic: set<NodeKey>, visited: set<NodeKey>,
      from: NodeKey, n: nat)
    requires from in visited && Exhausted(r, semantic, visited, Some(from))
    ensures Climb(r, from, n).Some? ==> Climb(r, from, n).value in visited
  {
    if n > 0 {
      StaysAmongVisited(r, semantic, visited, from, n - 1);
    }
  }

  /** Finding nothing means that there is no semantic node on the way up at all. */
  lemma {:induction false} NothingFoundNothingThere(r: Registry, semantic: set<NodeKey>, from: NodeKey,
      visited: set<NodeKey>, n: nat)
    requires SearchUp(r, semantic, Some(from), visited) == None && Exhausted(r, semantic, visited, Some(from))
    ensures Climb(r, from, n).Some? ==> Climb(r, from, n).value !in semantic
    decreases r.nodes.Keys - visited
  {
    if from in visited {
      StaysAmongVisited(r, semantic, visited, from, n);
    } else if n > 0 {
      if ParentKey(r, from).Some? {
        assert Climb(r, from, 1) == ParentKey(r, from);
        ClimbFurther(r, from, 1, n - 1);
        NothingFoundNothingThere(r, semantic, ParentKey(r, from).value, visited + {from}, n - 1);
      } else {
        ClimbStops(r, from, n);
      }
    }
  }

  lemma {:induction false} ClimbStops(r: Registry, key: NodeKey, n: nat)
    requires ParentKey(r, key).None? && n > 0
    ensures Climb(r, key, n).None?
  {
    if n > 1 {
      ClimbStops(r, key, n - 1);
    }
  }

  // ---- Two semantic nodes on one cycle are lost ------------------------------------------

  /** `c` lies on a cycle that `a` and `b` share: it climbs to each of them. */
  ghost predicate ClimbsTo(r: Registry, c: NodeKey, a: NodeKey) {
    exists t: nat :: t > 0 && Climb(r, c, t) == Some(a)
  }

  lemma ClimbsOn(r: Registry, c: NodeKey, a: NodeKey, b: NodeKey)
    requires ClimbsTo(r, c, a) && ClimbsTo(r, a, b)
    ensures ClimbsTo(r, c, b)
  {
    var s: nat :| s > 0 && Climb(r, c, s) == Some(a);
    var t: nat :| t > 0 && Climb(r, a, t) == Some(b);
    ClimbFurther(r, c, s, t);
    assert s + t > 0 && Climb(r, c, s + t) == Some(b);
  }

  /** Whatever lies above a node on a cycle climbs back to that node. */
  lemma {:induction false} AboveClimbsBack(r: Registry, a: NodeKey, n: nat)
    requires ClimbsTo(r, a, a) && Climb(r, a, n).Some?
    ensures ClimbsTo(r, Climb(r, a, n).value, a)
  {
    if n > 0 {
      AboveClimbsBack(r, a, n - 1);
      var c := Climb(r, a, n - 1).value;
      var t: nat :| t > 0 && Climb(r, c, t) == Some(a);
      var up := ParentKey(r, c).value;
      assert Climb(r, c, 1) == Some(up);
      ClimbFurther(r, c, 1, t - 1);
      if t > 1 {
        assert Climb(r, up, t - 1) == Some(a);
      }
    }
  }

  /** If the way up from `c` meets `c` before any other semantic node, it meets no other ever. */
  lemma {:induction false} OnlyItself(r: Registry, semantic: set<NodeKey>, c: NodeKey, period: nat, n: nat)
    requires period > 0 && Climb(r, c, period) == Some(c)
    requires forall j: nat :: 0 < j < period && Climb(r, c, j).Some? ==> Climb(r, c, j).value !in semantic
    ensures Climb(r, c, n).Some? && Climb(r, c, n).value in semantic ==> Climb(r, c, n).value == c
  {
    if n >= period {
      ClimbFurther(r, c, period, n - period);
      OnlyItself(r, semantic, c, period, n - period);
    }
  }

  /** A semantic node below a different semantic node of its cycle has a semantic parent further up. */
  lemma HangsUnderAnother(r: Registry, semantic: set<NodeKey>, c: NodeKey, e: NodeKey)
    requires c != e && e in semantic && ClimbsTo(r, c, e)
    ensures SemanticParent(r, semantic, c).Some? && ClimbsTo(r, c, SemanticParent(r, semantic, c).value)
  {
    var u: nat :| u > 0 && Climb(r, c, u) == Some(e);
    if ParentKey(r, c).None? {
      ClimbStops(r, c, u);
    }
    var up := ParentKey(r, c).value;
    assert Climb(r, c, 1) == Some(up);
    ClimbFurther(r, c, 1, u - 1);
    var found := SearchUp(r, semantic, Some(up), {});
    if found == None {
      NothingFoundNothingThere(r, semantic, up, {}, u - 1);
    }
    var n := FoundIsFirst(r, semantic, up, {});
    ClimbFurther(r, c, 1, n);
    assert Climb(r, c, n + 1) == found;
    if found == Some(c) {
      forall j: nat | 0 < j < n + 1 && Climb(r, c, j).Some? ensures Climb(r, c, j).value !in semantic {
        ClimbFurther(r, c, 1, j - 1);
      }
      OnlyItself(r, semantic, c, n + 1, u);
    }
  }

  /** Above a semantic node of such a cycle the semantic parents go on along the cycle. */
  lemma NextAbove(r: Registry, h: Heuristics, a: NodeKey, b: NodeKey, c: NodeKey)
    requires Consistent(r) && a != b && IsSemantic(r, h, a) && IsSemantic(r, h, b)
    requires OnOneCycle(r, a, b) && ClimbsTo(r, a, c) && c in SemanticParents(r, h).parent
    ensures var up := SemanticParents(r, h).parent[c]; up.Some? && ClimbsTo(r, a, up.value)
  {
    FilterMembers(SemanticIn(r, h), r.order);
    var semantic := set k | k in SemanticKeys(r, h);
    assert ClimbsTo(r, a, b) && ClimbsTo(r, b, a);
    ClimbsOn(r, a, b, a);
    var t: nat :| t > 0 && Climb(r, a, t) == Some(c);
    AboveClimbsBack(r, a, t);
    ClimbsOn(r, c, a, b);
    HangsUnderAnother(r, semantic, c, if c == a then b else a);
    ClimbsOn(r, a, c, SemanticParent(r, semantic, c).value);
  }

  /** No number of links leads from a node of such a cycle to a root. */
  lemma {:induction false} NeverARoot(r: Registry, h: Heuristics, a: NodeKey, b: NodeKey, c: NodeKey, depth: nat)
    requires Consistent(r) && a != b && IsSemantic(r, h, a) && IsSemantic(r, h, b)
    requires OnOneCycle(r, a, b) && ClimbsTo(r, a, c)
    ensures !AtDepth(SemanticParents(r, h), c, depth)
    decreases depth
  {
    var p := SemanticParents(r, h);
    if c in p.parent {
      NextAbove(r, h, a, b, c);
      if depth > 0 {
        NeverARoot(r, h, a, b, p.parent[c].value, depth - 1);
      }
    }
  }

  // ---- Only such cycles lose nodes --------------------------------------------------------

  /** A semantic parent lies above its child. */
  lemma ParentsLieAbove(r: Registry, h: Heuristics, k: NodeKey)
    requires k in SemanticParents(r, h).parent && SemanticParents(r, h).parent[k].Some?
    ensures ClimbsTo(r, k, SemanticParents(r, h).parent[k].value) && SemanticParents(r, h).parent[k].value != k
  {
    var p := SemanticParents(r, h);
    var semantic := set x | x in p.order;
    var up := ParentKey(r, k).value;
    var n := FoundIsFirst(r, semantic, up, {});
    assert Climb(r, k, 1) == Some(up);
    ClimbFurther(r, k, 1, n);
    assert n + 1 > 0 && Climb(r, k, n + 1) == p.parent[k];
  }

  lemma {:induction false} AscentsAreClimbs(r: Registry, h: Heuristics, k: NodeKey, n: nat)
    requires n > 0 && Ascend(SemanticParents(r, h), k, n).Some?
    ensures ClimbsTo(r, k, Ascend(SemanticParents(r, h), k, n).value)
  {
    var p := SemanticParents(r, h);
    var below := Ascend(p, k, n - 1).value;
    ParentsLieAbove(r, h, below);
    if n > 1 {
      AscentsAreClimbs(r, h, k, n - 1);
      ClimbsOn(r, k, below, p.parent[below].value);
    }
  }

  /** A cycle of semantic parents passes through a node and its different parent. */
  lemma AParentCycleHoldsTwo(r: Registry, h: Heuristics, c: NodeKey, n: nat)
    requires n > 0 && Ascend(SemanticParents(r, h), c, n) == Some(c)
    ensures var p := SemanticParents(r, h);
      c in p.parent && p.parent[c].Some? && p.parent[c] != Some(c) && ClimbsTo(r, p.parent[c].value, c)
  {
    var p := SemanticParents(r, h);
    AscendDefined(p, c, 1, n);
    AscendFurther(p, c, 1, n - 1);
    assert Ascend(p, c, 0) == Some(c) && p.parent[c] == Ascend(p, c, 1);
    ParentsLieAbove(r, h, c);
    AscentsAreClimbs(r, h, p.parent[c].value, n - 1);
  }

  lemma SemanticNodesAreThese(r: Registry, h: Heuristics)
    requires Consistent(r)
    ensures forall k :: k in SemanticParents(r, h).parent <==> IsSemantic(r, h, k)
  {
    FilterMembers(SemanticIn(r, h), r.order);
  }

  lemma BothWays(r: Registry, a: NodeKey, b: NodeKey)
    requires ClimbsTo(r, a, b) && ClimbsTo(r, b, a)
    ensures OnOneCycle(r, a, b)
  {
  }

  /**
   * Every semantic node is reached from a root exactly when no cycle of the combined parent relation holds
   * two different semantic nodes. A cycle with a single one, or with none, loses nothing. Equivalently, the
   * semantic parents themselves have no cycle.
   */
  lemma NothingIsLostExactlyWhenNoCycleHoldsTwo(r: Registry, h: Heuristics)
    requires Consistent(r)
    ensures var p := SemanticParents(r, h);
      && (forall k :: k in p.parent <==> IsSemantic(r, h, k))
      && ((forall k :: k in p.parent ==> ReachesARoot(p, k)) <==> !CycleHoldsTwo(r, h))
      && (!CycleHoldsTwo(r, h) <==> Acyclic(p))
  {
    SemanticNodesAreThese(r, h);
    SemanticParentsAreWellFormed(r, h);
    AllReachableExactlyWhenAcyclic(SemanticParents(r, h));
    if a, b :| a != b && IsSemantic(r, h, a) && IsSemantic(r, h, b) && OnOneCycle(r, a, b) {
      CycleNodesAreLost(r, h, a, b);
    }
    if k :| k in SemanticParents(r, h).parent && !ReachesARoot(SemanticParents(r, h), k) {
      ALostNodeShowsSuchACycle(r, h, k);
    }
  }

  lemma ALostNodeShowsSuchACycle(r: Registry, h: Heuristics, k: NodeKey)
    requires Consistent(r) && k in SemanticParents(r, h).parent && !ReachesARoot(SemanticParents(r, h), k)
    ensures CycleHoldsTwo(r, h)
  {
    var p := SemanticParents(r, h);
    SemanticNodesAreThese(r, h);
    SemanticParentsAreWellFormed(r, h);
    UnreachableLeadsToCycle(p, [k], p.parent.Keys);
    var c, n: nat :| CycleAt(p, c, n);
    AParentCycleHoldsTwo(r, h, c, n);
    var up := p.parent[c].value;
    ParentsLieAbove(r, h, c);
    BothWays(r, c, up);
    assert IsSemantic(r, h, c) && IsSemantic(r, h, up);
  }

  /** Both nodes are semantic, and no root leads to them. */
  lemma CycleNodesAreLost(r: Registry, h: Heuristics, a: NodeKey, b: NodeKey)
    requires Consistent(r) && a != b && IsSemantic(r, h, a) && IsSemantic(r, h, b) && OnOneCycle(r, a, b)
    ensures a in SemanticParents(r, h).parent && !ReachesARoot(SemanticParents(r, h), a)
  {
    FilterMembers(SemanticIn(r, h), r.order);
    assert ClimbsTo(r, a, b) && ClimbsTo(r, b, a);
    ClimbsOn(r, a, b, a);
    forall depth: nat ensures !AtDepth(SemanticParents(r, h), a, depth) {
      NeverARoot(r, h, a, b, a, depth);
    }
  }

  // ---- A page that loses both of its nodes -------------------------------------------------

  const K1: NodeKey := Canonical("main", 1)
  const K2: NodeKey := Canonical("main", 2)

  /** Two accessibility nodes that list each other as children. */
  const MUTUAL: seq<AxNode> := [AxNode("1", Some(1), ["2"], false), AxNode("2", Some(2), ["1"], false)]

  const BOTH: seq<Target> := [Target(1, None, None), Target(2, None, None)]

  function Bare(id: BackendId): CanonicalNode {
    CanonicalNode("main", Some(id), None, None, None, None, None, None, None)
  }

  lemma MutualNodesAreEntered()
    ensures EnterAxAll(Empty("main"), MUTUAL) == (Entered(), map["1" := K1, "2" := K2])
  {
    var r0 := Empty("main");
    var r1 := Registry("main", [K1], map[K1 := Bare(1).(ax := Some(MUTUAL[0]))]);
    assert ResolveAx(r0, MUTUAL[0]) == None;
    assert EnterAx(r0, MUTUAL[0]) == r1;
    NoMatch(r1);
    assert EnterAx(r1, MUTUAL[1]) == Entered();
    var one := MUTUAL[..|MUTUAL| - 1];
    assert one == [MUTUAL[0]] && one[..|one| - 1] == [];
    assert EnterAxAll(r0, []) == (r0, map[]);
    assert EnterAxAll(r0, one) == (r1, map["1" := K1]);
  }

  function Entered(): Registry {
    Registry("main", [K1, K2], map[K1 := Bare(1).(ax := Some(MUTUAL[0])), K2 := Bare(2).(ax := Some(MUTUAL[1]))])
  }

  lemma NoMatch(r: Registry)
    requires r.order == [K1] && K1 in r.nodes && r.nodes[K1].backendNodeId == Some(1)
    ensures ResolveAx(r, MUTUAL[1]) == None
  {
    FilterMembers(ForBackend(r, 2), r.order);
    var matches := Filter(ForBackend(r, 2), r.order);
    FirstIsMember(matches);
    assert matches == [];
  }

  lemma FirstIsMember<T>(s: seq<T>)
    ensures s == [] || s[0] in s
  {
  }

  lemma OneChild(r: Registry, keys: AxKeys, parent: NodeKey, id: string)
    ensures LinkAxChildren(r, keys, parent, [id]) == LinkAxChild(r, keys, parent, id)
  {
    var ids := [id];
    assert ids[..|ids| - 1] == [];
  }

  lemma TwoNodes(r: Registry, keys: AxKeys, a: AxNode, b: AxNode)
    requires a.nodeId in keys && b.nodeId in keys
    ensures LinkAx(r, keys, [a, b])
      == LinkAxChildren(LinkAxChildren(r, keys, keys[a.nodeId], a.childIds), keys, keys[b.nodeId], b.childIds)
  {
    var two, one := [a, b], [a];
    assert two[..|two| - 1] == one && one[..|one| - 1] == [];
    assert LinkAx(r, keys, []) == r;
    assert LinkAx(r, keys, one) == LinkAxChildren(r, keys, keys[a.nodeId], a.childIds);
  }

  function Linked(): Registry {
    Registry("main", [K1, K2], map[K1 := Bare(1).(ax := Some(MUTUAL[0]), axParent := Some(K2)),
                                   K2 := Bare(2).(ax := Some(MUTUAL[1]), axParent := Some(K1))])
  }

  lemma MutualNodesAreLinked()
    ensures AddAxTree(Empty("main"), MUTUAL) == Linked()
  {
    MutualNodesAreEntered();
    var keys: AxKeys := map["1" := K1, "2" := K2];
    TwoNodes(Entered(), keys, MUTUAL[0], MUTUAL[1]);
    OneChild(Entered(), keys, K1, "2");
    var once := LinkAxChild(Entered(), keys, K1, "2");
    OneChild(once, keys, K2, "1");
    assert LinkAxChild(once, keys, K2, "1") == Linked();
    assert MUTUAL == [MUTUAL[0], MUTUAL[1]];
  }

  /** The registry that the page assembles. */
  ghost predicate Mutual(r: Registry) {
    && r.order == [K1, K2] && r.nodes.Keys == {K1, K2}
    && r.nodes[K1] == Bare(1).(ax := Some(MUTUAL[0]), axParent := Some(K2), target := Some(BOTH[0]))
    && r.nodes[K2] == Bare(2).(ax := Some(MUTUAL[1]), axParent := Some(K1), target := Some(BOTH[1]))
  }

  lemma MutualRegistry()
    ensures Mutual(Assemble("main", None, [], MUTUAL, BOTH))
  {
    MutualNodesAreLinked();
    var one := BOTH[..|BOTH| - 1];
    assert one == [BOTH[0]] && one[..|one| - 1] == [];
    assert AddInteractiveElements(Linked(), one) == AddTarget(Linked(), BOTH[0]);
    assert AddInteractiveElements(Linked(), BOTH) == AddTarget(AddTarget(Linked(), BOTH[0]), BOTH[1]);
  }

  lemma MutualNodesAreLost(r: Registry, h: Heuristics)
    requires Mutual(r)
    ensures Consistent(r) && IsSemantic(r, h, K1) && IsSemantic(r, h, K2)
    ensures !ReachesARoot(SemanticParents(r, h), K1) && !ReachesARoot(SemanticParents(r, h), K2)
  {
    assert Climb(r, K1, 0) == Some(K1) && Climb(r, K1, 1) == Some(K2);
    assert Climb(r, K2, 0) == Some(K2) && Climb(r, K2, 1) == Some(K1);
    CycleNodesAreLost(r, h, K1, K2);
    CycleNodesAreLost(r, h, K2, K1);
  }

  lemma MutualHasNoRoots(r: Registry, h: Heuristics)
    requires Mutual(r)
    ensures ChildrenOf(SemanticParents(r, h), None) == []
  {
    var p := SemanticParents(r, h);
    MutualNodesAreLost(r, h);
    SemanticNodesAreThese(r, h);
    FilterMembers(HangsUnder(p, None), p.order);
    FirstIsMember(ChildrenOf(p, None));
    forall k | k in p.parent ensures p.parent[k].Some? {
      assert k == K1 || k == K2;
      if p.parent[k].None? {
        RootsAreReached(p, k);
      }
    }
  }

  /** Whatever the heuristics: both are interactive targets, and the page tree has no root at all. */
  lemma MutualTargetsAreLost(h: Heuristics)
    ensures var r := Assemble("main", None, [], MUTUAL, BOTH);
      && IsSemantic(r, h, K1) && IsSemantic(r, h, K2)
      && ChildrenOf(SemanticParents(r, h), None) == []
  {
    MutualRegistry();
    MutualNodesAreLost(Assemble("main", None, [], MUTUAL, BOTH), h);
    MutualHasNoRoots(Assemble("main", None, [], MUTUAL, BOTH), h);
  }
}
