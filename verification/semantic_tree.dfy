// From canonical nodes to the semantic forest: every semantic node hangs under its
// nearest semantic ancestor (packages/browser-core/src/browser-semantic-tree.ts).

module SemanticTree {
  import opened Options
  import opened Sequences
  import opened Forests
  import opened SemanticRegistry

  /** The role, name and visibility heuristics, left uninterpreted. */
  datatype Heuristics = Heuristics(
    hidden: CanonicalNode -> bool,
    meaningful: (CanonicalNode, Option<CanonicalNode>) -> bool)

  // ---- Which canonical nodes are semantic --------------------------------------------

  function Lookup(r: Registry, key: Option<NodeKey>): Option<CanonicalNode> {
    if key.Some? && key.value in r.nodes then Some(r.nodes[key.value]) else None
  }

  predicate IsAliasedSource(r: Registry, key: NodeKey) {
    exists i :: 0 <= i < |r.order| && r.order[i] in r.nodes && r.nodes[r.order[i]].semanticSource == Some(key)
  }

  predicate IsSemantic(r: Registry, h: Heuristics, key: NodeKey) {
    && key in r.nodes
    && var c := r.nodes[key];
       && !(c.dom.Some? && c.dom.value.textual)
       && !(c.ax.Some? && c.ax.value.ignored && c.target.None?)
       && !(c.target.None? && h.hidden(c))
       && !(IsAliasedSource(r, key) && c.target.None?)
       && (c.target.Some? || h.meaningful(c, Lookup(r, c.semanticSource)))
  }

  function SemanticIn(r: Registry, h: Heuristics): NodeKey -> bool {
    (k: NodeKey) => IsSemantic(r, h, k)
  }

  function SemanticKeys(r: Registry, h: Heuristics): seq<NodeKey> {
    Filter(SemanticIn(r, h), r.order)
  }

  /**
   * A target is shown unless it is a text or a comment; any other node is shown when it is neither of these,
   * not ignored, not hidden, no element's semantic source, and means something.
   */
  lemma SemanticExactlyWhen(r: Registry, h: Heuristics, key: NodeKey)
    requires Consistent(r) && key in r.nodes
    ensures var c := r.nodes[key];
            var textual := c.dom.Some? && c.dom.value.textual;
            && (c.target.Some? ==> (IsSemantic(r, h, key) <==> !textual))
            && (c.target.None? ==>
                  (IsSemantic(r, h, key) <==>
                    && !textual && !(c.ax.Some? && c.ax.value.ignored) && !h.hidden(c)
                    && (forall k :: k in r.nodes ==> r.nodes[k].semanticSource != Some(key))
                    && h.meaningful(c, if c.semanticSource.Some? && c.semanticSource.value in r.nodes
                                       then Some(r.nodes[c.semanticSource.value]) else None)))
  {
    assert forall i :: 0 <= i < |r.order| ==> r.order[i] in r.nodes;
  }

  // ---- The nearest semantic ancestor ---------------------------------------------------

  /** DOM ancestry first, accessibility ancestry as the fallback. */
  function ParentKey(r: Registry, key: NodeKey): Option<NodeKey> {
    if key !in r.nodes then None
    else if r.nodes[key].domParent.Some? then r.nodes[key].domParent
    else r.nodes[key].axParent
  }

  /** The search upward from a key, stopping at a semantic node, at a dead end or at a visited node. */
  function SearchUp(r: Registry, semantic: set<NodeKey>, from: Option<NodeKey>, visited: set<NodeKey>): Option<NodeKey>
    decreases r.nodes.Keys - visited
  {
    if from == None || from.value in visited then None
    else if from.value in semantic then from
    else if from.value !in r.nodes then None
    else SearchUp(r, semantic, ParentKey(r, from.value), visited + {from.value})
  }

  function SemanticParent(r: Registry, semantic: set<NodeKey>, key: NodeKey): Option<NodeKey> {
    var found := SearchUp(r, semantic, ParentKey(r, key), {});
    if found == Some(key) then None else found
  }

  function SemanticParents(r: Registry, h: Heuristics): Parents<NodeKey> {
    var keys := SemanticKeys(r, h);
    var semantic := set k | k in keys;
    Parents(keys, map k | k in semantic :: SemanticParent(r, semantic, k))
  }

  // ---- Acyclic input: ancestors, nearest first ---------------------------------------------

  ghost predicate CombinedRanked(r: Registry, rank: NodeKey -> nat) {
    forall k :: k in r.nodes && ParentKey(r, k).Some? ==> rank(ParentKey(r, k).value) < rank(k)
  }

  ghost function Ancestors(r: Registry, rank: NodeKey -> nat, key: NodeKey): seq<NodeKey>
    requires CombinedRanked(r, rank)
    decreases rank(key)
  {
    var parent := ParentKey(r, key);
    if parent == None then [] else [parent.value] + Ancestors(r, rank, parent.value)
  }

  /** The first member of `semantic` on a list. */
  function FirstSemantic(semantic: set<NodeKey>, keys: seq<NodeKey>): Option<NodeKey> {
    if keys == [] then None
    else if keys[0] in semantic then Some(keys[0])
    else FirstSemantic(semantic, keys[1..])
  }

  lemma {:induction false} SearchUpFindsTheNearest(r: Registry, rank: NodeKey -> nat, semantic: set<NodeKey>,
                                                   from: NodeKey, visited: set<NodeKey>)
    requires CombinedRanked(r, rank)
    requires forall v :: v in visited ==> rank(v) > rank(from)
    ensures SearchUp(r, semantic, Some(from), visited) == FirstSemantic(semantic, [from] + Ancestors(r, rank, from))
    decreases rank(from)
  {
    var all := [from] + Ancestors(r, rank, from);
    assert all[1..] == Ancestors(r, rank, from);
    if from !in semantic && ParentKey(r, from).Some? {
      SearchUpFindsTheNearest(r, rank, semantic, ParentKey(r, from).value, visited + {from});
    }
  }

  lemma {:induction false} AncestorsRankLower(r: Registry, rank: NodeKey -> nat, key: NodeKey, a: NodeKey)
    requires CombinedRanked(r, rank) && a in Ancestors(r, rank, key)
    ensures rank(a) < rank(key)
    decreases rank(key)
  {
    var up := ParentKey(r, key).value;
    if a != up {
      AncestorsRankLower(r, rank, up, a);
    }
  }

  lemma {:induction false} FirstSemanticIsAMember(semantic: set<NodeKey>, keys: seq<NodeKey>)
    ensures var first := FirstSemantic(semantic, keys);
            && (first.Some? ==> first.value in semantic && first.value in keys)
            && (first.None? <==> forall k :: k in keys ==> k !in semantic)
  {
    if keys != [] && keys[0] !in semantic {
      FirstSemanticIsAMember(semantic, keys[1..]);
      assert keys == [keys[0]] + keys[1..];
    }
  }

  /** On acyclic input the semantic parent is the first semantic node among the proper ancestors. */
  lemma SemanticParentIsTheNearest(r: Registry, rank: NodeKey -> nat, semantic: set<NodeKey>, key: NodeKey)
    requires CombinedRanked(r, rank)
    ensures SemanticParent(r, semantic, key) == FirstSemantic(semantic, Ancestors(r, rank, key))
    ensures SemanticParent(r, semantic, key).Some? ==>
              && SemanticParent(r, semantic, key).value in semantic
              && rank(SemanticParent(r, semantic, key).value) < rank(key)
  {
    var line := Ancestors(r, rank, key);
    FirstSemanticIsAMember(semantic, line);
    if ParentKey(r, key).Some? {
      SearchUpFindsTheNearest(r, rank, semantic, ParentKey(r, key).value, {});
      var first := FirstSemantic(semantic, line);
      if first.Some? {
        AncestorsRankLower(r, rank, key, first.value);
      }
    }
  }

  /** The first semantic node of the line, or none if it has none. */
  ghost predicate Nearest(r: Registry, h: Heuristics, line: seq<NodeKey>, found: Option<NodeKey>) {
    match found
    case None => forall i :: 0 <= i < |line| ==> !IsSemantic(r, h, line[i])
    case Some(k) =>
      exists i :: 0 <= i < |line| && line[i] == k && IsSemantic(r, h, k)
                  && forall j :: 0 <= j < i ==> !IsSemantic(r, h, line[j])
  }

  lemma {:induction false} FirstSemanticIsNearest(r: Registry, h: Heuristics, semantic: set<NodeKey>,
      line: seq<NodeKey>)
    requires forall k :: k in semantic <==> IsSemantic(r, h, k)
    ensures Nearest(r, h, line, FirstSemantic(semantic, line))
  {
    if line != [] && line[0] !in semantic {
      var rest := line[1..];
      FirstSemanticIsNearest(r, h, semantic, rest);
      assert forall j :: 0 < j < |line| ==> line[j] == rest[j - 1];
      var found := FirstSemantic(semantic, rest);
      if found.Some? {
        var i :| 0 <= i < |rest| && rest[i] == found.value && forall j :: 0 <= j < i ==> !IsSemantic(r, h, rest[j]);
        assert line[i + 1] == found.value;
      }
    }
  }

  lemma SemanticParentsAreNearest(r: Registry, h: Heuristics, rank: NodeKey -> nat, k: NodeKey)
    requires Consistent(r) && CombinedRanked(r, rank) && IsSemantic(r, h, k)
    ensures k in SemanticParents(r, h).parent
    ensures Nearest(r, h, Ancestors(r, rank, k), SemanticParents(r, h).parent[k])
  {
    var p := SemanticParents(r, h);
    var semantic := set x | x in p.order;
    FilterMembers(SemanticIn(r, h), r.order);
    SemanticParentIsTheNearest(r, rank, semantic, k);
    FirstSemanticIsNearest(r, h, semantic, Ancestors(r, rank, k));
  }

  lemma SemanticParentsAreWellFormed(r: Registry, h: Heuristics)
    requires Consistent(r)
    ensures WellFormed(SemanticParents(r, h))
  {
    var p := SemanticParents(r, h);
    FilterKeepsDistinct(SemanticIn(r, h), r.order);
    var semantic := set k | k in p.order;
    forall k | k in p.parent && p.parent[k].Some? ensures p.parent[k].value in p.parent {
      SearchUpStaysSemantic(r, semantic, ParentKey(r, k), {});
    }
  }

  lemma SemanticParentsBySearch(r: Registry, h: Heuristics)
    requires Consistent(r)
    ensures var p := SemanticParents(r, h);
            var semantic := set k | k in SemanticKeys(r, h);
            && p.parent.Keys == semantic
            && (forall k :: k in p.parent ==> p.parent[k] == SemanticParent(r, semantic, k))
            && (forall k :: k in r.order ==> (k in semantic <==> IsSemantic(r, h, k)))
  {
    FilterMembers(SemanticIn(r, h), r.order);
  }

  lemma {:induction false} SearchUpStaysSemantic(r: Registry, semantic: set<NodeKey>, from: Option<NodeKey>,
      visited: set<NodeKey>)
    ensures var found := SearchUp(r, semantic, from, visited); found.Some? ==> found.value in semantic
    decreases r.nodes.Keys - visited
  {
    if from.Some? && from.value !in visited && from.value !in semantic && from.value in r.nodes {
      SearchUpStaysSemantic(r, semantic, ParentKey(r, from.value), visited + {from.value});
    }
  }

  /** Acyclic input yields a forest with every semantic node exactly once, each under its nearest semantic ancestor. */
  lemma AcyclicInputYieldsAForest(r: Registry, h: Heuristics, rank: NodeKey -> nat, bound: nat)
    requires Consistent(r) && CombinedRanked(r, rank)
    requires forall k :: k in r.nodes ==> rank(k) <= bound
    ensures var p := SemanticParents(r, h);
            && WellFormed(p) && Ranked(p, rank)
            && (forall k :: k in p.parent ==> k in r.nodes && rank(k) <= bound)
            && Distinct(KeysOfAll(Forest(p, rank, bound)))
            && (forall k :: k in KeysOfAll(Forest(p, rank, bound)) <==> k in r.nodes && IsSemantic(r, h, k))
            && Follow(p, None, Forest(p, rank, bound))
            && (forall k :: k in p.parent ==> Nearest(r, h, Ancestors(r, rank, k), p.parent[k]))
  {
    var p := SemanticParents(r, h);
    SemanticParentsAreWellFormed(r, h);
    FilterMembers(SemanticIn(r, h), r.order);
    var semantic := set x | x in p.order;
    forall k | k in p.parent
      ensures Nearest(r, h, Ancestors(r, rank, k), p.parent[k])
      ensures p.parent[k].Some? ==> rank(p.parent[k].value) < rank(k)
    {
      SemanticParentIsTheNearest(r, rank, semantic, k);
      SemanticParentsAreNearest(r, h, rank, k);
    }
    ForestHoldsEachNodeOnce(p, rank, bound);
    ForestFollows(p, rank, bound);
  }

  /** Every interactive target outside a text or comment node is in the forest. */
  lemma EveryTargetAppears(r: Registry, h: Heuristics, rank: NodeKey -> nat, bound: nat, key: NodeKey)
    requires Consistent(r) && CombinedRanked(r, rank)
    requires forall k :: k in r.nodes ==> rank(k) <= bound
    requires key in r.nodes && r.nodes[key].target.Some?
    requires r.nodes[key].dom.Some? ==> !r.nodes[key].dom.value.textual
    ensures var p := SemanticParents(r, h);
            && Ranked(p, rank) && (forall k :: k in p.parent ==> rank(k) <= bound)
            && key in KeysOfAll(Forest(p, rank, bound))
  {
    AcyclicInputYieldsAForest(r, h, rank, bound);
  }

  // ---- The builder -----------------------------------------------------------------------------

  /** `buildSemanticPageTree` after the registry is filled: children arrays are pushed to in node order. */
  class TreeBuilder {
    const registry: Registry
    const heuristics: Heuristics
    var semantic: set<NodeKey>
    var roots: seq<NodeKey>
    var children: map<NodeKey, seq<NodeKey>>

    constructor (registry: Registry, heuristics: Heuristics)
      ensures this.registry == registry && this.heuristics == heuristics
    {
      this.registry, this.heuristics := registry, heuristics;
      semantic, roots, children := {}, [], map[];
    }

    method SelectSemanticNodes()
      requires Consistent(registry)
      modifies this`semantic
      ensures semantic == set k | k in SemanticKeys(registry, heuristics)
    {
      semantic := {};
      var order := registry.order;
      ghost var p := SemanticIn(registry, heuristics);
      for i := 0 to |order|
        invariant semantic == set k | k in Filter(p, order[..i])
      {
        FilterSnoc(p, order[..i], order[i]);
        assert order[..i + 1] == order[..i] + [order[i]];
        if IsSemantic(registry, heuristics, order[i]) {
          semantic := semantic + {order[i]};
        }
      }
      assert order[..|order|] == order;
    }

    /** The search with its set of visited keys; it ends on cyclic input too. */
    method NearestSemanticParent(key: NodeKey) returns (parent: Option<NodeKey>)
      ensures parent == SearchUp(registry, semantic, ParentKey(registry, key), {})
    {
      var visited: set<NodeKey> := {};
      var from := ParentKey(registry, key);
      while from.Some? && from.value !in visited
        invariant SearchUp(registry, semantic, ParentKey(registry, key), {}) ==
            SearchUp(registry, semantic, from, visited)
        decreases registry.nodes.Keys - visited, if from.Some? then 1 else 0
      {
        if from.value in semantic {
          return from;
        }
        if from.value !in registry.nodes {
          return None;
        }
        visited := visited + {from.value};
        from := ParentKey(registry, from.value);
      }
      return None;
    }

    /** Roots and children so far, when the semantic keys in `done` have been placed. */
    ghost predicate Placed(p: Parents<NodeKey>, done: seq<NodeKey>)
      reads this
    {
      && roots == Filter(HangsUnder(p, None), done)
      && children.Keys == p.parent.Keys
      && forall k :: k in children ==> children[k] == Filter(HangsUnder(p, Some(k)), done)
    }

    static lemma SnocForEachParent(p: Parents<NodeKey>, done: seq<NodeKey>, key: NodeKey)
      requires key in p.parent
      ensures forall k: Option<NodeKey> :: Filter(HangsUnder(p, k), done + [key]) ==
                Filter(HangsUnder(p, k), done) + (if p.parent[key] == k then [key] else [])
    {
      forall k: Option<NodeKey> ensures Filter(HangsUnder(p, k), done + [key]) ==
                Filter(HangsUnder(p, k), done) + (if p.parent[key] == k then [key] else []) {
        FilterSnoc(HangsUnder(p, k), done, key);
      }
    }

    method Place(key: NodeKey, parent: Option<NodeKey>, ghost p: Parents<NodeKey>, ghost done: seq<NodeKey>)
      requires key in p.parent && p.parent[key] == parent && (parent.Some? ==> parent.value in p.parent)
      requires Placed(p, done)
      modifies this`roots, this`children
      ensures Placed(p, done + [key])
    {
      SnocForEachParent(p, done, key);
      if parent.Some? {
        children := children[parent.value := children[parent.value] + [key]];
      } else {
        roots := roots + [key];
      }
    }

    /** A node that is its own nearest semantic parent becomes a root. */
    method OtherSemanticParent(key: NodeKey) returns (parent: Option<NodeKey>)
      requires key in registry.nodes
      ensures parent == SemanticParent(registry, semantic, key)
    {
      parent := NearestSemanticParent(key);
      if parent == Some(key) {
        parent := None;
      }
    }

    method PlaceAll(ghost p: Parents<NodeKey>)
      requires WellFormed(p) && semantic == p.parent.Keys
      requires p.order == SemanticKeys(registry, heuristics)
      requires forall k :: k in p.parent ==> p.parent[k] == SemanticParent(registry, semantic, k)
      requires forall k :: k in registry.order ==> (k in semantic <==> IsSemantic(registry, heuristics, k))
      requires roots == [] && children == map k | k in semantic :: []
      modifies this`roots, this`children
      ensures Placed(p, p.order)
    {
      var order := registry.order;
      ghost var f := SemanticIn(registry, heuristics);
      for i := 0 to |order|
        invariant Placed(p, Filter(f, order[..i]))
      {
        FilterSnoc(f, order[..i], order[i]);
        assert order[..i + 1] == order[..i] + [order[i]];
        if order[i] in semantic {
          var parent := OtherSemanticParent(order[i]);
          Place(order[i], parent, p, Filter(f, order[..i]));
        }
      }
      assert order[..|order|] == order;
    }

    /** The roots and the children of each node are those of the semantic parent relation. */
    method Build()
      requires Consistent(registry)
      modifies this
      ensures var p := SemanticParents(registry, heuristics);
              && roots == ChildrenOf(p, None)
              && children.Keys == p.parent.Keys
              && forall k :: k in children ==> children[k] == ChildrenOf(p, Some(k))
    {
      SelectSemanticNodes();
      ghost var p := SemanticParents(registry, heuristics);
      SemanticParentsAreWellFormed(registry, heuristics);
      SemanticParentsBySearch(registry, heuristics);
      roots := [];
      children := map k | k in semantic :: [];
      PlaceAll(p);
    }
  }
}
