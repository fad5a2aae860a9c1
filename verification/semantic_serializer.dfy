// The page-local serialization of a semantic tree under a node and a byte budget
// (packages/browser-core/src/browser-semantic-serializer.ts).

module SemanticSerializer {
  import opened Options
  import opened Sequences
  import opened StableSort
  import opened Forests

  type Ref = string

  /** `contextRole` says that the role is one of the model's context roles. */
  datatype SemanticNode = SemanticNode(id: string, contextRole: bool, targetKey: Option<string>,
      children: seq<SemanticNode>)

  datatype AgentNode = AgentNode(id: string, ref: Option<Ref>, baseBytes: nat, children: seq<AgentNode>)

  /** `baseBytes` is the byte length of a node's own JSON, without its children. */
  datatype Page = Page(
    refs: map<string, Ref>,
    allowed: set<Ref>,
    maxNodes: nat,
    maxBytes: nat,
    baseBytes: SemanticNode -> nat)

  datatype Progress = Progress(nodes: nat, bytes: nat, truncated: bool)

  function TargetOf(page: Page, node: SemanticNode): Option<Ref> {
    if node.targetKey.Some? && node.targetKey.value in page.refs then Some(page.refs[node.targetKey.value]) else None
  }

  // ---- Counting targets ------------------------------------------------------------------

  datatype Count = Count(anyActionable: nat, allowedActionable: nat)

  function Own(page: Page, node: SemanticNode): Count {
    match TargetOf(page, node)
    case None => Count(0, 0)
    case Some(ref) => Count(1, if ref in page.allowed then 1 else 0)
  }

  function CountOf(page: Page, node: SemanticNode): Count
    decreases node
  {
    var own, below := Own(page, node), CountAll(page, node.children);
    Count(own.anyActionable + below.anyActionable, own.allowedActionable + below.allowedActionable)
  }

  function CountAll(page: Page, nodes: seq<SemanticNode>): Count
    decreases nodes
  {
    if nodes == [] then Count(0, 0)
    else
      var before, last := CountAll(page, nodes[..|nodes| - 1]), CountOf(page, nodes[|nodes| - 1]);
      Count(before.anyActionable + last.anyActionable, before.allowedActionable + last.allowedActionable)
  }

  // ---- Serializing -------------------------------------------------------------------------

  function AllowedCount(page: Page): SemanticNode -> int {
    (node: SemanticNode) => CountOf(page, node).allowedActionable
  }

  function ActionableFirst(page: Page, nodes: seq<SemanticNode>): seq<SemanticNode> {
    Sort(AllowedCount(page), nodes)
  }

  /** Dropped on purpose, whatever the budget. */
  predicate Excluded(page: Page, node: SemanticNode, contextual: bool) {
    var target, count := TargetOf(page, node), CountOf(page, node);
    if target.Some? then target.value !in page.allowed
    else
      || (count.anyActionable > 0 && count.allowedActionable == 0)
      || (count.allowedActionable == 0 && !contextual && !node.contextRole)
  }

  predicate OverBudget(page: Page, node: SemanticNode, s: Progress) {
    s.nodes >= page.maxNodes || s.bytes + page.baseBytes(node) > page.maxBytes
  }

  ghost predicate Below(nodes: seq<SemanticNode>, owner: SemanticNode) {
    forall i :: 0 <= i < |nodes| ==> nodes[i] < owner
  }

  function Serialize(page: Page, node: SemanticNode, contextual: bool, s: Progress): (Option<AgentNode>, Progress)
    decreases node, 0
  {
    if Excluded(page, node, contextual) then (None, s)
    else if OverBudget(page, node, s) then (None, s.(truncated := true))
    else
      var entered := Progress(s.nodes + 1, s.bytes + page.baseBytes(node), s.truncated);
      ChildrenSortBelow(page, node);
      var (children, after) := SerializeAll(page, node, ActionableFirst(page, node.children),
                                            CountOf(page, node).allowedActionable > 0 || contextual, entered);
      (Some(AgentNode(node.id, TargetOf(page, node), page.baseBytes(node), children)), after)
  }

  function SerializeAll(page: Page, ghost owner: SemanticNode, nodes: seq<SemanticNode>, contextual: bool, s: Progress)
    : (seq<AgentNode>, Progress)
    requires Below(nodes, owner)
    decreases owner, 0, |nodes|
  {
    if nodes == [] then ([], s)
    else
      var n := |nodes| - 1;
      var (before, mid) := SerializeAll(page, owner, nodes[..n], contextual, s);
      var (last, after) := Serialize(page, nodes[n], contextual, mid);
      (if last.Some? then before + [last.value] else before, after)
  }

  lemma ChildrenSortBelow(page: Page, node: SemanticNode)
    ensures Below(ActionableFirst(page, node.children), node)
  {
    SortMembers(AllowedCount(page), node.children);
    var sorted := ActionableFirst(page, node.children);
    forall i | 0 <= i < |sorted| ensures sorted[i] < node {
      assert sorted[i] in sorted;
      var j :| 0 <= j < |node.children| && node.children[j] == sorted[i];
    }
  }

  datatype SerializedPage = SerializedPage(roots: seq<AgentNode>, truncated: bool)

  function Top(roots: seq<SemanticNode>): SemanticNode {
    SemanticNode("", false, None, roots)
  }

  /** `owner` only bounds the recursion: the roots of the tree are serialized like children of nothing. */
  function SerializePage(page: Page, roots: seq<SemanticNode>, truncated: bool): (SerializedPage, Progress) {
    ChildrenSortBelow(page, Top(roots));
    var (nodes, s) := SerializeAll(page, Top(roots), ActionableFirst(page, roots), false, Progress(0, 0, truncated));
    (SerializedPage(nodes, s.truncated), s)
  }

  // ---- Truncation is always forced -----------------------------------------------------------

  ghost predicate Descendant(root: SemanticNode, n: SemanticNode)
    decreases root
  {
    n == root || exists i :: 0 <= i < |root.children| && Descendant(root.children[i], n)
  }

  ghost predicate DescendantOfSome(roots: seq<SemanticNode>, n: SemanticNode) {
    exists i :: 0 <= i < |roots| && Descendant(roots[i], n)
  }

  /** With this progress some node of the trees cannot be added any more. */
  ghost predicate Exhausted(page: Page, roots: seq<SemanticNode>, s: Progress) {
    s.nodes >= page.maxNodes || exists n :: DescendantOfSome(roots, n) && s.bytes + page.baseBytes(n) > page.maxBytes
  }

  lemma ExhaustedExtends(page: Page, roots: seq<SemanticNode>, more: seq<SemanticNode>, s: Progress, later: Progress)
    requires Exhausted(page, roots, s) && s.nodes <= later.nodes && s.bytes <= later.bytes
    requires forall n :: n in roots ==> n in more
    ensures Exhausted(page, more, later)
  {
    if s.nodes < page.maxNodes {
      var n :| DescendantOfSome(roots, n) && s.bytes + page.baseBytes(n) > page.maxBytes;
      var i :| 0 <= i < |roots| && Descendant(roots[i], n);
      assert roots[i] in more;
      var j :| 0 <= j < |more| && more[j] == roots[i];
      assert DescendantOfSome(more, n);
    }
  }

  lemma ExhaustedBelow(page: Page, node: SemanticNode, s: Progress)
    requires Exhausted(page, node.children, s)
    ensures Exhausted(page, [node], s)
  {
    if s.nodes < page.maxNodes {
      var n :| DescendantOfSome(node.children, n) && s.bytes + page.baseBytes(n) > page.maxBytes;
      assert Descendant([node][0], n);
      assert DescendantOfSome([node], n);
    }
  }

  lemma {:induction false} TruncationIsForced(page: Page, node: SemanticNode, contextual: bool, s: Progress)
    ensures var after := Serialize(page, node, contextual, s).1;
            && s.nodes <= after.nodes && s.bytes <= after.bytes
            && (after.truncated ==> s.truncated || Exhausted(page, [node], after))
    decreases node, 0
  {
    if !Excluded(page, node, contextual) {
      if OverBudget(page, node, s) {
        assert Descendant([node][0], node);
        assert DescendantOfSome([node], node);
      } else {
        var entered := Progress(s.nodes + 1, s.bytes + page.baseBytes(node), s.truncated);
        var sorted := ActionableFirst(page, node.children);
        var inside := CountOf(page, node).allowedActionable > 0 || contextual;
        ChildrenSortBelow(page, node);
        SortMembers(AllowedCount(page), node.children);
        TruncationIsForcedIn(page, node, sorted, inside, entered);
        var after := SerializeAll(page, node, sorted, inside, entered).1;
        if after.truncated && !s.truncated {
          ExhaustedExtends(page, sorted, node.children, after, after);
          ExhaustedBelow(page, node, after);
        }
      }
    }
  }

  lemma {:induction false} TruncationIsForcedIn(page: Page, owner: SemanticNode, nodes: seq<SemanticNode>,
      contextual: bool, s: Progress)
    requires Below(nodes, owner)
    ensures var after := SerializeAll(page, owner, nodes, contextual, s).1;
            && s.nodes <= after.nodes && s.bytes <= after.bytes
            && (after.truncated ==> s.truncated || Exhausted(page, nodes, after))
    decreases owner, 0, |nodes|
  {
    if nodes != [] {
      var n := |nodes| - 1;
      TruncationIsForcedIn(page, owner, nodes[..n], contextual, s);
      var mid := SerializeAll(page, owner, nodes[..n], contextual, s).1;
      TruncationIsForced(page, nodes[n], contextual, mid);
      var after := Serialize(page, nodes[n], contextual, mid).1;
      if after.truncated && !s.truncated {
        if mid.truncated {
          ExhaustedExtends(page, nodes[..n], nodes, mid, after);
        } else {
          ExhaustedExtends(page, [nodes[n]], nodes, after, after);
        }
      }
    }
  }

  // ---- Budgets --------------------------------------------------------------------------------

  function Size(node: AgentNode): nat
    decreases node
  {
    1 + SizeAll(node.children)
  }

  function SizeAll(nodes: seq<AgentNode>): nat
    decreases nodes
  {
    if nodes == [] then 0 else SizeAll(nodes[..|nodes| - 1]) + Size(nodes[|nodes| - 1])
  }

  function Bytes(node: AgentNode): nat
    decreases node
  {
    node.baseBytes + BytesAll(node.children)
  }

  function BytesAll(nodes: seq<AgentNode>): nat
    decreases nodes
  {
    if nodes == [] then 0 else BytesAll(nodes[..|nodes| - 1]) + Bytes(nodes[|nodes| - 1])
  }

  ghost predicate Within(page: Page, s: Progress) {
    s.nodes <= page.maxNodes && s.bytes <= page.maxBytes
  }

  /** Progress counts exactly the nodes and bytes produced and never leaves the budget. */
  lemma {:induction false} SerializeStaysWithin(page: Page, node: SemanticNode, contextual: bool, s: Progress)
    requires Within(page, s)
    ensures var (out, after) := Serialize(page, node, contextual, s);
            && Within(page, after)
            && after.nodes == s.nodes + (if out.Some? then Size(out.value) else 0)
            && after.bytes == s.bytes + (if out.Some? then Bytes(out.value) else 0)
            && (s.truncated ==> after.truncated)
    decreases node, 0
  {
    if !Excluded(page, node, contextual) && !OverBudget(page, node, s) {
      var entered := Progress(s.nodes + 1, s.bytes + page.baseBytes(node), s.truncated);
      ChildrenSortBelow(page, node);
      SerializeAllStaysWithin(page, node, ActionableFirst(page, node.children),
                              CountOf(page, node).allowedActionable > 0 || contextual, entered);
    }
  }

  lemma {:induction false} SerializeAllStaysWithin(page: Page, owner: SemanticNode, nodes: seq<SemanticNode>,
      contextual: bool, s: Progress)
    requires Below(nodes, owner) && Within(page, s)
    ensures var (out, after) := SerializeAll(page, owner, nodes, contextual, s);
            && Within(page, after)
            && after.nodes == s.nodes + SizeAll(out)
            && after.bytes == s.bytes + BytesAll(out)
            && (s.truncated ==> after.truncated)
    decreases owner, 0, |nodes|
  {
    if nodes != [] {
      var n := |nodes| - 1;
      SerializeAllStaysWithin(page, owner, nodes[..n], contextual, s);
      var (before, mid) := SerializeAll(page, owner, nodes[..n], contextual, s);
      SerializeStaysWithin(page, nodes[n], contextual, mid);
      var (last, after) := Serialize(page, nodes[n], contextual, mid);
      if last.Some? {
        assert (before + [last.value])[..|before|] == before;
      }
    }
  }

  // ---- Output is a pruned input --------------------------------------------------------------------

  /** The output node stands for the input node, and its children for children of the input node. */
  ghost predicate Prunes(page: Page, out: AgentNode, node: SemanticNode)
    decreases node, 0
  {
    ChildrenSortBelow(page, node);
    && out.id == node.id
    && out.ref == TargetOf(page, node)
    && out.baseBytes == page.baseBytes(node)
    && (out.ref.Some? ==> out.ref.value in page.allowed)
    && PrunesAll(page, out.children, node, ActionableFirst(page, node.children))
  }

  /** The outputs stand, in order, for some of the inputs. */
  ghost predicate PrunesAll(page: Page, outs: seq<AgentNode>, owner: SemanticNode, nodes: seq<SemanticNode>)
    requires Below(nodes, owner)
    decreases owner, 0, |nodes|
  {
    if nodes == [] then outs == []
    else
      var n := |nodes| - 1;
      || PrunesAll(page, outs, owner, nodes[..n])
      || (outs != [] && Prunes(page, outs[|outs| - 1], nodes[n])
           && PrunesAll(page, outs[..|outs| - 1], owner, nodes[..n]))
  }

  lemma {:induction false} SerializePrunes(page: Page, node: SemanticNode, contextual: bool, s: Progress)
    ensures var out := Serialize(page, node, contextual, s).0; out.Some? ==> Prunes(page, out.value, node)
    decreases node, 0
  {
    if !Excluded(page, node, contextual) && !OverBudget(page, node, s) {
      var entered := Progress(s.nodes + 1, s.bytes + page.baseBytes(node), s.truncated);
      ChildrenSortBelow(page, node);
      SerializeAllPrunes(page, node, ActionableFirst(page, node.children),
                         CountOf(page, node).allowedActionable > 0 || contextual, entered);
    }
  }

  lemma {:induction false} SerializeAllPrunes(page: Page, owner: SemanticNode, nodes: seq<SemanticNode>,
      contextual: bool, s: Progress)
    requires Below(nodes, owner)
    ensures PrunesAll(page, SerializeAll(page, owner, nodes, contextual, s).0, owner, nodes)
    decreases owner, 0, |nodes|
  {
    if nodes != [] {
      var n := |nodes| - 1;
      SerializeAllPrunes(page, owner, nodes[..n], contextual, s);
      var (before, mid) := SerializeAll(page, owner, nodes[..n], contextual, s);
      SerializePrunes(page, nodes[n], contextual, mid);
      var (last, after) := Serialize(page, nodes[n], contextual, mid);
      if last.Some? {
        assert (before + [last.value])[..|before|] == before;
      }
    }
  }

  // ---- Which targets survive -----------------------------------------------------------------------

  /** Allowed targets all of whose actionable ancestors are allowed, by node id. */
  function Visible(page: Page, node: SemanticNode): set<string>
    decreases node
  {
    match TargetOf(page, node)
    case None => VisibleIn(page, node.children)
    case Some(ref) => if ref in page.allowed then {node.id} + VisibleIn(page, node.children) else {}
  }

  function VisibleIn(page: Page, nodes: seq<SemanticNode>): set<string>
    decreases nodes
  {
    if nodes == [] then {} else VisibleIn(page, nodes[..|nodes| - 1]) + Visible(page, nodes[|nodes| - 1])
  }

  function Shown(node: AgentNode): set<string>
    decreases node
  {
    (if node.ref.Some? then {node.id} else {}) + ShownIn(node.children)
  }

  function ShownIn(nodes: seq<AgentNode>): set<string>
    decreases nodes
  {
    if nodes == [] then {} else ShownIn(nodes[..|nodes| - 1]) + Shown(nodes[|nodes| - 1])
  }

  lemma {:induction false} NothingAllowedNothingVisible(page: Page, node: SemanticNode)
    requires CountOf(page, node).allowedActionable == 0
    ensures Visible(page, node) == {}
    decreases node, 0
  {
    if TargetOf(page, node) == None {
      NothingAllowedNothingVisibleIn(page, node, node.children);
    }
  }

  lemma {:induction false} NothingAllowedNothingVisibleIn(page: Page, owner: SemanticNode, nodes: seq<SemanticNode>)
    requires Below(nodes, owner) && CountAll(page, nodes).allowedActionable == 0
    ensures VisibleIn(page, nodes) == {}
    decreases owner, 0, |nodes|
  {
    if nodes != [] {
      NothingAllowedNothingVisibleIn(page, owner, nodes[..|nodes| - 1]);
      NothingAllowedNothingVisible(page, nodes[|nodes| - 1]);
    }
  }

  lemma {:induction false} VisibleInMembers(page: Page, nodes: seq<SemanticNode>, id: string)
    ensures id in VisibleIn(page, nodes) <==> exists n :: n in nodes && id in Visible(page, n)
  {
    if nodes != [] {
      var init, last := nodes[..|nodes| - 1], nodes[|nodes| - 1];
      VisibleInMembers(page, init, id);
      assert nodes == init + [last];
      assert last in nodes;
      if n :| n in nodes && id in Visible(page, n) {
        assert n in init || n == last;
      }
      if n :| n in init && id in Visible(page, n) {
        assert n in nodes;
      }
    }
  }

  /** Reordering siblings does not change what is visible among them. */
  lemma SortingKeepsVisible(page: Page, nodes: seq<SemanticNode>)
    ensures VisibleIn(page, ActionableFirst(page, nodes)) == VisibleIn(page, nodes)
  {
    var sorted := ActionableFirst(page, nodes);
    SortMembers(AllowedCount(page), nodes);
    forall id ensures id in VisibleIn(page, sorted) <==> id in VisibleIn(page, nodes) {
      VisibleInMembers(page, sorted, id);
      VisibleInMembers(page, nodes, id);
    }
  }

  lemma {:induction false} SerializeShows(page: Page, node: SemanticNode, contextual: bool, s: Progress)
    ensures var (out, after) := Serialize(page, node, contextual, s);
            var shown := if out.Some? then Shown(out.value) else {};
            && shown <= Visible(page, node)
            && (!after.truncated ==> shown == Visible(page, node))
            && (s.truncated ==> after.truncated)
    decreases node, 0
  {
    if Excluded(page, node, contextual) {
      if TargetOf(page, node) == None {
        NothingAllowedNothingVisible(page, node);
      }
    } else if !OverBudget(page, node, s) {
      var entered := Progress(s.nodes + 1, s.bytes + page.baseBytes(node), s.truncated);
      var sorted := ActionableFirst(page, node.children);
      ChildrenSortBelow(page, node);
      SortingKeepsVisible(page, node.children);
      SerializeAllShows(page, node, sorted, CountOf(page, node).allowedActionable > 0 || contextual, entered);
    }
  }

  lemma ShownInSnoc(nodes: seq<AgentNode>, node: AgentNode)
    ensures ShownIn(nodes + [node]) == ShownIn(nodes) + Shown(node)
  {
    assert (nodes + [node])[..|nodes|] == nodes;
  }

  lemma {:induction false} SerializeAllShows(page: Page, owner: SemanticNode, nodes: seq<SemanticNode>,
      contextual: bool, s: Progress)
    requires Below(nodes, owner)
    ensures var (out, after) := SerializeAll(page, owner, nodes, contextual, s);
            && ShownIn(out) <= VisibleIn(page, nodes)
            && (!after.truncated ==> ShownIn(out) == VisibleIn(page, nodes))
            && (s.truncated ==> after.truncated)
    decreases owner, 0, |nodes|
  {
    if nodes != [] {
      var n := |nodes| - 1;
      SerializeAllShows(page, owner, nodes[..n], contextual, s);
      var (before, mid) := SerializeAll(page, owner, nodes[..n], contextual, s);
      SerializeShows(page, nodes[n], contextual, mid);
      var (last, after) := Serialize(page, nodes[n], contextual, mid);
      var shown := if last.Some? then Shown(last.value) else {};
      if last.Some? {
        ShownInSnoc(before, last.value);
      }
      assert ShownIn(SerializeAll(page, owner, nodes, contextual, s).0) == ShownIn(before) + shown;
      assert VisibleIn(page, nodes) == VisibleIn(page, nodes[..n]) + Visible(page, nodes[n]);
    }
  }

  /**
   * A serialized page stays within both budgets, is a pruning of the tree that shows only allowed refs, and shows
   * every allowed target with allowed actionable ancestors unless it says that it was truncated, which it says only
   * when a budget ran out.
   */
  lemma SerializedPageKeepsItsPromises(page: Page, roots: seq<SemanticNode>, truncated: bool)
    ensures var (result, s) := SerializePage(page, roots, truncated);
            && SizeAll(result.roots) == s.nodes <= page.maxNodes
            && BytesAll(result.roots) == s.bytes <= page.maxBytes
            && (truncated ==> result.truncated)
            && (result.truncated ==> truncated || Exhausted(page, roots, s))
            && ShownIn(result.roots) <= VisibleIn(page, roots)
            && (!result.truncated ==> ShownIn(result.roots) == VisibleIn(page, roots))
            && Below(ActionableFirst(page, roots), Top(roots))
            && PrunesAll(page, result.roots, Top(roots), ActionableFirst(page, roots))
  {
    ChildrenSortBelow(page, Top(roots));
    var sorted, start := ActionableFirst(page, roots), Progress(0, 0, truncated);
    SerializeAllStaysWithin(page, Top(roots), sorted, false, start);
    TruncationIsForcedIn(page, Top(roots), sorted, false, start);
    SortMembers(AllowedCount(page), roots);
    var end := SerializeAll(page, Top(roots), sorted, false, start).1;
    if end.truncated && !truncated {
      ExhaustedExtends(page, sorted, roots, end, end);
    }
    SerializeAllPrunes(page, Top(roots), sorted, false, start);
    SerializeAllShows(page, Top(roots), sorted, false, start);
    SortingKeepsVisible(page, roots);
  }

  /** Siblings are reordered only by how many allowed targets they hold; equals keep their order. */
  lemma SiblingsAreReorderedStably(page: Page, nodes: seq<SemanticNode>)
    ensures var sorted := ActionableFirst(page, nodes);
            && multiset(sorted) == multiset(nodes)
            && (forall i, j :: 0 <= i < j < |sorted| ==>
                  CountOf(page, sorted[i]).allowedActionable >= CountOf(page, sorted[j]).allowedActionable)
            && forall k :: Filter(WithKey(AllowedCount(page), k), sorted) ==
                 Filter(WithKey(AllowedCount(page), k), nodes)
  {
    SortIsStable(AllowedCount(page), nodes);
    var sorted := ActionableFirst(page, nodes);
    forall i, j | 0 <= i < j < |sorted|
      ensures CountOf(page, sorted[i]).allowedActionable >= CountOf(page, sorted[j]).allowedActionable
    {
      assert AllowedCount(page)(sorted[i]) >= AllowedCount(page)(sorted[j]);
    }
  }

  // ---- What visibility means -----------------------------------------------------------------------

  /** A way down from a node through children. */
  ghost predicate IsPath(path: seq<SemanticNode>) {
    path != [] && forall i :: 0 <= i < |path| - 1 ==> path[i + 1] in path[i].children
  }

  ghost predicate LeadsToTarget(page: Page, path: seq<SemanticNode>, node: SemanticNode, id: string) {
    && IsPath(path) && path[0] == node
    && path[|path| - 1].id == id && TargetOf(page, path[|path| - 1]).Some?
    && forall i :: 0 <= i < |path| && TargetOf(page, path[i]).Some? ==> TargetOf(page, path[i]).value in page.allowed
  }

  /** Visible are exactly the targets that some path reaches through allowed actionable nodes only. */
  lemma {:induction false} VisibleExactlyThroughAllowedAncestors(page: Page, node: SemanticNode, id: string)
    ensures id in Visible(page, node) <==> exists path :: LeadsToTarget(page, path, node, id)
    decreases node
  {
    VisibleInMembers(page, node.children, id);
    forall c | c in node.children ensures id in Visible(page, c) <==> exists path :: LeadsToTarget(page, path, c, id) {
      VisibleExactlyThroughAllowedAncestors(page, c, id);
    }
    if id in Visible(page, node) {
      if c: SemanticNode :| c in node.children && id in Visible(page, c) {
        var below: seq<SemanticNode> :| LeadsToTarget(page, below, c, id);
        var path := [node] + below;
        forall i | 0 <= i < |path| - 1 ensures path[i + 1] in path[i].children {
          assert i > 0 ==> path[i] == below[i - 1] && path[i + 1] == below[i];
        }
        assert LeadsToTarget(page, path, node, id);
      } else {
        assert LeadsToTarget(page, [node], node, id);
      }
    }
    if path: seq<SemanticNode> :| LeadsToTarget(page, path, node, id) {
      assert TargetOf(page, path[0]).Some? ==> TargetOf(page, path[0]).value in page.allowed;
      if |path| > 1 {
        var below := path[1..];
        assert path[0 + 1] in path[0].children;
        forall i | 0 <= i < |below| - 1 ensures below[i + 1] in below[i].children {
          assert path[i + 1 + 1] in path[i + 1].children;
        }
        forall i | 0 <= i < |below| && TargetOf(page, below[i]).Some?
          ensures TargetOf(page, below[i]).value in page.allowed
        {
          assert below[i] == path[i + 1];
        }
        assert LeadsToTarget(page, below, path[1], id);
      }
    }
  }

  // ---- The serializer with its captured counters -----------------------------------------------------

  function Ids(node: SemanticNode): seq<string>
    decreases node
  {
    [node.id] + IdsAll(node.children)
  }

  function IdsAll(nodes: seq<SemanticNode>): seq<string>
    decreases nodes
  {
    if nodes == [] then [] else IdsAll(nodes[..|nodes| - 1]) + Ids(nodes[|nodes| - 1])
  }

  /** The recorded counts are right for a node and for everything below it. */
  ghost predicate Recorded(page: Page, counts: map<string, Count>, node: SemanticNode)
    decreases node
  {
    && node.id in counts && counts[node.id] == CountOf(page, node)
    && forall i :: 0 <= i < |node.children| ==> Recorded(page, counts, node.children[i])
  }

  lemma {:induction false} RecordedSurvives(page: Page, counts: map<string, Count>, later: map<string, Count>,
      node: SemanticNode)
    requires Recorded(page, counts, node)
    requires forall id :: id in Ids(node) && id in counts ==> id in later && later[id] == counts[id]
    ensures Recorded(page, later, node)
    decreases node
  {
    assert node.id == Ids(node)[0];
    forall i | 0 <= i < |node.children| ensures Recorded(page, later, node.children[i]) {
      IdsAllMembers(node.children, i);
      RecordedSurvives(page, counts, later, node.children[i]);
    }
  }

  lemma {:induction false} IdsAllMembers(nodes: seq<SemanticNode>, i: nat)
    requires i < |nodes|
    ensures forall id :: id in Ids(nodes[i]) ==> id in IdsAll(nodes)
  {
    if i < |nodes| - 1 {
      IdsAllMembers(nodes[..|nodes| - 1], i);
    }
  }

  lemma SplitDistinctIds(a: seq<string>, b: seq<string>)
    requires Distinct(a + b)
    ensures Distinct(a) && Distinct(b) && forall id :: id in a ==> id !in b
  {
    forall i, j | 0 <= i < j < |a| ensures a[i] != a[j] {
      assert (a + b)[i] == a[i] && (a + b)[j] == a[j];
    }
    forall i, j | 0 <= i < j < |b| ensures b[i] != b[j] {
      assert (a + b)[|a| + i] == b[i] && (a + b)[|a| + j] == b[j];
    }
    forall i, j | 0 <= i < |a| && 0 <= j < |b| ensures a[i] != b[j] {
      assert (a + b)[i] == a[i] && (a + b)[|a| + j] == b[j];
    }
  }

  lemma SortedAreRecorded(page: Page, counts: map<string, Count>, nodes: seq<SemanticNode>)
    requires forall i :: 0 <= i < |nodes| ==> Recorded(page, counts, nodes[i])
    ensures forall i :: 0 <= i < |ActionableFirst(page, nodes)| ==>
              Recorded(page, counts, ActionableFirst(page, nodes)[i])
  {
    SortMembers(AllowedCount(page), nodes);
    forall i | 0 <= i < |ActionableFirst(page, nodes)|
      ensures Recorded(page, counts, ActionableFirst(page, nodes)[i])
    {
      assert ActionableFirst(page, nodes)[i] in nodes;
    }
  }

  class Serializer {
    const page: Page
    var counts: map<string, Count>
    var retainedNodes: nat
    var retainedBytes: nat
    var truncated: bool

    constructor (page: Page, truncated: bool)
      ensures this.page == page && View() == Progress(0, 0, truncated)
    {
      this.page, this.truncated := page, truncated;
      counts, retainedNodes, retainedBytes := map[], 0, 0;
    }

    ghost function View(): Progress
      reads this
    {
      Progress(retainedNodes, retainedBytes, truncated)
    }

    ghost predicate AllRecorded(nodes: seq<SemanticNode>)
      reads this
    {
      forall i :: 0 <= i < |nodes| ==> Recorded(page, counts, nodes[i])
    }

    method SubtreeCounts(node: SemanticNode) returns (count: Count)
      requires Distinct(Ids(node))
      modifies this`counts
      ensures count == CountOf(page, node) && Recorded(page, counts, node)
      ensures forall id :: id in old(counts) && id !in Ids(node) ==> id in counts && counts[id] == old(counts)[id]
      decreases node, 1
    {
      assert [node.id] + IdsAll(node.children) == Ids(node);
      SplitDistinctIds([node.id], IdsAll(node.children));
      assert node.id in [node.id];
      var below := SubtreeCountsAll(node, node.children);
      var own := Own(page, node);
      count := Count(own.anyActionable + below.anyActionable, own.allowedActionable + below.allowedActionable);
      ghost var before := counts;
      counts := counts[node.id := count];
      forall i | 0 <= i < |node.children| ensures Recorded(page, counts, node.children[i]) {
        IdsAllMembers(node.children, i);
        RecordedSurvives(page, before, counts, node.children[i]);
      }
    }

    method SubtreeCountsAll(ghost owner: SemanticNode, nodes: seq<SemanticNode>) returns (count: Count)
      requires Below(nodes, owner) && Distinct(IdsAll(nodes))
      modifies this`counts
      ensures count == CountAll(page, nodes) && AllRecorded(nodes)
      ensures forall id :: id in old(counts) && id !in IdsAll(nodes) ==> id in counts && counts[id] == old(counts)[id]
      decreases owner, 0, |nodes|
    {
      if |nodes| == 0 {
        return Count(0, 0);
      }
      var n := |nodes| - 1;
      SplitDistinctIds(IdsAll(nodes[..n]), Ids(nodes[n]));
      var before := SubtreeCountsAll(owner, nodes[..n]);
      ghost var mid := counts;
      assert forall i :: 0 <= i < n ==> nodes[..n][i] == nodes[i];
      var last := SubtreeCounts(nodes[n]);
      forall i | 0 <= i < n ensures Recorded(page, counts, nodes[i]) {
        IdsAllMembers(nodes[..n], i);
        RecordedSurvives(page, mid, counts, nodes[..n][i]);
      }
      count := Count(before.anyActionable + last.anyActionable, before.allowedActionable + last.allowedActionable);
    }

    method SerializeNode(node: SemanticNode, contextual: bool) returns (out: Option<AgentNode>)
      requires Recorded(page, counts, node)
      modifies this`retainedNodes, this`retainedBytes, this`truncated
      ensures (out, View()) == Serialize(page, node, contextual, old(View()))
      decreases node, 1
    {
      var count := counts[node.id];
      var target := TargetOf(page, node);
      if target.Some? && target.value !in page.allowed {
        return None;
      }
      if target.None? && count.anyActionable > 0 && count.allowedActionable == 0 {
        return None;
      }
      if target.None? && count.allowedActionable == 0 && !contextual && !node.contextRole {
        return None;
      }
      var bytes := page.baseBytes(node);
      if retainedNodes >= page.maxNodes || retainedBytes + bytes > page.maxBytes {
        truncated := true;
        return None;
      }
      retainedNodes := retainedNodes + 1;
      retainedBytes := retainedBytes + bytes;
      var sorted := ActionableFirst(page, node.children);
      ChildrenSortBelow(page, node);
      SortedAreRecorded(page, counts, node.children);
      var children := SerializeNodes(node, sorted, count.allowedActionable > 0 || contextual);
      out := Some(AgentNode(node.id, target, bytes, children));
    }

    method SerializeNodes(ghost owner: SemanticNode, nodes: seq<SemanticNode>,
        contextual: bool) returns (outs: seq<AgentNode>)
      requires Below(nodes, owner) && AllRecorded(nodes)
      modifies this`retainedNodes, this`retainedBytes, this`truncated
      ensures (outs, View()) == SerializeAll(page, owner, nodes, contextual, old(View()))
      decreases owner, 0
    {
      outs := [];
      for i := 0 to |nodes|
        invariant AllRecorded(nodes)
        invariant (outs, View()) == SerializeAll(page, owner, nodes[..i], contextual, old(View()))
      {
        assert nodes[..i + 1][..i] == nodes[..i];
        var out := SerializeNode(nodes[i], contextual);
        if out.Some? {
          outs := outs + [out.value];
        }
      }
      assert nodes[..|nodes|] == nodes;
    }

    method SerializeTree(roots: seq<SemanticNode>) returns (result: SerializedPage)
      requires Distinct(IdsAll(roots))
      requires retainedNodes == 0 && retainedBytes == 0
      modifies this
      ensures (result, View()) == SerializePage(page, roots, old(truncated))
    {
      var unused := SubtreeCountsAll(Top(roots), roots);
      ChildrenSortBelow(page, Top(roots));
      SortedAreRecorded(page, counts, roots);
      var sorted := ActionableFirst(page, roots);
      var nodes := SerializeNodes(Top(roots), sorted, false);
      result := SerializedPage(nodes, truncated);
    }
  }
}
