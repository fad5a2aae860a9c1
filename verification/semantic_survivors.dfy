// Which nodes of a semantic tree survive in the serialized page, in the fields of the tree itself
// (packages/browser-core/src/browser-semantic-serializer.ts).

module SemanticSurvivors {
  import opened Options
  import opened Sequences
  import opened StableSort
  import opened Forests
  import opened SemanticSerializer

  // ---- Counts are numbers of targets --------------------------------------------------------

  /** The node stands for a target that has a ref. */
  predicate HasTarget(page: Page, node: SemanticNode) {
    node.targetKey.Some? && node.targetKey.value in page.refs
  }

  predicate HasAllowed(page: Page, node: SemanticNode) {
    HasTarget(page, node) && page.refs[node.targetKey.value] in page.allowed
  }

  /** A node and all below it, in document order. */
  function Nodes(node: SemanticNode): (nodes: seq<SemanticNode>)
    ensures node in nodes
    decreases node
  {
    [node] + NodesOfAll(node.children)
  }

  function NodesOfAll(nodes: seq<SemanticNode>): seq<SemanticNode>
    decreases nodes
  {
    if nodes == [] then [] else NodesOfAll(nodes[..|nodes| - 1]) + Nodes(nodes[|nodes| - 1])
  }

  function Targets(page: Page, node: SemanticNode): seq<SemanticNode> {
    Filter((n: SemanticNode) => HasTarget(page, n), Nodes(node))
  }

  function AllowedTargets(page: Page, node: SemanticNode): seq<SemanticNode> {
    Filter((n: SemanticNode) => HasAllowed(page, n), Nodes(node))
  }

  /** What is counted are the targets at and below the node, and the allowed ones among them. */
  lemma {:induction false} CountsAreTheTargets(page: Page, node: SemanticNode)
    ensures CountOf(page, node) == Count(|Targets(page, node)|, |AllowedTargets(page, node)|)
    decreases node, 0
  {
    var some, allowed := (n: SemanticNode) => HasTarget(page, n), (n: SemanticNode) => HasAllowed(page, n);
    CountsOfAll(page, node, node.children);
    FilterConcat(some, [node], NodesOfAll(node.children));
    FilterConcat(allowed, [node], NodesOfAll(node.children));
    assert Filter(some, [node]) == if HasTarget(page, node) then [node] else [];
    assert Filter(allowed, [node]) == if HasAllowed(page, node) then [node] else [];
  }

  lemma {:induction false} CountsOfAll(page: Page, owner: SemanticNode, nodes: seq<SemanticNode>)
    requires Below(nodes, owner)
    ensures CountAll(page, nodes) == Count(|Filter((n: SemanticNode) => HasTarget(page, n), NodesOfAll(nodes))|,
                                           |Filter((n: SemanticNode) => HasAllowed(page, n), NodesOfAll(nodes))|)
    decreases owner, 0, |nodes|
  {
    if nodes != [] {
      var n := |nodes| - 1;
      CountsOfAll(page, owner, nodes[..n]);
      CountsAreTheTargets(page, nodes[n]);
      FilterConcat((n: SemanticNode) => HasTarget(page, n), NodesOfAll(nodes[..n]), Nodes(nodes[n]));
      FilterConcat((n: SemanticNode) => HasAllowed(page, n), NodesOfAll(nodes[..n]), Nodes(nodes[n]));
    }
  }

  /** Siblings come by the number of allowed targets they hold, the most first. */
  lemma SiblingsComeByTheirTargets(page: Page, nodes: seq<SemanticNode>)
    ensures var sorted := ActionableFirst(page, nodes);
            && multiset(sorted) == multiset(nodes)
            && forall i, j :: 0 <= i < j < |sorted| ==>
                 |AllowedTargets(page, sorted[i])| >= |AllowedTargets(page, sorted[j])|
  {
    SiblingsAreReorderedStably(page, nodes);
    var sorted := ActionableFirst(page, nodes);
    forall i, j | 0 <= i < j < |sorted|
      ensures |AllowedTargets(page, sorted[i])| >= |AllowedTargets(page, sorted[j])|
    {
      CountsAreTheTargets(page, sorted[i]);
      CountsAreTheTargets(page, sorted[j]);
    }
  }

  // ---- Which nodes are to survive ------------------------------------------------------------

  ghost predicate HoldsTarget(page: Page, node: SemanticNode) {
    exists n :: n in Nodes(node) && HasTarget(page, n)
  }

  ghost predicate HoldsAllowed(page: Page, node: SemanticNode) {
    exists n :: n in Nodes(node) && HasAllowed(page, n)
  }

  lemma CountsTellWhatIsHeld(page: Page, node: SemanticNode)
    ensures CountOf(page, node).anyActionable > 0 <==> HoldsTarget(page, node)
    ensures CountOf(page, node).allowedActionable > 0 <==> HoldsAllowed(page, node)
  {
    CountsAreTheTargets(page, node);
    FilterMembers((n: SemanticNode) => HasTarget(page, n), Nodes(node));
    FilterMembers((n: SemanticNode) => HasAllowed(page, n), Nodes(node));
    if Targets(page, node) != [] {
      assert Targets(page, node)[0] in Targets(page, node);
    }
    if AllowedTargets(page, node) != [] {
      assert AllowedTargets(page, node)[0] in AllowedTargets(page, node);
    }
  }

  /**
   * On its way down: a target survives when its ref is allowed, any other node when it holds an allowed target, or
   * when it holds no target at all and has a context role or stands below a node with an allowed target.
   */
  ghost predicate SurvivesAt(page: Page, path: seq<SemanticNode>, i: nat, contextual: bool)
    requires i < |path|
  {
    if HasTarget(page, path[i]) then HasAllowed(page, path[i])
    else
      || HoldsAllowed(page, path[i])
      || (!HoldsTarget(page, path[i]) && (path[i].contextRole || InContext(page, path[..i], contextual)))
  }

  ghost predicate InContext(page: Page, above: seq<SemanticNode>, contextual: bool) {
    contextual || exists n :: n in above && HoldsAllowed(page, n)
  }

  /** Every node on the way down survives. */
  ghost predicate Survives(page: Page, path: seq<SemanticNode>, contextual: bool) {
    IsPath(path) && forall i :: 0 <= i < |path| ==> SurvivesAt(page, path, i, contextual)
  }

  lemma ExcludedExactlyWhen(page: Page, path: seq<SemanticNode>, contextual: bool)
    requires path != []
    ensures Excluded(page, path[0], contextual) <==> !SurvivesAt(page, path, 0, contextual)
  {
    CountsTellWhatIsHeld(page, path[0]);
  }

  lemma PathExtends(node: SemanticNode, below: seq<SemanticNode>)
    requires below != [] && below[0] in node.children
    ensures IsPath([node] + below) <==> IsPath(below)
  {
    var path := [node] + below;
    if IsPath(path) {
      forall i | 0 <= i < |below| - 1 ensures below[i + 1] in below[i].children {
        assert path[(i + 1) + 1] in path[i + 1].children;
      }
    }
    if IsPath(below) {
      forall i | 0 <= i < |path| - 1 ensures path[i + 1] in path[i].children {
        assert i > 0 ==> below[(i - 1) + 1] in below[i - 1].children;
      }
    }
  }

  lemma SurvivesOneBelow(page: Page, node: SemanticNode, below: seq<SemanticNode>, i: nat, contextual: bool)
    requires i < |below|
    ensures SurvivesAt(page, [node] + below, i + 1, contextual)
       <==> SurvivesAt(page, below, i, HoldsAllowed(page, node) || contextual)
  {
    var above := ([node] + below)[..i + 1];
    assert above == [node] + below[..i];
    if n :| n in below[..i] && HoldsAllowed(page, n) {
      assert n in above;
    }
    assert HoldsAllowed(page, node) ==> node in above;
  }

  /** One more node at the top of the way. */
  lemma SurvivesBelow(page: Page, node: SemanticNode, below: seq<SemanticNode>, contextual: bool)
    requires below != [] && below[0] in node.children
    ensures Survives(page, [node] + below, contextual) <==>
              SurvivesAt(page, [node] + below, 0, contextual)
              && Survives(page, below, HoldsAllowed(page, node) || contextual)
  {
    var path, inside := [node] + below, HoldsAllowed(page, node) || contextual;
    PathExtends(node, below);
    forall i: nat | i < |below|
      ensures SurvivesAt(page, path, i + 1, contextual) <==> SurvivesAt(page, below, i, inside)
    {
      SurvivesOneBelow(page, node, below, i, contextual);
    }
    if SurvivesAt(page, path, 0, contextual) && Survives(page, below, inside) {
      forall i | 0 <= i < |path| ensures SurvivesAt(page, path, i, contextual) {
        assert i > 0 ==> SurvivesAt(page, below, i - 1, inside);
      }
    }
    if Survives(page, path, contextual) {
      forall i | 0 <= i < |below| ensures SurvivesAt(page, below, i, inside) {
        assert SurvivesAt(page, path, i + 1, contextual);
      }
    }
  }

  // ---- Which nodes are shown --------------------------------------------------------------------

  /** A way down through the serialized nodes. */
  ghost predicate IsLine(line: seq<AgentNode>) {
    line != [] && forall i :: 0 <= i < |line| - 1 ==> line[i + 1] in line[i].children
  }

  ghost predicate Shows(page: Page, out: AgentNode, node: SemanticNode) {
    && out.id == node.id && out.baseBytes == page.baseBytes(node)
    && out.ref == if HasTarget(page, node) then Some(page.refs[node.targetKey.value]) else None
  }

  ghost predicate StandsFor(page: Page, line: seq<AgentNode>, path: seq<SemanticNode>) {
    |line| == |path| && forall i :: 0 <= i < |path| ==> Shows(page, line[i], path[i])
  }

  /** The node would still fit when everything has been serialized. */
  ghost predicate StillFits(page: Page, node: SemanticNode, end: Progress) {
    end.nodes < page.maxNodes && end.bytes + page.baseBytes(node) <= page.maxBytes
  }

  ghost predicate NotSqueezed(page: Page, path: seq<SemanticNode>, end: Progress) {
    !end.truncated || forall n :: n in path ==> StillFits(page, n, end)
  }

  /** Later progress never gains room. */
  ghost predicate LeadsTo(s: Progress, end: Progress) {
    s.nodes <= end.nodes && s.bytes <= end.bytes && (s.truncated ==> end.truncated)
  }

  lemma LineExtends(page: Page, out: AgentNode, node: SemanticNode, line: seq<AgentNode>, below: seq<SemanticNode>)
    requires Shows(page, out, node) && IsLine(line) && line[0] in out.children && StandsFor(page, line, below)
    ensures IsLine([out] + line) && StandsFor(page, [out] + line, [node] + below)
  {
    var longer := [out] + line;
    forall i | 0 <= i < |longer| - 1 ensures longer[i + 1] in longer[i].children {
      assert i > 0 ==> line[(i - 1) + 1] in line[i - 1].children;
    }
  }

  lemma LineShortens(line: seq<AgentNode>)
    requires IsLine(line) && |line| > 1
    ensures IsLine(line[1..]) && line[1] in line[0].children
  {
    var shorter := line[1..];
    assert line[0 + 1] in line[0].children;
    forall k | 0 <= k < |shorter| - 1 ensures shorter[k + 1] in shorter[k].children {
      assert line[(k + 1) + 1] in line[k + 1].children;
    }
  }

  /** Where one of the serialized siblings comes from. */
  lemma {:induction false} ComesFrom(page: Page, owner: SemanticNode, nodes: seq<SemanticNode>, contextual: bool,
      s: Progress, out: AgentNode) returns (i: nat, mid: Progress)
    requires Below(nodes, owner) && out in SerializeAll(page, owner, nodes, contextual, s).0
    ensures i < |nodes| && Serialize(page, nodes[i], contextual, mid).0 == Some(out)
    decreases |nodes|
  {
    var n := |nodes| - 1;
    var (before, m) := SerializeAll(page, owner, nodes[..n], contextual, s);
    if out in before {
      i, mid := ComesFrom(page, owner, nodes[..n], contextual, s, out);
    } else {
      i, mid := n, m;
    }
  }

  /** What becomes of one of the siblings. */
  lemma {:induction false} GoesTo(page: Page, owner: SemanticNode, nodes: seq<SemanticNode>, contextual: bool,
      s: Progress, i: nat) returns (mid: Progress)
    requires Below(nodes, owner) && i < |nodes|
    ensures LeadsTo(Serialize(page, nodes[i], contextual, mid).1, SerializeAll(page, owner, nodes, contextual, s).1)
    ensures var out := Serialize(page, nodes[i], contextual, mid).0;
            out.Some? ==> out.value in SerializeAll(page, owner, nodes, contextual, s).0
    decreases |nodes|
  {
    var n := |nodes| - 1;
    var (before, m) := SerializeAll(page, owner, nodes[..n], contextual, s);
    if i < n {
      mid := GoesTo(page, owner, nodes[..n], contextual, s, i);
      TruncationIsForced(page, nodes[n], contextual, m);
      SerializeShows(page, nodes[n], contextual, m);
    } else {
      mid := m;
    }
  }

  function Entered(page: Page, node: SemanticNode, s: Progress): Progress {
    Progress(s.nodes + 1, s.bytes + page.baseBytes(node), s.truncated)
  }

  /** A serialized node and its children. */
  lemma Opens(page: Page, node: SemanticNode, contextual: bool, s: Progress)
    requires Serialize(page, node, contextual, s).0.Some?
    ensures SurvivesAt(page, [node], 0, contextual) && Shows(page, Serialize(page, node, contextual, s).0.value, node)
    ensures Below(ActionableFirst(page, node.children), node)
    ensures var (out, after) := Serialize(page, node, contextual, s);
            SerializeAll(page, node, ActionableFirst(page, node.children), HoldsAllowed(page, node) || contextual,
                         Entered(page, node, s)) == (out.value.children, after)
  {
    ExcludedExactlyWhen(page, [node], contextual);
    CountsTellWhatIsHeld(page, node);
    ChildrenSortBelow(page, node);
  }

  lemma SurvivorIsSerialized(page: Page, node: SemanticNode, contextual: bool, s: Progress, end: Progress)
    requires SurvivesAt(page, [node], 0, contextual)
    requires LeadsTo(Serialize(page, node, contextual, s).1, end) && NotSqueezed(page, [node], end)
    ensures Serialize(page, node, contextual, s).0.Some?
  {
    ExcludedExactlyWhen(page, [node], contextual);
    TruncationIsForced(page, node, contextual, s);
    assert node in [node];
  }

  lemma ChildIsSorted(page: Page, node: SemanticNode, child: SemanticNode)
    ensures child in ActionableFirst(page, node.children) <==> child in node.children
  {
    SortMembers(AllowedCount(page), node.children);
  }

  /** Whatever is shown stands for a node that is to survive, below the nodes its ancestors stand for. */
  lemma {:induction false} ShownSurvive(page: Page, node: SemanticNode, contextual: bool, s: Progress,
      line: seq<AgentNode>) returns (path: seq<SemanticNode>)
    requires IsLine(line) && Serialize(page, node, contextual, s).0 == Some(line[0])
    ensures path != [] && path[0] == node && Survives(page, path, contextual) && StandsFor(page, line, path)
    decreases node
  {
    Opens(page, node, contextual, s);
    path := [node];
    if |line| > 1 {
      LineShortens(line);
      var sorted, inside := ActionableFirst(page, node.children), HoldsAllowed(page, node) || contextual;
      var i, mid := ComesFrom(page, node, sorted, inside, Entered(page, node, s), line[1]);
      ChildIsSorted(page, node, sorted[i]);
      var below := ShownSurvive(page, sorted[i], inside, mid, line[1..]);
      path := [node] + below;
      SurvivesBelow(page, node, below, contextual);
      LineExtends(page, line[0], node, line[1..], below);
      assert line == [line[0]] + line[1..];
    }
  }

  /** Whatever is to survive is shown, unless the flag is up and it does not fit into what is left in the end. */
  lemma {:induction false} SurvivorsAreShown(page: Page, contextual: bool, s: Progress,
      path: seq<SemanticNode>, end: Progress) returns (line: seq<AgentNode>)
    requires Survives(page, path, contextual)
    requires LeadsTo(Serialize(page, path[0], contextual, s).1, end) && NotSqueezed(page, path, end)
    ensures IsLine(line) && Serialize(page, path[0], contextual, s).0 == Some(line[0]) && StandsFor(page, line, path)
    decreases |path|
  {
    var node, inside := path[0], HoldsAllowed(page, path[0]) || contextual;
    assert SurvivesAt(page, path, 0, contextual);
    SurvivorIsSerialized(page, node, contextual, s, end);
    Opens(page, node, contextual, s);
    var (out, after) := Serialize(page, node, contextual, s);
    line := [out.value];
    if |path| > 1 {
      assert path[0 + 1] in path[0].children && path == [node] + path[1..];
      SurvivesBelow(page, node, path[1..], contextual);
      var sorted := ActionableFirst(page, node.children);
      ChildIsSorted(page, node, path[1]);
      var i :| 0 <= i < |sorted| && sorted[i] == path[1];
      var mid := GoesTo(page, node, sorted, inside, Entered(page, node, s), i);
      var below := SurvivorsAreShown(page, inside, mid, path[1..], end);
      LineExtends(page, out.value, node, below, path[1..]);
      line := [out.value] + below;
    }
  }

  /** Every line of the page stands for a surviving way down the tree. */
  ghost predicate ShowsOnlySurvivors(page: Page, roots: seq<SemanticNode>, shown: seq<AgentNode>) {
    forall line :: IsLine(line) && line[0] in shown ==>
      exists path :: StandsFor(page, line, path) && Survives(page, path, false) && path[0] in roots
  }

  /** Every surviving way down the tree has its line, but for what does not fit any more. */
  ghost predicate ShowsAllSurvivors(page: Page, roots: seq<SemanticNode>, shown: seq<AgentNode>, end: Progress) {
    forall path :: Survives(page, path, false) && path[0] in roots && NotSqueezed(page, path, end) ==>
      exists line :: StandsFor(page, line, path) && IsLine(line) && line[0] in shown
  }

  lemma PageShowsTheSurvivors(page: Page, roots: seq<SemanticNode>, truncated: bool)
    ensures var (result, end) := SerializePage(page, roots, truncated);
            && ShowsOnlySurvivors(page, roots, result.roots)
            && ShowsAllSurvivors(page, roots, result.roots, end)
  {
    var (result, end) := SerializePage(page, roots, truncated);
    var sorted, start := ActionableFirst(page, roots), Progress(0, 0, truncated);
    ChildrenSortBelow(page, Top(roots));
    SortMembers(AllowedCount(page), roots);
    forall line | IsLine(line) && line[0] in result.roots
      ensures exists path :: StandsFor(page, line, path) && Survives(page, path, false) && path[0] in roots
    {
      var i, mid := ComesFrom(page, Top(roots), sorted, false, start, line[0]);
      assert sorted[i] in sorted;
      var path := ShownSurvive(page, sorted[i], false, mid, line);
    }
    forall path | Survives(page, path, false) && path[0] in roots && NotSqueezed(page, path, end)
      ensures exists line :: StandsFor(page, line, path) && IsLine(line) && line[0] in result.roots
    {
      var i :| 0 <= i < |sorted| && sorted[i] == path[0];
      var mid := GoesTo(page, Top(roots), sorted, false, start, i);
      var line := SurvivorsAreShown(page, false, mid, path, end);
    }
  }

  // ---- The flag is only passed on ------------------------------------------------------------------

  lemma {:induction false} FlagIsPassedOn(page: Page, node: SemanticNode, contextual: bool, s: Progress)
    requires !s.truncated
    ensures var (out, after) := Serialize(page, node, contextual, s);
            Serialize(page, node, contextual, s.(truncated := true)) == (out, after.(truncated := true))
    decreases node, 0
  {
    var sorted, inside := ActionableFirst(page, node.children), CountOf(page, node).allowedActionable > 0 || contextual;
    ChildrenSortBelow(page, node);
    FlagIsPassedOnIn(page, node, sorted, inside, Progress(s.nodes + 1, s.bytes + page.baseBytes(node), false));
  }

  lemma {:induction false} FlagIsPassedOnIn(page: Page, owner: SemanticNode, nodes: seq<SemanticNode>,
      contextual: bool, s: Progress)
    requires Below(nodes, owner) && !s.truncated
    ensures var (outs, after) := SerializeAll(page, owner, nodes, contextual, s);
            SerializeAll(page, owner, nodes, contextual, s.(truncated := true)) == (outs, after.(truncated := true))
    decreases owner, 0, |nodes|
  {
    if nodes != [] {
      var n := |nodes| - 1;
      FlagIsPassedOnIn(page, owner, nodes[..n], contextual, s);
      var mid := SerializeAll(page, owner, nodes[..n], contextual, s).1;
      if mid.truncated {
        assert mid == mid.(truncated := true);
        SerializeShows(page, nodes[n], contextual, mid);
        var after := Serialize(page, nodes[n], contextual, mid).1;
        assert after == after.(truncated := true);
      } else {
        FlagIsPassedOn(page, nodes[n], contextual, mid);
      }
    }
  }

  /** A tree that was already truncated when it was built is serialized like any other. */
  lemma TruncatedTreesAreSerializedAlike(page: Page, roots: seq<SemanticNode>)
    ensures SerializePage(page, roots, true).0.roots == SerializePage(page, roots, false).0.roots
    ensures SerializePage(page, roots, true).0.truncated
  {
    ChildrenSortBelow(page, Top(roots));
    FlagIsPassedOnIn(page, Top(roots), ActionableFirst(page, roots), false, Progress(0, 0, false));
    assert Progress(0, 0, false).(truncated := true) == Progress(0, 0, true);
  }

  // ---- The whole operation ------------------------------------------------------------------------

  method SerializeSemanticTreePage(roots: seq<SemanticNode>, truncated: bool, refs: map<string, Ref>,
      allowed: set<Ref>, maxNodes: Option<int>, maxBytes: Option<int>, baseBytes: SemanticNode -> nat)
    returns (result: SerializedPage)
    requires Distinct(IdsAll(roots))
    ensures exists nodes: nat, bytes: nat ::
              var page := Page(refs, allowed, nodes, bytes, baseBytes);
              var left := Progress(SizeAll(result.roots), BytesAll(result.roots), result.truncated);
              && nodes == (if maxNodes.None? then 200 else if maxNodes.value < 1 then 1 else maxNodes.value)
              && bytes == (if maxBytes.None? then 12_000 else if maxBytes.value < 256 then 256 else maxBytes.value)
              && left.nodes <= nodes && left.bytes <= bytes && (truncated ==> result.truncated)
              && ShowsOnlySurvivors(page, roots, result.roots)
              && ShowsAllSurvivors(page, roots, result.roots, left)
              && (result.truncated ==> truncated || Exhausted(page, roots, left))
  {
    var nodes: nat := match maxNodes case None => 200 case Some(n) => if n < 1 then 1 else n;
    var bytes: nat := match maxBytes case None => 12_000 case Some(n) => if n < 256 then 256 else n;
    var page := Page(refs, allowed, nodes, bytes, baseBytes);
    var serializer := new Serializer(page, truncated);
    result := serializer.SerializeTree(roots);
    SerializedPageKeepsItsPromises(page, roots, truncated);
    PageShowsTheSurvivors(page, roots, truncated);
  }
}
