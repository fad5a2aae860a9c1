// What the registry holds once a page is assembled, in terms of the page, and why
// its combined parent relation has no cycles
// (packages/browser-core/src/browser-semantic-registry.ts, browser-semantic-tree.ts).

module SemanticInput {
  import opened Options
  import opened Sequences
  import opened Forests
  import opened SemanticRegistry
  import opened SemanticTree

  // ---- Where acyclicity comes from: the DOM tree -------------------------------------------

  /** Keys of a DOM tree in document order: children, shadow roots, then the content document. */
  function DomKeys(node: DomNode, inheritedFrameId: string): seq<NodeKey>
    decreases node, 2
  {
    var key := KeyOf(node, inheritedFrameId);
    [key] + KeysBelow(node, key.frameId)
  }

  function KeysBelow(node: DomNode, frameId: string): seq<NodeKey>
    decreases node, 1
  {
    DomKeysAll(node.children, frameId) + DomKeysAll(node.shadowRoots, frameId)
    + (if node.contentDocument.Some? then DomKeys(node.contentDocument.value, frameId) else [])
  }

  function DomKeysAll(nodes: seq<DomNode>, inheritedFrameId: string): seq<NodeKey>
    decreases nodes
  {
    if nodes == [] then []
    else DomKeysAll(nodes[..|nodes| - 1], inheritedFrameId) + DomKeys(nodes[|nodes| - 1], inheritedFrameId)
  }

  ghost predicate Precedes(order: seq<NodeKey>, a: NodeKey, b: NodeKey) {
    exists i, j :: 0 <= i < j < |order| && order[i] == a && order[j] == b
  }

  /** Before any accessibility node arrives: parents precede their children in the node order. */
  ghost predicate DomOnly(r: Registry) {
    && Consistent(r)
    && forall k :: k in r.nodes ==>
         && r.nodes[k].axParent == None
         && (r.nodes[k].domParent.Some? ==> Precedes(r.order, r.nodes[k].domParent.value, k))
  }

  /** Visiting fresh nodes appends them, leaves the others alone and links each of them, except the orphan. */
  ghost predicate Visited(r: Registry, after: Registry, keys: seq<NodeKey>, orphan: Option<NodeKey>) {
    && after.mainFrameId == r.mainFrameId
    && after.order == r.order + keys
    && DomOnly(after)
    && (forall k :: k in r.nodes ==> k in after.nodes && after.nodes[k] == r.nodes[k])
    && (forall k :: k in keys ==> k in after.nodes && (after.nodes[k].domParent.Some? || orphan == Some(k)))
  }

  /**
   * The document as the registry has it: the record of every node names that node, and the parent of every
   * child, shadow root and content document is the node it hangs under.
   */
  ghost predicate Linked(r: Registry, node: DomNode, inheritedFrameId: string, parent: Option<NodeKey>)
    decreases node
  {
    var frameId := if node.frameId.Some? then node.frameId.value else inheritedFrameId;
    var key := Canonical(frameId, node.backendNodeId);
    && key in r.nodes && r.nodes[key].dom == Some(node) && r.nodes[key].domParent == parent
    && (forall i :: 0 <= i < |node.children| ==> Linked(r, node.children[i], frameId, Some(key)))
    && (forall i :: 0 <= i < |node.shadowRoots| ==> Linked(r, node.shadowRoots[i], frameId, Some(key)))
    && (node.contentDocument.Some? ==> Linked(r, node.contentDocument.value, frameId, Some(key)))
  }

  ghost predicate AllLinked(r: Registry, nodes: seq<DomNode>, parent: NodeKey)
    requires parent.Canonical?
  {
    forall i :: 0 <= i < |nodes| ==> Linked(r, nodes[i], parent.frameId, Some(parent))
  }

  ghost predicate KeepsDom(r: Registry, after: Registry) {
    forall k :: k in r.nodes ==>
      k in after.nodes && after.nodes[k].dom == r.nodes[k].dom && after.nodes[k].domParent == r.nodes[k].domParent
  }

  lemma {:induction false} StaysLinked(r: Registry, after: Registry, node: DomNode, inheritedFrameId: string,
      parent: Option<NodeKey>)
    requires Linked(r, node, inheritedFrameId, parent) && KeepsDom(r, after)
    ensures Linked(after, node, inheritedFrameId, parent)
    decreases node
  {
    var key := KeyOf(node, inheritedFrameId);
    forall i | 0 <= i < |node.children| ensures Linked(after, node.children[i], key.frameId, Some(key)) {
      StaysLinked(r, after, node.children[i], key.frameId, Some(key));
    }
    forall i | 0 <= i < |node.shadowRoots| ensures Linked(after, node.shadowRoots[i], key.frameId, Some(key)) {
      StaysLinked(r, after, node.shadowRoots[i], key.frameId, Some(key));
    }
    if node.contentDocument.Some? {
      StaysLinked(r, after, node.contentDocument.value, key.frameId, Some(key));
    }
  }

  lemma StayLinked(r: Registry, after: Registry, nodes: seq<DomNode>, parent: NodeKey)
    requires parent.Canonical? && AllLinked(r, nodes, parent) && KeepsDom(r, after)
    ensures AllLinked(after, nodes, parent)
  {
    forall i | 0 <= i < |nodes| ensures Linked(after, nodes[i], parent.frameId, Some(parent)) {
      StaysLinked(r, after, nodes[i], parent.frameId, Some(parent));
    }
  }

  function OrphanOf(key: NodeKey, parent: Option<NodeKey>): Option<NodeKey> {
    if parent.Some? then None else Some(key)
  }

  lemma PrecedesExtends(order: seq<NodeKey>, more: seq<NodeKey>, a: NodeKey, b: NodeKey)
    requires Precedes(order, a, b)
    ensures Precedes(order + more, a, b)
  {
    var i, j :| 0 <= i < j < |order| && order[i] == a && order[j] == b;
    assert (order + more)[i] == a && (order + more)[j] == b;
  }

  lemma EnterFreshDom(r: Registry, node: DomNode, inheritedFrameId: string, parent: Option<NodeKey>)
    requires DomOnly(r) && KeyOf(node, inheritedFrameId) !in r.nodes
    requires parent.Some? ==> parent.value in r.nodes
    ensures var key := KeyOf(node, inheritedFrameId);
            var after := EnterDom(r, node, inheritedFrameId, parent);
            && Visited(r, after, [key], OrphanOf(key, parent))
            && after.nodes[key].dom == Some(node) && after.nodes[key].domParent == parent
  {
    var key := KeyOf(node, inheritedFrameId);
    var after := EnterDom(r, node, inheritedFrameId, parent);
    EnsureKeepsConsistent(r, key, key.frameId, Some(node.backendNodeId));
    forall k | k in after.nodes && after.nodes[k].domParent.Some?
      ensures Precedes(after.order, after.nodes[k].domParent.value, k)
    {
      if k == key {
        var i :| 0 <= i < |r.order| && r.order[i] == parent.value;
        assert after.order[i] == parent.value && after.order[|r.order|] == key;
      } else {
        PrecedesExtends(r.order, [key], r.nodes[k].domParent.value, k);
      }
    }
  }

  lemma VisitedTrans(r: Registry, mid: Registry, after: Registry, a: seq<NodeKey>, b: seq<NodeKey>,
      orphan: Option<NodeKey>)
    requires Visited(r, mid, a, orphan) && Visited(mid, after, b, None)
    ensures Visited(r, after, a + b, orphan)
  {
    assert r.order + a + b == r.order + (a + b);
  }

  lemma SplitDistinct(a: seq<NodeKey>, b: seq<NodeKey>)
    requires Distinct(a + b)
    ensures Distinct(a) && Distinct(b)
    ensures forall k :: k in a ==> k !in b
  {
    forall i, j | 0 <= i < j < |b| ensures b[i] != b[j] {
      assert (a + b)[|a| + i] == b[i] && (a + b)[|a| + j] == b[j];
    }
    forall i, j | 0 <= i < j < |a| ensures a[i] != a[j] {
      assert (a + b)[i] == a[i] && (a + b)[j] == a[j];
    }
    forall i, j | 0 <= i < |a| && 0 <= j < |b| ensures a[i] != b[j] {
      assert (a + b)[i] == a[i] && (a + b)[|a| + j] == b[j];
    }
  }

  ghost predicate FreshFor(r: Registry, keys: seq<NodeKey>) {
    Distinct(keys) && forall k :: k in keys ==> k !in r.nodes
  }

  /** What is fresh for a registry splits into a first part and a part that stays fresh after it. */
  lemma FreshAfterVisit(r: Registry, mid: Registry, a: seq<NodeKey>, b: seq<NodeKey>, orphan: Option<NodeKey>)
    requires Consistent(r) && FreshFor(r, a + b) && Visited(r, mid, a, orphan)
    ensures FreshFor(mid, b)
  {
    SplitDistinct(a, b);
    forall k | k in b ensures k !in mid.nodes {
      assert k in a + b;
      assert k !in r.order;
      assert k !in r.order + a;
    }
  }

  lemma {:induction false} VisitFreshDom(r: Registry, node: DomNode, inheritedFrameId: string, parent: Option<NodeKey>)
    requires DomOnly(r) && FreshFor(r, DomKeys(node, inheritedFrameId))
    requires parent.Some? ==> parent.value in r.nodes
    ensures Visited(r, VisitDom(r, node, inheritedFrameId, parent), DomKeys(node, inheritedFrameId),
                    OrphanOf(KeyOf(node, inheritedFrameId), parent))
    ensures Linked(VisitDom(r, node, inheritedFrameId, parent), node, inheritedFrameId, parent)
    decreases node, 3
  {
    var key := KeyOf(node, inheritedFrameId);
    var below := KeysBelow(node, key.frameId);
    SplitFresh(r, [key], below);
    assert key in [key];
    var entered := EnterDom(r, node, inheritedFrameId, parent);
    EnterFreshDom(r, node, inheritedFrameId, parent);
    FreshAfterVisit(r, entered, [key], below, OrphanOf(key, parent));
    VisitFreshBelow(entered, node, key);
    VisitedTrans(r, entered, VisitBelow(entered, node, key), [key], below, OrphanOf(key, parent));
  }

  ghost predicate LinkedBelow(r: Registry, node: DomNode, key: NodeKey)
    requires key.Canonical?
  {
    && AllLinked(r, node.children, key) && AllLinked(r, node.shadowRoots, key)
    && (node.contentDocument.Some? ==> Linked(r, node.contentDocument.value, key.frameId, Some(key)))
  }

  function ContentKeys(node: DomNode, frameId: string): seq<NodeKey> {
    if node.contentDocument.Some? then DomKeys(node.contentDocument.value, frameId) else []
  }

  /** The content document, after the children and the shadow roots. */
  lemma VisitFreshContent(shadows: Registry, node: DomNode, key: NodeKey)
    requires key.Canonical? && key in shadows.nodes && DomOnly(shadows)
    requires FreshFor(shadows, ContentKeys(node, key.frameId))
    requires AllLinked(shadows, node.children, key) && AllLinked(shadows, node.shadowRoots, key)
    ensures var after := if node.contentDocument.Some?
                         then VisitDom(shadows, node.contentDocument.value, key.frameId, Some(key)) else shadows;
            Visited(shadows, after, ContentKeys(node, key.frameId), None) && LinkedBelow(after, node, key)
    decreases node, 1
  {
    if node.contentDocument.Some? {
      VisitFreshDom(shadows, node.contentDocument.value, key.frameId, Some(key));
      var after := VisitDom(shadows, node.contentDocument.value, key.frameId, Some(key));
      StayLinked(shadows, after, node.children, key);
      StayLinked(shadows, after, node.shadowRoots, key);
    } else {
      assert shadows.order + [] == shadows.order;
    }
  }

  lemma VisitFreshBelow(r: Registry, node: DomNode, key: NodeKey)
    requires key.Canonical? && key in r.nodes && DomOnly(r)
    requires FreshFor(r, KeysBelow(node, key.frameId))
    ensures Visited(r, VisitBelow(r, node, key), KeysBelow(node, key.frameId), None)
    ensures LinkedBelow(VisitBelow(r, node, key), node, key)
    decreases node, 2
  {
    var lists := DomKeysAll(node.children, key.frameId) + DomKeysAll(node.shadowRoots, key.frameId);
    var content := ContentKeys(node, key.frameId);
    SplitFresh(r, lists, content);
    VisitFreshLists(r, node, key);
    var shadows := VisitDomAll(VisitDomAll(r, node.children, key.frameId, Some(key)), node.shadowRoots, key.frameId,
        Some(key));
    FreshAfterVisit(r, shadows, lists, content, None);
    VisitFreshContent(shadows, node, key);
    VisitedTrans(r, shadows, VisitBelow(r, node, key), lists, content, None);
  }

  lemma VisitFreshLists(r: Registry, node: DomNode, key: NodeKey)
    requires key.Canonical? && key in r.nodes && DomOnly(r)
    requires FreshFor(r, DomKeysAll(node.children, key.frameId) + DomKeysAll(node.shadowRoots, key.frameId))
    ensures var children := VisitDomAll(r, node.children, key.frameId, Some(key));
            var shadows := VisitDomAll(children, node.shadowRoots, key.frameId, Some(key));
            && Visited(r, shadows,
                       DomKeysAll(node.children, key.frameId) + DomKeysAll(node.shadowRoots, key.frameId), None)
            && AllLinked(shadows, node.children, key) && AllLinked(shadows, node.shadowRoots, key)
    decreases node, 1
  {
    var a, b := DomKeysAll(node.children, key.frameId), DomKeysAll(node.shadowRoots, key.frameId);
    SplitFresh(r, a, b);
    VisitFreshDoms(r, node, node.children, key);
    var children := VisitDomAll(r, node.children, key.frameId, Some(key));
    FreshAfterVisit(r, children, a, b, None);
    VisitFreshDoms(children, node, node.shadowRoots, key);
    StayLinked(children, VisitDomAll(children, node.shadowRoots, key.frameId, Some(key)), node.children, key);
    VisitedTrans(r, children, VisitDomAll(children, node.shadowRoots, key.frameId, Some(key)), a, b, None);
  }

  lemma SplitFresh(r: Registry, a: seq<NodeKey>, b: seq<NodeKey>)
    requires FreshFor(r, a + b)
    ensures FreshFor(r, a) && FreshFor(r, b)
  {
    SplitDistinct(a, b);
    forall k | k in a || k in b ensures k !in r.nodes {
      assert k in a + b;
    }
  }

  lemma OneMoreLinked(r: Registry, nodes: seq<DomNode>, parent: NodeKey)
    requires parent.Canonical? && nodes != [] && AllLinked(r, nodes[..|nodes| - 1], parent)
    requires Linked(r, nodes[|nodes| - 1], parent.frameId, Some(parent))
    ensures AllLinked(r, nodes, parent)
  {
    forall i | 0 <= i < |nodes| ensures Linked(r, nodes[i], parent.frameId, Some(parent)) {
      assert i < |nodes| - 1 ==> nodes[i] == nodes[..|nodes| - 1][i];
    }
  }

  lemma {:induction false} VisitFreshDoms(r: Registry, owner: DomNode, nodes: seq<DomNode>, parent: NodeKey)
    requires parent.Canonical? && parent in r.nodes
    requires forall i :: 0 <= i < |nodes| ==> nodes[i] < owner
    requires DomOnly(r) && FreshFor(r, DomKeysAll(nodes, parent.frameId))
    ensures Visited(r, VisitDomAll(r, nodes, parent.frameId, Some(parent)), DomKeysAll(nodes, parent.frameId), None)
    ensures AllLinked(VisitDomAll(r, nodes, parent.frameId, Some(parent)), nodes, parent)
    decreases owner, 0, |nodes|
  {
    if nodes == [] {
      assert r.order + [] == r.order;
    } else {
      var n := |nodes| - 1;
      var a, b := DomKeysAll(nodes[..n], parent.frameId), DomKeys(nodes[n], parent.frameId);
      SplitFresh(r, a, b);
      VisitFreshDoms(r, owner, nodes[..n], parent);
      var mid := VisitDomAll(r, nodes[..n], parent.frameId, Some(parent));
      FreshAfterVisit(r, mid, a, b, None);
      VisitFreshDom(mid, nodes[n], parent.frameId, Some(parent));
      StayLinked(mid, VisitDom(mid, nodes[n], parent.frameId, Some(parent)), nodes[..n], parent);
      OneMoreLinked(VisitDom(mid, nodes[n], parent.frameId, Some(parent)), nodes, parent);
      VisitedTrans(r, mid, VisitDom(mid, nodes[n], parent.frameId, Some(parent)), a, b, None);
    }
  }

  // ---- The later records never touch a DOM node or its parent -----------------------------------

  /** The order grows at its end, records keep their DOM nodes and parents, and new records have none. */
  ghost predicate KeepsParents(r: Registry, after: Registry) {
    && Consistent(after)
    && after.mainFrameId == r.mainFrameId
    && |r.order| <= |after.order| && after.order[..|r.order|] == r.order
    && forall k :: k in after.nodes ==>
         && after.nodes[k].dom == (if k in r.nodes then r.nodes[k].dom else None)
         && after.nodes[k].domParent == (if k in r.nodes then r.nodes[k].domParent else None)
         && after.nodes[k].axParent == (if k in r.nodes then r.nodes[k].axParent else None)
  }

  lemma KeepsParentsTrans(r: Registry, mid: Registry, after: Registry)
    requires Consistent(r) && KeepsParents(r, mid) && KeepsParents(mid, after)
    ensures KeepsParents(r, after)
  {
    assert after.order[..|r.order|] == after.order[..|mid.order|][..|r.order|];
    KeptKeys(r, mid);
    KeptKeys(mid, after);
  }

  lemma KeptKeys(r: Registry, after: Registry)
    requires Consistent(r) && KeepsParents(r, after)
    ensures r.nodes.Keys <= after.nodes.Keys
  {
    forall k | k in r.nodes ensures k in after.nodes {
      var i :| 0 <= i < |r.order| && r.order[i] == k;
      assert after.order[i] == after.order[..|r.order|][i];
    }
  }

  lemma EnsureKeepsParents(r: Registry, key: NodeKey, frameId: string, id: Option<BackendId>)
    requires Consistent(r)
    requires key !in r.nodes ==>
               match key case Canonical(f, b) => f == frameId && Some(b) == id case AxOnly(_) => id == None
    ensures KeepsParents(r, Ensure(r, key, frameId, id)) && key in Ensure(r, key, frameId, id).nodes
  {
    if key !in r.nodes {
      EnsureKeepsConsistent(r, key, frameId, id);
    }
  }

  lemma ResolvedKeyIsKnown(r: Registry, id: BackendId, frameId: Option<string>)
    requires Consistent(r)
    ensures var key := ResolveKey(r, id, frameId); key.Some? ==> key.value in r.nodes
  {
    ResolveKeyAnswers(r, id, frameId);
  }

  lemma SetRecordKeepsParents(r: Registry, after: Registry, key: NodeKey, record: CanonicalNode)
    requires KeepsParents(r, after) && key in after.nodes
    requires record.frameId == after.nodes[key].frameId && record.backendNodeId == after.nodes[key].backendNodeId
    requires record.dom == after.nodes[key].dom
    requires record.domParent == after.nodes[key].domParent && record.axParent == after.nodes[key].axParent
    ensures KeepsParents(r, after.(nodes := after.nodes[key := record]))
  {
  }

  lemma AddLayoutKeepsParents(r: Registry, existing: Option<NodeKey>, layout: LayoutRecord)
    requires Consistent(r) && (existing.Some? ==> existing.value in r.nodes)
    ensures KeepsParents(r, AddLayoutAt(r, existing, layout))
  {
    var frameId := OrElse(layout.frameId, if existing.Some? then r.nodes[existing.value].frameId else r.mainFrameId);
    var key := OrElse(existing, Canonical(frameId, layout.backendNodeId));
    EnsureKeepsParents(r, key, frameId, Some(layout.backendNodeId));
    var ensured := Ensure(r, key, frameId, Some(layout.backendNodeId));
    SetRecordKeepsParents(r, ensured, key, ensured.nodes[key].(layout := Some(layout)));
  }

  lemma {:induction false} SnapshotKeepsParents(r: Registry, records: seq<LayoutRecord>)
    requires Consistent(r)
    ensures KeepsParents(r, AddSnapshotRecords(r, records))
  {
    if records != [] {
      var init, layout := records[..|records| - 1], records[|records| - 1];
      SnapshotKeepsParents(r, init);
      var before := AddSnapshotRecords(r, init);
      ResolvedKeyIsKnown(before, layout.backendNodeId, layout.frameId);
      AddLayoutKeepsParents(before, ResolveKey(before, layout.backendNodeId, layout.frameId), layout);
      KeepsParentsTrans(r, AddSnapshotRecords(r, init), AddSnapshotRecords(r, records));
    }
  }

  lemma EnterAxKeepsParents(r: Registry, existing: Option<NodeKey>, ax: AxNode)
    requires Consistent(r) && (existing.Some? ==> existing.value in r.nodes)
    ensures KeepsParents(r, EnterAxAt(r, existing, ax)) && AxKeyAt(r, existing, ax) in EnterAxAt(r, existing, ax).nodes
  {
    var key := AxKeyAt(r, existing, ax);
    var frameId := if existing.Some? then r.nodes[existing.value].frameId else r.mainFrameId;
    EnsureKeepsParents(r, key, frameId, ax.backendDOMNodeId);
    var ensured := Ensure(r, key, frameId, ax.backendDOMNodeId);
    SetRecordKeepsParents(r, ensured, key, ensured.nodes[key].(ax := Some(ax)));
  }

  lemma {:induction false} EnterAxAllKeepsParents(r: Registry, axNodes: seq<AxNode>)
    requires Consistent(r)
    ensures var (after, keys) := EnterAxAll(r, axNodes);
            KeepsParents(r, after) && forall id :: id in keys ==> keys[id] in after.nodes
  {
    if axNodes != [] {
      var init, last := axNodes[..|axNodes| - 1], axNodes[|axNodes| - 1];
      EnterAxAllKeepsParents(r, init);
      var (before, keys) := EnterAxAll(r, init);
      if last.backendDOMNodeId.Some? {
        ResolvedKeyIsKnown(before, last.backendDOMNodeId.value, None);
      }
      EnterAxKeepsParents(before, ResolveAx(before, last), last);
      KeepsParentsTrans(r, before, EnterAx(before, last));
    }
  }

  lemma TargetKeepsParents(r: Registry, target: Target)
    requires Consistent(r)
    ensures KeepsParents(r, AddTarget(r, target))
  {
    var frameId := OrElse(target.frameId, r.mainFrameId);
    var key := Canonical(frameId, target.backendNodeId);
    EnsureKeepsParents(r, key, frameId, Some(target.backendNodeId));
    RewriteKeepsParents(r, Ensure(r, key, frameId, Some(target.backendNodeId)), key, AddTarget(r, target).nodes[key]);
  }

  /** A record may be rewritten as long as it keeps its place and its parents. */
  lemma RewriteKeepsParents(r: Registry, mid: Registry, key: NodeKey, record: CanonicalNode)
    requires KeepsParents(r, mid) && key in mid.nodes
    requires record == mid.nodes[key].(target := record.target, semanticSource := record.semanticSource)
    ensures KeepsParents(r, mid.(nodes := mid.nodes[key := record]))
  {
  }

  lemma {:induction false} InteractiveKeepsParents(r: Registry, targets: seq<Target>)
    requires Consistent(r)
    ensures KeepsParents(r, AddInteractiveElements(r, targets))
  {
    if targets != [] {
      var init, target := targets[..|targets| - 1], targets[|targets| - 1];
      InteractiveKeepsParents(r, init);
      var before := AddInteractiveElements(r, init);
      TargetKeepsParents(before, target);
      KeepsParentsTrans(r, before, AddTarget(before, target));
    }
  }

  /** One accessibility node lists the other among its children. */
  ghost predicate AxEdge(keys: AxKeys, axNodes: seq<AxNode>, parent: NodeKey, child: NodeKey) {
    exists n, c :: n in axNodes && c in n.childIds && n.nodeId in keys && c in keys
                   && keys[n.nodeId] == parent && keys[c] == child && parent != child
  }

  /** Linking changes accessibility parents only, and only along listed edges. */
  ghost predicate LinksOnly(r: Registry, after: Registry, keys: AxKeys, axNodes: seq<AxNode>) {
    && Consistent(after)
    && after.mainFrameId == r.mainFrameId && after.order == r.order
    && forall k :: k in after.nodes ==>
         && k in r.nodes && after.nodes[k].dom == r.nodes[k].dom && after.nodes[k].domParent == r.nodes[k].domParent
         && (after.nodes[k].axParent == r.nodes[k].axParent
             || (after.nodes[k].axParent.Some? && AxEdge(keys, axNodes, after.nodes[k].axParent.value, k)))
  }

  lemma {:induction false} LinkChildrenLinksOnly(r: Registry, before: Registry, keys: AxKeys, axNodes: seq<AxNode>,
      n: AxNode, count: nat)
    requires LinksOnly(r, before, keys, axNodes) && n in axNodes && n.nodeId in keys && count <= |n.childIds|
    ensures LinksOnly(r, LinkAxChildren(before, keys, keys[n.nodeId], n.childIds[..count]), keys, axNodes)
    decreases count
  {
    if count > 0 {
      assert n.childIds[..count][..count - 1] == n.childIds[..count - 1];
      LinkChildrenLinksOnly(r, before, keys, axNodes, n, count - 1);
      var childId := n.childIds[count - 1];
      assert childId in n.childIds;
      assert childId in keys && keys[childId] != keys[n.nodeId] ==>
          AxEdge(keys, axNodes, keys[n.nodeId], keys[childId]);
    }
  }

  lemma {:induction false} LinkAxLinksOnly(r: Registry, keys: AxKeys, axNodes: seq<AxNode>, count: nat)
    requires Consistent(r) && count <= |axNodes|
    ensures LinksOnly(r, LinkAx(r, keys, axNodes[..count]), keys, axNodes)
    decreases count
  {
    if count > 0 {
      assert axNodes[..count][..count - 1] == axNodes[..count - 1];
      LinkAxLinksOnly(r, keys, axNodes, count - 1);
      var n := axNodes[count - 1];
      if n.nodeId in keys {
        LinkChildrenLinksOnly(r, LinkAx(r, keys, axNodes[..count - 1]), keys, axNodes, n, |n.childIds|);
        assert n.childIds[..|n.childIds|] == n.childIds;
      }
    }
  }

  /** Records have their accessibility parents where they had them, and whoever is linked stays linked. */
  ghost predicate StillLinked(r: Registry, after: Registry) {
    && after.nodes.Keys == r.nodes.Keys
    && forall k :: k in r.nodes && r.nodes[k].axParent.Some? ==> after.nodes[k].axParent.Some?
  }

  lemma {:induction false} ListedChildrenAreLinked(r: Registry, keys: AxKeys, parent: NodeKey, childIds: seq<string>)
    ensures StillLinked(r, LinkAxChildren(r, keys, parent, childIds))
    ensures forall c :: c in childIds && c in keys && keys[c] != parent && keys[c] in r.nodes ==>
              LinkAxChildren(r, keys, parent, childIds).nodes[keys[c]].axParent.Some?
  {
    if childIds != [] {
      ListedChildrenAreLinked(r, keys, parent, childIds[..|childIds| - 1]);
    }
  }

  /** Every listed child has an accessibility parent afterwards. */
  lemma {:induction false} ListingsAreLinked(r: Registry, keys: AxKeys, axNodes: seq<AxNode>)
    requires forall id :: id in keys ==> keys[id] in r.nodes
    ensures StillLinked(r, LinkAx(r, keys, axNodes))
    ensures forall up, k :: AxEdge(keys, axNodes, up, k) ==> LinkAx(r, keys, axNodes).nodes[k].axParent.Some?
  {
    if axNodes != [] {
      var init, last := axNodes[..|axNodes| - 1], axNodes[|axNodes| - 1];
      assert axNodes == init + [last];
      ListingsAreLinked(r, keys, init);
      if last.nodeId in keys {
        ListedChildrenAreLinked(LinkAx(r, keys, init), keys, keys[last.nodeId], last.childIds);
      }
      forall up, k | AxEdge(keys, axNodes, up, k) ensures LinkAx(r, keys, axNodes).nodes[k].axParent.Some? {
        var n, c :| n in axNodes && c in n.childIds && n.nodeId in keys && c in keys
                    && keys[n.nodeId] == up && keys[c] == k && up != k;
        assert n != last ==> AxEdge(keys, init, up, k);
      }
    }
  }

  // ---- Acyclicity of the combined relation -----------------------------------------------------

  function Position(order: seq<NodeKey>, key: NodeKey): (i: nat)
    ensures i <= |order| && (i < |order| <==> key in order) && (i < |order| ==> order[i] == key)
  {
    if order == [] then 0 else if order[0] == key then 0 else 1 + Position(order[1..], key)
  }

  ghost predicate DistinctAxKeys(keys: AxKeys) {
    forall a, b :: a in keys && b in keys && keys[a] == keys[b] ==> a == b
  }

  ghost predicate TreeShaped(axNodes: seq<AxNode>, axRank: string -> nat) {
    forall n, c :: n in axNodes && c in n.childIds ==> axRank(n.nodeId) < axRank(c)
  }

  ghost function AxRankOf(keys: AxKeys, axRank: string -> nat, key: NodeKey): nat {
    if exists id :: id in keys && keys[id] == key then (var id :| id in keys && keys[id] == key; axRank(id)) else 0
  }

  /** DOM nodes rank by document order, all others above them by accessibility depth. */
  ghost function CombinedRank(dom: seq<NodeKey>, keys: AxKeys, axRank: string -> nat): NodeKey -> nat {
    (k: NodeKey) => if k in dom then Position(dom, k) else |dom| + AxRankOf(keys, axRank, k)
  }

  function DomPart(mainFrameId: string, domRoot: Option<DomNode>): Registry {
    if domRoot.Some? then AddDomTree(Empty(mainFrameId), domRoot.value) else Empty(mainFrameId)
  }

  function DomOrder(mainFrameId: string, domRoot: Option<DomNode>): seq<NodeKey> {
    if domRoot.Some? then DomKeys(domRoot.value, mainFrameId) else []
  }

  function AxKeysOf(mainFrameId: string, domRoot: Option<DomNode>, records: seq<LayoutRecord>,
      axNodes: seq<AxNode>): AxKeys {
    EnterAxAll(AddSnapshotRecords(DomPart(mainFrameId, domRoot), records), axNodes).1
  }

  lemma DomPartOrder(mainFrameId: string, domRoot: Option<DomNode>)
    requires Distinct(DomOrder(mainFrameId, domRoot))
    ensures var r := DomPart(mainFrameId, domRoot);
            var dom := DomOrder(mainFrameId, domRoot);
            && DomOnly(r) && r.order == dom && r.mainFrameId == mainFrameId
            && (forall k :: k in dom && r.nodes[k].domParent == None ==> k == dom[0])
            && (domRoot.Some? ==> Linked(r, domRoot.value, mainFrameId, None))
  {
    var dom := DomOrder(mainFrameId, domRoot);
    if domRoot.Some? {
      VisitFreshDom(Empty(mainFrameId), domRoot.value, mainFrameId, None);
      assert [] + dom == dom;
    }
  }

  lemma PrefixMembers(short: seq<NodeKey>, long: seq<NodeKey>, k: NodeKey)
    requires |short| <= |long| && long[..|short|] == short && k in short
    ensures k in long
  {
    var i :| 0 <= i < |short| && short[i] == k;
    assert long[i] == long[..|short|][i];
  }

  /** The registry before linking still has the parents of the DOM part. */
  lemma EnteredParents(mainFrameId: string, domRoot: Option<DomNode>, records: seq<LayoutRecord>, axNodes: seq<AxNode>)
    requires Distinct(DomOrder(mainFrameId, domRoot))
    ensures KeepsParents(DomPart(mainFrameId, domRoot),
                         EnterAxAll(AddSnapshotRecords(DomPart(mainFrameId, domRoot), records), axNodes).0)
  {
    DomPartOrder(mainFrameId, domRoot);
    var r0 := DomPart(mainFrameId, domRoot);
    var r1 := AddSnapshotRecords(r0, records);
    SnapshotKeepsParents(r0, records);
    EnterAxAllKeepsParents(r1, axNodes);
    KeepsParentsTrans(r0, r1, EnterAxAll(r1, axNodes).0);
  }

  /** How the parents of the assembled registry come about. */
  lemma AssembledParents(mainFrameId: string, domRoot: Option<DomNode>, records: seq<LayoutRecord>,
                         axNodes: seq<AxNode>, targets: seq<Target>, k: NodeKey)
    requires Distinct(DomOrder(mainFrameId, domRoot))
    ensures var r := Assemble(mainFrameId, domRoot, records, axNodes, targets);
            var dom := DomOrder(mainFrameId, domRoot);
            var keys := AxKeysOf(mainFrameId, domRoot, records, axNodes);
            && Consistent(r) && r.mainFrameId == mainFrameId
            && (k in dom ==> k in r.nodes)
            && (k in r.nodes ==>
                  && (r.nodes[k].domParent.Some? ==> Precedes(dom, r.nodes[k].domParent.value, k))
                  && (k in dom && r.nodes[k].domParent == None ==> k == dom[0])
                  && (r.nodes[k].axParent.Some? ==> AxEdge(keys, axNodes, r.nodes[k].axParent.value, k)))
  {
    DomPartOrder(mainFrameId, domRoot);
    EnteredParents(mainFrameId, domRoot, records, axNodes);
    var r0 := DomPart(mainFrameId, domRoot);
    var (r2, keys) := EnterAxAll(AddSnapshotRecords(r0, records), axNodes);
    var r3 := LinkAx(r2, keys, axNodes);
    LinkAxLinksOnly(r2, keys, axNodes, |axNodes|);
    assert axNodes[..|axNodes|] == axNodes;
    InteractiveKeepsParents(r3, targets);
    var r := AddInteractiveElements(r3, targets);
    if k in r0.order {
      PrefixMembers(r0.order, r2.order, k);
      PrefixMembers(r3.order, r.order, k);
    }
  }

  lemma KeptDom(r: Registry, after: Registry)
    requires Consistent(r) && KeepsParents(r, after)
    ensures KeepsDom(r, after)
  {
    KeptKeys(r, after);
  }

  lemma LinkKeepsDom(r: Registry, keys: AxKeys, axNodes: seq<AxNode>)
    requires Consistent(r)
    ensures Consistent(LinkAx(r, keys, axNodes)) && KeepsDom(r, LinkAx(r, keys, axNodes))
  {
    LinkAxLinksOnly(r, keys, axNodes, |axNodes|);
    assert axNodes[..|axNodes|] == axNodes;
  }

  lemma AddAxKeepsDom(r: Registry, axNodes: seq<AxNode>)
    requires Consistent(r)
    ensures Consistent(AddAxTree(r, axNodes)) && KeepsDom(r, AddAxTree(r, axNodes))
  {
    EnterAxAllKeepsParents(r, axNodes);
    var (entered, keys) := EnterAxAll(r, axNodes);
    KeptDom(r, entered);
    LinkKeepsDom(entered, keys, axNodes);
  }

  /**
   * Every record of the document names its node and hangs under the node that contains it, whatever layout,
   * accessibility and interactive records were added after it.
   */
  lemma DocumentIsLinked(mainFrameId: string, root: DomNode, records: seq<LayoutRecord>, axNodes: seq<AxNode>,
                         targets: seq<Target>)
    requires Distinct(DomOrder(mainFrameId, Some(root)))
    ensures Linked(Assemble(mainFrameId, Some(root), records, axNodes, targets), root, mainFrameId, None)
  {
    DomPartOrder(mainFrameId, Some(root));
    var r0 := DomPart(mainFrameId, Some(root));
    var r1 := AddSnapshotRecords(r0, records);
    SnapshotKeepsParents(r0, records);
    KeptDom(r0, r1);
    AddAxKeepsDom(r1, axNodes);
    var r3 := AddAxTree(r1, axNodes);
    InteractiveKeepsParents(r3, targets);
    KeptDom(r3, AddInteractiveElements(r3, targets));
    StaysLinked(r0, AddInteractiveElements(r3, targets), root, mainFrameId, None);
  }

  /** An accessibility parent comes from a listing, and every listed record has one. */
  lemma ListedExactlyWhenLinked(mainFrameId: string, domRoot: Option<DomNode>, records: seq<LayoutRecord>,
                                axNodes: seq<AxNode>, targets: seq<Target>, k: NodeKey)
    requires Distinct(DomOrder(mainFrameId, domRoot))
    ensures var r := Assemble(mainFrameId, domRoot, records, axNodes, targets);
            var keys := AxKeysOf(mainFrameId, domRoot, records, axNodes);
            && (k in r.nodes && r.nodes[k].axParent.Some? <==> exists up :: AxEdge(keys, axNodes, up, k))
            && (k in r.nodes && r.nodes[k].axParent.Some? ==> AxEdge(keys, axNodes, r.nodes[k].axParent.value, k))
  {
    AssembledParents(mainFrameId, domRoot, records, axNodes, targets, k);
    DomPartOrder(mainFrameId, domRoot);
    var r1 := AddSnapshotRecords(DomPart(mainFrameId, domRoot), records);
    SnapshotKeepsParents(DomPart(mainFrameId, domRoot), records);
    EnterAxAllKeepsParents(r1, axNodes);
    var (r2, keys) := EnterAxAll(r1, axNodes);
    ListingsAreLinked(r2, keys, axNodes);
    LinkAxLinksOnly(r2, keys, axNodes, |axNodes|);
    assert axNodes[..|axNodes|] == axNodes;
    var r3 := LinkAx(r2, keys, axNodes);
    InteractiveKeepsParents(r3, targets);
    KeptKeys(r3, AddInteractiveElements(r3, targets));
  }

  lemma {:induction false} PrecedesMeansSmallerPosition(order: seq<NodeKey>, a: NodeKey, b: NodeKey)
    requires Distinct(order) && Precedes(order, a, b)
    ensures a in order && b in order && Position(order, a) < Position(order, b)
  {
    var i, j :| 0 <= i < j < |order| && order[i] == a && order[j] == b;
    var p, q := Position(order, a), Position(order, b);
    assert p == i && q == j;
  }

  /**
   * Distinct DOM keys, distinct accessibility keys, an accessibility child relation without cycles and a
   * DOM root without accessibility parent make the combined parent relation acyclic.
   */
  lemma InputIsAcyclic(mainFrameId: string, domRoot: Option<DomNode>, records: seq<LayoutRecord>,
                       axNodes: seq<AxNode>, targets: seq<Target>, axRank: string -> nat)
    requires Distinct(DomOrder(mainFrameId, domRoot))
    requires DistinctAxKeys(AxKeysOf(mainFrameId, domRoot, records, axNodes))
    requires TreeShaped(axNodes, axRank)
    requires domRoot.Some? ==>
               var r := Assemble(mainFrameId, domRoot, records, axNodes, targets);
               var root := KeyOf(domRoot.value, mainFrameId);
               root in r.nodes && r.nodes[root].axParent == None
    ensures var r := Assemble(mainFrameId, domRoot, records, axNodes, targets);
            && Consistent(r)
            && CombinedRanked(r, CombinedRank(DomOrder(mainFrameId, domRoot),
                                              AxKeysOf(mainFrameId, domRoot, records, axNodes), axRank))
  {
    var r := Assemble(mainFrameId, domRoot, records, axNodes, targets);
    var dom := DomOrder(mainFrameId, domRoot);
    var keys := AxKeysOf(mainFrameId, domRoot, records, axNodes);
    var rank := CombinedRank(dom, keys, axRank);
    AssembledParents(mainFrameId, domRoot, records, axNodes, targets, AxOnly(""));
    forall k | k in r.nodes && ParentKey(r, k).Some? ensures rank(ParentKey(r, k).value) < rank(k) {
      var up := ParentKey(r, k).value;
      AssembledParents(mainFrameId, domRoot, records, axNodes, targets, k);
      if r.nodes[k].domParent.Some? {
        PrecedesMeansSmallerPosition(dom, up, k);
      } else {
        assert k !in dom;
        if up !in dom {
          var n, c :| n in axNodes && c in n.childIds && n.nodeId in keys && c in keys && keys[n.nodeId] == up
              && keys[c] == k;
          assert AxRankOf(keys, axRank, up) == axRank(n.nodeId);
          assert AxRankOf(keys, axRank, k) == axRank(c);
        }
      }
    }
  }

  // ---- Ancestors are the nodes above in the document --------------------------------------------

  /** The node with key `k` occurs in the document under `node`, below the nodes in `line`, nearest first. */
  ghost predicate OccursUnder(node: DomNode, inheritedFrameId: string, above: seq<NodeKey>, k: NodeKey,
      line: seq<NodeKey>)
    decreases node
  {
    var frameId := if node.frameId.Some? then node.frameId.value else inheritedFrameId;
    var key := Canonical(frameId, node.backendNodeId);
    || (k == key && line == above)
    || (exists i :: 0 <= i < |node.children| && OccursUnder(node.children[i], frameId, [key] + above, k, line))
    || (exists i :: 0 <= i < |node.shadowRoots| && OccursUnder(node.shadowRoots[i], frameId, [key] + above, k, line))
    || (node.contentDocument.Some? && OccursUnder(node.contentDocument.value, frameId, [key] + above, k, line))
  }

  /** Nobody is above the root; any other node is below its parent and whoever is above that. */
  ghost predicate IsAbove(r: Registry, rank: NodeKey -> nat, key: NodeKey, parent: Option<NodeKey>, above: seq<NodeKey>)
    requires CombinedRanked(r, rank)
  {
    match parent
    case None => above == [] && key in r.nodes && r.nodes[key].axParent == None
    case Some(up) => above == [up] + Ancestors(r, rank, up)
  }

  lemma {:induction false} AncestorsAreTheLine(r: Registry, rank: NodeKey -> nat, node: DomNode,
      inheritedFrameId: string, parent: Option<NodeKey>, above: seq<NodeKey>, k: NodeKey, line: seq<NodeKey>)
    requires CombinedRanked(r, rank) && Linked(r, node, inheritedFrameId, parent)
    requires IsAbove(r, rank, KeyOf(node, inheritedFrameId), parent, above)
    requires OccursUnder(node, inheritedFrameId, above, k, line)
    ensures k in r.nodes && Ancestors(r, rank, k) == line
    decreases node
  {
    var key := KeyOf(node, inheritedFrameId);
    assert Ancestors(r, rank, key) == above;
    var below := [key] + above;
    if k == key && line == above {
    } else if i :| 0 <= i < |node.children| && OccursUnder(node.children[i], key.frameId, below, k, line) {
      AncestorsAreTheLine(r, rank, node.children[i], key.frameId, Some(key), below, k, line);
    } else if i :| 0 <= i < |node.shadowRoots| && OccursUnder(node.shadowRoots[i], key.frameId, below, k, line) {
      AncestorsAreTheLine(r, rank, node.shadowRoots[i], key.frameId, Some(key), below, k, line);
    } else {
      AncestorsAreTheLine(r, rank, node.contentDocument.value, key.frameId, Some(key), below, k, line);
    }
  }

  /** In the page tree a node of the document hangs under the nearest semantic node that contains it. */
  lemma DocumentNodesHangUnderTheNearest(mainFrameId: string, root: DomNode, records: seq<LayoutRecord>,
      axNodes: seq<AxNode>, targets: seq<Target>, rank: NodeKey -> nat, h: Heuristics, k: NodeKey, line: seq<NodeKey>)
    requires Distinct(DomOrder(mainFrameId, Some(root)))
    requires var r := Assemble(mainFrameId, Some(root), records, axNodes, targets);
             && Consistent(r) && CombinedRanked(r, rank)
             && KeyOf(root, mainFrameId) in r.nodes && r.nodes[KeyOf(root, mainFrameId)].axParent == None
    requires OccursUnder(root, mainFrameId, [], k, line)
    ensures var r := Assemble(mainFrameId, Some(root), records, axNodes, targets);
            k in r.nodes
            && (IsSemantic(r, h, k) ==>
                  k in SemanticParents(r, h).parent && Nearest(r, h, line, SemanticParents(r, h).parent[k]))
  {
    var r := Assemble(mainFrameId, Some(root), records, axNodes, targets);
    DocumentIsLinked(mainFrameId, root, records, axNodes, targets);
    AncestorsAreTheLine(r, rank, root, mainFrameId, None, [], k, line);
    if IsSemantic(r, h, k) {
      SemanticParentsAreNearest(r, h, rank, k);
    }
  }

  lemma DocumentHangsUnderTheNearest(mainFrameId: string, domRoot: Option<DomNode>, records: seq<LayoutRecord>,
                                     axNodes: seq<AxNode>, targets: seq<Target>, rank: NodeKey -> nat, h: Heuristics)
    requires Distinct(DomOrder(mainFrameId, domRoot))
    requires var r := Assemble(mainFrameId, domRoot, records, axNodes, targets);
             && Consistent(r) && CombinedRanked(r, rank)
             && (domRoot.Some? ==>
                   KeyOf(domRoot.value, mainFrameId) in r.nodes
                       && r.nodes[KeyOf(domRoot.value, mainFrameId)].axParent == None)
    ensures var r := Assemble(mainFrameId, domRoot, records, axNodes, targets);
            var p := SemanticParents(r, h);
            forall k, line ::
              domRoot.Some? && OccursUnder(domRoot.value, mainFrameId, [], k, line) && IsSemantic(r, h, k) ==>
                k in p.parent && Nearest(r, h, line, p.parent[k])
  {
    var r := Assemble(mainFrameId, domRoot, records, axNodes, targets);
    var p := SemanticParents(r, h);
    forall k, line | domRoot.Some? && OccursUnder(domRoot.value, mainFrameId, [], k, line) && IsSemantic(r, h, k)
      ensures k in p.parent && Nearest(r, h, line, p.parent[k])
    {
      DocumentNodesHangUnderTheNearest(mainFrameId, domRoot.value, records, axNodes, targets, rank, h, k, line);
    }
  }

  /**
   * Under those four conditions the page tree is a forest: every semantic node is in it exactly once, under
   * the nearest semantic node among its ancestors, which for a node of the document are the nodes that
   * contain it.
   */
  lemma PageTreeIsAForest(mainFrameId: string, domRoot: Option<DomNode>, records: seq<LayoutRecord>,
                          axNodes: seq<AxNode>, targets: seq<Target>, axRank: string -> nat, h: Heuristics)
    requires Distinct(DomOrder(mainFrameId, domRoot))
    requires DistinctAxKeys(AxKeysOf(mainFrameId, domRoot, records, axNodes))
    requires TreeShaped(axNodes, axRank)
    requires domRoot.Some? ==>
               var r := Assemble(mainFrameId, domRoot, records, axNodes, targets);
               var root := KeyOf(domRoot.value, mainFrameId);
               root in r.nodes && r.nodes[root].axParent == None
    ensures var r := Assemble(mainFrameId, domRoot, records, axNodes, targets);
            var rank := CombinedRank(DomOrder(mainFrameId, domRoot),
                                     AxKeysOf(mainFrameId, domRoot, records, axNodes), axRank);
            var p := SemanticParents(r, h);
            && CombinedRanked(r, rank) && Ranked(p, rank)
            && (forall k :: k in p.parent ==> rank(k) <= TopRank(r.order, rank))
            && Distinct(KeysOfAll(Forest(p, rank, TopRank(r.order, rank))))
            && (forall k :: k in KeysOfAll(Forest(p, rank, TopRank(r.order, rank)))
                 <==> k in r.nodes && IsSemantic(r, h, k))
            && Follow(p, None, Forest(p, rank, TopRank(r.order, rank)))
            && (forall k :: k in p.parent ==> Nearest(r, h, Ancestors(r, rank, k), p.parent[k]))
            && (forall k, line ::
                  domRoot.Some? && OccursUnder(domRoot.value, mainFrameId, [], k, line) && IsSemantic(r, h, k) ==>
                    k in p.parent && Nearest(r, h, line, p.parent[k]))
  {
    InputIsAcyclic(mainFrameId, domRoot, records, axNodes, targets, axRank);
    var r := Assemble(mainFrameId, domRoot, records, axNodes, targets);
    var rank := CombinedRank(DomOrder(mainFrameId, domRoot), AxKeysOf(mainFrameId, domRoot, records, axNodes), axRank);
    AcyclicInputYieldsAForest(r, h, rank, TopRank(r.order, rank));
    DocumentHangsUnderTheNearest(mainFrameId, domRoot, records, axNodes, targets, rank, h);
  }

  function TargetKey(mainFrameId: string, t: Target): NodeKey {
    Canonical(OrElse(t.frameId, mainFrameId), t.backendNodeId)
  }

  /** Every element handed in becomes the target of the record under its key, whatever comes after it. */
  lemma {:induction false} TargetsAreRecorded(r: Registry, targets: seq<Target>)
    requires Consistent(r)
    ensures var after := AddInteractiveElements(r, targets);
            && after.mainFrameId == r.mainFrameId
            && forall t :: t in targets ==>
                 TargetKey(r.mainFrameId, t) in after.nodes && after.nodes[TargetKey(r.mainFrameId, t)].target.Some?
  {
    if targets != [] {
      var init, last := targets[..|targets| - 1], targets[|targets| - 1];
      assert targets == init + [last];
      TargetsAreRecorded(r, init);
      AddTargetKeepsTargets(AddInteractiveElements(r, init), last);
    }
  }

  lemma AddTargetKeepsTargets(r: Registry, t: Target)
    ensures var after := AddTarget(r, t);
            && after.mainFrameId == r.mainFrameId
            && TargetKey(r.mainFrameId, t) in after.nodes && after.nodes[TargetKey(r.mainFrameId, t)].target.Some?
            && forall k :: k in r.nodes && r.nodes[k].target.Some? ==> k in after.nodes && after.nodes[k].target.Some?
  {
  }

  lemma InputTargetsAreRecorded(mainFrameId: string, domRoot: Option<DomNode>, records: seq<LayoutRecord>,
                                axNodes: seq<AxNode>, targets: seq<Target>, t: Target)
    requires Distinct(DomOrder(mainFrameId, domRoot)) && t in targets
    ensures var r := Assemble(mainFrameId, domRoot, records, axNodes, targets);
            TargetKey(mainFrameId, t) in r.nodes && r.nodes[TargetKey(mainFrameId, t)].target.Some?
  {
    AssembledParents(mainFrameId, domRoot, records, axNodes, [], AxOnly(""));
    var before := AddAxTree(AddSnapshotRecords(DomPart(mainFrameId, domRoot), records), axNodes);
    assert AddInteractiveElements(before, []) == before;
    TargetsAreRecorded(before, targets);
  }

  /**
   * Under the four conditions every element of the list handed in is in the page tree, unless its own DOM
   * node is a text or a comment.
   */
  lemma EveryInputTargetAppears(mainFrameId: string, domRoot: Option<DomNode>, records: seq<LayoutRecord>,
                                axNodes: seq<AxNode>, targets: seq<Target>, axRank: string -> nat, h: Heuristics,
                                t: Target)
    requires Distinct(DomOrder(mainFrameId, domRoot))
    requires DistinctAxKeys(AxKeysOf(mainFrameId, domRoot, records, axNodes))
    requires TreeShaped(axNodes, axRank)
    requires domRoot.Some? ==>
               var r := Assemble(mainFrameId, domRoot, records, axNodes, targets);
               var root := KeyOf(domRoot.value, mainFrameId);
               root in r.nodes && r.nodes[root].axParent == None
    requires t in targets
    ensures var r := Assemble(mainFrameId, domRoot, records, axNodes, targets);
            var rank := CombinedRank(DomOrder(mainFrameId, domRoot),
                                     AxKeysOf(mainFrameId, domRoot, records, axNodes), axRank);
            var p, key := SemanticParents(r, h), TargetKey(mainFrameId, t);
            && key in r.nodes && r.nodes[key].target.Some?
            && ((r.nodes[key].dom.Some? && r.nodes[key].dom.value.textual)
                || (Ranked(p, rank) && (forall k :: k in p.parent ==> rank(k) <= TopRank(r.order, rank))
                    && key in KeysOfAll(Forest(p, rank, TopRank(r.order, rank)))))
  {
    InputTargetsAreRecorded(mainFrameId, domRoot, records, axNodes, targets, t);
    InputIsAcyclic(mainFrameId, domRoot, records, axNodes, targets, axRank);
    var r := Assemble(mainFrameId, domRoot, records, axNodes, targets);
    var rank := CombinedRank(DomOrder(mainFrameId, domRoot), AxKeysOf(mainFrameId, domRoot, records, axNodes), axRank);
    var key := TargetKey(mainFrameId, t);
    if !(r.nodes[key].dom.Some? && r.nodes[key].dom.value.textual) {
      EveryTargetAppears(r, h, rank, TopRank(r.order, rank), key);
    }
  }
}
