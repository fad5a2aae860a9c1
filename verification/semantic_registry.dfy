// The registry that merges DOM, layout, accessibility and interactive records into
// canonical nodes (packages/browser-core/src/browser-semantic-registry.ts). On
// values there is no index and every lookup scans; the class keeps the index.

module SemanticRegistry {
  import opened Options
  import opened Sequences
  import opened Forests

  type BackendId = id: int | 0 < id witness 1

  /** `<frameId>:<backendNodeId>` or `ax:<nodeId>`. */
  datatype NodeKey = Canonical(frameId: string, backendNodeId: BackendId) | AxOnly(axNodeId: string)

  datatype DomNode = DomNode(
    backendNodeId: BackendId,
    frameId: Option<string>,
    textual: bool,
    children: seq<DomNode>,
    shadowRoots: seq<DomNode>,
    contentDocument: Option<DomNode>)

  datatype LayoutRecord = LayoutRecord(backendNodeId: BackendId, frameId: Option<string>)

  datatype AxNode = AxNode(nodeId: string, backendDOMNodeId: Option<BackendId>, childIds: seq<string>, ignored: bool)

  datatype Target = Target(backendNodeId: BackendId, frameId: Option<string>, semanticBackendNodeId: Option<BackendId>)

  datatype CanonicalNode = CanonicalNode(
    frameId: string,
    backendNodeId: Option<BackendId>,
    dom: Option<DomNode>,
    layout: Option<LayoutRecord>,
    ax: Option<AxNode>,
    target: Option<Target>,
    domParent: Option<NodeKey>,
    axParent: Option<NodeKey>,
    semanticSource: Option<NodeKey>)

  /** `order` is the insertion order of the nodes. */
  datatype Registry = Registry(mainFrameId: string, order: seq<NodeKey>, nodes: map<NodeKey, CanonicalNode>)

  function Empty(mainFrameId: string): Registry {
    Registry(mainFrameId, [], map[])
  }

  function OrElse<T>(value: Option<T>, default: T): T {
    if value.Some? then value.value else default
  }

  // ---- Lookup by scanning ----------------------------------------------------------

  function ForBackend(r: Registry, id: BackendId): NodeKey -> bool {
    (k: NodeKey) => k in r.nodes && r.nodes[k].backendNodeId == Some(id)
  }

  function InFrame(r: Registry, frameId: string): NodeKey -> bool {
    (k: NodeKey) => k in r.nodes && r.nodes[k].frameId == frameId
  }

  /** The exact frame match, else the only match, else the main-frame match, else none. */
  function ResolveKey(r: Registry, id: BackendId, frameId: Option<string>): Option<NodeKey> {
    var matches := Filter(ForBackend(r, id), r.order);
    var exact := Filter(InFrame(r, OrElse(frameId, "")), matches);
    var inMain := Filter(InFrame(r, r.mainFrameId), matches);
    if frameId.Some? && frameId.value != "" && exact != [] then Some(exact[0])
    else if |matches| == 1 then Some(matches[0])
    else if inMain != [] then Some(inMain[0])
    else None
  }

  // ---- Adding records -----------------------------------------------------------------

  function Ensure(r: Registry, key: NodeKey, frameId: string, id: Option<BackendId>): Registry {
    if key in r.nodes then r
    else r.(order := r.order + [key],
            nodes := r.nodes[key := CanonicalNode(frameId, id, None, None, None, None, None, None, None)])
  }

  function KeyOf(node: DomNode, inheritedFrameId: string): NodeKey {
    Canonical(OrElse(node.frameId, inheritedFrameId), node.backendNodeId)
  }

  function EnterDom(r: Registry, node: DomNode, inheritedFrameId: string, parent: Option<NodeKey>): Registry {
    var key := KeyOf(node, inheritedFrameId);
    var ensured := Ensure(r, key, key.frameId, Some(node.backendNodeId));
    var record := ensured.nodes[key].(dom := Some(node));
    ensured.(nodes := ensured.nodes[key :=
      if parent.Some? && parent.value != key then record.(domParent := parent) else record])
  }

  function VisitDom(r: Registry, node: DomNode, inheritedFrameId: string, parent: Option<NodeKey>): Registry
    decreases node, 2
  {
    VisitBelow(EnterDom(r, node, inheritedFrameId, parent), node, KeyOf(node, inheritedFrameId))
  }

  function VisitBelow(r: Registry, node: DomNode, key: NodeKey): Registry
    requires key.Canonical?
    decreases node, 1
  {
    var children := VisitDomAll(r, node.children, key.frameId, Some(key));
    var shadows := VisitDomAll(children, node.shadowRoots, key.frameId, Some(key));
    if node.contentDocument.Some? then VisitDom(shadows, node.contentDocument.value, key.frameId, Some(key))
    else shadows
  }

  function VisitDomAll(r: Registry, nodes: seq<DomNode>, inheritedFrameId: string, parent: Option<NodeKey>): Registry
    decreases nodes
  {
    if nodes == [] then r
    else
      var n := |nodes| - 1;
      VisitDom(VisitDomAll(r, nodes[..n], inheritedFrameId, parent), nodes[n], inheritedFrameId, parent)
  }

  function AddDomTree(r: Registry, root: DomNode): Registry {
    VisitDom(r, root, r.mainFrameId, None)
  }

  function AddLayoutAt(r: Registry, existing: Option<NodeKey>, layout: LayoutRecord): Registry {
    var frameId := OrElse(layout.frameId,
                          if existing.Some? && existing.value in r.nodes then r.nodes[existing.value].frameId
                          else r.mainFrameId);
    var key := OrElse(existing, Canonical(frameId, layout.backendNodeId));
    var ensured := Ensure(r, key, frameId, Some(layout.backendNodeId));
    ensured.(nodes := ensured.nodes[key := ensured.nodes[key].(layout := Some(layout))])
  }

  function AddLayout(r: Registry, layout: LayoutRecord): Registry {
    AddLayoutAt(r, ResolveKey(r, layout.backendNodeId, layout.frameId), layout)
  }

  function AddSnapshotRecords(r: Registry, records: seq<LayoutRecord>): Registry {
    if records == [] then r
    else AddLayout(AddSnapshotRecords(r, records[..|records| - 1]), records[|records| - 1])
  }

  function ResolveAx(r: Registry, ax: AxNode): Option<NodeKey> {
    if ax.backendDOMNodeId.Some? then ResolveKey(r, ax.backendDOMNodeId.value, None) else None
  }

  function AxKeyAt(r: Registry, existing: Option<NodeKey>, ax: AxNode): NodeKey {
    if existing.Some? then existing.value
    else if ax.backendDOMNodeId.Some? then Canonical(r.mainFrameId, ax.backendDOMNodeId.value)
    else AxOnly(ax.nodeId)
  }

  function AxKey(r: Registry, ax: AxNode): NodeKey {
    AxKeyAt(r, ResolveAx(r, ax), ax)
  }

  type AxKeys = map<string, NodeKey>

  function EnterAxAt(r: Registry, existing: Option<NodeKey>, ax: AxNode): Registry {
    var key := AxKeyAt(r, existing, ax);
    var frameId := if existing.Some? && existing.value in r.nodes then r.nodes[existing.value].frameId
        else r.mainFrameId;
    var ensured := Ensure(r, key, frameId, ax.backendDOMNodeId);
    ensured.(nodes := ensured.nodes[key := ensured.nodes[key].(ax := Some(ax))])
  }

  function EnterAx(r: Registry, ax: AxNode): Registry {
    EnterAxAt(r, ResolveAx(r, ax), ax)
  }

  /** First pass: every accessibility node gets a canonical node. */
  function EnterAxAll(r: Registry, nodes: seq<AxNode>): (Registry, AxKeys) {
    if nodes == [] then (r, map[])
    else
      var last := nodes[|nodes| - 1];
      var (before, keys) := EnterAxAll(r, nodes[..|nodes| - 1]);
      (EnterAx(before, last), keys[last.nodeId := AxKey(before, last)])
  }

  function LinkAxChild(r: Registry, keys: AxKeys, parent: NodeKey, childId: string): Registry {
    if childId in keys && keys[childId] != parent && keys[childId] in r.nodes
    then r.(nodes := r.nodes[keys[childId] := r.nodes[keys[childId]].(axParent := Some(parent))])
    else r
  }

  function LinkAxChildren(r: Registry, keys: AxKeys, parent: NodeKey, childIds: seq<string>): Registry {
    if childIds == [] then r
    else LinkAxChild(LinkAxChildren(r, keys, parent, childIds[..|childIds| - 1]), keys, parent,
        childIds[|childIds| - 1])
  }

  /** Second pass: every listed child points back to its parent. */
  function LinkAx(r: Registry, keys: AxKeys, nodes: seq<AxNode>): Registry {
    if nodes == [] then r
    else
      var last := nodes[|nodes| - 1];
      var before := LinkAx(r, keys, nodes[..|nodes| - 1]);
      if last.nodeId in keys then LinkAxChildren(before, keys, keys[last.nodeId], last.childIds) else before
  }

  function AddAxTree(r: Registry, nodes: seq<AxNode>): Registry {
    var (entered, keys) := EnterAxAll(r, nodes);
    LinkAx(entered, keys, nodes)
  }

  function AddTarget(r: Registry, target: Target): Registry {
    var frameId := OrElse(target.frameId, r.mainFrameId);
    var key := Canonical(frameId, target.backendNodeId);
    var ensured := Ensure(r, key, frameId, Some(target.backendNodeId));
    var record := ensured.nodes[key].(target := Some(target));
    ensured.(nodes := ensured.nodes[key :=
      if target.semanticBackendNodeId.Some? && target.semanticBackendNodeId.value != target.backendNodeId then
        record.(semanticSource := Some(
          OrElse(ResolveKey(ensured, target.semanticBackendNodeId.value, Some(frameId)),
                 Canonical(frameId, target.semanticBackendNodeId.value))))
      else record])
  }

  function AddInteractiveElements(r: Registry, targets: seq<Target>): Registry {
    if targets == [] then r
    else AddTarget(AddInteractiveElements(r, targets[..|targets| - 1]), targets[|targets| - 1])
  }

  /** Everything the tree builder feeds the registry, in its order. */
  function Assemble(mainFrameId: string, domRoot: Option<DomNode>, records: seq<LayoutRecord>,
                    axNodes: seq<AxNode>, targets: seq<Target>): Registry {
    var dom := if domRoot.Some? then AddDomTree(Empty(mainFrameId), domRoot.value) else Empty(mainFrameId);
    AddInteractiveElements(AddAxTree(AddSnapshotRecords(dom, records), axNodes), targets)
  }

  // ---- Consistency of keys and records ------------------------------------------------

  /** A canonical key spells out its record's frame and backend id. */
  ghost predicate Consistent(r: Registry) {
    && Distinct(r.order)
    && (forall k :: k in r.nodes <==> k in r.order)
    && (forall k :: k in r.nodes ==>
          match k
          case Canonical(frameId, id) => r.nodes[k].frameId == frameId && r.nodes[k].backendNodeId == Some(id)
          case AxOnly(_) => r.nodes[k].backendNodeId == None)
  }

  lemma EnsureKeepsConsistent(r: Registry, key: NodeKey, frameId: string, id: Option<BackendId>)
    requires Consistent(r)
    requires match key case Canonical(f, b) => f == frameId && Some(b) == id case AxOnly(_) => id == None
    ensures Consistent(Ensure(r, key, frameId, id))
  {
  }

  /** Among consistent records at most one matches a backend id within one frame: the one with that key. */
  lemma ScanFindsTheKey(r: Registry, id: BackendId, frameId: string)
    requires Consistent(r)
    ensures Filter(InFrame(r, frameId), Filter(ForBackend(r, id), r.order)) ==
            if Canonical(frameId, id) in r.nodes then [Canonical(frameId, id)] else []
  {
    var matches := Filter(ForBackend(r, id), r.order);
    var found := Filter(InFrame(r, frameId), matches);
    FilterMembers(ForBackend(r, id), r.order);
    FilterMembers(InFrame(r, frameId), matches);
    FilterKeepsDistinct(ForBackend(r, id), r.order);
    FilterKeepsDistinct(InFrame(r, frameId), matches);
    assert forall k :: k in found ==> k == Canonical(frameId, id);
    DistinctCopiesOfOneValue(found, Canonical(frameId, id));
  }

  /** What the lookup answers, case by case. */
  lemma ResolveKeyAnswers(r: Registry, id: BackendId, frameId: Option<string>)
    requires Consistent(r)
    ensures var answer := ResolveKey(r, id, frameId);
            && (answer.Some? ==> answer.value in r.nodes && r.nodes[answer.value].backendNodeId == Some(id))
            && (frameId.Some? && frameId.value != "" && Canonical(frameId.value, id) in r.nodes ==>
                  answer == Some(Canonical(frameId.value, id)))
            && (!(frameId.Some? && frameId.value != "" && Canonical(frameId.value, id) in r.nodes) ==>
                  if exists k :: k in r.nodes && r.nodes[k].backendNodeId == Some(id)
                                 && forall other :: other in r.nodes && r.nodes[other].backendNodeId == Some(id) ==>
                                      other == k
                  then answer.Some?
                  else answer == if Canonical(r.mainFrameId, id) in r.nodes then Some(Canonical(r.mainFrameId, id))
                      else None)
  {
    var matches := Filter(ForBackend(r, id), r.order);
    FilterMembers(ForBackend(r, id), r.order);
    FilterKeepsDistinct(ForBackend(r, id), r.order);
    ScanFindsTheKey(r, id, OrElse(frameId, ""));
    ScanFindsTheKey(r, id, r.mainFrameId);
    if |matches| == 1 {
      assert matches[0] in matches;
      assert forall k :: k in matches ==> k == matches[0];
    }
    if |matches| > 1 {
      assert matches[0] in matches && matches[1] in matches;
    }
  }

  lemma {:induction false} SameMembersSameSize(keys: set<NodeKey>, matches: seq<NodeKey>)
    requires Distinct(matches) && forall k :: k in keys <==> k in matches
    ensures |keys| == |matches|
    decreases |matches|
  {
    if matches == [] {
      assert keys == {};
    } else {
      var n := |matches| - 1;
      SameMembersSameSize(keys - {matches[n]}, matches[..n]);
    }
  }

  /** Consulting the set of keys with this backend id gives the answer of the scan. */
  lemma LookupThroughIndex(r: Registry, keys: set<NodeKey>, id: BackendId, frameId: Option<string>)
    requires Consistent(r)
    requires forall k :: k in keys <==> k in r.nodes && r.nodes[k].backendNodeId == Some(id)
    ensures ResolveKey(r, id, frameId).Some? ==>
              ResolveKey(r, id, frameId).value in r.nodes
                  && r.nodes[ResolveKey(r, id, frameId).value].backendNodeId == Some(id)
    ensures var answer := ResolveKey(r, id, frameId);
            if frameId.Some? && frameId.value != "" && Canonical(frameId.value, id) in r.nodes then
              answer == Some(Canonical(frameId.value, id))
            else if |keys| == 1 then answer.Some? && answer.value in keys
            else answer == if Canonical(r.mainFrameId, id) in keys then Some(Canonical(r.mainFrameId, id)) else None
  {
    var matches := Filter(ForBackend(r, id), r.order);
    FilterMembers(ForBackend(r, id), r.order);
    FilterKeepsDistinct(ForBackend(r, id), r.order);
    SameMembersSameSize(keys, matches);
    ScanFindsTheKey(r, id, OrElse(frameId, ""));
    ScanFindsTheKey(r, id, r.mainFrameId);
    if |matches| == 1 {
      assert matches[0] in matches;
    }
  }

  // ---- The registry object ------------------------------------------------------------

  class CanonicalNodeRegistry {
    const mainFrameId: string
    var order: seq<NodeKey>
    var nodes: map<NodeKey, CanonicalNode>
    var keysByBackendNodeId: map<BackendId, set<NodeKey>>

    constructor (mainFrameId: string)
      ensures Valid() && View() == Empty(mainFrameId) && order == [] && nodes == map[]
    {
      this.mainFrameId := mainFrameId;
      order, nodes, keysByBackendNodeId := [], map[], map[];
    }

    ghost function View(): Registry
      reads this
    {
      Registry(mainFrameId, order, nodes)
    }

    /** The index answers exactly what scanning the records would. */
    ghost predicate IndexIsAScan()
      reads this
    {
      forall id: BackendId, k: NodeKey ::
        (id in keysByBackendNodeId && k in keysByBackendNodeId[id])
            <==> (k in nodes && nodes[k].backendNodeId == Some(id))
    }

    ghost predicate Valid()
      reads this
    {
      Consistent(View()) && IndexIsAScan()
    }

    method EnsureNode(key: NodeKey, frameId: string, id: Option<BackendId>)
      requires Valid()
      requires match key case Canonical(f, b) => f == frameId && Some(b) == id case AxOnly(_) => id == None
      modifies this
      ensures Valid() && View() == Ensure(old(View()), key, frameId, id)
    {
      EnsureKeepsConsistent(View(), key, frameId, id);
      if key in nodes {
        return;
      }
      nodes := nodes[key := CanonicalNode(frameId, id, None, None, None, None, None, None, None)];
      order := order + [key];
      if id.Some? {
        var keys := if id.value in keysByBackendNodeId then keysByBackendNodeId[id.value] else {};
        keysByBackendNodeId := keysByBackendNodeId[id.value := keys + {key}];
      }
    }

    /** Replacing a record without touching its identity. */
    method SetNode(key: NodeKey, record: CanonicalNode)
      requires Valid() && key in nodes
      requires record.frameId == nodes[key].frameId && record.backendNodeId == nodes[key].backendNodeId
      modifies this`nodes
      ensures Valid() && nodes == old(nodes)[key := record]
    {
      nodes := nodes[key := record];
    }

    method Resolve(id: BackendId, frameId: Option<string>) returns (key: Option<NodeKey>)
      requires Valid()
      ensures key == ResolveKey(View(), id, frameId)
      ensures key.Some? ==> key.value in nodes && nodes[key.value].backendNodeId == Some(id)
    {
      var keys := if id in keysByBackendNodeId then keysByBackendNodeId[id] else {};
      LookupThroughIndex(View(), keys, id, frameId);
      if frameId.Some? && frameId.value != "" {
        var exact := Canonical(frameId.value, id);
        if exact in nodes {
          return Some(exact);
        }
      }
      if keys == {} {
        return None;
      }
      if |keys| == 1 {
        var only :| only in keys;
        assert keys == {only} by {
          assert |keys - {only}| == 0;
        }
        return Some(only);
      }
      var mainFrameKey := Canonical(mainFrameId, id);
      return if mainFrameKey in keys then Some(mainFrameKey) else None;
    }

    method VisitDomNode(node: DomNode, inheritedFrameId: string, parent: Option<NodeKey>)
      requires Valid()
      modifies this
      ensures Valid() && View() == VisitDom(old(View()), node, inheritedFrameId, parent)
      decreases node, 1
    {
      var key := KeyOf(node, inheritedFrameId);
      EnsureNode(key, key.frameId, Some(node.backendNodeId));
      var record := nodes[key].(dom := Some(node));
      if parent.Some? && parent.value != key {
        record := record.(domParent := parent);
      }
      SetNode(key, record);
      VisitDomNodes(node, node.children, key);
      VisitDomNodes(node, node.shadowRoots, key);
      if node.contentDocument.Some? {
        VisitDomNode(node.contentDocument.value, key.frameId, Some(key));
      }
    }

    method VisitDomNodes(ghost owner: DomNode, children: seq<DomNode>, key: NodeKey)
      requires Valid() && key.Canonical?
      requires forall i :: 0 <= i < |children| ==> children[i] < owner
      modifies this
      ensures Valid() && View() == VisitDomAll(old(View()), children, key.frameId, Some(key))
      decreases owner, 0
    {
      for i := 0 to |children|
        invariant Valid() && View() == VisitDomAll(old(View()), children[..i], key.frameId, Some(key))
      {
        assert children[..i + 1][..i] == children[..i];
        VisitDomNode(children[i], key.frameId, Some(key));
      }
      assert children[..|children|] == children;
    }

    method AddDOMTree(root: DomNode)
      requires Valid()
      modifies this
      ensures Valid() && View() == AddDomTree(old(View()), root)
    {
      VisitDomNode(root, mainFrameId, None);
    }

    method AddLayoutRecord(layout: LayoutRecord)
      requires Valid()
      modifies this
      ensures Valid() && View() == AddLayout(old(View()), layout)
    {
      var existing := Resolve(layout.backendNodeId, layout.frameId);
      var frameId := OrElse(layout.frameId, if existing.Some? then nodes[existing.value].frameId else mainFrameId);
      var key := OrElse(existing, Canonical(frameId, layout.backendNodeId));
      if key !in nodes {
        EnsureNode(key, frameId, Some(layout.backendNodeId));
      }
      SetNode(key, nodes[key].(layout := Some(layout)));
    }

    method AddSnapshotLookup(records: seq<LayoutRecord>)
      requires Valid()
      modifies this
      ensures Valid() && View() == AddSnapshotRecords(old(View()), records)
    {
      for i := 0 to |records|
        invariant Valid() && View() == AddSnapshotRecords(old(View()), records[..i])
      {
        assert records[..i + 1][..i] == records[..i];
        AddLayoutRecord(records[i]);
      }
      assert records[..|records|] == records;
    }

    method EnterAxNode(ax: AxNode) returns (key: NodeKey)
      requires Valid()
      modifies this
      ensures Valid() && View() == EnterAx(old(View()), ax) && key == AxKey(old(View()), ax)
    {
      var existing: Option<NodeKey> := None;
      if ax.backendDOMNodeId.Some? {
        existing := Resolve(ax.backendDOMNodeId.value, None);
      }
      if existing.Some? {
        key := existing.value;
      } else if ax.backendDOMNodeId.Some? {
        key := Canonical(mainFrameId, ax.backendDOMNodeId.value);
        EnsureNode(key, mainFrameId, ax.backendDOMNodeId);
      } else {
        key := AxOnly(ax.nodeId);
        EnsureNode(key, mainFrameId, None);
      }
      SetNode(key, nodes[key].(ax := Some(ax)));
    }

    method LinkAxNode(keys: AxKeys, parent: NodeKey, childIds: seq<string>)
      requires Valid()
      modifies this
      ensures Valid() && View() == LinkAxChildren(old(View()), keys, parent, childIds)
    {
      for i := 0 to |childIds|
        invariant Valid() && View() == LinkAxChildren(old(View()), keys, parent, childIds[..i])
      {
        assert childIds[..i + 1][..i] == childIds[..i];
        if childIds[i] in keys {
          var child := keys[childIds[i]];
          if child != parent && child in nodes {
            SetNode(child, nodes[child].(axParent := Some(parent)));
          }
        }
      }
      assert childIds[..|childIds|] == childIds;
    }

    method AddAXTree(axNodes: seq<AxNode>)
      requires Valid()
      modifies this
      ensures Valid() && View() == AddAxTree(old(View()), axNodes)
    {
      var keys: AxKeys := map[];
      for i := 0 to |axNodes|
        invariant Valid() && (View(), keys) == EnterAxAll(old(View()), axNodes[..i])
      {
        assert axNodes[..i + 1][..i] == axNodes[..i];
        var key := EnterAxNode(axNodes[i]);
        keys := keys[axNodes[i].nodeId := key];
      }
      assert axNodes[..|axNodes|] == axNodes;
      ghost var entered := View();
      for i := 0 to |axNodes|
        invariant Valid() && View() == LinkAx(entered, keys, axNodes[..i])
      {
        assert axNodes[..i + 1][..i] == axNodes[..i];
        if axNodes[i].nodeId in keys {
          LinkAxNode(keys, keys[axNodes[i].nodeId], axNodes[i].childIds);
        }
      }
      assert axNodes[..|axNodes|] == axNodes;
    }

    method AddTargetRecord(target: Target)
      requires Valid()
      modifies this
      ensures Valid() && View() == AddTarget(old(View()), target)
    {
      var frameId := OrElse(target.frameId, mainFrameId);
      var key := Canonical(frameId, target.backendNodeId);
      EnsureNode(key, frameId, Some(target.backendNodeId));
      var record := nodes[key].(target := Some(target));
      if target.semanticBackendNodeId.Some? && target.semanticBackendNodeId.value != target.backendNodeId {
        var source := Resolve(target.semanticBackendNodeId.value, Some(frameId));
        record := record.(semanticSource :=
          Some(OrElse(source, Canonical(frameId, target.semanticBackendNodeId.value))));
      }
      SetNode(key, record);
    }

    method AddInteractive(targets: seq<Target>)
      requires Valid()
      modifies this
      ensures Valid() && View() == AddInteractiveElements(old(View()), targets)
    {
      for i := 0 to |targets|
        invariant Valid() && View() == AddInteractiveElements(old(View()), targets[..i])
      {
        assert targets[..i + 1][..i] == targets[..i];
        AddTargetRecord(targets[i]);
      }
      assert targets[..|targets|] == targets;
    }
  }
}
