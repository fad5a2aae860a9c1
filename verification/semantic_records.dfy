// Which records of a page end up at which canonical node
// (packages/browser-core/src/browser-semantic-registry.ts).

module SemanticRecords {
  import opened Options
  import opened Sequences
  import opened Forests
  import opened SemanticRegistry
  import opened SemanticTree
  import opened SemanticInput

  /** The only record with this backend id. */
  ghost predicate OnlyMatch(r: Registry, id: BackendId, k: NodeKey) {
    && k in r.nodes && r.nodes[k].backendNodeId == Some(id)
    && forall other :: other in r.nodes && r.nodes[other].backendNodeId == Some(id) ==> other == k
  }

  /** The lookup without a frame: the only match, else the record of the main frame. */
  lemma FramelessAnswer(r: Registry, id: BackendId)
    requires Consistent(r)
    ensures var answer := ResolveKey(r, id, None);
            && (forall k :: OnlyMatch(r, id, k) ==> answer == Some(k))
            && ((forall k :: !OnlyMatch(r, id, k)) ==>
                  answer == if Canonical(r.mainFrameId, id) in r.nodes then Some(Canonical(r.mainFrameId, id))
                      else None)
  {
    ResolveKeyAnswers(r, id, None);
    if k :| OnlyMatch(r, id, k) {
      assert ResolveKey(r, id, None).Some?;
    } else {
      assert forall k :: !OnlyMatch(r, id, k);
    }
  }

  /** One record comes in or changes; the others stay as they are. */
  ghost predicate ChangesOne(before: Registry, after: Registry, key: NodeKey) {
    && Consistent(after) && after.mainFrameId == before.mainFrameId
    && after.nodes.Keys == before.nodes.Keys + {key}
    && forall k :: k in before.nodes && k != key ==> after.nodes[k] == before.nodes[k]
  }

  // ---- Accessibility nodes ---------------------------------------------------------------

  /** Where an accessibility node belongs: with the only record of its backend id, else in the main frame. */
  ghost predicate AxHome(r: Registry, ax: AxNode, key: NodeKey) {
    match ax.backendDOMNodeId
    case None => key == AxOnly(ax.nodeId)
    case Some(id) => OnlyMatch(r, id, key) || (key == Canonical(r.mainFrameId, id) && forall k :: !OnlyMatch(r, id, k))
  }

  /** Records came in only for backend ids without an only match, and only in the main frame. */
  ghost predicate EnteredAt(r: Registry, after: Registry) {
    && Consistent(after) && after.mainFrameId == r.mainFrameId
    && (forall k :: k in r.nodes ==>
          && k in after.nodes && after.nodes[k].backendNodeId == r.nodes[k].backendNodeId
          && after.nodes[k].layout == r.nodes[k].layout)
    && (forall k :: k in after.nodes && k !in r.nodes && k.Canonical? ==>
          k.frameId == r.mainFrameId && forall m :: !OnlyMatch(r, k.backendNodeId, m))
  }

  lemma SameOnlyMatch(r: Registry, after: Registry, id: BackendId)
    requires Consistent(r) && EnteredAt(r, after)
    ensures forall k :: OnlyMatch(r, id, k) ==> OnlyMatch(after, id, k)
    ensures forall k :: OnlyMatch(after, id, k) && !OnlyMatch(r, id, k) ==> k == Canonical(r.mainFrameId, id)
    ensures (forall k :: !OnlyMatch(after, id, k)) ==> forall k :: !OnlyMatch(r, id, k)
  {
    forall k | OnlyMatch(r, id, k) ensures OnlyMatch(after, id, k) {
      forall other | other in after.nodes && after.nodes[other].backendNodeId == Some(id) ensures other == k {
        assert other.Canonical? && other.backendNodeId == id;
      }
    }
    forall k | OnlyMatch(after, id, k) && !OnlyMatch(r, id, k) ensures k == Canonical(r.mainFrameId, id) {
      assert k.Canonical? && k.backendNodeId == id;
      assert k in r.nodes ==> OnlyMatch(r, id, k);
    }
  }

  lemma AxKeyIsHome(r: Registry, before: Registry, ax: AxNode)
    requires Consistent(r) && EnteredAt(r, before)
    ensures AxHome(r, ax, AxKey(before, ax))
    ensures ResolveAx(before, ax).Some? ==> ResolveAx(before, ax).value in before.nodes
    ensures ResolveAx(before, ax).None? && ax.backendDOMNodeId.Some? ==>
              forall k :: !OnlyMatch(r, ax.backendDOMNodeId.value, k)
  {
    if ax.backendDOMNodeId.Some? {
      var id := ax.backendDOMNodeId.value;
      FramelessAnswer(before, id);
      SameOnlyMatch(r, before, id);
      ResolvedKeyIsKnown(before, id, None);
    }
  }

  lemma EnterAxChangesOne(before: Registry, existing: Option<NodeKey>, ax: AxNode)
    requires Consistent(before) && (existing.Some? ==> existing.value in before.nodes)
    ensures var after, key := EnterAxAt(before, existing, ax), AxKeyAt(before, existing, ax);
            && ChangesOne(before, after, key)
            && (key in before.nodes ==> after.nodes[key] == before.nodes[key].(ax := Some(ax)))
            && after.nodes[key].ax == Some(ax)
  {
    EnterAxKeepsParents(before, existing, ax);
  }

  lemma EnteredOneMore(r: Registry, before: Registry, after: Registry, ax: AxNode, key: NodeKey)
    requires Consistent(r) && EnteredAt(r, before) && ChangesOne(before, after, key) && AxHome(r, ax, key)
    requires key in before.nodes ==> after.nodes[key] == before.nodes[key].(ax := Some(ax))
    ensures EnteredAt(r, after)
  {
  }

  ghost predicate DistinctNodeIds(axNodes: seq<AxNode>) {
    forall i, j :: 0 <= i < j < |axNodes| ==> axNodes[i].nodeId != axNodes[j].nodeId
  }

  /** Every node is filed at its home under its own id. */
  ghost predicate Filed(r: Registry, axNodes: seq<AxNode>, after: Registry, keys: AxKeys) {
    && EnteredAt(r, after)
    && (forall id :: id in keys ==> keys[id] in after.nodes && exists n :: n in axNodes && n.nodeId == id)
    && (forall n :: n in axNodes ==> n.nodeId in keys && AxHome(r, n, keys[n.nodeId]))
  }

  /** Nodes with keys of their own are all found there. */
  ghost predicate Found(axNodes: seq<AxNode>, after: Registry, keys: AxKeys) {
    DistinctAxKeys(keys) ==>
      forall n :: n in axNodes ==>
        n.nodeId in keys && keys[n.nodeId] in after.nodes && after.nodes[keys[n.nodeId]].ax == Some(n)
  }

  lemma FileOneMore(r: Registry, init: seq<AxNode>, before: Registry, keys: AxKeys, last: AxNode, after: Registry,
                    key: NodeKey)
    requires Consistent(r) && Filed(r, init, before, keys)
    requires forall n :: n in init ==> n.nodeId != last.nodeId
    requires ChangesOne(before, after, key) && AxHome(r, last, key)
    requires key in before.nodes ==> after.nodes[key] == before.nodes[key].(ax := Some(last))
    ensures Filed(r, init + [last], after, keys[last.nodeId := key])
  {
    EnteredOneMore(r, before, after, last, key);
    var all := init + [last];
    assert last in all && forall n :: n in init ==> n in all;
    assert forall n :: n in all ==> n in init || n == last;
  }

  lemma FindOneMore(init: seq<AxNode>, before: Registry, keys: AxKeys, last: AxNode, after: Registry, key: NodeKey)
    requires Found(init, before, keys) && ChangesOne(before, after, key) && after.nodes[key].ax == Some(last)
    requires last.nodeId !in keys
    ensures Found(init + [last], after, keys[last.nodeId := key])
  {
    var all := keys[last.nodeId := key];
    if DistinctAxKeys(all) {
      assert forall id :: id in keys ==> all[id] == keys[id];
      assert DistinctAxKeys(keys);
      assert forall id :: id in keys ==> all[last.nodeId] != all[id];
    }
  }

  lemma {:induction false} AxNodesAreFiled(r: Registry, axNodes: seq<AxNode>)
    requires Consistent(r) && DistinctNodeIds(axNodes)
    ensures Filed(r, axNodes, EnterAxAll(r, axNodes).0, EnterAxAll(r, axNodes).1)
    ensures Found(axNodes, EnterAxAll(r, axNodes).0, EnterAxAll(r, axNodes).1)
  {
    if axNodes != [] {
      var init, last := axNodes[..|axNodes| - 1], axNodes[|axNodes| - 1];
      assert axNodes == init + [last];
      AxNodesAreFiled(r, init);
      var (before, keys) := EnterAxAll(r, init);
      AxKeyIsHome(r, before, last);
      EnterAxChangesOne(before, ResolveAx(before, last), last);
      FileOneMore(r, init, before, keys, last, EnterAx(before, last), AxKey(before, last));
      FindOneMore(init, before, keys, last, EnterAx(before, last), AxKey(before, last));
    }
  }

  // ---- Layout records ----------------------------------------------------------------------

  /** Where a layout record belongs: its own frame, the only match, the main frame, or a record of its own. */
  ghost predicate LayoutHome(r: Registry, l: LayoutRecord, key: NodeKey) {
    var frameId := if l.frameId.Some? then l.frameId.value else r.mainFrameId;
    if l.frameId.Some? && frameId != "" && Canonical(frameId, l.backendNodeId) in r.nodes then
      key == Canonical(frameId, l.backendNodeId)
    else if exists k :: OnlyMatch(r, l.backendNodeId, k) then OnlyMatch(r, l.backendNodeId, key)
    else if Canonical(r.mainFrameId, l.backendNodeId) in r.nodes then key == Canonical(r.mainFrameId, l.backendNodeId)
    else key == Canonical(frameId, l.backendNodeId)
  }

  ghost predicate DistinctBackendIds(records: seq<LayoutRecord>) {
    forall i, j :: 0 <= i < j < |records| ==> records[i].backendNodeId != records[j].backendNodeId
  }

  /** Only records with these backend ids came in or changed. */
  ghost predicate LaidOut(r: Registry, after: Registry, records: seq<LayoutRecord>) {
    && Consistent(after) && after.mainFrameId == r.mainFrameId
    && (forall k :: k in r.nodes ==> k in after.nodes && after.nodes[k].backendNodeId == r.nodes[k].backendNodeId)
    && (forall k :: k in after.nodes && k !in r.nodes ==>
          k.Canonical? && exists l :: l in records && l.backendNodeId == k.backendNodeId)
  }

  lemma LayoutKeyIsHome(r: Registry, before: Registry, init: seq<LayoutRecord>, l: LayoutRecord)
    requires Consistent(r) && LaidOut(r, before, init)
    requires forall other :: other in init ==> other.backendNodeId != l.backendNodeId
    ensures var existing := ResolveKey(before, l.backendNodeId, l.frameId);
            && (existing.Some? ==> existing.value in before.nodes && LayoutHome(r, l, existing.value))
            && (existing.None? ==> LayoutHome(r, l, Canonical(OrElse(l.frameId, r.mainFrameId), l.backendNodeId)))
  {
    var id := l.backendNodeId;
    ResolveKeyAnswers(before, id, l.frameId);
    SameRecordsOf(r, before, init, id);
    if k :| OnlyMatch(r, id, k) {
      assert OnlyMatch(before, id, k);
    }
  }

  lemma AddLayoutChangesOne(before: Registry, existing: Option<NodeKey>, l: LayoutRecord)
    requires Consistent(before)
    requires existing.Some? ==>
               existing.value in before.nodes && before.nodes[existing.value].backendNodeId == Some(l.backendNodeId)
    ensures var after := AddLayoutAt(before, existing, l);
            var key := if existing.Some? then existing.value
                       else Canonical(OrElse(l.frameId, before.mainFrameId), l.backendNodeId);
            && ChangesOne(before, after, key)
            && after.nodes[key].layout == Some(l) && after.nodes[key].backendNodeId == Some(l.backendNodeId)
            && (key in before.nodes ==> after.nodes[key] == before.nodes[key].(layout := Some(l)))
  {
    AddLayoutKeepsParents(before, existing, l);
  }

  lemma LayOutOneMore(r: Registry, before: Registry, after: Registry, init: seq<LayoutRecord>, l: LayoutRecord,
      key: NodeKey)
    requires LaidOut(r, before, init) && ChangesOne(before, after, key)
    requires after.nodes[key].backendNodeId == Some(l.backendNodeId)
    requires key in before.nodes ==> after.nodes[key] == before.nodes[key].(layout := Some(l))
    ensures LaidOut(r, after, init + [l])
  {
    assert l in init + [l] && forall other :: other in init ==> other in init + [l];
  }

  lemma AddLayoutAtHome(r: Registry, before: Registry, init: seq<LayoutRecord>, l: LayoutRecord) returns (key: NodeKey)
    requires Consistent(r) && LaidOut(r, before, init)
    requires forall other :: other in init ==> other.backendNodeId != l.backendNodeId
    ensures LayoutHome(r, l, key) && ChangesOne(before, AddLayout(before, l), key)
    ensures AddLayout(before, l).nodes[key].layout == Some(l)
    ensures LaidOut(r, AddLayout(before, l), init + [l])
  {
    var existing := ResolveKey(before, l.backendNodeId, l.frameId);
    ResolveKeyAnswers(before, l.backendNodeId, l.frameId);
    LayoutKeyIsHome(r, before, init, l);
    AddLayoutChangesOne(before, existing, l);
    key := if existing.Some? then existing.value else Canonical(OrElse(l.frameId, before.mainFrameId), l.backendNodeId);
    LayOutOneMore(r, before, AddLayoutAt(before, existing, l), init, l, key);
  }

  /** Nothing was added for a backend id that is still to come. */
  lemma SameRecordsOf(r: Registry, before: Registry, init: seq<LayoutRecord>, id: BackendId)
    requires Consistent(r) && LaidOut(r, before, init) && forall l :: l in init ==> l.backendNodeId != id
    ensures forall k :: k in before.nodes && before.nodes[k].backendNodeId == Some(id) <==>
              k in r.nodes && r.nodes[k].backendNodeId == Some(id)
    ensures forall k :: OnlyMatch(before, id, k) <==> OnlyMatch(r, id, k)
    ensures forall frameId :: Canonical(frameId, id) in before.nodes <==> Canonical(frameId, id) in r.nodes
  {
    forall k | k in before.nodes && before.nodes[k].backendNodeId == Some(id) ensures k in r.nodes {
      assert k.Canonical? && k.backendNodeId == id;
    }
  }

  /** Every layout record is found at its home. */
  lemma LayoutStays(r: Registry, before: Registry, after: Registry, l: LayoutRecord, last: LayoutRecord, added: NodeKey)
    requires Consistent(r) && HasLayoutAtHome(r, before, l) && l.backendNodeId != last.backendNodeId
    requires LayoutHome(r, last, added) && ChangesOne(before, after, added)
    ensures HasLayoutAtHome(r, after, l)
  {
    var key :| LayoutHome(r, l, key) && key in before.nodes && before.nodes[key].layout == Some(l);
    LayoutHomeHasTheId(r, l, key);
    LayoutHomeHasTheId(r, last, added);
  }

  lemma {:induction false} LayoutsAreRecorded(r: Registry, records: seq<LayoutRecord>)
    requires Consistent(r) && DistinctBackendIds(records)
    ensures LaidOut(r, AddSnapshotRecords(r, records), records)
    ensures forall l :: l in records ==> HasLayoutAtHome(r, AddSnapshotRecords(r, records), l)
  {
    if records != [] {
      var init, last := records[..|records| - 1], records[|records| - 1];
      assert records == init + [last];
      LayoutsAreRecorded(r, init);
      var before := AddSnapshotRecords(r, init);
      var added := AddLayoutAtHome(r, before, init, last);
      forall l | l in init ensures HasLayoutAtHome(r, AddLayout(before, last), l) {
        assert l.backendNodeId != last.backendNodeId;
        LayoutStays(r, before, AddLayout(before, last), l, last, added);
      }
    }
  }

  ghost predicate HasLayoutAtHome(r: Registry, after: Registry, l: LayoutRecord) {
    exists key :: LayoutHome(r, l, key) && key in after.nodes && after.nodes[key].layout == Some(l)
  }

  lemma LayoutHomeHasTheId(r: Registry, l: LayoutRecord, key: NodeKey)
    requires Consistent(r) && LayoutHome(r, l, key)
    ensures key.Canonical? && key.backendNodeId == l.backendNodeId
  {
  }

  // ---- Interactive elements ----------------------------------------------------------------

  ghost predicate DistinctTargetKeys(mainFrameId: string, targets: seq<Target>) {
    forall i, j :: 0 <= i < j < |targets| ==> TargetKey(mainFrameId, targets[i]) != TargetKey(mainFrameId, targets[j])
  }

  /** The element at its key; an element that stands for another node names that node's record. */
  ghost predicate TargetedBy(r: Registry, after: Registry, t: Target) {
    var frameId := if t.frameId.Some? then t.frameId.value else r.mainFrameId;
    var key := Canonical(frameId, t.backendNodeId);
    && key in after.nodes && after.nodes[key].target == Some(t)
    && (t.semanticBackendNodeId.Some? && t.semanticBackendNodeId.value != t.backendNodeId ==>
          var source := after.nodes[key].semanticSource;
          && source.Some? && source.value.Canonical? && source.value.backendNodeId == t.semanticBackendNodeId.value
          && (frameId != "" && Canonical(frameId, t.semanticBackendNodeId.value) in r.nodes ==>
                source.value.frameId == frameId))
    && (!(t.semanticBackendNodeId.Some? && t.semanticBackendNodeId.value != t.backendNodeId) ==>
          after.nodes[key].semanticSource == if key in r.nodes then r.nodes[key].semanticSource else None)
  }

  /** Only the records of these elements changed, and only in what concerns elements. */
  ghost predicate Targeted(r: Registry, after: Registry, targets: seq<Target>) {
    && Consistent(after) && after.mainFrameId == r.mainFrameId
    && (forall k :: k in r.nodes ==>
          && k in after.nodes
          && after.nodes[k] == r.nodes[k].(target := after.nodes[k].target,
               semanticSource := after.nodes[k].semanticSource)
          && ((forall t :: t in targets ==> TargetKey(r.mainFrameId, t) != k) ==> after.nodes[k] == r.nodes[k]))
    && (forall k :: k in after.nodes && k !in r.nodes ==> exists t :: t in targets && TargetKey(r.mainFrameId, t) == k)
  }

  /** The source that an element names: its own frame's record if there is one, and always one of that backend id. */
  lemma SourceFits(r: Registry, id: BackendId, frameId: string)
    requires Consistent(r)
    ensures var source := OrElse(ResolveKey(r, id, Some(frameId)), Canonical(frameId, id));
            && source.Canonical? && source.backendNodeId == id
            && (frameId != "" && Canonical(frameId, id) in r.nodes ==> source.frameId == frameId)
  {
    ResolveKeyAnswers(r, id, Some(frameId));
  }

  lemma AddTargetChangesOne(before: Registry, t: Target)
    requires Consistent(before)
    ensures var after, key := AddTarget(before, t), TargetKey(before.mainFrameId, t);
            && ChangesOne(before, after, key) && TargetedBy(before, after, t)
            && (key in before.nodes ==>
                  after.nodes[key] == before.nodes[key].(target := Some(t),
                      semanticSource := after.nodes[key].semanticSource))
  {
    var frameId := OrElse(t.frameId, before.mainFrameId);
    var ensured := Ensure(before, Canonical(frameId, t.backendNodeId), frameId, Some(t.backendNodeId));
    TargetKeepsParents(before, t);
    EnsureKeepsParents(before, Canonical(frameId, t.backendNodeId), frameId, Some(t.backendNodeId));
    if t.semanticBackendNodeId.Some? {
      SourceFits(ensured, t.semanticBackendNodeId.value, frameId);
    }
  }

  lemma TargetOneMore(r: Registry, before: Registry, after: Registry, init: seq<Target>, t: Target)
    requires Consistent(r) && Targeted(r, before, init)
    requires var key := TargetKey(r.mainFrameId, t);
             && ChangesOne(before, after, key)
             && (key in before.nodes ==>
                   after.nodes[key] == before.nodes[key].(target := Some(t),
                       semanticSource := after.nodes[key].semanticSource))
    ensures Targeted(r, after, init + [t])
  {
    assert t in init + [t] && forall other :: other in init ==> other in init + [t];
  }

  /** What an element left behind can be seen from where the elements began. */
  lemma TargetedSince(r: Registry, before: Registry, after: Registry, init: seq<Target>, t: Target)
    requires Targeted(r, before, init) && TargetedBy(before, after, t)
    requires forall other :: other in init ==> TargetKey(r.mainFrameId, other) != TargetKey(r.mainFrameId, t)
    ensures TargetedBy(r, after, t)
  {
    var key := TargetKey(r.mainFrameId, t);
    assert key in before.nodes ==> key in r.nodes && before.nodes[key] == r.nodes[key];
  }

  lemma {:induction false} TargetsAreFiled(r: Registry, targets: seq<Target>)
    requires Consistent(r) && DistinctTargetKeys(r.mainFrameId, targets)
    ensures var after := AddInteractiveElements(r, targets);
            Targeted(r, after, targets) && forall t :: t in targets ==> TargetedBy(r, after, t)
  {
    if targets != [] {
      var init, last := targets[..|targets| - 1], targets[|targets| - 1];
      assert targets == init + [last];
      TargetsAreFiled(r, init);
      var before := AddInteractiveElements(r, init);
      AddTargetChangesOne(before, last);
      TargetOneMore(r, before, AddTarget(before, last), init, last);
      TargetedSince(r, before, AddTarget(before, last), init, last);
      forall t | t in init ensures TargetedBy(r, AddTarget(before, last), t) {
        assert TargetedBy(r, before, t);
      }
    }
  }

  // ---- The assembled page --------------------------------------------------------------------

  /** Linking changes accessibility parents only. */
  ghost predicate OnlyLinks(r: Registry, after: Registry) {
    && after.mainFrameId == r.mainFrameId && after.order == r.order && after.nodes.Keys == r.nodes.Keys
    && forall k :: k in r.nodes ==> after.nodes[k] == r.nodes[k].(axParent := after.nodes[k].axParent)
  }

  lemma {:induction false} LinkingChildrenOnlyLinks(r: Registry, keys: AxKeys, parent: NodeKey, childIds: seq<string>)
    ensures OnlyLinks(r, LinkAxChildren(r, keys, parent, childIds))
  {
    if childIds != [] {
      LinkingChildrenOnlyLinks(r, keys, parent, childIds[..|childIds| - 1]);
    }
  }

  lemma {:induction false} LinkingOnlyLinks(r: Registry, keys: AxKeys, axNodes: seq<AxNode>)
    ensures OnlyLinks(r, LinkAx(r, keys, axNodes))
  {
    if axNodes != [] {
      var init, last := axNodes[..|axNodes| - 1], axNodes[|axNodes| - 1];
      LinkingOnlyLinks(r, keys, init);
      if last.nodeId in keys {
        LinkingChildrenOnlyLinks(LinkAx(r, keys, init), keys, keys[last.nodeId], last.childIds);
      }
    }
  }

  lemma LayoutsStay(r0: Registry, r1: Registry, after: Registry, records: seq<LayoutRecord>)
    requires forall k :: k in r1.nodes ==> k in after.nodes && after.nodes[k].layout == r1.nodes[k].layout
    requires forall l :: l in records ==> HasLayoutAtHome(r0, r1, l)
    ensures forall l :: l in records ==> HasLayoutAtHome(r0, after, l)
  {
    forall l | l in records ensures HasLayoutAtHome(r0, after, l) {
      var key :| LayoutHome(r0, l, key) && key in r1.nodes && r1.nodes[key].layout == Some(l);
      assert LayoutHome(r0, l, key) && key in after.nodes && after.nodes[key].layout == Some(l);
    }
  }

  /**
   * What a page hands in is what its registry holds: every layout record, every accessibility node and every
   * interactive element is at its home. The homes are decided by what was there before: the document for
   * layout, the laid out document for accessibility.
   */
  lemma EveryRecordIsAtHome(mainFrameId: string, domRoot: Option<DomNode>, records: seq<LayoutRecord>,
                            axNodes: seq<AxNode>, targets: seq<Target>)
    requires Distinct(DomOrder(mainFrameId, domRoot)) && DistinctBackendIds(records) && DistinctNodeIds(axNodes)
    requires DistinctTargetKeys(mainFrameId, targets)
    ensures var document := DomPart(mainFrameId, domRoot);
            var laidOut := AddSnapshotRecords(document, records);
            var keys := AxKeysOf(mainFrameId, domRoot, records, axNodes);
            var r := Assemble(mainFrameId, domRoot, records, axNodes, targets);
            && (forall l :: l in records ==> HasLayoutAtHome(document, r, l))
            && (forall n :: n in axNodes ==> n.nodeId in keys && AxHome(laidOut, n, keys[n.nodeId]))
            && Found(axNodes, r, keys)
            && (forall t :: t in targets ==> TargetedBy(AddAxTree(laidOut, axNodes), r, t))
  {
    DomPartOrder(mainFrameId, domRoot);
    var document := DomPart(mainFrameId, domRoot);
    LayoutsAreRecorded(document, records);
    var laidOut := AddSnapshotRecords(document, records);
    AxNodesAreFiled(laidOut, axNodes);
    var (entered, keys) := EnterAxAll(laidOut, axNodes);
    LinkingOnlyLinks(entered, keys, axNodes);
    LinkKeepsDom(entered, keys, axNodes);
    var linked := LinkAx(entered, keys, axNodes);
    TargetsAreFiled(linked, targets);
    LayoutsStay(document, laidOut, AddInteractiveElements(linked, targets), records);
  }
}
