// The depth-first walk over a DOM with shadow roots and content documents that
// collects interactive elements (packages/browser-core/src/cdp-page-scanner.ts).
// What a node looks like is decided by heuristics and remote queries: it is a parameter.

module DomTraversal {
  import opened Options

  /** Leaf: text, comment, or a tag skipped with all below it. Structural: expanded, never collected. */
  datatype Kind = Leaf | Structural | Candidate

  datatype DomNode = DomNode(
    id: nat,
    kind: Kind,
    frameId: Option<string>,
    children: seq<DomNode>,
    shadowRoots: seq<DomNode>,
    contentDocument: Option<DomNode>)

  /** What the heuristics and the queries for a candidate would say; each node is looked at once at most. */
  datatype Look = Look(
    interactive: bool,
    boundsInterrupted: bool,
    visible: bool,
    editorProxy: bool,
    hostBoundsInterrupted: bool,
    creatable: bool)

  datatype Environment = Environment(look: DomNode -> Look, hostable: (DomNode, string) -> bool, abortAt: Option<nat>)

  /** `editor` names the proxy node when the element stands for a virtual editor. */
  datatype Element = Element(backendNodeId: nat, index: nat, editor: Option<nat>, frame: string)

  function Frame(own: Option<string>, otherwise: string): string {
    if own.Some? then own.value else otherwise
  }

  /** A node as the walk comes to it: the frame handed down, and the nodes above it in its document. */
  datatype Visit = Visit(node: DomNode, frame: string, ancestors: seq<DomNode>) {
    function OwnFrame(): string { Frame(node.frameId, frame) }
  }

  function Visits(nodes: seq<DomNode>, frame: string, ancestors: seq<DomNode>): (visits: seq<Visit>)
    ensures |visits| == |nodes|
    ensures forall i :: 0 <= i < |nodes| ==> visits[i] == Visit(nodes[i], Frame(nodes[i].frameId, frame), ancestors)
  {
    seq(|nodes|, i requires 0 <= i < |nodes| => Visit(nodes[i], Frame(nodes[i].frameId, frame), ancestors))
  }

  function Document(node: DomNode): seq<DomNode> {
    if node.contentDocument.Some? then [node.contentDocument.value] else []
  }

  /**
   * Everything the walk steps to from an expanded node, in order; a content document starts a new line of
   * ancestors.
   */
  function Next(v: Visit): seq<Visit> {
    if v.node.kind.Leaf? then []
    else
      Visits(v.node.children, v.frame, v.ancestors + [v.node])
      + Visits(v.node.shadowRoots, v.frame, v.ancestors + [v.node])
      + Visits(Document(v.node), v.OwnFrame(), [])
  }

  /**
   * One step of the walk in the page's own terms: a child or a shadow root, with the node as its nearest
   * ancestor, or the content document, without ancestors. Nobody steps from a leaf.
   */
  ghost predicate StepsTo(m: Visit, n: Visit) {
    && !m.node.kind.Leaf?
    && ((&& (n.node in m.node.children || n.node in m.node.shadowRoots)
         && n.ancestors == m.ancestors + [m.node]
         && n.frame == (if n.node.frameId.Some? then n.node.frameId.value else m.frame))
        ||
        (&& m.node.contentDocument == Some(n.node)
         && n.ancestors == []
         && n.frame == (if n.node.frameId.Some? then n.node.frameId.value
                        else if m.node.frameId.Some? then m.node.frameId.value else m.frame)))
  }

  /** The next visits are all such steps and no others. */
  lemma NextIsOneStep(m: Visit, n: Visit)
    ensures n in Next(m) <==> StepsTo(m, n)
  {
    if !m.node.kind.Leaf? {
      VisitMembers(m.node.children, m.frame, m.ancestors + [m.node], n);
      VisitMembers(m.node.shadowRoots, m.frame, m.ancestors + [m.node], n);
      VisitMembers(Document(m.node), m.OwnFrame(), [], n);
    }
  }

  lemma VisitMembers(nodes: seq<DomNode>, frame: string, ancestors: seq<DomNode>, n: Visit)
    ensures n in Visits(nodes, frame, ancestors) <==>
              n.node in nodes && n.ancestors == ancestors && n.frame == Frame(n.node.frameId, frame)
  {
    var visits := Visits(nodes, frame, ancestors);
    if n.node in nodes && n.ancestors == ancestors && n.frame == Frame(n.node.frameId, frame) {
      var i :| 0 <= i < |nodes| && nodes[i] == n.node;
      assert visits[i] == n;
    }
  }

  predicate Collects(env: Environment, n: DomNode) {
    && n.kind.Candidate?
    && env.look(n).interactive && !env.look(n).boundsInterrupted && env.look(n).visible && env.look(n).creatable
  }

  predicate StandsForEditor(env: Environment, n: DomNode) {
    && n.kind.Candidate?
    && env.look(n).interactive && !env.look(n).boundsInterrupted && !env.look(n).visible
    && env.look(n).editorProxy && env.look(n).creatable
  }

  /** The nearest suitable node above. */
  function NearestHost(env: Environment, ancestors: seq<DomNode>, frame: string): (host: Option<DomNode>)
    ensures host.Some? ==> host.value in ancestors && env.hostable(host.value, frame)
    ensures host.None? ==> forall a :: a in ancestors ==> !env.hostable(a, frame)
  {
    if ancestors == [] then None
    else if env.hostable(ancestors[|ancestors| - 1], frame) then Some(ancestors[|ancestors| - 1])
    else
      assert ancestors == ancestors[..|ancestors| - 1] + [ancestors[|ancestors| - 1]];
      NearestHost(env, ancestors[..|ancestors| - 1], frame)
  }

  /** The backend id that an undisturbed visit collects: the node's own, or that of the host it edits for. */
  function Owed(env: Environment, v: Visit): Option<nat> {
    if Collects(env, v.node) then Some(v.node.id)
    else if StandsForEditor(env, v.node) && !env.look(v.node).hostBoundsInterrupted then
      var host := NearestHost(env, v.ancestors, v.OwnFrame());
      if host.Some? then Some(host.value.id) else None
    else None
  }

  /** A query about this node, or about the host of the editor it stands for, is interrupted. */
  ghost predicate Interrupts(env: Environment, v: Visit) {
    var look := env.look(v.node);
    && v.node.kind.Candidate? && look.interactive
    && (look.boundsInterrupted
        || (!look.visible && look.editorProxy && look.hostBoundsInterrupted
            && exists a :: a in v.ancestors && env.hostable(a, v.OwnFrame())))
  }

  ghost predicate Smooth(env: Environment, visited: seq<Visit>, from: nat) {
    forall k :: from <= k < |visited| ==> !Interrupts(env, visited[k])
  }

  /** From position `from` on: everything below an expanded node has been expanded, under its id. */
  ghost predicate Closed(visited: seq<Visit>, from: nat, processed: set<nat>) {
    forall k :: from <= k < |visited| ==> forall n :: StepsTo(visited[k], n) ==> n.node.id in processed
  }

  /** From position `from` on: only `start` and what lies below what was expanded there before. */
  ghost predicate Reached(visited: seq<Visit>, from: nat, start: seq<Visit>) {
    forall k :: from <= k < |visited| ==>
      visited[k] in start || exists m :: from <= m < k && StepsTo(visited[m], visited[k])
  }

  predicate HasId(elements: seq<Element>, id: nat) {
    exists i :: 0 <= i < |elements| && elements[i].backendNodeId == id
  }

  /** The suitable ancestor at this position, with none nearer. */
  ghost predicate NearestAt(env: Environment, v: Visit, i: nat) {
    && i < |v.ancestors| && env.hostable(v.ancestors[i], v.OwnFrame())
    && forall j :: i < j < |v.ancestors| ==> !env.hostable(v.ancestors[j], v.OwnFrame())
  }

  lemma {:induction false} NearestHostIsNearest(env: Environment, ancestors: seq<DomNode>, frame: string, i: nat)
    requires i < |ancestors| && env.hostable(ancestors[i], frame)
    requires forall j :: i < j < |ancestors| ==> !env.hostable(ancestors[j], frame)
    ensures NearestHost(env, ancestors, frame) == Some(ancestors[i])
  {
    var n := |ancestors| - 1;
    if i < n {
      NearestHostIsNearest(env, ancestors[..n], frame, i);
    }
  }

  lemma {:induction false} NearestHostPosition(env: Environment, ancestors: seq<DomNode>, frame: string)
    returns (i: nat)
    requires NearestHost(env, ancestors, frame).Some?
    ensures i < |ancestors| && ancestors[i] == NearestHost(env, ancestors, frame).value
              && env.hostable(ancestors[i], frame)
    ensures forall j :: i < j < |ancestors| ==> !env.hostable(ancestors[j], frame)
  {
    var n := |ancestors| - 1;
    if env.hostable(ancestors[n], frame) {
      i := n;
    } else {
      i := NearestHostPosition(env, ancestors[..n], frame);
    }
  }

  /** From position `from` on: what was owed was collected. */
  ghost predicate Harvested(env: Environment, visited: seq<Visit>, from: nat, elements: seq<Element>) {
    forall k :: from <= k < |visited| && Owed(env, visited[k]).Some? ==> HasId(elements, Owed(env, visited[k]).value)
  }

  lemma ReachedMore(visited: seq<Visit>, from: nat, start: seq<Visit>, more: seq<Visit>)
    requires Reached(visited, from, start) && forall n :: n in start ==> n in more
    ensures Reached(visited, from, more)
  {
    forall k | from <= k < |visited|
      ensures visited[k] in more || exists m :: from <= m < k && StepsTo(visited[m], visited[k])
    {
    }
  }

  lemma ReachedJoin(middle: seq<Visit>, visited: seq<Visit>, from: nat, start: seq<Visit>, more: seq<Visit>)
    requires from <= |middle| && middle <= visited
    requires Reached(middle, from, start) && Reached(visited, |middle|, more)
    ensures Reached(visited, from, start + more)
  {
    forall k | from <= k < |visited|
      ensures visited[k] in start + more || exists m :: from <= m < k && StepsTo(visited[m], visited[k])
    {
      if k < |middle| {
        assert visited[k] == middle[k];
        if middle[k] !in start {
          var m :| from <= m < k && StepsTo(middle[m], middle[k]);
          assert visited[m] == middle[m];
        }
      } else if visited[k] !in more {
        var m :| |middle| <= m < k && StepsTo(visited[m], visited[k]);
      }
    }
  }

  /** Below a node that was just expanded. */
  lemma ReachedThrough(middle: seq<Visit>, visited: seq<Visit>, from: nat, node: Visit)
    requires |middle| == from + 1 && middle[from] == node && middle <= visited
    requires Reached(visited, from + 1, Next(node))
    ensures Reached(visited, from, [node])
  {
    forall k | from <= k < |visited|
      ensures visited[k] in [node] || exists m :: from <= m < k && StepsTo(visited[m], visited[k])
    {
      if k > from {
        if visited[k] in Next(node) {
          NextIsOneStep(node, visited[k]);
          assert visited[from] == node;
        } else {
          var m :| from + 1 <= m < k && StepsTo(visited[m], visited[k]);
        }
      }
    }
  }

  // ---- What a walk that nothing stopped has seen -----------------------------------------

  ghost predicate Below(root: Visit, n: Visit)
    decreases root.node
  {
    n == root || exists c :: StepsTo(root, c) && c.node < root.node && Below(c, n)
  }

  lemma {:induction false} BelowOnward(root: Visit, m: Visit, n: Visit)
    requires Below(root, m) && StepsTo(m, n)
    ensures Below(root, n)
    decreases root.node
  {
    assert Below(n, n);
    if root == m {
      StepsAreSmaller(m, n);
    } else {
      var c :| StepsTo(root, c) && c.node < root.node && Below(c, m);
      BelowOnward(c, m, n);
    }
  }

  lemma StepsAreSmaller(m: Visit, n: Visit)
    requires StepsTo(m, n)
    ensures n.node < m.node
  {
    assert n.node in m.node.children || n.node in m.node.shadowRoots || n.node == m.node.contentDocument.value;
  }

  /** Only what lies below the root is ever expanded. */
  lemma {:induction false} ReachedIsBelow(visited: seq<Visit>, root: Visit, k: nat)
    requires Reached(visited, 0, [root]) && k < |visited|
    ensures Below(root, visited[k])
  {
    if visited[k] != root {
      var m: nat :| m < k && StepsTo(visited[m], visited[k]);
      ReachedIsBelow(visited, root, m);
      BelowOnward(root, visited[m], visited[k]);
    }
  }

  ghost predicate IdsIdentify(root: Visit) {
    forall a, b :: Below(root, a) && Below(root, b) && a.node.id == b.node.id ==> a == b
  }

  /** When ids are not repeated, a closed walk has expanded exactly what lies below the root. */
  lemma WalkIsComplete(visited: seq<Visit>, processed: set<nat>, root: Visit, n: Visit)
    requires Reached(visited, 0, [root]) && Closed(visited, 0, processed)
    requires root.node.id in processed && IdsIdentify(root)
    requires forall id :: id in processed ==> exists i :: 0 <= i < |visited| && visited[i].node.id == id
    ensures n in visited <==> Below(root, n)
  {
    if n in visited {
      var k :| 0 <= k < |visited| && visited[k] == n;
      ReachedIsBelow(visited, root, k);
    }
    if Below(root, n) {
      ExpandedById(visited, processed, root, root);
      EverythingBelow(visited, processed, root, root, n);
    }
  }

  lemma ExpandedById(visited: seq<Visit>, processed: set<nat>, root: Visit, m: Visit)
    requires Reached(visited, 0, [root]) && IdsIdentify(root) && Below(root, m) && m.node.id in processed
    requires forall id :: id in processed ==> exists i :: 0 <= i < |visited| && visited[i].node.id == id
    ensures m in visited
  {
    var i :| 0 <= i < |visited| && visited[i].node.id == m.node.id;
    ReachedIsBelow(visited, root, i);
    assert visited[i] == m;
  }

  lemma {:induction false} EverythingBelow(visited: seq<Visit>, processed: set<nat>, root: Visit, m: Visit, n: Visit)
    requires Reached(visited, 0, [root]) && Closed(visited, 0, processed) && IdsIdentify(root)
    requires forall id :: id in processed ==> exists i :: 0 <= i < |visited| && visited[i].node.id == id
    requires Below(root, m) && m in visited && Below(m, n)
    ensures n in visited
    decreases m.node
  {
    if n != m {
      var c :| StepsTo(m, c) && c.node < m.node && Below(c, n);
      BelowOnward(root, m, c);
      var k :| 0 <= k < |visited| && visited[k] == m;
      assert c.node.id in processed;
      ExpandedById(visited, processed, root, c);
      EverythingBelow(visited, processed, root, c, n);
    }
  }

  /** No id is expanded twice, and the set of ids is that of the visits. */
  ghost predicate VisitsOk(visited: seq<Visit>, processed: set<nat>) {
    && (forall i, j :: 0 <= i < j < |visited| ==> visited[i].node.id != visited[j].node.id)
    && (forall i :: 0 <= i < |visited| ==> visited[i].node.id in processed)
    && (forall id :: id in processed ==> exists i :: 0 <= i < |visited| && visited[i].node.id == id)
  }

  /** The element stands for the visited node, or for the host of the visited proxy; it names the frame of the visit. */
  ghost predicate MadeFor(env: Environment, e: Element, v: Visit) {
    && e.frame == v.OwnFrame() && Owed(env, v) == Some(e.backendNodeId)
    && (if e.editor.None? then Collects(env, v.node) else StandsForEditor(env, v.node) && e.editor.value == v.node.id)
  }

  ghost predicate MadeForSome(env: Environment, e: Element, visited: seq<Visit>) {
    exists v :: v in visited && MadeFor(env, e, v)
  }

  /** Positions and indices agree, ids differ, and every element was made for a visit. */
  ghost predicate ElementsOk(env: Environment, visited: seq<Visit>, processed: set<nat>, elements: seq<Element>) {
    && (forall i :: 0 <= i < |elements| ==> elements[i].index == i)
    && (forall i, j :: 0 <= i < j < |elements| ==> elements[i].backendNodeId != elements[j].backendNodeId)
    && (forall i :: 0 <= i < |elements| ==> elements[i].backendNodeId in processed)
    && (forall i :: 0 <= i < |elements| ==> MadeForSome(env, elements[i], visited))
  }

  lemma ElementsStayOk(env: Environment, visited: seq<Visit>, processed: set<nat>, elements: seq<Element>, v: Visit)
    requires ElementsOk(env, visited, processed, elements)
    ensures ElementsOk(env, visited + [v], processed + {v.node.id}, elements)
  {
    forall i | 0 <= i < |elements| ensures MadeForSome(env, elements[i], visited + [v]) {
      assert MadeForSome(env, elements[i], visited);
      var w :| w in visited && MadeFor(env, elements[i], w);
      assert w in visited + [v];
    }
  }

  lemma VisitsStayOk(visited: seq<Visit>, processed: set<nat>, v: Visit)
    requires VisitsOk(visited, processed) && v.node.id !in processed
    ensures VisitsOk(visited + [v], processed + {v.node.id})
  {
    var all := visited + [v];
    assert all[|visited|] == v && forall i :: 0 <= i < |visited| ==> all[i] == visited[i];
    forall id | id in processed ensures exists i :: 0 <= i < |all| && all[i].node.id == id {
      var i :| 0 <= i < |visited| && visited[i].node.id == id;
      assert all[i].node.id == id;
    }
  }

  lemma HarvestedThrough(env: Environment, visited: seq<Visit>, from: nat, elements: seq<Element>)
    requires from < |visited| && Harvested(env, visited, from + 1, elements)
    requires Owed(env, visited[from]).Some? ==> HasId(elements, Owed(env, visited[from]).value)
    ensures Harvested(env, visited, from, elements)
  {
  }

  lemma ClosedThrough(visited: seq<Visit>, from: nat, processed: set<nat>)
    requires from < |visited| && Closed(visited, from + 1, processed)
    requires forall n :: n in Next(visited[from]) ==> n.node.id in processed
    ensures Closed(visited, from, processed)
  {
    forall n | StepsTo(visited[from], n) ensures n.node.id in processed {
      NextIsOneStep(visited[from], n);
    }
  }

  // ---- What the promises mean for the page ----------------------------------------------

  /** All that lies directly inside the node was expanded: children, shadow roots and content document. */
  ghost predicate InsideIsExpanded(node: DomNode, processed: set<nat>) {
    !node.kind.Leaf? ==>
      && (forall c :: c in node.children ==> c.id in processed)
      && (forall c :: c in node.shadowRoots ==> c.id in processed)
      && (node.contentDocument.Some? ==> node.contentDocument.value.id in processed)
  }

  lemma ClosedMeansExpanded(visited: seq<Visit>, processed: set<nat>, k: nat)
    requires Closed(visited, 0, processed) && k < |visited|
    ensures InsideIsExpanded(visited[k].node, processed)
  {
    var v := visited[k];
    if !v.node.kind.Leaf? {
      forall c | c in v.node.children || c in v.node.shadowRoots ensures c.id in processed {
        assert StepsTo(v, Visit(c, if c.frameId.Some? then c.frameId.value else v.frame, v.ancestors + [v.node]));
      }
      if v.node.contentDocument.Some? {
        var c := v.node.contentDocument.value;
        assert StepsTo(v, Visit(c, Frame(c.frameId, v.OwnFrame()), []));
      }
    }
  }

  /**
   * An element of its own stands for a visible interactive node; a virtual editor for a hidden proxy, at the
   * nearest suitable node above it.
   */
  ghost predicate StandsForAVisit(env: Environment, e: Element, visited: seq<Visit>) {
    exists v :: v in visited && StandsFor(env, e, v)
  }

  ghost predicate StandsFor(env: Environment, e: Element, v: Visit) {
    var look := env.look(v.node);
    && v.node.kind.Candidate? && look.interactive && look.creatable
    && e.frame == (if v.node.frameId.Some? then v.node.frameId.value else v.frame)
    && (e.editor.None? ==> e.backendNodeId == v.node.id && look.visible)
    && (e.editor.Some? ==>
          && e.editor.value == v.node.id && !look.visible && look.editorProxy
          && exists i: nat :: NearestAt(env, v, i) && e.backendNodeId == v.ancestors[i].id)
  }

  lemma ElementsStandForVisits(env: Environment, e: Element, visited: seq<Visit>)
    requires MadeForSome(env, e, visited)
    ensures StandsForAVisit(env, e, visited)
  {
    var v :| v in visited && MadeFor(env, e, v);
    if e.editor.Some? {
      var i := NearestHostPosition(env, v.ancestors, v.OwnFrame());
      assert NearestAt(env, v, i);
    }
    assert StandsFor(env, e, v);
  }

  /** Visible interactive nodes are collected, and so are the hosts of hidden editor proxies. */
  ghost predicate IsHarvested(env: Environment, v: Visit, elements: seq<Element>) {
    var look := env.look(v.node);
    v.node.kind.Candidate? && look.interactive && look.creatable ==>
      && (look.visible ==> HasId(elements, v.node.id))
      && (!look.visible && look.editorProxy ==>
            forall i: nat :: NearestAt(env, v, i) ==> HasId(elements, v.ancestors[i].id))
  }

  lemma VisitIsHarvested(env: Environment, visited: seq<Visit>, elements: seq<Element>, k: nat)
    requires Harvested(env, visited, 0, elements) && Smooth(env, visited, 0) && k < |visited|
    ensures IsHarvested(env, visited[k], elements)
  {
    var v := visited[k];
    var look := env.look(v.node);
    assert !Interrupts(env, v);
    if v.node.kind.Candidate? && look.interactive && look.creatable && !look.visible && look.editorProxy {
      forall i: nat | NearestAt(env, v, i) ensures HasId(elements, v.ancestors[i].id) {
        NearestHostIsNearest(env, v.ancestors, v.OwnFrame(), i);
        assert v.ancestors[i] in v.ancestors;
      }
    }
  }

  class Traversal {
    const env: Environment
    var elements: seq<Element>
    var processed: set<nat>
    var clock: nat
    /** The visits that expanded a node, in order. */
    ghost var visited: seq<Visit>

    constructor (env: Environment)
      ensures this.env == env && Valid() && elements == [] && visited == []
    {
      this.env := env;
      elements, processed, clock, visited := [], {}, 0, [];
    }

    ghost predicate Justified(e: Element)
      reads this
    {
      MadeForSome(env, e, visited)
    }

    ghost predicate Valid()
      reads this
    {
      VisitsOk(visited, processed) && ElementsOk(env, visited, processed, elements)
    }

    predicate Aborted()
      reads this
    {
      env.abortAt.Some? && clock >= env.abortAt.value
    }

    predicate Collected(id: nat)
      reads this
    {
      HasId(elements, id)
    }

    predicate AncestorsExpanded(v: Visit)
      reads this
    {
      forall a :: a in v.ancestors ==> a.id in processed
    }

    /** Positions keep their backend ids; the walk only appends or replaces in place. */
    twostate predicate Grew()
      reads this
    {
      && old(visited) <= visited && old(processed) <= processed && old(clock) <= clock
      && |old(elements)| <= |elements|
      && forall i :: 0 <= i < |old(elements)| ==> elements[i].backendNodeId == old(elements)[i].backendNodeId
    }

    method FindHost(ancestors: seq<DomNode>, frame: string) returns (host: Option<DomNode>)
      ensures host == NearestHost(env, ancestors, frame)
    {
      var index := |ancestors|;
      assert ancestors[..index] == ancestors;
      while index > 0
        invariant 0 <= index <= |ancestors|
        invariant NearestHost(env, ancestors[..index], frame) == NearestHost(env, ancestors, frame)
      {
        index := index - 1;
        assert ancestors[..index + 1][..index] == ancestors[..index];
        if env.hostable(ancestors[index], frame) {
          return Some(ancestors[index]);
        }
      }
      return None;
    }

    method Push(id: nat, editor: Option<nat>, frame: string)
      requires Valid() && id in processed && !Collected(id)
      requires Justified(Element(id, |elements|, editor, frame))
      modifies this`elements
      ensures Valid() && elements == old(elements) + [Element(id, |old(elements)|, editor, frame)]
      ensures Collected(id)
    {
      elements := elements + [Element(id, |elements|, editor, frame)];
      assert elements[|elements| - 1].backendNodeId == id;
    }

    method ReplaceAt(position: nat, editor: nat, frame: string)
      requires Valid() && position < |elements|
      requires Justified(Element(elements[position].backendNodeId, 0, Some(editor), frame))
      modifies this`elements
      ensures Valid() && Collected(old(elements)[position].backendNodeId)
      ensures elements == old(elements)[position :=
                Element(old(elements)[position].backendNodeId, position, Some(editor), frame)]
    {
      elements := elements[position := Element(elements[position].backendNodeId, position, Some(editor), frame)];
      assert elements[position].backendNodeId == old(elements)[position].backendNodeId;
    }

    /** The virtual editor takes the place of its host if that was collected, and is appended otherwise. */
    method PlaceEditor(host: nat, editor: nat, frame: string)
      requires Valid() && host in processed && Justified(Element(host, 0, Some(editor), frame))
      modifies this`elements
      ensures Valid() && Collected(host)
      ensures old(Collected(host)) ==>
        && |elements| == |old(elements)|
        && forall i :: 0 <= i < |elements| ==>
             elements[i] == if old(elements)[i].backendNodeId == host then Element(host, i, Some(editor), frame)
                            else old(elements)[i]
      ensures !old(Collected(host)) ==>
                elements == old(elements) + [Element(host, |old(elements)|, Some(editor), frame)]
    {
      var existing := 0;
      while existing < |elements| && elements[existing].backendNodeId != host
        invariant 0 <= existing <= |elements|
        invariant forall i :: 0 <= i < existing ==> elements[i].backendNodeId != host
      {
        existing := existing + 1;
      }
      if existing < |elements| {
        ReplaceAt(existing, editor, frame);
      } else {
        Push(host, Some(editor), frame);
      }
    }

    /** Looks at one candidate; false is an interruption thrown by a query. */
    method Examine(v: Visit) returns (ok: bool)
      requires Valid() && v in visited && AncestorsExpanded(v) && v.node.id in processed && !Collected(v.node.id)
      modifies this`elements
      ensures Valid() && Grew() && (ok <==> !Interrupts(env, v))
      ensures ok && Owed(env, v).Some? ==> Collected(Owed(env, v).value)
    {
      var node := v.node;
      var look := env.look(node);
      if !node.kind.Candidate? {
        return true;
      }
      if look.interactive && look.boundsInterrupted {
        return false;
      }
      if look.visible && look.interactive {
        if look.creatable {
          Push(node.id, None, Frame(node.frameId, v.frame));
        }
        return true;
      }
      if look.interactive && look.editorProxy {
        ok := PlaceAtHost(v);
        return;
      }
      return true;
    }

    method PlaceAtHost(v: Visit) returns (ok: bool)
      requires Valid() && v in visited && AncestorsExpanded(v)
      requires var look := env.look(v.node);
        v.node.kind.Candidate? && look.interactive && !look.boundsInterrupted && !look.visible && look.editorProxy
      modifies this`elements
      ensures Valid() && Grew() && (ok <==> !Interrupts(env, v))
      ensures ok && Owed(env, v).Some? ==> Collected(Owed(env, v).value)
    {
      var host := FindHost(v.ancestors, Frame(v.node.frameId, v.frame));
      if host.Some? {
        if env.look(v.node).hostBoundsInterrupted {
          return false;
        }
        if env.look(v.node).creatable {
          PlaceEditor(host.value.id, v.node.id, Frame(v.node.frameId, v.frame));
        }
      }
      return true;
    }

    lemma Joined(before: seq<Visit>, middle: seq<Visit>, start: seq<Visit>, more: seq<Visit>, done: set<nat>,
        found: seq<Element>)
      requires before <= middle <= visited && done <= processed
      requires |found| <= |elements| && forall i :: 0 <= i < |found| ==>
                elements[i].backendNodeId == found[i].backendNodeId
      ensures Reached(middle, |before|, start) && Reached(visited, |middle|, more) ==>
                Reached(visited, |before|, start + more)
      ensures Closed(middle, |before|, done) && Closed(visited, |middle|, processed) ==>
                Closed(visited, |before|, processed)
      ensures Harvested(env, middle, |before|, found) && Harvested(env, visited, |middle|, elements)
        ==> Harvested(env, visited, |before|, elements)
      ensures Smooth(env, middle, |before|) && Smooth(env, visited, |middle|) ==> Smooth(env, visited, |before|)
    {
      assert forall k :: 0 <= k < |middle| ==> middle[k] == visited[k];
      if Reached(middle, |before|, start) && Reached(visited, |middle|, more) {
        ReachedJoin(middle, visited, |before|, start, more);
      }
      if Harvested(env, middle, |before|, found) && Harvested(env, visited, |middle|, elements) {
        forall k | |before| <= k < |visited| && Owed(env, visited[k]).Some?
          ensures HasId(elements, Owed(env, visited[k]).value)
        {
          if k < |middle| {
            assert middle[k] == visited[k];
            StillThere(found, Owed(env, visited[k]).value);
          }
        }
      }
    }

    lemma StillThere(found: seq<Element>, id: nat)
      requires HasId(found, id) && |found| <= |elements|
      requires forall i :: 0 <= i < |found| ==> elements[i].backendNodeId == found[i].backendNodeId
      ensures HasId(elements, id)
    {
      var i :| 0 <= i < |found| && found[i].backendNodeId == id;
      assert elements[i].backendNodeId == id;
    }

    /** What was done since position `from`, when the visits in `start` have returned. */
    ghost predicate Progress(from: nat, start: seq<Visit>)
      reads this
    {
      Reached(visited, from, start) && Harvested(env, visited, from, elements) && Smooth(env, visited, from)
    }

    ghost predicate Completed(from: nat, start: seq<Visit>)
      reads this
    {
      (forall v :: v in start ==> v.node.id in processed) && Closed(visited, from, processed)
    }

    /** One more visit after those in `start`. */
    method TraverseNext(ghost from: nat, ghost start: seq<Visit>, v: Visit) returns (ok: bool)
      requires Valid() && AncestorsExpanded(v) && from <= |visited| && Progress(from, start)
      requires !Aborted() ==> Completed(from, start)
      modifies this
      ensures Valid() && Grew()
      ensures Reached(visited, from, start + [v])
                && (if ok then Progress(from, start + [v]) else !Smooth(env, visited, from))
      ensures ok && !Aborted() ==> Completed(from, start + [v])
      decreases v.node, 4, 0
    {
      ghost var middle, done, found := visited, processed, elements;
      ok := Traverse(v);
      assert middle[..from] <= middle;
      Joined(middle[..from], middle, start, [v], done, found);
    }

    /** Expands the nodes one after the other; once the signal has fired each of them returns at once. */
    method TraverseAll(ghost owner: DomNode, visits: seq<Visit>) returns (ok: bool)
      requires Valid() && forall v :: v in visits ==> AncestorsExpanded(v) && v.node < owner
      modifies this
      ensures Valid() && Grew()
      ensures Reached(visited, |old(visited)|, visits)
                && (if ok then Progress(|old(visited)|, visits) else !Smooth(env, visited, |old(visited)|))
      ensures ok && !Aborted() ==> Completed(|old(visited)|, visits)
      decreases owner, 0, 0
    {
      ok := true;
      ghost var from := |visited|;
      for i := 0 to |visits|
        invariant Valid() && Grew() && ok && from <= |visited|
        invariant Progress(from, visits[..i])
        invariant !Aborted() ==> Completed(from, visits[..i])
      {
        assert visits[i] in visits;
        ok := TraverseNext(from, visits[..i], visits[i]);
        assert visits[..i + 1] == visits[..i] + [visits[i]];
        if !ok {
          ReachedMore(visited, from, visits[..i + 1], visits);
          return;
        }
      }
      assert visits[..|visits|] == visits;
    }

    /** Another list of visits after those in `start`. */
    method ThenTraverse(ghost from: nat, ghost start: seq<Visit>, ghost owner: DomNode,
        visits: seq<Visit>) returns (ok: bool)
      requires Valid() && forall v :: v in visits ==> AncestorsExpanded(v) && v.node < owner
      requires from <= |visited| && Progress(from, start) && (!Aborted() ==> Completed(from, start))
      modifies this
      ensures Valid() && Grew()
      ensures Reached(visited, from, start + visits)
                && (if ok then Progress(from, start + visits) else !Smooth(env, visited, from))
      ensures ok && !Aborted() ==> Completed(from, start + visits)
      decreases owner, 1, 0
    {
      ghost var middle, done, found := visited, processed, elements;
      ok := TraverseAll(owner, visits);
      assert middle[..from] <= middle;
      Joined(middle[..from], middle, start, visits, done, found);
    }

    /** Children and shadow roots with the node as an ancestor, the content document with none. */
    method TraverseBelow(v: Visit) returns (ok: bool)
      requires Valid() && !v.node.kind.Leaf? && v.node.id in processed && AncestorsExpanded(v)
      modifies this
      ensures Valid() && Grew()
      ensures Reached(visited, |old(visited)|, Next(v))
      ensures if ok then Progress(|old(visited)|, Next(v)) else !Smooth(env, visited, |old(visited)|)
      ensures ok && !Aborted() ==> Completed(|old(visited)|, Next(v))
      decreases v.node, 2, 0
    {
      ghost var from := |visited|;
      var line := v.ancestors + [v.node];
      var children, shadows := Visits(v.node.children, v.frame, line), Visits(v.node.shadowRoots, v.frame, line);
      var documents := Visits(Document(v.node), Frame(v.node.frameId, v.frame), []);
      assert Next(v) == children + shadows + documents;
      BelowAreSmaller(v, children, shadows, documents);
      ok := TraverseAll(v.node, children);
      if ok {
        ok := ThenTraverse(from, children, v.node, shadows);
        if ok {
          ok := ThenTraverse(from, children + shadows, v.node, documents);
        } else {
          ReachedMore(visited, from, children + shadows, Next(v));
        }
      } else {
        ReachedMore(visited, from, children, Next(v));
      }
    }

    static lemma BelowAreSmaller(v: Visit, children: seq<Visit>, shadows: seq<Visit>, documents: seq<Visit>)
      requires !v.node.kind.Leaf? && Next(v) == children + shadows + documents
      ensures forall n :: n in children || n in shadows || n in documents ==> n.node < v.node
    {
      forall n | n in children || n in shadows || n in documents ensures n.node < v.node {
        NextIsOneStep(v, n);
        StepsAreSmaller(v, n);
      }
    }

    /**
     * Whatever is aborted or interrupted: no id is expanded twice, collected ids are distinct, the element at
     * position i carries index i, earlier positions keep their ids, and only what lies below `v` is expanded.
     * If nothing stopped the walk, all of it is, and whatever a visit owes has been collected.
     */
    method Traverse(v: Visit) returns (ok: bool)
      requires Valid() && AncestorsExpanded(v)
      modifies this
      ensures Valid() && Grew()
      ensures Reached(visited, |old(visited)|, [v]) && (ok <==> Smooth(env, visited, |old(visited)|))
      ensures ok ==> Harvested(env, visited, |old(visited)|, elements)
      ensures ok && !Aborted() ==> v.node.id in processed && Closed(visited, |old(visited)|, processed)
      ensures old(Aborted()) ==> visited == old(visited)
      decreases v.node, 3, 0
    {
      clock := clock + 1;
      if Aborted() || v.node.id in processed {
        return true;
      }
      ok := Expand(v);
    }

    /** The visit of a node that was not expanded before. */
    method Expand(v: Visit) returns (ok: bool)
      requires Valid() && AncestorsExpanded(v) && v.node.id !in processed
      modifies this
      ensures Valid() && Grew()
      ensures Reached(visited, |old(visited)|, [v]) && (ok <==> Smooth(env, visited, |old(visited)|))
      ensures ok ==> Harvested(env, visited, |old(visited)|, elements)
      ensures ok && !Aborted() ==> v.node.id in processed && Closed(visited, |old(visited)|, processed)
      decreases v.node, 2, 1
    {
      Enter(v);
      if v.node.kind.Leaf? {
        return true;
      }
      ok := Examine(v);
      if ok {
        ghost var entered, found := visited, elements;
        ok := TraverseBelow(v);
        Through(|entered| - 1, entered, v, found, ok);
      }
    }

    /** The visit that entered a node, together with what was done below it. */
    lemma Through(from: nat, entered: seq<Visit>, v: Visit, found: seq<Element>, ok: bool)
      requires |entered| == from + 1 && entered[from] == v && entered <= visited
      requires Owed(env, v).Some? ==> HasId(found, Owed(env, v).value)
      requires |found| <= |elements| && forall i :: 0 <= i < |found| ==>
                elements[i].backendNodeId == found[i].backendNodeId
      requires Reached(visited, from + 1, Next(v)) && (ok ==> Harvested(env, visited, from + 1, elements))
      requires !Interrupts(env, v) && (ok <==> Smooth(env, visited, from + 1))
      ensures Reached(visited, from, [v]) && (ok <==> Smooth(env, visited, from))
      ensures ok ==> Harvested(env, visited, from, elements)
      ensures Completed(from + 1, Next(v)) ==> Closed(visited, from, processed)
    {
      ReachedThrough(entered, visited, from, v);
      assert visited[from] == v;
      if Owed(env, v).Some? {
        StillThere(found, Owed(env, v).value);
      }
      if ok {
        HarvestedThrough(env, visited, from, elements);
      }
      if Completed(from + 1, Next(v)) {
        ClosedThrough(visited, from, processed);
      }
    }

    method Enter(v: Visit)
      requires Valid() && v.node.id !in processed
      modifies this`processed, this`visited
      ensures Valid() && Grew() && visited == old(visited) + [v] && processed == old(processed) + {v.node.id}
      ensures !Collected(v.node.id)
      ensures Reached(visited, |old(visited)|, [v])
      ensures v.node.kind.Leaf? ==> Harvested(env, visited, |old(visited)|, elements)
      ensures v.node.kind.Leaf? ==> Closed(visited, |old(visited)|, processed)
    {
      VisitsStayOk(visited, processed, v);
      ElementsStayOk(env, visited, processed, elements, v);
      processed := processed + {v.node.id};
      visited := visited + [v];
    }

    /** The whole walk, from the document root in the main frame. */
    method Walk(root: DomNode, mainFrame: string) returns (ok: bool)
      requires Valid() && visited == [] && processed == {} && elements == []
      modifies this
      ensures Valid()
      ensures forall i, j :: 0 <= i < j < |visited| ==> visited[i].node.id != visited[j].node.id
      ensures forall k :: 0 <= k < |visited| ==>
                visited[k] == Visit(root, mainFrame, []) || exists m :: 0 <= m < k && StepsTo(visited[m], visited[k])
      ensures ok <==> forall k :: 0 <= k < |visited| ==> !Interrupts(env, visited[k])
      ensures ok && (env.abortAt.None? || clock < env.abortAt.value) ==>
                root.id in processed && forall k :: 0 <= k < |visited| ==> InsideIsExpanded(visited[k].node, processed)
      ensures forall i :: 0 <= i < |elements| ==> elements[i].index == i && StandsForAVisit(env, elements[i], visited)
      ensures forall i, j :: 0 <= i < j < |elements| ==> elements[i].backendNodeId != elements[j].backendNodeId
      ensures ok ==> forall k :: 0 <= k < |visited| ==> IsHarvested(env, visited[k], elements)
      ensures env.abortAt.Some? && old(clock) >= env.abortAt.value ==> visited == []
    {
      ok := Traverse(Visit(root, mainFrame, []));
      if ok && !Aborted() {
        forall k | 0 <= k < |visited| ensures InsideIsExpanded(visited[k].node, processed) {
          ClosedMeansExpanded(visited, processed, k);
        }
      }
      forall i | 0 <= i < |elements| ensures StandsForAVisit(env, elements[i], visited) {
        ElementsStandForVisits(env, elements[i], visited);
      }
      if ok {
        forall k | 0 <= k < |visited| ensures IsHarvested(env, visited[k], elements) {
          VisitIsHarvested(env, visited, elements, k);
        }
      }
    }
  }
}
