// The observable state of one Browser session and what each operation of
// packages/browser-core/src/browser-state.ts does to it, on values.

module SessionModel {
  import opened Options
  import opened Sequences
  import Exposed = ExposedElement

  const MAX_RETAINED_SNAPSHOTS: nat := 3
  const SNAPSHOT_TTL_MS: int := 300_000

  // ---- Frames and their invalidation epochs -------------------------------

  /** Who owns a document; the empty string stands for an absent id. */
  datatype FrameIdentity = FrameIdentity(frameId: string, sessionId: string)

  datatype FrameKey = FrameKey(id: string) | SessionKey(id: string)

  type Epochs = map<FrameKey, nat>

  function IdentityKeys(identity: FrameIdentity): seq<FrameKey> {
    (if identity.frameId != "" then [FrameKey(identity.frameId)] else []) +
    (if identity.sessionId != "" then [SessionKey(identity.sessionId)] else [])
  }

  predicate IdentityMatches(owner: FrameIdentity, identity: FrameIdentity) {
    || (identity.frameId != "" && owner.frameId == identity.frameId)
    || (identity.sessionId != "" && owner.sessionId == identity.sessionId)
  }

  function EpochOf(epochs: Epochs, key: FrameKey): nat {
    if key in epochs then epochs[key] else 0
  }

  function Bump(epochs: Epochs, keys: seq<FrameKey>): Epochs {
    if keys == [] then
      epochs
    else
      var last := keys[|keys| - 1];
      var before := Bump(epochs, keys[..|keys| - 1]);
      before[last := EpochOf(before, last) + 1]
  }

  predicate FrameIsCurrent(epochs: Epochs, baseline: Epochs, owner: FrameIdentity) {
    forall key | key in IdentityKeys(owner) :: EpochOf(epochs, key) == EpochOf(baseline, key)
  }

  /** Ownership by a replaced frame is exactly sharing an epoch key with it. */
  lemma MatchIsSharedKey(owner: FrameIdentity, identity: FrameIdentity)
    ensures IdentityMatches(owner, identity) <==>
            exists key :: key in IdentityKeys(owner) && key in IdentityKeys(identity)
  {
    if identity.frameId != "" && owner.frameId == identity.frameId {
      assert FrameKey(owner.frameId) in IdentityKeys(owner);
    }
    if identity.sessionId != "" && owner.sessionId == identity.sessionId {
      assert SessionKey(owner.sessionId) in IdentityKeys(owner);
    }
  }

  /** The keys of a frame are its ids, and an absent id is no key. */
  lemma KeysAreTheIds(identity: FrameIdentity, id: string)
    ensures FrameKey(id) in IdentityKeys(identity) <==> id != "" && id == identity.frameId
    ensures SessionKey(id) in IdentityKeys(identity) <==> id != "" && id == identity.sessionId
  {
    assert identity.frameId != "" ==> IdentityKeys(identity)[0] == FrameKey(identity.frameId);
    assert identity.sessionId != "" ==>
      IdentityKeys(identity)[|IdentityKeys(identity)| - 1] == SessionKey(identity.sessionId);
  }

  lemma {:induction false} BumpCounts(epochs: Epochs, keys: seq<FrameKey>, key: FrameKey)
    ensures EpochOf(Bump(epochs, keys), key) == EpochOf(epochs, key) + multiset(keys)[key]
  {
    if keys != [] {
      var init := keys[..|keys| - 1];
      BumpCounts(epochs, init, key);
      assert keys == init + [keys[|keys| - 1]];
    }
  }

  /** Replacing a frame advances the epochs of its keys and of no other key. */
  lemma BumpAdvancesExactlyTheseKeys(epochs: Epochs, identity: FrameIdentity, key: FrameKey)
    ensures EpochOf(Bump(epochs, IdentityKeys(identity)), key) ==
            EpochOf(epochs, key) + (if key in IdentityKeys(identity) then 1 else 0)
  {
    BumpCounts(epochs, IdentityKeys(identity), key);
  }

  // ---- Snapshots -----------------------------------------------------------

  /** `browser-element:<generation>-<token>`: the generation is part of the ref. */
  datatype Ref = Ref(generation: nat, token: string)

  /** Size of an element as it is exposed; every element the scanner finds stays below this bound. */
  type ExposedBytes = n: nat | n <= Exposed.MAX_EXPOSED_BYTES

  datatype Element = Element(ref: Ref, backendNodeId: int, owner: FrameIdentity, editable: bool, bytes: ExposedBytes)

  datatype ContinuationKind = InspectPages | EditablePages | SemanticPages

  datatype EditableQuery = EditableQuery(elements: seq<Element>, nextOffset: Option<nat>)

  datatype SnapshotView = SnapshotView(
    id: string,
    generation: nat,
    createdAt: int,
    kind: ContinuationKind,
    lastAccessedAt: Option<int>,
    elements: seq<Element>,
    continuationInvalidated: bool,
    nextOffset: Option<nat>,
    editableQuery: Option<EditableQuery>)
  {
    function AccessTime(): int {
      match lastAccessedAt
      case Some(time) => time
      case None => createdAt
    }
  }

  /** `store` lists the retained snapshots in the insertion order of the source's Map. */
  datatype SessionView = SessionView(
    generation: nat,
    epochs: Epochs,
    store: seq<SnapshotView>,
    latest: Option<string>)

  predicate HasId(store: seq<SnapshotView>, id: string) {
    exists i :: 0 <= i < |store| && store[i].id == id
  }

  ghost predicate DistinctIds(store: seq<SnapshotView>) {
    forall i, j :: 0 <= i < j < |store| ==> store[i].id != store[j].id
  }

  // ---- Expiry and capacity -------------------------------------------------

  function Unexpired(generation: nat, cutoff: int): SnapshotView -> bool {
    (s: SnapshotView) => s.generation == generation && s.AccessTime() >= cutoff
  }

  function RefreshLatest(store: seq<SnapshotView>, latest: Option<string>): Option<string> {
    if latest.Some? && HasId(store, latest.value) then latest
    else if store == [] then None
    else Some(store[|store| - 1].id)
  }

  function Prune(v: SessionView, now: int): SessionView {
    var store := Filter(Unexpired(v.generation, now - SNAPSHOT_TTL_MS), v.store);
    v.(store := store, latest := RefreshLatest(store, v.latest))
  }

  /** The first snapshot among those accessed longest ago. */
  function OldestIndex(store: seq<SnapshotView>): (i: nat)
    requires store != []
    ensures i < |store|
    ensures forall j :: 0 <= j < |store| ==> store[i].AccessTime() <= store[j].AccessTime()
    ensures forall j :: 0 <= j < i ==> store[i].AccessTime() < store[j].AccessTime()
  {
    if |store| == 1 then 0
    else
      var n := |store| - 1;
      var i := OldestIndex(store[..n]);
      if store[n].AccessTime() < store[i].AccessTime() then n else i
  }

  function RemoveAt<T>(s: seq<T>, i: nat): seq<T>
    requires i < |s|
  {
    s[..i] + s[i + 1..]
  }

  function Evict(store: seq<SnapshotView>): seq<SnapshotView>
    decreases |store|
  {
    if |store| <= MAX_RETAINED_SNAPSHOTS then store
    else Evict(RemoveAt(store, OldestIndex(store)))
  }

  // ---- Operations ----------------------------------------------------------

  function Store(v: SessionView, snapshot: SnapshotView, now: int): SessionView {
    var pruned := Prune(v, now);
    var store := Evict(pruned.store + [snapshot.(lastAccessedAt := Some(now))]);
    pruned.(store := store, latest := RefreshLatest(store, Some(snapshot.id)))
  }

  function Touch(store: seq<SnapshotView>, i: nat, now: int): seq<SnapshotView>
    requires i < |store|
  {
    store[i := store[i].(lastAccessedAt := Some(now))]
  }

  /** Position of the snapshot with this id, or the length of the store. */
  function IndexOf(store: seq<SnapshotView>, id: string): (i: nat)
    ensures i <= |store|
    ensures i < |store| ==> store[i].id == id
    ensures forall j :: 0 <= j < i ==> store[j].id != id
  {
    if store == [] then 0
    else if store[0].id == id then 0
    else 1 + IndexOf(store[1..], id)
  }

  /** The answer is the position, in the new store, of the snapshot handed out. */
  function Get(v: SessionView, id: string, now: int): (SessionView, Option<nat>) {
    var pruned := Prune(v, now);
    var i := IndexOf(pruned.store, id);
    if i == |pruned.store|
       || pruned.store[i].generation != v.generation
       || pruned.store[i].continuationInvalidated then
      (pruned, None)
    else
      (pruned.(store := Touch(pruned.store, i, now)), Some(i))
  }

  predicate HasRef(elements: seq<Element>, ref: Ref) {
    exists i :: 0 <= i < |elements| && elements[i].ref == ref
  }

  /** The position of the newest current snapshot that issued the ref. */
  function NewestHolder(store: seq<SnapshotView>, generation: nat, ref: Ref): (holder: Option<nat>)
    ensures holder.Some? ==>
              && holder.value < |store|
              && store[holder.value].generation == generation
              && HasRef(store[holder.value].elements, ref)
    ensures forall j :: (if holder.Some? then holder.value + 1 else 0) <= j < |store| ==>
              store[j].generation != generation || !HasRef(store[j].elements, ref)
  {
    if store == [] then None
    else
      var n := |store| - 1;
      if store[n].generation == generation && HasRef(store[n].elements, ref) then Some(n)
      else NewestHolder(store[..n], generation, ref)
  }

  function Resolve(v: SessionView, ref: Ref, now: int): (SessionView, Option<nat>) {
    var pruned := Prune(v, now);
    var holder := NewestHolder(pruned.store, v.generation, ref);
    match holder
    case None => (pruned, None)
    case Some(i) => (pruned.(store := Touch(pruned.store, i, now)), holder)
  }

  function OwnedElsewhere(identity: FrameIdentity): Element -> bool {
    (e: Element) => !IdentityMatches(e.owner, identity)
  }

  function RevokeFrame(s: SnapshotView, identity: FrameIdentity): SnapshotView {
    var retained := Filter(OwnedElsewhere(identity), s.elements);
    if |retained| == |s.elements| then s
    else s.(
      elements := retained,
      continuationInvalidated := true,
      editableQuery :=
        match s.editableQuery
        case None => None
        case Some(query) => Some(query.(elements := Filter(OwnedElsewhere(identity), query.elements))))
  }

  function InvalidateFrame(v: SessionView, identity: FrameIdentity): SessionView {
    if IdentityKeys(identity) == [] then v
    else v.(
      epochs := Bump(v.epochs, IdentityKeys(identity)),
      store := seq(|v.store|, i requires 0 <= i < |v.store| => RevokeFrame(v.store[i], identity)))
  }

  function IsEditable(): Element -> bool {
    (e: Element) => e.editable
  }

  /** `query` of kind `editable` starts paging the editable targets of the latest snapshot. */
  function OpenEditableQuery(s: SnapshotView): SnapshotView {
    s.(editableQuery := Some(EditableQuery(Filter(IsEditable(), s.elements), Some(0))))
  }

  function QueryEditable(v: SessionView): SessionView {
    v.(store := seq(|v.store|, i requires 0 <= i < |v.store| =>
      if Some(v.store[i].id) == v.latest then OpenEditableQuery(v.store[i]) else v.store[i]))
  }

  function InvalidateObservations(v: SessionView): SessionView {
    v.(store := seq(|v.store|, i requires 0 <= i < |v.store| => v.store[i].(continuationInvalidated := true)))
  }

  function Invalidate(v: SessionView): SessionView {
    SessionView(v.generation + 1, map[], [], None)
  }

  // ---- Inspect, cut at its awaits -------------------------------------------

  datatype ScannedElement = ScannedElement(backendNodeId: int, owner: FrameIdentity, editable: bool,
      bytes: ExposedBytes)

  /** What an `inspect` call holds while the page summary, the scan or the element map update is awaited. */
  datatype Inspection =
    | AwaitingSummary(generation: nat, baseline: Epochs)
    | AwaitingScan(generation: nat, baseline: Epochs)
    | AwaitingUpdate(generation: nat, baseline: Epochs, elements: seq<ScannedElement>)

  function ScannedFromCurrentFrame(epochs: Epochs, baseline: Epochs): ScannedElement -> bool {
    (e: ScannedElement) => FrameIsCurrent(epochs, baseline, e.owner)
  }

  function BeginInspect(v: SessionView): Inspection {
    AwaitingSummary(v.generation, v.epochs)
  }

  /** None is the STALE_SNAPSHOT error. */
  function SummaryRead(v: SessionView, c: Inspection): Option<Inspection>
    requires c.AwaitingSummary?
  {
    if v.generation != c.generation then None else Some(AwaitingScan(c.generation, c.baseline))
  }

  function ScanFinished(v: SessionView, c: Inspection, scanned: seq<ScannedElement>): Option<Inspection>
    requires c.AwaitingScan?
  {
    if v.generation != c.generation then None
    else Some(AwaitingUpdate(c.generation, c.baseline,
                             Filter(ScannedFromCurrentFrame(v.epochs, c.baseline), scanned)))
  }

  function ToRecord(generation: nat, e: ScannedElement, token: string): Element {
    Element(Ref(generation, token), e.backendNodeId, e.owner, e.editable, e.bytes)
  }

  /** `token` draws the random part of each ref. */
  function ToRecords(generation: nat, elements: seq<ScannedElement>, token: nat -> string): seq<Element> {
    seq(|elements|, i requires 0 <= i < |elements| => ToRecord(generation, elements[i], token(i)))
  }

  /** Field by field and in order: what was scanned, under refs of this generation. */
  ghost predicate Records(elements: seq<Element>, generation: nat, scanned: seq<ScannedElement>, token: nat -> string) {
    && |elements| == |scanned|
    && forall i :: 0 <= i < |scanned| ==>
         && elements[i].ref == Ref(generation, token(i))
         && elements[i].backendNodeId == scanned[i].backendNodeId
         && elements[i].owner == scanned[i].owner
         && elements[i].editable == scanned[i].editable
         && elements[i].bytes == scanned[i].bytes
  }

  function NewSnapshot(v: SessionView, c: Inspection, id: string, kind: ContinuationKind,
                       token: nat -> string, now: int): SnapshotView
    requires c.AwaitingUpdate?
  {
    var current := Filter(ScannedFromCurrentFrame(v.epochs, c.baseline), c.elements);
    SnapshotView(id, c.generation, now, kind, None, ToRecords(c.generation, current, token), false, Some(0), None)
  }

  function UpdateFinished(v: SessionView, c: Inspection, id: string, kind: ContinuationKind,
                          token: nat -> string, now: int): Option<SessionView>
    requires c.AwaitingUpdate?
  {
    if v.generation != c.generation then None
    else Some(Store(v, NewSnapshot(v, c, id, kind, token, now), now))
  }
}
