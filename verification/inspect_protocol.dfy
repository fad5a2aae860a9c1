// Every interleaving of `inspect` with navigation, expiry and ref lookups.
//
// A system state pairs the session with the calls suspended at an await and with
// the history of invalidations. The bookkeeping (history, since, scanned,
// published) is never read by an operation of the session.

module InspectProtocol {
  import opened Options
  import opened Sequences
  import opened SessionModel
  import opened SnapshotStore

  datatype Invalidation = MainNavigated | FrameReplaced(identity: FrameIdentity)

  /** `since` is the length of the history when the call captured its frame epochs. */
  datatype Call = Call(inspection: Inspection, since: nat, scanned: seq<ScannedElement>)

  datatype Publication = Publication(since: nat, elements: seq<Element>)

  datatype System = System(
    session: SessionView,
    clock: int,
    history: seq<Invalidation>,
    calls: map<nat, Call>,
    published: map<string, Publication>)

  datatype Event =
    | Invalidated(invalidation: Invalidation)
    | InspectCalled(call: nat)
    | SummaryArrived(call: nat)
    | ScanArrived(call: nat, scanned: seq<ScannedElement>)
    | UpdateArrived(call: nat, id: string, kind: ContinuationKind, token: nat -> string)
    | CallFailed(call: nat)
    | EditableQueried
    | Continued(id: string)
    | RefUsed(ref: Ref)
    | PageMutated
    | TimePassed(ms: nat)

  function Initial(): System {
    System(SessionView(0, map[], [], None), 0, [], map[], map[])
  }

  function Resume(s: System, call: nat, next: Option<Inspection>, scanned: seq<ScannedElement>): System
    requires call in s.calls
  {
    match next
    case None => s.(calls := s.calls - {call})
    case Some(inspection) => s.(calls := s.calls[call := Call(inspection, s.calls[call].since, scanned)])
  }

  /** Events that do not apply, and a repeated snapshot id, leave the system alone. */
  function Step(s: System, e: Event): System {
    match e
    case Invalidated(MainNavigated) =>
      s.(session := Invalidate(s.session), history := s.history + [MainNavigated])
    case Invalidated(FrameReplaced(identity)) =>
      s.(session := InvalidateFrame(s.session, identity), history := s.history + [FrameReplaced(identity)])
    case InspectCalled(call) =>
      if call in s.calls then s
      else s.(calls := s.calls[call := Call(BeginInspect(s.session), |s.history|, [])])
    case SummaryArrived(call) =>
      if call in s.calls && s.calls[call].inspection.AwaitingSummary?
      then Resume(s, call, SummaryRead(s.session, s.calls[call].inspection), [])
      else s
    case ScanArrived(call, scanned) =>
      if call in s.calls && s.calls[call].inspection.AwaitingScan?
      then Resume(s, call, ScanFinished(s.session, s.calls[call].inspection, scanned), scanned)
      else s
    case UpdateArrived(call, id, kind, token) =>
      if call in s.calls && s.calls[call].inspection.AwaitingUpdate? && id !in s.published
      then Publish(s, call, id, kind, token)
      else s
    case CallFailed(call) => s.(calls := s.calls - {call})
    case EditableQueried => s.(session := QueryEditable(s.session))
    case Continued(id) => s.(session := Get(s.session, id, s.clock).0)
    case RefUsed(ref) => s.(session := Resolve(s.session, ref, s.clock).0)
    case PageMutated => s.(session := InvalidateObservations(s.session))
    case TimePassed(ms) => s.(clock := s.clock + ms)
  }

  function Publish(s: System, call: nat, id: string, kind: ContinuationKind, token: nat -> string): System
    requires call in s.calls && s.calls[call].inspection.AwaitingUpdate?
  {
    var c := s.calls[call];
    match UpdateFinished(s.session, c.inspection, id, kind, token, s.clock)
    case None => s.(calls := s.calls - {call})
    case Some(session) =>
      var elements := NewSnapshot(s.session, c.inspection, id, kind, token, s.clock).elements;
      s.(session := session, calls := s.calls - {call},
         published := s.published[id := Publication(c.since, elements)])
  }

  function Run(s: System, events: seq<Event>): System
    decreases |events|
  {
    if events == [] then s else Step(Run(s, events[..|events| - 1]), events[|events| - 1])
  }

  // ---- The invariant ---------------------------------------------------------

  predicate Revokes(invalidation: Invalidation, owner: FrameIdentity) {
    match invalidation
    case MainNavigated => true
    case FrameReplaced(identity) => IdentityMatches(owner, identity)
  }

  ghost predicate RevokedSince(history: seq<Invalidation>, since: nat, owner: FrameIdentity) {
    exists k :: since <= k < |history| && Revokes(history[k], owner)
  }

  /** Not touched by any invalidation since. */
  ghost function UntouchedSince(history: seq<Invalidation>, since: nat): ScannedElement -> bool {
    (e: ScannedElement) => !RevokedSince(history, since, e.owner)
  }

  ghost predicate OnlyFramesReplacedSince(history: seq<Invalidation>, since: nat) {
    since <= |history| && forall k :: since <= k < |history| ==> history[k].FrameReplaced?
  }

  ghost predicate KeyReplacedSince(history: seq<Invalidation>, since: nat, key: FrameKey) {
    exists k :: since <= k < |history| && history[k].FrameReplaced? && key in IdentityKeys(history[k].identity)
  }

  /** While no main navigation intervenes, an epoch differs from the baseline exactly for replaced frames. */
  ghost predicate EpochsTrack(epochs: Epochs, baseline: Epochs, history: seq<Invalidation>, since: nat) {
    forall key ::
      && EpochOf(epochs, key) >= EpochOf(baseline, key)
      && (EpochOf(epochs, key) > EpochOf(baseline, key) <==> KeyReplacedSince(history, since, key))
  }

  ghost predicate CallInvariant(session: SessionView, history: seq<Invalidation>, c: Call) {
    && c.inspection.generation <= session.generation
    && (c.inspection.generation == session.generation ==>
          && OnlyFramesReplacedSince(history, c.since)
          && EpochsTrack(session.epochs, c.inspection.baseline, history, c.since)
          && (c.inspection.AwaitingUpdate? ==>
                Filter(UntouchedSince(history, c.since), c.inspection.elements)
                == Filter(UntouchedSince(history, c.since), c.scanned)))
  }

  ghost predicate SnapshotInvariant(s: System, snapshot: SnapshotView) {
    && snapshot.id in s.published
    && OnlyFramesReplacedSince(s.history, s.published[snapshot.id].since)
    && (forall e :: e in snapshot.elements ==> !RevokedSince(s.history, s.published[snapshot.id].since, e.owner))
    && (forall e :: e in snapshot.elements ==> e in s.published[snapshot.id].elements)
    && (snapshot.editableQuery.Some? ==>
          forall e :: e in snapshot.editableQuery.value.elements ==> e in snapshot.elements)
    && (!snapshot.continuationInvalidated ==> snapshot.elements == s.published[snapshot.id].elements)
  }

  ghost predicate Invariant(s: System) {
    && WellFormed(s.session, s.clock)
    && (forall call | call in s.calls :: CallInvariant(s.session, s.history, s.calls[call]))
    && (forall snapshot | snapshot in s.session.store :: SnapshotInvariant(s, snapshot))
  }

  // ---- Epochs decide frame currency --------------------------------------------

  /** An owner's epochs equal the baseline exactly when none of its frames was replaced since. */
  lemma CurrentExactlyWhenNotRevoked(epochs: Epochs, baseline: Epochs, history: seq<Invalidation>, since: nat,
                                     owner: FrameIdentity)
    requires OnlyFramesReplacedSince(history, since) && EpochsTrack(epochs, baseline, history, since)
    ensures FrameIsCurrent(epochs, baseline, owner) <==> !RevokedSince(history, since, owner)
  {
    if k :| since <= k < |history| && Revokes(history[k], owner) {
      MatchIsSharedKey(owner, history[k].identity);
      var key :| key in IdentityKeys(owner) && key in IdentityKeys(history[k].identity);
      assert KeyReplacedSince(history, since, key);
      assert EpochOf(epochs, key) > EpochOf(baseline, key);
    } else {
      forall key | key in IdentityKeys(owner) ensures EpochOf(epochs, key) == EpochOf(baseline, key) {
        if KeyReplacedSince(history, since, key) {
          var k :| since <= k < |history| && history[k].FrameReplaced? && key in IdentityKeys(history[k].identity);
          MatchIsSharedKey(owner, history[k].identity);
        }
      }
    }
  }

  /** So filtering by epochs keeps exactly what no invalidation touched. */
  lemma CurrentAreUntouched(epochs: Epochs, baseline: Epochs, history: seq<Invalidation>, since: nat,
                            elements: seq<ScannedElement>)
    requires OnlyFramesReplacedSince(history, since) && EpochsTrack(epochs, baseline, history, since)
    ensures Filter(ScannedFromCurrentFrame(epochs, baseline), elements) ==
              Filter(UntouchedSince(history, since), elements)
  {
    forall e | e in elements
      ensures ScannedFromCurrentFrame(epochs, baseline)(e) == UntouchedSince(history, since)(e)
    {
      CurrentExactlyWhenNotRevoked(epochs, baseline, history, since, e.owner);
    }
    FilterAlike(ScannedFromCurrentFrame(epochs, baseline), UntouchedSince(history, since), elements);
  }

  lemma EpochsTrackReplacement(epochs: Epochs, baseline: Epochs, history: seq<Invalidation>, since: nat,
                               identity: FrameIdentity)
    requires since <= |history| && EpochsTrack(epochs, baseline, history, since)
    ensures EpochsTrack(Bump(epochs, IdentityKeys(identity)), baseline, history + [FrameReplaced(identity)], since)
  {
    var bumped, longer := Bump(epochs, IdentityKeys(identity)), history + [FrameReplaced(identity)];
    forall key
      ensures EpochOf(bumped, key) >= EpochOf(baseline, key)
      ensures EpochOf(bumped, key) > EpochOf(baseline, key) <==> KeyReplacedSince(longer, since, key)
    {
      assert EpochOf(epochs, key) >= EpochOf(baseline, key);
      BumpAdvancesExactlyTheseKeys(epochs, identity, key);
      if key in IdentityKeys(identity) {
        assert longer[|history|].FrameReplaced?;
      }
      if k :| since <= k < |history| && history[k].FrameReplaced? && key in IdentityKeys(history[k].identity) {
        assert longer[k] == history[k];
      }
      if k :| since <= k < |longer| && longer[k].FrameReplaced? && key in IdentityKeys(longer[k].identity) {
        assert k < |history| ==> longer[k] == history[k];
      }
    }
  }

  // ---- Preservation, one lemma for each kind of event ---------------------------

  lemma InitialInvariant()
    ensures Invariant(Initial())
  {
  }

  lemma RevokedSinceExtends(history: seq<Invalidation>, x: Invalidation, since: nat, owner: FrameIdentity)
    requires since <= |history|
    ensures RevokedSince(history + [x], since, owner) <==> RevokedSince(history, since, owner) || Revokes(x, owner)
  {
    var longer := history + [x];
    assert longer[|history|] == x;
    if k :| since <= k < |history| && Revokes(history[k], owner) {
      assert longer[k] == history[k];
    }
    if k :| since <= k < |longer| && Revokes(longer[k], owner) {
      assert k < |history| ==> longer[k] == history[k];
    }
  }

  lemma FrameReplacedKeepsCall(session: SessionView, history: seq<Invalidation>, c: Call, identity: FrameIdentity)
    requires CallInvariant(session, history, c)
    ensures CallInvariant(InvalidateFrame(session, identity), history + [FrameReplaced(identity)], c)
  {
    var longer := history + [FrameReplaced(identity)];
    if c.inspection.generation == session.generation {
      EpochsTrackReplacement(session.epochs, c.inspection.baseline, history, c.since, identity);
      assert IdentityKeys(identity) == [] ==> Bump(session.epochs, IdentityKeys(identity)) == session.epochs;
      if c.inspection.AwaitingUpdate? {
        var p, q := UntouchedSince(history, c.since), UntouchedSince(longer, c.since);
        forall e: ScannedElement ensures q(e) ==> p(e) {
          RevokedSinceExtends(history, FrameReplaced(identity), c.since, e.owner);
        }
        FilterOfFilter(p, q, c.inspection.elements);
        FilterOfFilter(p, q, c.scanned);
      }
    }
  }

  lemma FrameReplacedKeepsSnapshot(s: System, snapshot: SnapshotView, identity: FrameIdentity)
    requires SnapshotInvariant(s, snapshot)
    ensures var t := s.(history := s.history + [FrameReplaced(identity)]);
            SnapshotInvariant(t, RevokeFrame(snapshot, identity))
    ensures IdentityKeys(identity) == [] ==> RevokeFrame(snapshot, identity) == snapshot
  {
    var p := OwnedElsewhere(identity);
    FilterMembers(p, snapshot.elements);
    FilterKeepsAll(p, snapshot.elements);
    if snapshot.editableQuery.Some? {
      FilterMembers(p, snapshot.editableQuery.value.elements);
    }
    forall e | e in RevokeFrame(snapshot, identity).elements
      ensures !RevokedSince(s.history + [FrameReplaced(identity)], s.published[snapshot.id].since, e.owner)
    {
      RevokedSinceExtends(s.history, FrameReplaced(identity), s.published[snapshot.id].since, e.owner);
    }
  }

  lemma FrameReplacedKeepsInvariant(s: System, identity: FrameIdentity)
    requires Invariant(s)
    ensures Invariant(Step(s, Invalidated(FrameReplaced(identity))))
  {
    var t := Step(s, Invalidated(FrameReplaced(identity)));
    InvalidateFrameRevokesExactly(s.session, identity, s.clock);
    forall call | call in t.calls ensures CallInvariant(t.session, t.history, t.calls[call]) {
      FrameReplacedKeepsCall(s.session, s.history, s.calls[call], identity);
    }
    forall snapshot | snapshot in t.session.store ensures SnapshotInvariant(t, snapshot) {
      var i :| 0 <= i < |t.session.store| && t.session.store[i] == snapshot;
      FrameReplacedKeepsSnapshot(s, s.session.store[i], identity);
    }
  }

  lemma MainNavigatedKeepsInvariant(s: System)
    requires Invariant(s)
    ensures Invariant(Step(s, Invalidated(MainNavigated)))
  {
    var t := Step(s, Invalidated(MainNavigated));
    forall call | call in t.calls ensures CallInvariant(t.session, t.history, t.calls[call]) {
      assert CallInvariant(s.session, s.history, s.calls[call]);
    }
  }

  lemma FilterKeepsCall(session: SessionView, history: seq<Invalidation>, c: Call, scanned: seq<ScannedElement>)
    requires CallInvariant(session, history, c)
    requires c.inspection.AwaitingScan? && c.inspection.generation == session.generation
    ensures CallInvariant(session, history,
                          Call(ScanFinished(session, c.inspection, scanned).value, c.since, scanned))
  {
    CurrentAreUntouched(session.epochs, c.inspection.baseline, history, c.since, scanned);
    FilterOfFilter(UntouchedSince(history, c.since), UntouchedSince(history, c.since), scanned);
  }

  lemma CallStepKeepsInvariant(s: System, e: Event)
    requires Invariant(s)
    requires e.InspectCalled? || e.SummaryArrived? || e.ScanArrived? || e.CallFailed?
    ensures Invariant(Step(s, e))
  {
    var t := Step(s, e);
    forall call | call in t.calls ensures CallInvariant(t.session, t.history, t.calls[call]) {
      if call in s.calls {
        assert CallInvariant(s.session, s.history, s.calls[call]);
        if e.ScanArrived? && call == e.call && t.calls[call] != s.calls[call] {
          FilterKeepsCall(s.session, s.history, s.calls[call], e.scanned);
        }
      }
    }
  }

  /** The scanned elements of a call that no invalidation has touched since it began, in order. */
  ghost function Untouched(s: System, call: nat): seq<ScannedElement>
    requires call in s.calls
  {
    Filter(UntouchedSince(s.history, s.calls[call].since), s.calls[call].scanned)
  }

  /**
   * Under another generation nothing is published and the session is left alone; otherwise the new and
   * latest snapshot holds, field by field and in order, exactly the scanned elements that no invalidation
   * touched since the capture, each under a ref of this generation.
   */
  lemma PublishesExactlyTheUntouched(s: System, call: nat, id: string, kind: ContinuationKind, token: nat -> string)
    requires Invariant(s)
    requires call in s.calls && s.calls[call].inspection.AwaitingUpdate? && id !in s.published
    ensures var c, t := s.calls[call], Step(s, UpdateArrived(call, id, kind, token));
            c.inspection.generation != s.session.generation ==> t == s.(calls := s.calls - {call})
    ensures var c, kept, t := s.calls[call], Untouched(s, call), Step(s, UpdateArrived(call, id, kind, token));
            c.inspection.generation == s.session.generation ==>
              && id in t.published && Records(t.published[id].elements, s.session.generation, kept, token)
              && t == s.(session := t.session, calls := s.calls - {call},
                         published := s.published[id := Publication(c.since, t.published[id].elements)])
              && t.session.generation == s.session.generation && t.session.epochs == s.session.epochs
              && t.session.latest == Some(id) && t.session.store != []
              && t.session.store[|t.session.store| - 1] ==
                   SnapshotView(id, s.session.generation, s.clock, kind, Some(s.clock), t.published[id].elements,
                                false, Some(0), None)
  {
    if s.calls[call].inspection.generation == s.session.generation {
      PublishedElements(s, call, id, kind, token);
      StoredSnapshot(s, call, id, kind, token);
      PublishedSystem(s, call, id, kind, token);
    }
  }

  lemma PublishedSystem(s: System, call: nat, id: string, kind: ContinuationKind, token: nat -> string)
    requires call in s.calls && s.calls[call].inspection.AwaitingUpdate? && id !in s.published
    requires s.calls[call].inspection.generation == s.session.generation
    ensures var c, created := s.calls[call], NewSnapshot(s.session, s.calls[call].inspection, id, kind, token, s.clock);
            Step(s, UpdateArrived(call, id, kind, token)) ==
              s.(session := Store(s.session, created, s.clock), calls := s.calls - {call},
                 published := s.published[id := Publication(c.since, created.elements)])
  {
  }

  lemma StoredSnapshot(s: System, call: nat, id: string, kind: ContinuationKind, token: nat -> string)
    requires Invariant(s)
    requires call in s.calls && s.calls[call].inspection.AwaitingUpdate? && id !in s.published
    requires s.calls[call].inspection.generation == s.session.generation
    ensures var created := NewSnapshot(s.session, s.calls[call].inspection, id, kind, token, s.clock);
            var w := Store(s.session, created, s.clock);
            && w.generation == s.session.generation && w.epochs == s.session.epochs && w.latest == Some(id)
            && w.store != [] && w.store[|w.store| - 1] == created.(lastAccessedAt := Some(s.clock))
  {
    var created := NewSnapshot(s.session, s.calls[call].inspection, id, kind, token, s.clock);
    PublishedElements(s, call, id, kind, token);
    NewIdIsFree(s, id);
    StoreKeepsTheNewest(s.session, created, s.clock, s.clock);
  }

  lemma NewIdIsFree(s: System, id: string)
    requires Invariant(s) && id !in s.published
    ensures !HasId(s.session.store, id)
  {
    forall i | 0 <= i < |s.session.store| ensures s.session.store[i].id != id {
      assert SnapshotInvariant(s, s.session.store[i]);
    }
  }

  lemma RecordsAreUntouched(s: System, call: nat, elements: seq<Element>, token: nat -> string)
    requires call in s.calls && Records(elements, s.session.generation, Untouched(s, call), token)
    ensures forall e :: e in elements ==>
              !RevokedSince(s.history, s.calls[call].since, e.owner) && e.ref.generation == s.session.generation
  {
    var c, kept := s.calls[call], Untouched(s, call);
    FilterMembers(UntouchedSince(s.history, c.since), c.scanned);
    forall e | e in elements
      ensures !RevokedSince(s.history, c.since, e.owner) && e.ref.generation == s.session.generation
    {
      var i :| 0 <= i < |elements| && elements[i] == e;
      assert kept[i] in kept;
      assert UntouchedSince(s.history, c.since)(kept[i]);
    }
  }

  /** The two filters of a call keep what one at the end would keep. */
  lemma PublishedElements(s: System, call: nat, id: string, kind: ContinuationKind, token: nat -> string)
    requires Invariant(s)
    requires call in s.calls && s.calls[call].inspection.AwaitingUpdate?
    requires s.calls[call].inspection.generation == s.session.generation
    ensures var elements := NewSnapshot(s.session, s.calls[call].inspection, id, kind, token, s.clock).elements;
            && Records(elements, s.session.generation, Untouched(s, call), token)
            && forall e :: e in elements ==>
                 !RevokedSince(s.history, s.calls[call].since, e.owner) && e.ref.generation == s.session.generation
  {
    var c, kept := s.calls[call], Untouched(s, call);
    var elements := NewSnapshot(s.session, c.inspection, id, kind, token, s.clock).elements;
    CurrentAreUntouched(s.session.epochs, c.inspection.baseline, s.history, c.since, c.inspection.elements);
    assert elements == ToRecords(s.session.generation, kept, token);
    assert Records(elements, s.session.generation, kept, token);
    RecordsAreUntouched(s, call, elements, token);
  }

  lemma PublishKeepsInvariant(s: System, call: nat, id: string, kind: ContinuationKind, token: nat -> string)
    requires Invariant(s)
    requires call in s.calls && s.calls[call].inspection.AwaitingUpdate? && id !in s.published
    ensures Invariant(Publish(s, call, id, kind, token))
  {
    var c, t := s.calls[call], Publish(s, call, id, kind, token);
    forall other | other in t.calls ensures CallInvariant(t.session, t.history, t.calls[other]) {
      assert CallInvariant(s.session, s.history, s.calls[other]);
    }
    if c.inspection.generation == s.session.generation {
      var created := NewSnapshot(s.session, c.inspection, id, kind, token, s.clock);
      PublishedElements(s, call, id, kind, token);
      NewIdIsFree(s, id);
      StoreKeepsTheNewest(s.session, created, s.clock, s.clock);
      forall snapshot | snapshot in t.session.store ensures SnapshotInvariant(t, snapshot) {
        if snapshot in s.session.store {
          assert SnapshotInvariant(s, snapshot);
        }
      }
    } else {
      forall snapshot | snapshot in t.session.store ensures SnapshotInvariant(t, snapshot) {
        assert SnapshotInvariant(s, snapshot);
      }
    }
  }

  /** Reading the store (or letting time pass) only expires snapshots and renews access times. */
  lemma LookupKeepsInvariant(s: System, e: Event)
    requires Invariant(s)
    requires e.Continued? || e.RefUsed? || e.TimePassed?
    ensures Invariant(Step(s, e))
  {
    var t := Step(s, e);
    PruneKeepsWellFormed(s.session, s.clock, s.clock);
    match e {
      case Continued(id) => GetServesExactlyContinuableSnapshots(s.session, id, s.clock, s.clock);
      case RefUsed(ref) => ResolvesExactlyThroughLiveSnapshots(s.session, ref, s.clock, s.clock);
      case TimePassed(ms) =>
    }
    forall call | call in t.calls ensures CallInvariant(t.session, t.history, t.calls[call]) {
      assert CallInvariant(s.session, s.history, s.calls[call]);
    }
    LookupKeepsSnapshots(s, e);
  }

  lemma LookupKeepsSnapshots(s: System, e: Event)
    requires Invariant(s)
    requires e.Continued? || e.RefUsed? || e.TimePassed?
    ensures forall snapshot :: snapshot in Step(s, e).session.store ==> SnapshotInvariant(Step(s, e), snapshot)
  {
    var t := Step(s, e);
    PruneKeepsWellFormed(s.session, s.clock, s.clock);
    var kept := Prune(s.session, s.clock).store;
    forall snapshot | snapshot in t.session.store ensures SnapshotInvariant(t, snapshot) {
      if !e.TimePassed? {
        var i :| 0 <= i < |t.session.store| && t.session.store[i] == snapshot;
        assert kept[i] in kept;
        assert SnapshotInvariant(s, kept[i]);
      }
    }
  }

  lemma MarkingKeepsInvariant(s: System, e: Event)
    requires Invariant(s)
    requires e.PageMutated? || e.EditableQueried?
    ensures Invariant(Step(s, e))
  {
    var t := Step(s, e);
    forall call | call in t.calls ensures CallInvariant(t.session, t.history, t.calls[call]) {
      assert CallInvariant(s.session, s.history, s.calls[call]);
    }
    forall snapshot | snapshot in t.session.store
      ensures SnapshotInvariant(t, snapshot)
      ensures snapshot.generation == t.session.generation && snapshot.AccessTime() <= t.clock
      ensures forall x | x in snapshot.elements :: x.ref.generation == snapshot.generation
    {
      var i :| 0 <= i < |t.session.store| && t.session.store[i] == snapshot;
      assert s.session.store[i] in s.session.store;
      assert SnapshotInvariant(s, s.session.store[i]);
      FilterMembers(IsEditable(), s.session.store[i].elements);
    }
    if s.session.store != [] {
      var k :| 0 <= k < |s.session.store| && s.session.store[k].id == s.session.latest.value;
      assert t.session.store[k].id == s.session.latest.value;
    }
  }

  lemma StepKeepsInvariant(s: System, e: Event)
    requires Invariant(s)
    ensures Invariant(Step(s, e))
  {
    match e {
      case Invalidated(MainNavigated) => MainNavigatedKeepsInvariant(s);
      case Invalidated(FrameReplaced(identity)) => FrameReplacedKeepsInvariant(s, identity);
      case UpdateArrived(call, id, kind, token) =>
        if call in s.calls && s.calls[call].inspection.AwaitingUpdate? && id !in s.published {
          PublishKeepsInvariant(s, call, id, kind, token);
        }
      case Continued(_) => LookupKeepsInvariant(s, e);
      case RefUsed(_) => LookupKeepsInvariant(s, e);
      case TimePassed(_) => LookupKeepsInvariant(s, e);
      case PageMutated => MarkingKeepsInvariant(s, e);
      case EditableQueried => MarkingKeepsInvariant(s, e);
      case _ => CallStepKeepsInvariant(s, e);
    }
  }

  lemma {:induction false} RunKeepsInvariant(s: System, events: seq<Event>)
    requires Invariant(s)
    ensures Invariant(Run(s, events))
    decreases |events|
  {
    if events != [] {
      var init := events[..|events| - 1];
      RunKeepsInvariant(s, init);
      StepKeepsInvariant(Run(s, init), events[|events| - 1]);
    }
  }

  // ---- What every run guarantees ---------------------------------------------------

  /** No main navigation, and no replacement of a frame that carries the frame or session id of the owner. */
  predicate Spares(invalidation: Invalidation, owner: FrameIdentity) {
    && invalidation.FrameReplaced?
    && !(owner.frameId != "" && owner.frameId == invalidation.identity.frameId)
    && !(owner.sessionId != "" && owner.sessionId == invalidation.identity.sessionId)
  }

  /** No element of a retained snapshot was invalidated since its inspect captured the frame epochs. */
  lemma RetainedElementsAreNeverRevoked(events: seq<Event>)
    ensures var s := Run(Initial(), events);
            forall snapshot | snapshot in s.session.store ::
              && snapshot.id in s.published
              && forall e, k :: e in snapshot.elements && s.published[snapshot.id].since <= k < |s.history| ==>
                   Spares(s.history[k], e.owner)
  {
    RunKeepsInvariant(Initial(), events);
    var s := Run(Initial(), events);
    forall snapshot | snapshot in s.session.store
      ensures snapshot.id in s.published
      ensures forall e, k :: e in snapshot.elements && s.published[snapshot.id].since <= k < |s.history| ==>
                Spares(s.history[k], e.owner)
    {
      assert SnapshotInvariant(s, snapshot);
      forall e, k | e in snapshot.elements && s.published[snapshot.id].since <= k < |s.history|
        ensures Spares(s.history[k], e.owner)
      {
        assert !Revokes(s.history[k], e.owner);
        assert !RevokedSince(s.history, s.published[snapshot.id].since, e.owner);
      }
    }
  }

  lemma StepNeverDecreasesGeneration(s: System, e: Event)
    ensures s.session.generation <= Step(s, e).session.generation
  {
    match e {
      case UpdateArrived(call, id, kind, token) =>
        if call in s.calls && s.calls[call].inspection.AwaitingUpdate? {
          assert Publish(s, call, id, kind, token).session.generation == s.session.generation;
        }
      case Continued(id) => assert Get(s.session, id, s.clock).0.generation == s.session.generation;
      case RefUsed(ref) => assert Resolve(s.session, ref, s.clock).0.generation == s.session.generation;
      case _ =>
    }
  }

  lemma {:induction false} GenerationNeverDecreases(s: System, events: seq<Event>)
    ensures s.session.generation <= Run(s, events).session.generation
    decreases |events|
  {
    if events != [] {
      var init := events[..|events| - 1];
      GenerationNeverDecreases(s, init);
      StepNeverDecreasesGeneration(Run(s, init), events[|events| - 1]);
    }
  }

  /** After a main navigation, no ref of the generation it ended ever resolves again. */
  lemma RefsDieWithTheirGeneration(before: seq<Event>, after: seq<Event>, ref: Ref)
    requires ref.generation <= Run(Initial(), before).session.generation
    ensures var s := Run(Step(Run(Initial(), before), Invalidated(MainNavigated)), after);
            Resolve(s.session, ref, s.clock).1 == None
  {
    RunKeepsInvariant(Initial(), before);
    var s0 := Run(Initial(), before);
    var s1 := Step(s0, Invalidated(MainNavigated));
    StepKeepsInvariant(s0, Invalidated(MainNavigated));
    RunKeepsInvariant(s1, after);
    GenerationNeverDecreases(s1, after);
    var s := Run(s1, after);
    ForeignGenerationNeverResolves(s.session, ref, s.clock, s.clock);
  }

  /** A continuation that is still served pages over exactly the elements that were published. */
  lemma ServedContinuationsAreFrozen(events: seq<Event>, id: string)
    ensures var s := Run(Initial(), events);
            var (session, found) := Get(s.session, id, s.clock);
            found.Some? ==>
              && found.value < |session.store|
              && id in s.published
              && session.store[found.value].elements == s.published[id].elements
  {
    RunKeepsInvariant(Initial(), events);
    var s := Run(Initial(), events);
    GetServesExactlyContinuableSnapshots(s.session, id, s.clock, s.clock);
    PruneKeepsWellFormed(s.session, s.clock, s.clock);
    var pruned := Prune(s.session, s.clock).store;
    var i := IndexOf(pruned, id);
    if i < |pruned| {
      assert pruned[i] in s.session.store;
      assert SnapshotInvariant(s, pruned[i]);
    }
  }

  lemma {:induction false} RunInTwo(s: System, a: seq<Event>, b: seq<Event>)
    ensures Run(s, a + b) == Run(Run(s, a), b)
  {
    if b == [] {
      assert a + b == a;
    } else {
      RunInTwo(s, a, b[..|b| - 1]);
      assert (a + b)[..|a + b| - 1] == a + b[..|b| - 1];
    }
  }

  /** A published id is never published again. */
  lemma {:induction false} PublicationsStay(s: System, events: seq<Event>, id: string)
    requires id in s.published
    ensures id in Run(s, events).published && Run(s, events).published[id] == s.published[id]
    decreases |events|
  {
    if events != [] {
      PublicationsStay(s, events[..|events| - 1], id);
    }
  }
}
