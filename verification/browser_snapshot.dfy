// `inspect` and `query` as the source runs them: the segments between awaits, the
// binary search over page sizes and the continuation guards
// (packages/browser-core/src/browser-snapshot.ts, browser-query.ts).

module BrowserSnapshot {
  import opened Options
  import opened Sequences
  import opened BrowserState
  import opened SnapshotPaging
  import M = SessionModel
  import P = InspectProtocol

  datatype PageError = StaleSnapshot | SnapshotKindMismatch | ContinuationMismatch | ResultTooLarge

  datatype Page = Page(
    offset: nat,
    elements: seq<M.Element>,
    withTree: bool,
    truncated: bool,
    nextOffset: Option<nat>)

  datatype PageResult = Served(page: Page) | Failed(error: PageError)

  // ---- Inspect -----------------------------------------------------------------

  method BeginInspect(session: Session) returns (c: M.Inspection)
    requires session.Valid()
    ensures c == M.BeginInspect(session.View())
  {
    c := M.AwaitingSummary(session.generation, session.frameEpochs);
  }

  method AfterSummary(session: Session, c: M.Inspection) returns (next: Option<M.Inspection>)
    requires session.Valid() && c.AwaitingSummary?
    ensures next == M.SummaryRead(session.View(), c)
  {
    if session.generation != c.generation {
      return None;
    }
    next := Some(M.AwaitingScan(c.generation, c.baseline));
  }

  method CurrentElements(session: Session, baseline: M.Epochs, elements: seq<M.ScannedElement>)
    returns (current: seq<M.ScannedElement>)
    ensures current == Filter(M.ScannedFromCurrentFrame(session.frameEpochs, baseline), elements)
  {
    current := [];
    ghost var p := M.ScannedFromCurrentFrame(session.frameEpochs, baseline);
    for i := 0 to |elements|
      invariant current == Filter(p, elements[..i])
    {
      assert elements[..i + 1] == elements[..i] + [elements[i]];
      FilterSnoc(p, elements[..i], elements[i]);
      var keys := M.IdentityKeys(elements[i].owner);
      if forall k | 0 <= k < |keys| :: M.EpochOf(session.frameEpochs, keys[k]) == M.EpochOf(baseline, keys[k]) {
        current := current + [elements[i]];
      }
    }
    assert elements[..|elements|] == elements;
  }

  method AfterScan(session: Session, c: M.Inspection, scanned: seq<M.ScannedElement>)
    returns (next: Option<M.Inspection>)
    requires session.Valid() && c.AwaitingScan?
    ensures next == M.ScanFinished(session.View(), c, scanned)
  {
    if session.generation != c.generation {
      return None;
    }
    var current := CurrentElements(session, c.baseline, scanned);
    next := Some(M.AwaitingUpdate(c.generation, c.baseline, current));
  }

  method AfterUpdate(session: Session, c: M.Inspection, id: string, kind: M.ContinuationKind,
                     token: nat -> string, now: int)
    returns (published: Snapshot?)
    requires session.Valid() && c.AwaitingUpdate?
    requires !M.HasId(Views(session.snapshots), id)
    modifies session
    ensures session.Valid()
    ensures var after := M.UpdateFinished(old(session.View()), c, id, kind, token, now);
            if after == None then published == null && session.View() == old(session.View())
            else published != null && session.View() == after.value
                 && published.View() ==
                      M.NewSnapshot(old(session.View()), c, id, kind, token, now).(lastAccessedAt := Some(now))
    ensures (published != null <==> old(session.generation) == c.generation)
    ensures published != null ==>
              M.Records(published.elements, c.generation,
                        Filter(M.ScannedFromCurrentFrame(old(session.frameEpochs), c.baseline), c.elements), token)
  {
    if session.generation != c.generation {
      return null;
    }
    var current := CurrentElements(session, c.baseline, c.elements);
    var elements := M.ToRecords(c.generation, current, token);
    published := new Snapshot(id, c.generation, now, kind, elements);
    session.Store(published, now);
  }

  // ---- Pages -----------------------------------------------------------------------

  /** The answer that the frozen elements, the offset and the limit call for. */
  function PageAnswer(elements: seq<M.Element>, layout: PageLayout, offset: nat, limit: nat): PageResult {
    var window := Window(elements, offset, limit);
    match PlanPage(|elements|, layout, offset, window)
    case None => Failed(ResultTooLarge)
    case Some(plan) =>
      if plan.count > |window| then Failed(ResultTooLarge)
      else
        var end := offset + plan.count;
        var truncated := end < |elements|;
        Served(Page(offset, window[..plan.count], plan.withTree, truncated, if truncated then Some(end) else None))
  }

  /** The binary search finds what trying every size would. */
  method SearchCut(total: nat, layout: PageLayout, offset: nat, window: seq<M.Element>) returns (fitting: nat)
    requires |window| > 1 && offset + |window| <= total
    ensures fitting == LargestCut(total, layout, offset, window, |window| - 1)
  {
    var lower, upper := 1, |window| - 1;
    fitting := 0;
    while lower <= upper
      invariant 1 <= lower <= upper + 1 <= |window|
      invariant fitting == lower - 1
      invariant fitting > 0 ==> PageFits(total, layout, offset, window, fitting, false)
      invariant forall m :: upper < m <= |window| - 1 ==> !PageFits(total, layout, offset, window, m, false)
    {
      var count := (lower + upper) / 2;
      if PageFits(total, layout, offset, window, count, false) {
        fitting := count;
        lower := count + 1;
      } else {
        forall m | count <= m <= |window| - 1 ensures !PageFits(total, layout, offset, window, m, false) {
          CutPagesGrow(total, layout, offset, window, count, m);
        }
        upper := count - 1;
      }
    }
    assert fitting <= LargestCut(total, layout, offset, window, |window| - 1);
  }

  method SnapshotPage(snapshot: Snapshot, layout: PageLayout, offset: nat, limit: nat) returns (result: PageResult)
    modifies snapshot`nextOffset
    ensures result == PageAnswer(snapshot.elements, layout, offset, limit)
    ensures snapshot.nextOffset == if result.Served? then result.page.nextOffset else old(snapshot.nextOffset)
  {
    var elements := snapshot.elements;
    var window := Window(elements, offset, limit);
    PlannedPageIsTheLargest(|elements|, layout, offset, window);
    var count, withTree := |window|, true;
    if !PageFits(|elements|, layout, offset, window, count, withTree) {
      withTree := false;
    }
    if !PageFits(|elements|, layout, offset, window, count, withTree) && |window| > 1 {
      var fitting := SearchCut(|elements|, layout, offset, window);
      if fitting > 0 {
        count := fitting;
      }
    }
    if !PageFits(|elements|, layout, offset, window, count, withTree) {
      return Failed(ResultTooLarge);
    }
    var end := offset + count;
    var truncated := end < |elements|;
    snapshot.nextOffset := if truncated then Some(end) else None;
    result := Served(Page(offset, window[..count], withTree, truncated, snapshot.nextOffset));
  }

  /** What the public page promises, whatever produced it. */
  lemma PagesKeepTheirPromises(elements: seq<M.Element>, layout: PageLayout, offset: nat, limit: nat)
    requires limit > 0
    ensures var answer := PageAnswer(elements, layout, offset, limit);
            var window := Window(elements, offset, limit);
            && (answer.Failed? <==>
                  && !PageFits(|elements|, layout, offset, window, |window|, true)
                  && !PageFits(|elements|, layout, offset, window, |window|, false)
                  && forall m :: 1 <= m <= |window| ==> !PageFits(|elements|, layout, offset, window, m, false))
            && (answer.Served? ==>
                  var shown := |answer.page.elements|;
                  && answer.page.elements <= window
                  && PageFits(|elements|, layout, offset, window, shown, answer.page.withTree)
                  && (forall m :: shown < m <= |window| ==> !PageFits(|elements|, layout, offset, window, m, false))
                  && (answer.page.truncated <==> answer.page.nextOffset.Some?)
                  && answer.page.offset == offset && shown <= limit
                  && (offset <= |elements| ==>
                        && offset + shown <= |elements|
                        && answer.page.elements == elements[offset..offset + shown]
                        && (answer.page.nextOffset.Some? <==> offset + shown < |elements|)
                        && (answer.page.nextOffset.Some? ==> offset < answer.page.nextOffset.value == offset + shown)))
  {
    PlannedPageIsTheLargest(|elements|, layout, offset, Window(elements, offset, limit));
  }

  // ---- A whole inspect --------------------------------------------------------------

  ghost function InvalidateOnce(v: M.SessionView, event: P.Invalidation): M.SessionView {
    match event
    case MainNavigated => M.Invalidate(v)
    case FrameReplaced(identity) => M.InvalidateFrame(v, identity)
  }

  ghost function InvalidateAll(v: M.SessionView, events: seq<P.Invalidation>): M.SessionView {
    if events == [] then v else InvalidateOnce(InvalidateAll(v, events[..|events| - 1]), events[|events| - 1])
  }

  /** The scanned elements that none of the events touched, in order. */
  ghost function Untouched(events: seq<P.Invalidation>, scanned: seq<M.ScannedElement>): seq<M.ScannedElement> {
    Filter(P.UntouchedSince(events, 0), scanned)
  }

  /** The generation tells whether the main page navigated; if not, the epochs tell which frames were replaced. */
  lemma {:induction false} EpochsSinceTheCapture(v: M.SessionView, events: seq<P.Invalidation>)
    ensures var w := InvalidateAll(v, events);
            && v.generation <= w.generation
            && (w.generation == v.generation <==> P.MainNavigated !in events)
            && (P.MainNavigated !in events ==>
                  P.OnlyFramesReplacedSince(events, 0) && P.EpochsTrack(w.epochs, v.epochs, events, 0))
  {
    if events != [] {
      var init, last := events[..|events| - 1], events[|events| - 1];
      EpochsSinceTheCapture(v, init);
      assert events == init + [last];
      assert P.MainNavigated in events <==> P.MainNavigated in init || last.MainNavigated?;
      if P.MainNavigated !in events {
        P.EpochsTrackReplacement(InvalidateAll(v, init).epochs, v.epochs, init, 0, last.identity);
      }
    }
  }

  lemma {:induction false} NoNewIds(v: M.SessionView, events: seq<P.Invalidation>, id: string)
    requires !M.HasId(v.store, id)
    ensures !M.HasId(InvalidateAll(v, events).store, id)
  {
    if events != [] {
      NoNewIds(v, events[..|events| - 1], id);
    }
  }

  /** What is current after the events are exactly the elements that none of them touched. */
  lemma CurrentMeansUntouched(v: M.SessionView, events: seq<P.Invalidation>, elements: seq<M.ScannedElement>)
    requires P.MainNavigated !in events
    ensures Filter(M.ScannedFromCurrentFrame(InvalidateAll(v, events).epochs, v.epochs), elements)
            == Untouched(events, elements)
  {
    EpochsSinceTheCapture(v, events);
    P.CurrentAreUntouched(InvalidateAll(v, events).epochs, v.epochs, events, 0, elements);
  }

  /** Filtering after the scan and again after the update is filtering once, at the end. */
  lemma FilteredTwice(v: M.SessionView, before: seq<P.Invalidation>, after: seq<P.Invalidation>,
      scanned: seq<M.ScannedElement>)
    requires P.MainNavigated !in before + after
    ensures var once := Filter(M.ScannedFromCurrentFrame(InvalidateAll(v, before).epochs, v.epochs), scanned);
            Filter(M.ScannedFromCurrentFrame(InvalidateAll(v, before + after).epochs, v.epochs), once)
            == Untouched(before + after, scanned)
  {
    var all := before + after;
    assert forall e :: e in before ==> e in all;
    CurrentMeansUntouched(v, before, scanned);
    CurrentMeansUntouched(v, all, Untouched(before, scanned));
    var p, q := P.UntouchedSince(before, 0), P.UntouchedSince(all, 0);
    forall e: M.ScannedElement | q(e) ensures p(e) {
      assert forall k :: 0 <= k < |before| ==> all[k] == before[k];
    }
    FilterOfFilter(p, q, scanned);
  }

  lemma OneMore(v: M.SessionView, before: seq<P.Invalidation>, events: seq<P.Invalidation>, i: nat)
    requires i < |events|
    ensures InvalidateAll(v, before + events[..i + 1]) ==
              InvalidateOnce(InvalidateAll(v, before + events[..i]), events[i])
  {
    assert (before + events[..i + 1])[..|before| + i] == before + events[..i];
  }

  method Happen(session: Session, event: P.Invalidation)
    requires session.Valid()
    modifies session, session.snapshots
    ensures session.Valid() && session.View() == InvalidateOnce(old(session.View()), event)
    ensures session.snapshots == [] || session.snapshots == old(session.snapshots)
  {
    match event {
      case MainNavigated => session.Invalidate();
      case FrameReplaced(identity) => session.InvalidateFrame(identity);
    }
  }

  /** What navigation does while a call is suspended that captured `v` before the events so far. */
  method Await(session: Session, events: seq<P.Invalidation>, ghost v: M.SessionView, ghost before: seq<P.Invalidation>)
    requires session.Valid() && session.View() == InvalidateAll(v, before)
    modifies session, session.snapshots
    ensures session.Valid() && session.View() == InvalidateAll(v, before + events)
    ensures forall k :: 0 <= k < |session.snapshots| ==> session.snapshots[k] in old(session.snapshots)
  {
    assert before + events[..0] == before;
    for i := 0 to |events|
      invariant session.Valid() && session.View() == InvalidateAll(v, before + events[..i])
      invariant forall k :: 0 <= k < |session.snapshots| ==> session.snapshots[k] in old(session.snapshots)
    {
      OneMore(v, before, events, i);
      Happen(session, events[i]);
    }
    assert events[..|events|] == events;
  }

  /**
   * From the call to the published snapshot, with anything happening during the three awaits: nothing is
   * published exactly when the main page navigated meanwhile; otherwise the snapshot holds, field by field
   * and in order, exactly the scanned elements that none of the events touched, each under its own ref.
   */
  method Inspect(session: Session, first: seq<P.Invalidation>, second: seq<P.Invalidation>, third: seq<P.Invalidation>,
                 scanned: seq<M.ScannedElement>, id: string, kind: M.ContinuationKind, token: nat -> string, now: int)
    returns (published: Snapshot?)
    requires session.Valid() && !M.HasId(Views(session.snapshots), id)
    modifies session, session.snapshots
    ensures session.Valid()
    ensures published == null <==> P.MainNavigated in first + second + third
    ensures published != null ==>
              && M.Records(published.elements, old(session.generation),
                           Untouched(first + second + third, scanned), token)
              && published.View() == M.SnapshotView(id, old(session.generation), now, kind, Some(now),
                                                    published.elements, false, Some(0), None)
  {
    ghost var v := session.View();
    var summary := BeginInspect(session);
    Await(session, first, v, []);
    assert [] + first == first;
    EpochsSinceTheCapture(v, first);
    var scan := AfterSummary(session, summary);
    if scan == None {
      return null;
    }
    Await(session, second, v, first);
    EpochsSinceTheCapture(v, first + second);
    var update := AfterScan(session, scan.value, scanned);
    if update == None {
      return null;
    }
    published := FinishInspect(session, update.value, third, v, first + second, scanned, id, kind, token, now);
  }

  /** The last await and what follows it. */
  method FinishInspect(session: Session, update: M.Inspection, third: seq<P.Invalidation>, ghost v: M.SessionView,
                       ghost before: seq<P.Invalidation>, ghost scanned: seq<M.ScannedElement>, id: string,
                       kind: M.ContinuationKind, token: nat -> string, now: int)
    returns (published: Snapshot?)
    requires session.Valid() && !M.HasId(v.store, id)
    requires session.View() == InvalidateAll(v, before) && session.generation == v.generation
    requires update == M.AwaitingUpdate(v.generation, v.epochs,
               Filter(M.ScannedFromCurrentFrame(InvalidateAll(v, before).epochs, v.epochs), scanned))
    modifies session, session.snapshots
    ensures session.Valid()
    ensures published == null <==> P.MainNavigated in before + third
    ensures published != null ==>
              && M.Records(published.elements, v.generation, Untouched(before + third, scanned), token)
              && published.View() == M.SnapshotView(id, v.generation, now, kind, Some(now),
                                                    published.elements, false, Some(0), None)
  {
    Await(session, third, v, before);
    EpochsSinceTheCapture(v, before + third);
    NoNewIds(v, before + third, id);
    published := AfterUpdate(session, update, id, kind, token, now);
    if published != null {
      FilteredTwice(v, before, third, scanned);
    }
  }

  // ---- Continuations ------------------------------------------------------------------

  /** A continuation is accepted only for a served snapshot of its own kind at its exact next offset. */
  method ContinueInspect(session: Session, id: string, layout: PageLayout, offset: nat, limit: int, now: int)
    returns (result: PageResult)
    requires session.Valid()
    modifies session, session.snapshots
    ensures session.Valid()
    ensures var (after, found) := M.Get(old(session.View()), id, now);
            match found
            case None => result == Failed(StaleSnapshot) && session.View() == after
            case Some(i) =>
              i < |after.store| &&
              var s := after.store[i];
              if s.kind != M.InspectPages then result == Failed(SnapshotKindMismatch) && session.View() == after
              else if s.nextOffset != Some(offset) then result == Failed(ContinuationMismatch)
                  && session.View() == after
              else
                && result == PageAnswer(s.elements, layout, offset, ClampLimit(limit))
                && session.View() == after.(store := after.store[i :=
                     s.(nextOffset := if result.Served? then result.page.nextOffset else s.nextOffset)])
  {
    var snapshot := session.Get(id, now);
    if snapshot == null {
      return Failed(StaleSnapshot);
    }
    assert snapshot in session.snapshots;
    if snapshot.kind != M.InspectPages {
      return Failed(SnapshotKindMismatch);
    }
    if snapshot.nextOffset != Some(offset) {
      return Failed(ContinuationMismatch);
    }
    ghost var before := session.View();
    ghost var i := M.Get(old(session.View()), id, now).1.value;
    result := SnapshotPage(snapshot, layout, offset, ClampLimit(limit));
    assert Views(session.snapshots) == before.store[i := snapshot.View()];
    assert forall k :: 0 <= k < |before.store| ==> Views(session.snapshots)[k].id == before.store[k].id;
  }

  /** A new editable query holds the editable elements of the snapshot, in order, to be shown from the first. */
  method OpenEditableQuery(snapshot: Snapshot)
    modifies snapshot`editableQuery
    ensures snapshot.View() == M.OpenEditableQuery(old(snapshot.View()))
    ensures snapshot.editableQuery.Some? && snapshot.editableQuery.value.nextOffset == Some(0)
    ensures forall e :: e in snapshot.editableQuery.value.elements <==> e in snapshot.elements && e.editable
  {
    var elements := snapshot.elements;
    var targets: seq<M.Element> := [];
    for i := 0 to |elements|
      invariant targets == Filter(M.IsEditable(), elements[..i])
    {
      assert elements[..i + 1] == elements[..i] + [elements[i]];
      FilterSnoc(M.IsEditable(), elements[..i], elements[i]);
      if elements[i].editable {
        targets := targets + [elements[i]];
      }
    }
    assert elements[..|elements|] == elements;
    snapshot.editableQuery := Some(M.EditableQuery(targets, Some(0)));
    FilterMembers(M.IsEditable(), elements);
  }

  method EditablePage(snapshot: Snapshot, offset: nat, limit: int) returns (page: Page)
    requires snapshot.editableQuery.Some?
    modifies snapshot`editableQuery
    ensures var targets := old(snapshot.editableQuery.value.elements);
            var window := Window(targets, offset, ClampLimit(limit));
            var count := EditableCount(window, |window|);
            && page.offset == offset && page.elements == window[..count] && EditablePageFits(window, count)
            && page.nextOffset == (if offset + count < |targets| then Some(offset + count) else None)
            && (page.truncated <==> page.nextOffset.Some?)
            && snapshot.editableQuery == Some(M.EditableQuery(targets, page.nextOffset))
  {
    var query := snapshot.editableQuery.value;
    var window := Window(query.elements, offset, ClampLimit(limit));
    var returned: nat := |window|;
    while returned > 1 && !EditablePageFits(window, returned)
      invariant returned <= |window|
      invariant EditableCount(window, returned) == EditableCount(window, |window|)
    {
      returned := returned - 1;
    }
    var end := offset + returned;
    var truncated := end < |query.elements|;
    var nextOffset := if truncated then Some(end) else None;
    snapshot.editableQuery := Some(query.(nextOffset := nextOffset));
    page := Page(offset, window[..returned], false, truncated, nextOffset);
  }

  /** The same guards for an editable query, whose continuation is kept with the snapshot it was asked of. */
  method ContinueEditable(session: Session, id: string, offset: nat, limit: int, now: int) returns (result: PageResult)
    requires session.Valid()
    modifies session, session.snapshots
    ensures session.Valid()
    ensures var (after, found) := M.Get(old(session.View()), id, now);
            match found
            case None => result == Failed(StaleSnapshot) && session.View() == after
            case Some(i) =>
              i < |after.store| &&
              var s := after.store[i];
              if s.kind != M.EditablePages then result == Failed(SnapshotKindMismatch) && session.View() == after
              else if s.editableQuery == None then result == Failed(StaleSnapshot) && session.View() == after
              else if s.editableQuery.value.nextOffset != Some(offset) then
                result == Failed(ContinuationMismatch) && session.View() == after
              else
                var targets := s.editableQuery.value.elements;
                var window := Window(targets, offset, ClampLimit(limit));
                && result.Served?
                && result.page.elements == window[..EditableCount(window, |window|)]
                && session.View() == after.(store := after.store[i :=
                     s.(editableQuery := Some(M.EditableQuery(targets, result.page.nextOffset)))])
  {
    var snapshot := session.Get(id, now);
    if snapshot == null {
      return Failed(StaleSnapshot);
    }
    assert snapshot in session.snapshots;
    if snapshot.kind != M.EditablePages {
      return Failed(SnapshotKindMismatch);
    }
    if snapshot.editableQuery == None {
      return Failed(StaleSnapshot);
    }
    if snapshot.editableQuery.value.nextOffset != Some(offset) {
      return Failed(ContinuationMismatch);
    }
    ghost var before := session.View();
    ghost var i := M.Get(old(session.View()), id, now).1.value;
    var page := EditablePage(snapshot, offset, limit);
    result := Served(page);
    assert Views(session.snapshots) == before.store[i := snapshot.View()];
    assert forall k :: 0 <= k < |before.store| ==> Views(session.snapshots)[k].id == before.store[k].id;
  }

  /** The caller's loop: ask again at each returned offset until there is none. */
  method FollowInspect(snapshot: Snapshot, layout: PageLayout, limits: nat -> nat) returns (shown: seq<M.Element>,
      complete: bool)
    modifies snapshot`nextOffset
    ensures shown <= snapshot.elements
    ensures complete ==> shown == snapshot.elements && snapshot.nextOffset == None
    ensures !complete ==>
              exists step: nat :: PageAnswer(snapshot.elements, layout, |shown|, ClampLimit(limits(step))).Failed?
  {
    var elements := snapshot.elements;
    var step, next := 0, Some(0);
    shown := [];
    while next.Some?
      invariant snapshot.elements == elements
      invariant shown <= elements
      invariant next.Some? ==> next.value == |shown|
      invariant next == None ==> shown == elements && snapshot.nextOffset == None
      invariant step == 0 ==> shown == []
      decreases next.Some?, |elements| - |shown| + (if step == 0 then 1 else 0)
    {
      var limit := ClampLimit(limits(step));
      var result := SnapshotPage(snapshot, layout, next.value, limit);
      PagesKeepTheirPromises(elements, layout, |shown|, limit);
      if result.Failed? {
        return shown, false;
      }
      assert elements[|shown|..|shown| + |result.page.elements|] == result.page.elements;
      shown := shown + result.page.elements;
      next := result.page.nextOffset;
      step := step + 1;
    }
    complete := true;
  }
}
