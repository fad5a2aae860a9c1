// Network diagnostics as a state machine over values
// (packages/browser-core/src/cdp-helper.ts): a bounded log of requests, and
// the requests still in flight named by the sequence number of their record.

module NetworkModel {
  import opened Options
  import opened Sequences
  import Paging = SnapshotPaging

  const MAX_ENTRIES: nat := 200
  const MAX_PAGE_BYTES: nat := 48 * 1024
  /** `{"entries":`, `,"lastSequence":`, `,"totalEntries":`, `,"returnedEntries":`, `,"truncated":` and `}`. */
  const ENVELOPE_BYTES: nat := 76

  /** A frame id in a protocol message; the remembered main frame is never Missing. */
  datatype FrameField = Missing | Null | Frame(id: string)

  datatype Outcome = Pending | Success | HttpError | Redirect | Failed

  /** Only the fields that were present with a usable type; texts already sanitized. */
  datatype Response = Response(status: Option<int>, statusText: Option<string>, mimeType: Option<string>)

  datatype Request = Request(
    loaderId: Option<string>, httpMethod: string, url: string, resourceType: string, wallTime: int)

  /** What can change in an entry after it was logged. */
  datatype Progress = Progress(
    resourceType: string,
    outcome: Outcome,
    status: Option<int>,
    statusText: Option<string>,
    mimeType: Option<string>,
    failureReason: Option<string>,
    durationMs: Option<int>)

  datatype Record = Record(requestId: string, sequence: nat, startedAt: real, request: Request, progress: Progress)

  datatype NetworkView = NetworkView(records: seq<Record>, live: map<string, nat>, sequence: nat, mainFrame: FrameField)

  datatype Event =
    | RequestWillBeSent(requestId: string, frame: FrameField, timestamp: Option<real>, redirect: Option<Response>,
        request: Request)
    | ResponseReceived(requestId: string, response: Response, resourceType: string)
    | LoadingFinished(requestId: string, timestamp: Option<real>)
    | LoadingFailed(requestId: string, timestamp: Option<real>, reason: string)
    | MainFrameNavigated(frame: FrameField, loaderId: Option<string>)
    | FrameDetached(frame: FrameField)
    | MainFrameFound(frame: FrameField)
    | Reset(resetSequence: bool)
    | ScopeReset

  function Or(timestamp: Option<real>, otherwise: real): real {
    if timestamp.Some? then timestamp.value else otherwise
  }

  // ---- One entry ---------------------------------------------------------------

  function Started(request: Request): Progress {
    Progress(request.resourceType, Pending, None, None, None, None, None)
  }

  function OrElse<T>(preferred: Option<T>, otherwise: Option<T>): Option<T> {
    if preferred.Some? then preferred else otherwise
  }

  function WithResponse(p: Progress, response: Response): Progress {
    p.(status := OrElse(response.status, p.status),
       statusText := OrElse(response.statusText, p.statusText),
       mimeType := OrElse(response.mimeType, p.mimeType))
  }

  /** `Math.max(0, Math.round((ended - started) * 1000))` */
  function Elapsed(started: real, ended: real): (ms: int)
    ensures ms >= 0
    ensures ended >= started ==> -0.5 <= (ended - started) * 1000.0 - ms as real <= 0.5
    ensures ended < started ==> ms == 0
  {
    var rounded := ((ended - started) * 1000.0 + 0.5).Floor;
    if rounded < 0 then 0 else rounded
  }

  function Received(p: Progress, response: Response, resourceType: string): Progress {
    var answered := WithResponse(p, response);
    answered.(
      outcome := if answered.status.Some? && answered.status.value >= 400 then HttpError else p.outcome,
      resourceType := if p.resourceType == "other" then resourceType else p.resourceType)
  }

  function Redirected(p: Progress, response: Response, started: real, ended: real): Progress {
    WithResponse(p, response).(outcome := Redirect, durationMs := Some(Elapsed(started, ended)))
  }

  function Finished(p: Progress, started: real, ended: real): Progress {
    p.(outcome := if p.outcome == Pending then Success else p.outcome, durationMs := Some(Elapsed(started, ended)))
  }

  function FailedWith(p: Progress, reason: string, started: real, ended: real): Progress {
    p.(outcome := Failed, failureReason := Some(reason), durationMs := Some(Elapsed(started, ended)))
  }

  // ---- The log -----------------------------------------------------------------

  function Find(records: seq<Record>, sequence: nat): (found: Option<Record>)
    ensures found.Some? ==> found.value in records && found.value.sequence == sequence
    ensures found.None? ==> forall i :: 0 <= i < |records| ==> records[i].sequence != sequence
  {
    if records == [] then None
    else if records[|records| - 1].sequence == sequence then Some(records[|records| - 1])
    else Find(records[..|records| - 1], sequence)
  }

  /** The record of the request in flight under `requestId`. */
  function InFlight(v: NetworkView, requestId: string): Option<Record> {
    if requestId in v.live then Find(v.records, v.live[requestId]) else None
  }

  /** The record with this sequence number advances; no other does. */
  function Advance(records: seq<Record>, sequence: nat, progress: Progress): (advanced: seq<Record>)
    ensures |advanced| == |records|
    ensures forall i :: 0 <= i < |records| ==>
      advanced[i] == if records[i].sequence == sequence then records[i].(progress := progress) else records[i]
  {
    seq(|records|, i requires 0 <= i < |records| =>
      if records[i].sequence == sequence then records[i].(progress := progress) else records[i])
  }

  function Settle(v: NetworkView, requestId: string, sequence: nat, progress: Progress): NetworkView {
    v.(records := Advance(v.records, sequence, progress), live := v.live - {requestId})
  }

  /** The requests whose records are not among the dropped ones. */
  function Without(live: map<string, nat>, dropped: seq<Record>): map<string, nat> {
    map r | r in live && Find(dropped, live[r]).None? :: live[r]
  }

  /** Keeps the newest 200; whoever is dropped is no longer in flight. */
  function Append(v: NetworkView, record: Record): NetworkView {
    var all := v.records + [record];
    var excess := if |all| > MAX_ENTRIES then |all| - MAX_ENTRIES else 0;
    v.(records := all[excess..],
       live := Without(v.live, all[..excess]))
  }

  function Begin(v: NetworkView, e: Event): NetworkView
    requires e.RequestWillBeSent?
  {
    var n := v.sequence + 1;
    Append(v.(sequence := n, live := v.live[e.requestId := n]),
           Record(e.requestId, n, Or(e.timestamp, 0.0), e.request, Started(e.request)))
  }

  function HasLoader(loaderId: string): Record -> bool {
    (r: Record) => r.request.loaderId == Some(loaderId)
  }

  function Navigate(v: NetworkView, loaderId: Option<string>): NetworkView {
    if loaderId.None? || loaderId.value == "" then v.(records := [], live := map[])
    else
      var kept := Filter(HasLoader(loaderId.value), v.records);
      v.(records := kept, live := map r | r in v.live && Find(kept, v.live[r]).Some? :: v.live[r])
  }

  function Step(v: NetworkView, e: Event): NetworkView {
    match e
    case RequestWillBeSent(requestId, frame, timestamp, redirect, _) =>
      if requestId == "" || frame != v.mainFrame then v
      else
        var previous := InFlight(v, requestId);
        var settled :=
          if previous.Some? && redirect.Some? then
            Settle(v, requestId, previous.value.sequence,
                   Redirected(previous.value.progress, redirect.value, previous.value.startedAt, Or(timestamp, 0.0)))
          else v;
        Begin(settled, e)
    case ResponseReceived(requestId, response, resourceType) =>
      var entry := InFlight(v, requestId);
      if requestId == "" || entry.None? then v
      else v.(records := Advance(v.records, entry.value.sequence,
          Received(entry.value.progress, response, resourceType)))
    case LoadingFinished(requestId, timestamp) =>
      var entry := InFlight(v, requestId);
      if requestId == "" || entry.None? then v
      else
        var started := entry.value.startedAt;
        Settle(v, requestId, entry.value.sequence,
               Finished(entry.value.progress, started, Or(timestamp, started)))
    case LoadingFailed(requestId, timestamp, reason) =>
      var entry := InFlight(v, requestId);
      if requestId == "" || entry.None? then v
      else
        var started := entry.value.startedAt;
        Settle(v, requestId, entry.value.sequence,
               FailedWith(entry.value.progress, reason, started, Or(timestamp, started)))
    case MainFrameNavigated(frame, loaderId) =>
      Navigate(v, loaderId).(mainFrame := if frame.Frame? then frame else Null)
    case FrameDetached(frame) =>
      if frame.Frame? && frame == v.mainFrame then v.(records := [], live := map[], mainFrame := Null) else v
    case MainFrameFound(frame) =>
      if v.mainFrame == Null && frame.Frame? then v.(mainFrame := frame) else v
    case Reset(resetSequence) =>
      v.(records := [], live := map[], sequence := if resetSequence then 0 else v.sequence)
    case ScopeReset =>
      v.(live := map[], mainFrame := Null)
  }

  function Run(v: NetworkView, events: seq<Event>): NetworkView {
    if events == [] then v else Step(Run(v, events[..|events| - 1]), events[|events| - 1])
  }

  // ---- What holds after every event ----------------------------------------------

  ghost predicate IsLive(v: NetworkView, record: Record) {
    record.requestId in v.live && v.live[record.requestId] == record.sequence
  }

  ghost predicate Increasing(records: seq<Record>) {
    forall i, j :: 0 <= i < j < |records| ==> records[i].sequence < records[j].sequence
  }

  /** What an entry may look like, given whether its request is still in flight. */
  ghost predicate Coherent(p: Progress, live: bool) {
    && (live ==> p.outcome in {Pending, HttpError} && p.durationMs.None?)
    && (p.outcome == Pending ==> p.durationMs.None?)
    && (p.outcome in {Success, Redirect, Failed} ==> p.durationMs.Some?)
    && (p.outcome in {Pending, Success} && p.status.Some? ==> p.status.value < 400)
    && (p.failureReason.Some? <==> p.outcome == Failed)
    && (p.durationMs.Some? ==> p.durationMs.value >= 0)
  }

  ghost predicate RecordOk(v: NetworkView, record: Record) {
    && record.requestId != ""
    && 1 <= record.sequence <= v.sequence
    && Coherent(record.progress, IsLive(v, record))
    && (record.requestId in v.live ==> record.sequence <= v.live[record.requestId])
  }

  ghost predicate LiveOk(v: NetworkView, requestId: string)
    requires requestId in v.live
  {
    exists i :: 0 <= i < |v.records| && v.records[i].sequence == v.live[requestId]
        && v.records[i].requestId == requestId
  }

  ghost predicate Valid(v: NetworkView) {
    && |v.records| <= MAX_ENTRIES
    && Increasing(v.records)
    && (forall i :: 0 <= i < |v.records| ==> RecordOk(v, v.records[i]))
    && (forall r :: r in v.live ==> LiveOk(v, r))
    && v.mainFrame != Missing
  }

  lemma FindInIncreasing(records: seq<Record>, i: nat)
    requires Increasing(records) && i < |records|
    ensures Find(records, records[i].sequence) == Some(records[i])
  {
    var found := Find(records, records[i].sequence);
    if found.Some? {
      var j :| 0 <= j < |records| && records[j] == found.value;
    }
  }

  /** A request in flight is found, under its own id, still open. */
  lemma InFlightIsOpen(v: NetworkView, requestId: string)
    requires Valid(v) && requestId in v.live
    ensures var entry := InFlight(v, requestId);
            && entry.Some? && entry.value in v.records && IsLive(v, entry.value)
            && entry.value.requestId == requestId && entry.value.sequence == v.live[requestId]
            && entry.value.progress.outcome in {Pending, HttpError} && entry.value.progress.durationMs.None?
  {
    assert LiveOk(v, requestId);
    var i :| 0 <= i < |v.records| && v.records[i].sequence == v.live[requestId] && v.records[i].requestId == requestId;
    FindInIncreasing(v.records, i);
    assert RecordOk(v, v.records[i]);
  }

  lemma AdvanceKeepsValid(v: NetworkView, requestId: string, progress: Progress)
    requires Valid(v) && requestId in v.live
    requires Coherent(progress, true)
    ensures Valid(v.(records := Advance(v.records, v.live[requestId], progress)))
  {
    var after := v.(records := Advance(v.records, v.live[requestId], progress));
    forall i | 0 <= i < |after.records| ensures RecordOk(after, after.records[i]) {
      assert RecordOk(v, v.records[i]);
    }
    forall r | r in after.live ensures LiveOk(after, r) {
      assert LiveOk(v, r);
      var i :| 0 <= i < |v.records| && v.records[i].sequence == v.live[r] && v.records[i].requestId == r;
      assert after.records[i].sequence == v.live[r];
    }
  }

  lemma SettleKeepsValid(v: NetworkView, requestId: string, progress: Progress)
    requires Valid(v) && requestId in v.live
    requires Coherent(progress, false)
    ensures Valid(Settle(v, requestId, v.live[requestId], progress))
  {
    var after := Settle(v, requestId, v.live[requestId], progress);
    InFlightIsOpen(v, requestId);
    forall i | 0 <= i < |after.records| ensures RecordOk(after, after.records[i]) {
      assert RecordOk(v, v.records[i]);
      if v.records[i].sequence == v.live[requestId] {
        FindInIncreasing(v.records, i);
      }
    }
    forall r | r in after.live ensures LiveOk(after, r) {
      assert LiveOk(v, r);
      var i :| 0 <= i < |v.records| && v.records[i].sequence == v.live[r] && v.records[i].requestId == r;
      assert after.records[i].sequence == v.live[r];
    }
  }

  /** Dropping the oldest records drops exactly the requests in flight that they stand for. */
  lemma AppendKeepsLive(v: NetworkView, record: Record, r: string, i: nat)
    requires r in Append(v, record).live
    requires i <= |v.records| && (v.records + [record])[i].sequence == v.live[r]
    requires (v.records + [record])[i].requestId == r
    ensures LiveOk(Append(v, record), r)
  {
    var after, all := Append(v, record), v.records + [record];
    var excess := |all| - |after.records|;
    assert forall j :: 0 <= j < excess ==> all[..excess][j] == all[j];
    assert excess <= i;
    assert after.records[i - excess] == all[i];
  }

  lemma BeginKeepsRecord(v: NetworkView, e: Event, record: Record)
    requires Valid(v) && e.RequestWillBeSent? && e.requestId != ""
    requires record in Begin(v, e).records
    ensures RecordOk(Begin(v, e), record)
  {
    if record in v.records {
      assert RecordOk(v, record);
    }
  }

  lemma NewestIsLast(v: NetworkView, record: Record)
    requires Valid(v) && record.sequence == v.sequence + 1
    ensures Increasing(v.records + [record])
  {
    forall i | 0 <= i < |v.records| ensures v.records[i].sequence < record.sequence {
      assert RecordOk(v, v.records[i]);
    }
  }

  lemma BeginKeepsLive(v: NetworkView, e: Event, r: string)
    requires e.RequestWillBeSent? && r in Begin(v, e).live
    requires r in v.live ==> LiveOk(v, r)
    ensures LiveOk(Begin(v, e), r)
  {
    var n := v.sequence + 1;
    var record := Record(e.requestId, n, Or(e.timestamp, 0.0), e.request, Started(e.request));
    var begun := v.(sequence := n, live := v.live[e.requestId := n]);
    if r == e.requestId {
      AppendKeepsLive(begun, record, r, |v.records|);
    } else {
      var i :| 0 <= i < |v.records| && v.records[i].sequence == v.live[r] && v.records[i].requestId == r;
      AppendKeepsLive(begun, record, r, i);
    }
  }

  lemma BeginKeepsValid(v: NetworkView, e: Event)
    requires Valid(v) && e.RequestWillBeSent? && e.requestId != ""
    ensures Valid(Begin(v, e))
  {
    var after := Begin(v, e);
    NewestIsLast(v, Record(e.requestId, v.sequence + 1, Or(e.timestamp, 0.0), e.request, Started(e.request)));
    forall i | 0 <= i < |after.records| ensures RecordOk(after, after.records[i]) {
      BeginKeepsRecord(v, e, after.records[i]);
    }
    forall r | r in after.live ensures LiveOk(after, r) {
      BeginKeepsLive(v, e, r);
    }
  }

  lemma NavigateKeepsValid(v: NetworkView, loaderId: Option<string>)
    requires Valid(v)
    ensures Valid(Navigate(v, loaderId))
  {
    var after := Navigate(v, loaderId);
    if loaderId.Some? && loaderId.value != "" {
      FilterMembers(HasLoader(loaderId.value), v.records);
      FilterKeepsIncreasing(HasLoader(loaderId.value), v.records);
      forall i | 0 <= i < |after.records| ensures RecordOk(after, after.records[i]) {
        assert after.records[i] in v.records;
        FindInIncreasing(after.records, i);
        assert RecordOk(v, after.records[i]);
      }
      forall r | r in after.live ensures LiveOk(after, r) {
        InFlightIsOpen(v, r);
        var record := Find(after.records, v.live[r]).value;
        assert record in v.records;
        var i :| 0 <= i < |v.records| && v.records[i] == record;
        FindInIncreasing(v.records, i);
      }
    }
  }

  /** A request in flight survives a navigation exactly when its own record does. */
  lemma NavigationKeepsTheLoadersRequests(v: NetworkView, loaderId: string, requestId: string)
    requires Valid(v) && requestId in v.live
    ensures InFlight(v, requestId).Some?
    ensures Find(Filter(HasLoader(loaderId), v.records), v.live[requestId]).Some?
      <==> InFlight(v, requestId).value.request.loaderId == Some(loaderId)
  {
    InFlightIsOpen(v, requestId);
    var entry := InFlight(v, requestId).value;
    FilterMembers(HasLoader(loaderId), v.records);
    var found := Find(Filter(HasLoader(loaderId), v.records), v.live[requestId]);
    if found.Some? {
      var i :| 0 <= i < |v.records| && v.records[i] == found.value;
      FindInIncreasing(v.records, i);
    }
  }

  lemma {:induction false} FilterKeepsIncreasing(p: Record -> bool, records: seq<Record>)
    requires Increasing(records)
    ensures Increasing(Filter(p, records))
  {
    if records != [] {
      var init := records[..|records| - 1];
      FilterKeepsIncreasing(p, init);
      FilterMembers(p, init);
      forall i | 0 <= i < |Filter(p, init)| ensures Filter(p, init)[i].sequence < records[|records| - 1].sequence {
        assert Filter(p, init)[i] in init;
      }
    }
  }

  lemma RequestKeepsValid(v: NetworkView, e: Event)
    requires Valid(v) && e.RequestWillBeSent?
    ensures Valid(Step(v, e))
  {
    if e.requestId != "" && e.frame == v.mainFrame {
      if e.requestId in v.live && e.redirect.Some? {
        InFlightIsOpen(v, e.requestId);
        var entry := InFlight(v, e.requestId).value;
        var progress := Redirected(entry.progress, e.redirect.value, entry.startedAt, Or(e.timestamp, 0.0));
        assert RecordOk(v, entry);
        SettleKeepsValid(v, e.requestId, progress);
        BeginKeepsValid(Settle(v, e.requestId, entry.sequence, progress), e);
      } else {
        BeginKeepsValid(v, e);
      }
    }
  }

  lemma ResponseKeepsValid(v: NetworkView, e: Event)
    requires Valid(v) && e.ResponseReceived?
    ensures Valid(Step(v, e))
  {
    if e.requestId in v.live {
      InFlightIsOpen(v, e.requestId);
      var entry := InFlight(v, e.requestId).value;
      assert RecordOk(v, entry);
      AdvanceKeepsValid(v, e.requestId, Received(entry.progress, e.response, e.resourceType));
    }
  }

  lemma EndKeepsValid(v: NetworkView, e: Event)
    requires Valid(v) && (e.LoadingFinished? || e.LoadingFailed?)
    ensures Valid(Step(v, e))
  {
    if e.requestId in v.live {
      InFlightIsOpen(v, e.requestId);
      var entry := InFlight(v, e.requestId).value;
      assert RecordOk(v, entry);
      var endedAt := Or(e.timestamp, entry.startedAt);
      SettleKeepsValid(v, e.requestId,
        if e.LoadingFinished? then Finished(entry.progress, entry.startedAt, endedAt)
        else FailedWith(entry.progress, e.reason, entry.startedAt, endedAt));
    }
  }

  lemma ScopeResetKeepsValid(v: NetworkView)
    requires Valid(v)
    ensures Valid(Step(v, ScopeReset))
  {
    forall i | 0 <= i < |v.records| ensures RecordOk(Step(v, ScopeReset), v.records[i]) {
      assert RecordOk(v, v.records[i]);
    }
  }

  lemma MainFrameFoundKeepsValid(v: NetworkView, frame: FrameField)
    requires Valid(v)
    ensures Valid(Step(v, MainFrameFound(frame)))
  {
    forall i | 0 <= i < |v.records| ensures RecordOk(Step(v, MainFrameFound(frame)), v.records[i]) {
      assert RecordOk(v, v.records[i]);
    }
  }

  lemma StepKeepsValid(v: NetworkView, e: Event)
    requires Valid(v)
    ensures Valid(Step(v, e))
  {
    match e
    case RequestWillBeSent(_, _, _, _, _) => RequestKeepsValid(v, e);
    case ResponseReceived(_, _, _) => ResponseKeepsValid(v, e);
    case LoadingFinished(_, _) => EndKeepsValid(v, e);
    case LoadingFailed(_, _, _) => EndKeepsValid(v, e);
    case MainFrameNavigated(_, loaderId) => NavigateKeepsValid(v, loaderId);
    case ScopeReset => ScopeResetKeepsValid(v);
    case MainFrameFound(frame) => MainFrameFoundKeepsValid(v, frame);
    case FrameDetached(_) =>
    case Reset(_) =>
  }

  lemma {:induction false} RunKeepsValid(v: NetworkView, events: seq<Event>)
    requires Valid(v)
    ensures Valid(Run(v, events))
  {
    if events != [] {
      RunKeepsValid(v, events[..|events| - 1]);
      StepKeepsValid(Run(v, events[..|events| - 1]), events[|events| - 1]);
    }
  }

  // ---- What an entry keeps once it has left the live map --------------------------

  ghost predicate SameRequest(a: Record, b: Record) {
    a.requestId == b.requestId && a.sequence == b.sequence && a.startedAt == b.startedAt && a.request == b.request
  }

  /** `record` of the later state is new, or was there before and changed only if it was live. */
  ghost predicate Explained(v: NetworkView, after: NetworkView, record: Record) {
    || record.sequence > v.sequence
    || exists earlier :: earlier in v.records && SameRequest(earlier, record)
                     && (IsLive(v, earlier) || (earlier == record && !IsLive(after, record)))
  }

  lemma AdvanceExplains(v: NetworkView, requestId: string, progress: Progress, record: Record)
    requires Valid(v) && requestId in v.live
    requires record in Advance(v.records, v.live[requestId], progress)
    ensures exists earlier :: earlier in v.records && SameRequest(earlier, record)
                          && (earlier == record || (IsLive(v, earlier) && earlier.requestId == requestId))
  {
    InFlightIsOpen(v, requestId);
    var i :| 0 <= i < |v.records| && Advance(v.records, v.live[requestId], progress)[i] == record;
    assert v.records[i] in v.records;
    if v.records[i].sequence == v.live[requestId] {
      FindInIncreasing(v.records, i);
    }
  }

  lemma BeginExplains(v: NetworkView, e: Event, record: Record)
    requires Valid(v) && e.RequestWillBeSent? && record in Begin(v, e).records && record.sequence <= v.sequence
    ensures record in v.records
    ensures !IsLive(v, record) ==> !IsLive(Begin(v, e), record)
  {
  }

  lemma RedirectExplains(v: NetworkView, e: Event, record: Record)
    requires Valid(v) && e.RequestWillBeSent? && e.requestId in v.live && e.redirect.Some?
    requires record.sequence <= v.sequence
    requires var entry := InFlight(v, e.requestId);
      && entry.Some?
      && record in Begin(Settle(v, e.requestId, entry.value.sequence,
           Redirected(entry.value.progress, e.redirect.value, entry.value.startedAt, Or(e.timestamp, 0.0))), e).records
    ensures var entry := InFlight(v, e.requestId).value;
      Explained(v, Begin(Settle(v, e.requestId, entry.sequence,
        Redirected(entry.progress, e.redirect.value, entry.startedAt, Or(e.timestamp, 0.0))), e), record)
  {
    InFlightIsOpen(v, e.requestId);
    var entry := InFlight(v, e.requestId).value;
    var progress := Redirected(entry.progress, e.redirect.value, entry.startedAt, Or(e.timestamp, 0.0));
    assert RecordOk(v, entry);
    SettleKeepsValid(v, e.requestId, progress);
    BeginExplains(Settle(v, e.requestId, entry.sequence, progress), e, record);
    AdvanceExplains(v, e.requestId, progress, record);
  }

  lemma RequestExplains(v: NetworkView, e: Event, record: Record)
    requires Valid(v) && e.RequestWillBeSent? && record in Step(v, e).records
    ensures Explained(v, Step(v, e), record)
  {
    if e.requestId != "" && e.frame == v.mainFrame && record.sequence <= v.sequence {
      if e.requestId in v.live && e.redirect.Some? {
        InFlightIsOpen(v, e.requestId);
        RedirectExplains(v, e, record);
      } else {
        BeginExplains(v, e, record);
      }
    }
  }

  lemma EndExplains(v: NetworkView, e: Event, record: Record)
    requires Valid(v) && (e.LoadingFinished? || e.LoadingFailed?) && record in Step(v, e).records
    ensures Explained(v, Step(v, e), record)
  {
    if e.requestId in v.live {
      InFlightIsOpen(v, e.requestId);
      var entry := InFlight(v, e.requestId).value;
      var endedAt := Or(e.timestamp, entry.startedAt);
      AdvanceExplains(v, e.requestId,
        if e.LoadingFinished? then Finished(entry.progress, entry.startedAt, endedAt)
        else FailedWith(entry.progress, e.reason, entry.startedAt, endedAt), record);
    }
  }

  lemma ResponseExplains(v: NetworkView, e: Event, record: Record)
    requires Valid(v) && e.ResponseReceived? && record in Step(v, e).records
    ensures Explained(v, Step(v, e), record)
  {
    if e.requestId in v.live {
      InFlightIsOpen(v, e.requestId);
      AdvanceExplains(v, e.requestId, Received(InFlight(v, e.requestId).value.progress, e.response, e.resourceType),
          record);
    }
  }

  lemma StepChangesOnlyLiveEntries(v: NetworkView, e: Event, record: Record)
    requires Valid(v) && e != Reset(true) && record in Step(v, e).records
    ensures Explained(v, Step(v, e), record)
  {
    match e
    case RequestWillBeSent(_, _, _, _, _) => RequestExplains(v, e, record);
    case ResponseReceived(_, _, _) => ResponseExplains(v, e, record);
    case LoadingFinished(_, _) => EndExplains(v, e, record);
    case LoadingFailed(_, _, _) => EndExplains(v, e, record);
    case MainFrameNavigated(_, loaderId) =>
      if loaderId.Some? {
        FilterMembers(HasLoader(loaderId.value), v.records);
      }
    case FrameDetached(_) =>
    case MainFrameFound(_) =>
    case Reset(_) =>
    case ScopeReset =>
  }

  lemma {:induction false} SequenceNeverDecreases(v: NetworkView, events: seq<Event>)
    requires forall i :: 0 <= i < |events| ==> events[i] != Reset(true)
    ensures v.sequence <= Run(v, events).sequence
  {
    if events != [] {
      SequenceNeverDecreases(v, events[..|events| - 1]);
    }
  }

  /**
   * Over any run that does not restart the numbering: whatever carries an old sequence number is still
   * that request, and if it had left the live map it is unchanged and never live again.
   */
  lemma {:induction false} SettledEntriesNeverChange(v: NetworkView, events: seq<Event>, earlier: Record,
      record: Record)
    requires Valid(v) && earlier in v.records
    requires forall i :: 0 <= i < |events| ==> events[i] != Reset(true)
    requires record in Run(v, events).records && record.sequence == earlier.sequence
    ensures SameRequest(earlier, record)
    ensures !IsLive(v, earlier) ==> record == earlier && !IsLive(Run(v, events), record)
  {
    if events == [] {
      var i :| 0 <= i < |v.records| && v.records[i] == earlier;
      FindInIncreasing(v.records, i);
      var j :| 0 <= j < |v.records| && v.records[j] == record;
      FindInIncreasing(v.records, j);
    } else {
      var n := |events| - 1;
      var before := Run(v, events[..n]);
      RunKeepsValid(v, events[..n]);
      SequenceNeverDecreases(v, events[..n]);
      assert RecordOk(v, earlier);
      StepChangesOnlyLiveEntries(before, events[n], record);
      var middle :| middle in before.records && SameRequest(middle, record)
                    && (IsLive(before, middle) || (middle == record && !IsLive(Run(v, events), record)));
      SettledEntriesNeverChange(v, events[..n], earlier, middle);
    }
  }

  // ---- What a live request's own events record ------------------------------------------

  /** The fields a response carries replace those of the entry. */
  ghost predicate Answered(before: Progress, after: Progress, response: Response) {
    && after.status == (if response.status.Some? then response.status else before.status)
    && after.statusText == (if response.statusText.Some? then response.statusText else before.statusText)
    && after.mimeType == (if response.mimeType.Some? then response.mimeType else before.mimeType)
    && after.failureReason == before.failureReason
  }

  /** No record but the one with this number differs, and nothing else does. */
  ghost predicate OnlyRecordChanges(v: NetworkView, after: NetworkView, sequence: nat) {
    && after.sequence == v.sequence && after.mainFrame == v.mainFrame && |after.records| == |v.records|
    && forall i :: 0 <= i < |v.records| && v.records[i].sequence != sequence ==> after.records[i] == v.records[i]
  }

  /** Events of a request that is not in flight change nothing. */
  lemma UnknownRequestsAreIgnored(v: NetworkView, e: Event)
    requires e.ResponseReceived? || e.LoadingFinished? || e.LoadingFailed?
    requires e.requestId == "" || e.requestId !in v.live
    ensures Step(v, e) == v
  {
  }

  /**
   * A response leaves the request in flight and marks it as an error exactly when its status says so, once
   * and for all.
   */
  lemma ResponsesAreRecorded(v: NetworkView, requestId: string, response: Response, resourceType: string)
    requires Valid(v) && requestId in v.live
    ensures var after := Step(v, ResponseReceived(requestId, response, resourceType));
      var was, now := InFlight(v, requestId), InFlight(after, requestId);
      && was.Some? && now.Some? && SameRequest(was.value, now.value)
      && OnlyRecordChanges(v, after, v.live[requestId]) && after.live == v.live
      && Answered(was.value.progress, now.value.progress, response)
      && now.value.progress.durationMs == was.value.progress.durationMs
      && now.value.progress.resourceType ==
           (if was.value.progress.resourceType == "other" then resourceType else was.value.progress.resourceType)
      && (now.value.progress.outcome in {was.value.progress.outcome, HttpError})
      && (now.value.progress.outcome == HttpError <==>
            was.value.progress.outcome == HttpError
            || (now.value.progress.status.Some? && now.value.progress.status.value >= 400))
  {
    InFlightIsOpen(v, requestId);
    var was := InFlight(v, requestId).value;
    assert RecordOk(v, was);
    AdvancedIsFound(v, was, Received(was.progress, response, resourceType));
  }

  /** Advancing a record that is in the log is seen by looking it up. */
  lemma AdvancedIsFound(v: NetworkView, record: Record, progress: Progress)
    requires Increasing(v.records) && record in v.records
    ensures Find(Advance(v.records, record.sequence, progress), record.sequence) == Some(record.(progress := progress))
  {
    var i :| 0 <= i < |v.records| && v.records[i] == record;
    var advanced := Advance(v.records, record.sequence, progress);
    FindInIncreasing(advanced, i);
  }

  /** A finished request leaves with a duration: a success unless a response already made it an error. */
  lemma FinishesAreRecorded(v: NetworkView, requestId: string, timestamp: Option<real>)
    requires Valid(v) && requestId in v.live
    ensures var after := Step(v, LoadingFinished(requestId, timestamp));
      var was, end := Find(v.records, v.live[requestId]), Find(after.records, v.live[requestId]);
      && was.Some? && end.Some? && SameRequest(was.value, end.value)
      && end.value.progress == was.value.progress.(
           outcome := if was.value.progress.outcome == HttpError then HttpError else Success,
           durationMs := Some(Elapsed(was.value.startedAt, if timestamp.Some? then timestamp.value
               else was.value.startedAt)))
      && OnlyRecordChanges(v, after, v.live[requestId]) && after.live == v.live - {requestId}
  {
    InFlightIsOpen(v, requestId);
    var was := InFlight(v, requestId).value;
    assert RecordOk(v, was);
    AdvancedIsFound(v, was, Finished(was.progress, was.startedAt, Or(timestamp, was.startedAt)));
  }

  /** A failed request leaves with its reason and a duration, whatever its response said. */
  lemma FailuresAreRecorded(v: NetworkView, requestId: string, timestamp: Option<real>, reason: string)
    requires Valid(v) && requestId in v.live
    ensures var after := Step(v, LoadingFailed(requestId, timestamp, reason));
      var was, end := Find(v.records, v.live[requestId]), Find(after.records, v.live[requestId]);
      && was.Some? && end.Some? && SameRequest(was.value, end.value)
      && end.value.progress == was.value.progress.(
           outcome := Failed, failureReason := Some(reason),
           durationMs := Some(Elapsed(was.value.startedAt, if timestamp.Some? then timestamp.value
               else was.value.startedAt)))
      && OnlyRecordChanges(v, after, v.live[requestId]) && after.live == v.live - {requestId}
  {
    InFlightIsOpen(v, requestId);
    var was := InFlight(v, requestId).value;
    assert RecordOk(v, was);
    AdvancedIsFound(v, was, FailedWith(was.progress, reason, was.startedAt, Or(timestamp, was.startedAt)));
  }

  // ---- Nothing but the oldest entries is lost --------------------------------------

  predicate IsTraffic(e: Event) {
    e.RequestWillBeSent? || e.ResponseReceived? || e.LoadingFinished? || e.LoadingFailed? || e.MainFrameFound?
  }

  /** The log holds the last 200 requests begun after number `base`, without a gap. */
  ghost predicate IsWindow(v: NetworkView, base: nat) {
    && base <= v.sequence
    && |v.records| == (if v.sequence - base < MAX_ENTRIES then v.sequence - base else MAX_ENTRIES)
    && forall i :: 0 <= i < |v.records| ==> v.records[i].sequence == v.sequence - |v.records| + 1 + i
  }

  lemma BeginKeepsWindow(v: NetworkView, e: Event, base: nat)
    requires IsWindow(v, base) && e.RequestWillBeSent?
    ensures IsWindow(Begin(v, e), base)
  {
    var after := Begin(v, e);
    var all := v.records + [Record(e.requestId, v.sequence + 1, Or(e.timestamp, 0.0), e.request, Started(e.request))];
    var excess := |all| - |after.records|;
    forall i | 0 <= i < |after.records| ensures after.records[i].sequence == after.sequence - |after.records| + 1 + i {
      assert after.records[i] == all[excess + i];
    }
  }

  lemma TrafficKeepsWindow(v: NetworkView, e: Event, base: nat)
    requires IsWindow(v, base) && IsTraffic(e)
    ensures IsWindow(Step(v, e), base)
  {
    if e.RequestWillBeSent? && e.requestId != "" && e.frame == v.mainFrame {
      var previous := InFlight(v, e.requestId);
      if previous.Some? && e.redirect.Some? {
        BeginKeepsWindow(Settle(v, e.requestId, previous.value.sequence,
          Redirected(previous.value.progress, e.redirect.value, previous.value.startedAt, Or(e.timestamp, 0.0))),
        e, base);
      } else {
        BeginKeepsWindow(v, e, base);
      }
    }
  }

  lemma {:induction false} TrafficKeepsTheLastRequests(v: NetworkView, events: seq<Event>)
    requires v.records == []
    requires forall i :: 0 <= i < |events| ==> IsTraffic(events[i])
    ensures IsWindow(Run(v, events), v.sequence)
  {
    if events != [] {
      var n := |events| - 1;
      TrafficKeepsTheLastRequests(v, events[..n]);
      TrafficKeepsWindow(Run(v, events[..n]), events[n], v.sequence);
    }
  }

  // ---- Queries --------------------------------------------------------------------

  datatype StatusFilter = IsPending | IsFailed | IsSuccess | StatusClass(hundreds: int)

  datatype Query = Query(
    limit: Option<int>,
    status: set<StatusFilter>,
    resourceTypes: set<string>,
    filter: string,
    afterSequence: Option<int>)

  /** What a caller sees: no request id, loader id or start time. */
  datatype PublicEntry = PublicEntry(sequence: nat, httpMethod: string, url: string, wallTime: int, progress: Progress)

  datatype Page = Page(entries: seq<PublicEntry>, lastSequence: nat, totalEntries: nat, returnedEntries: nat,
      truncated: bool)

  function Public(record: Record): PublicEntry {
    PublicEntry(record.sequence, record.request.httpMethod, record.request.url, record.request.wallTime,
        record.progress)
  }

  function PublicAll(records: seq<Record>): seq<PublicEntry> {
    seq(|records|, i requires 0 <= i < |records| => Public(records[i]))
  }

  predicate StatusMatches(p: Progress, filters: set<StatusFilter>) {
    || filters == {}
    || (IsPending in filters && p.outcome == Pending)
    || (IsFailed in filters && p.outcome == Failed)
    || (IsSuccess in filters && p.outcome == Success)
    || (p.status.Some? && StatusClass(p.status.value / 100) in filters)
  }

  predicate Includes(text: string, part: string) {
    part <= text || (text != [] && Includes(text[1..], part))
  }

  function AfterSequence(q: Query): nat {
    if q.afterSequence.Some? && q.afterSequence.value > 0 then q.afterSequence.value else 0
  }

  function Limit(q: Query): (limit: nat)
    ensures 1 <= limit <= MAX_ENTRIES
  {
    var requested := if q.limit.Some? then q.limit.value else 100;
    if requested < 1 then 1 else if requested > MAX_ENTRIES then MAX_ENTRIES else requested
  }

  function Matches(q: Query): Record -> bool {
    (r: Record) =>
      && r.sequence > AfterSequence(q)
      && StatusMatches(r.progress, q.status)
      && (q.resourceTypes == {} || r.progress.resourceType in q.resourceTypes)
      && Includes(r.request.url, q.filter)
  }

  function SumBytes(size: PublicEntry -> nat, entries: seq<PublicEntry>): nat {
    if entries == [] then 0 else size(entries[0]) + SumBytes(size, entries[1..])
  }

  function PageBytes(size: PublicEntry -> nat, page: Page): nat {
    ENVELOPE_BYTES + 2 + SumBytes(size, page.entries) + (if page.entries == [] then 0 else |page.entries| - 1)
    + Paging.Digits(page.lastSequence) + Paging.Digits(page.totalEntries) + Paging.Digits(page.returnedEntries)
    + (if page.truncated then 4 else 5)
  }

  /** The page that shows the newest `count` of the matching records. */
  function NewestPage(matching: seq<Record>, count: nat, lastSequence: nat): Page
    requires count <= |matching|
  {
    Page(PublicAll(matching[|matching| - count..]), lastSequence, |matching|, count, count < |matching|)
  }

  lemma OneMoreEntry(matching: seq<Record>, count: nat, lastSequence: nat)
    requires count < |matching|
    ensures var newest := Public(matching[|matching| - count - 1]);
      NewestPage(matching, count + 1, lastSequence).entries ==
          [newest] + NewestPage(matching, count, lastSequence).entries
  {
  }

  predicate NewestFit(size: PublicEntry -> nat, matching: seq<Record>, count: nat, lastSequence: nat)
    requires count <= |matching|
  {
    PageBytes(size, NewestPage(matching, count, lastSequence)) <= MAX_PAGE_BYTES
  }

  /** Showing more entries never takes fewer bytes, so the first page that does not fit settles the matter. */
  lemma {:induction false} LongerPagesAreLarger(size: PublicEntry -> nat, matching: seq<Record>, m: nat, n: nat,
      lastSequence: nat)
    requires m <= n <= |matching|
    ensures PageBytes(size, NewestPage(matching, m, lastSequence)) <=
              PageBytes(size, NewestPage(matching, n, lastSequence))
    decreases n - m
  {
    if m < n {
      LongerPagesAreLarger(size, matching, m + 1, n, lastSequence);
      var shorter, longer := NewestPage(matching, m, lastSequence), NewestPage(matching, m + 1, lastSequence);
      assert longer.entries[1..] == shorter.entries;
      Paging.DigitsMonotone(m, m + 1);
    }
  }

  /** As many of the newest as the bound allows and the bytes permit. */
  ghost predicate Best(size: PublicEntry -> nat, matching: seq<Record>, bound: nat, lastSequence: nat, count: nat)
    requires bound <= |matching|
  {
    && count <= bound
    && (count > 0 ==> NewestFit(size, matching, count, lastSequence))
    && forall m :: count < m <= bound ==> !NewestFit(size, matching, m, lastSequence)
  }

  lemma BestWhenTheNextDoesNotFit(size: PublicEntry -> nat, matching: seq<Record>, bound: nat, lastSequence: nat,
      count: nat)
    requires count < bound <= |matching|
    requires count > 0 ==> NewestFit(size, matching, count, lastSequence)
    requires !NewestFit(size, matching, count + 1, lastSequence)
    ensures Best(size, matching, bound, lastSequence, count)
  {
    forall m | count < m <= bound ensures !NewestFit(size, matching, m, lastSequence) {
      LongerPagesAreLarger(size, matching, count + 1, m, lastSequence);
    }
  }

  /**
   * The answer to a query: the newest matching entries in order, as many as the limit and the byte budget
   * allow, and marked as truncated exactly when something that matches is not shown.
   */
  ghost predicate Answers(size: PublicEntry -> nat, v: NetworkView, q: Query, page: Page) {
    var matching := Filter(Matches(q), v.records);
    var bound := if |matching| < Limit(q) then |matching| else Limit(q);
    && page.returnedEntries <= |matching|
    && page == NewestPage(matching, page.returnedEntries, v.sequence)
    && Best(size, matching, bound, v.sequence, page.returnedEntries)
  }

  /**
   * Polling with the last sequence number loses nothing: a page not marked as truncated shows every
   * matching request that began after the polled number and is still in the log, and only those.
   */
  lemma UntruncatedPagesMissNothing(size: PublicEntry -> nat, v: NetworkView, q: Query, page: Page)
    requires Answers(size, v, q, page)
    ensures forall e :: e in page.entries ==> exists r :: r in v.records && Matches(q)(r) && e == Public(r)
    ensures !page.truncated ==> forall r :: r in v.records && Matches(q)(r) ==> Public(r) in page.entries
    ensures page.truncated <==> page.returnedEntries < page.totalEntries
  {
    var matching := Filter(Matches(q), v.records);
    FilterMembers(Matches(q), v.records);
    NewestAreMatching(matching, page.returnedEntries, v.sequence);
  }

  lemma NewestAreMatching(matching: seq<Record>, count: nat, lastSequence: nat)
    requires count <= |matching|
    ensures forall e :: e in NewestPage(matching, count, lastSequence).entries ==>
              exists r :: r in matching && e == Public(r)
    ensures count == |matching| ==> forall r :: r in matching ==>
              Public(r) in NewestPage(matching, count, lastSequence).entries
  {
    var shown, entries := matching[|matching| - count..], NewestPage(matching, count, lastSequence).entries;
    forall e | e in entries ensures exists r :: r in matching && e == Public(r) {
      var i :| 0 <= i < |entries| && entries[i] == e;
      assert shown[i] in matching;
    }
    if count == |matching| {
      forall r | r in matching ensures Public(r) in entries {
        var i :| 0 <= i < |matching| && matching[i] == r;
        assert entries[i] == Public(r);
      }
    }
  }

  // ---- Polling with a cursor ---------------------------------------------------------

  /** Whatever carries an earlier number was there already. */
  lemma {:induction false} NumberedRecordsWereThere(v: NetworkView, events: seq<Event>,
      record: Record) returns (was: Record)
    requires Valid(v) && forall i :: 0 <= i < |events| ==> events[i] != Reset(true)
    requires record in Run(v, events).records && record.sequence <= v.sequence
    ensures was in v.records && SameRequest(was, record)
  {
    if events == [] {
      was := record;
    } else {
      var n := |events| - 1;
      var before := Run(v, events[..n]);
      RunKeepsValid(v, events[..n]);
      SequenceNeverDecreases(v, events[..n]);
      StepChangesOnlyLiveEntries(before, events[n], record);
      var middle :| middle in before.records && SameRequest(middle, record);
      was := NumberedRecordsWereThere(v, events[..n], middle);
    }
  }

  /** A query that asks for nothing that may change later. */
  ghost predicate AsksForUrlsOnly(q: Query) {
    q.status == {} && q.resourceTypes == {}
  }

  /** The state when the n-th round ends; each round is some events and then a poll. */
  ghost function StateAt(v: NetworkView, rounds: seq<seq<Event>>, n: nat): NetworkView
    requires n <= |rounds|
  {
    if n == 0 then v else Run(StateAt(v, rounds, n - 1), rounds[n - 1])
  }

  ghost predicate NeverRenumbers(rounds: seq<seq<Event>>) {
    forall i, j :: 0 <= i < |rounds| && 0 <= j < |rounds[i]| ==> rounds[i][j] != Reset(true)
  }

  /** The page shows exactly what matches. */
  ghost predicate Complete(v: NetworkView, q: Query, page: Page) {
    && page.lastSequence == v.sequence
    && (forall r :: r in v.records && Matches(q)(r) ==> Public(r) in page.entries)
    && forall e :: e in page.entries ==> exists r :: r in v.records && Matches(q)(r) && e == Public(r)
  }

  /** An answer that is not marked as truncated is such a page. */
  lemma UntruncatedIsComplete(size: PublicEntry -> nat, v: NetworkView, q: Query, page: Page)
    requires Answers(size, v, q, page) && !page.truncated
    ensures Complete(v, q, page)
  {
    UntruncatedPagesMissNothing(size, v, q, page);
  }

  /** The first `n` polls each asked for what came after the sequence number of the one before, and got all of it. */
  ghost predicate Polled(v: NetworkView, q: Query, rounds: seq<seq<Event>>, pages: seq<Page>, n: nat)
    requires n <= |rounds| && n <= |pages|
  {
    n == 0
    || (&& Polled(v, q, rounds, pages, n - 1)
        && Complete(StateAt(v, rounds, n), q.(afterSequence := Some(Cursor(v, pages, n - 1))), pages[n - 1]))
  }

  ghost function Cursor(v: NetworkView, pages: seq<Page>, i: nat): nat
    requires i <= |pages|
  {
    if i == 0 then v.sequence else pages[i - 1].lastSequence
  }

  ghost predicate ShownBefore(pages: seq<Page>, n: nat, sequence: nat)
    requires n <= |pages|
  {
    exists i, k :: 0 <= i < n && 0 <= k < |pages[i].entries| && pages[i].entries[k].sequence == sequence
  }

  lemma {:induction false} RoundsKeepValid(v: NetworkView, rounds: seq<seq<Event>>, n: nat)
    requires Valid(v) && NeverRenumbers(rounds) && n <= |rounds|
    ensures Valid(StateAt(v, rounds, n)) && v.sequence <= StateAt(v, rounds, n).sequence
  {
    if n > 0 {
      RoundsKeepValid(v, rounds, n - 1);
      RunKeepsValid(StateAt(v, rounds, n - 1), rounds[n - 1]);
      SequenceNeverDecreases(StateAt(v, rounds, n - 1), rounds[n - 1]);
    }
  }

  /** The cursor is the sequence number at the end of the round before. */
  lemma RoundIsAnswered(v: NetworkView, q: Query, rounds: seq<seq<Event>>, pages: seq<Page>, n: nat)
    requires n <= |rounds| && n <= |pages| && Polled(v, q, rounds, pages, n)
    ensures Cursor(v, pages, n) == StateAt(v, rounds, n).sequence
    ensures n > 0 ==> Polled(v, q, rounds, pages, n - 1)
  {
  }

  /** A record that began in the last round is on the page of that round. */
  lemma NewRecordsAreShown(v: NetworkView, q: Query, rounds: seq<seq<Event>>, pages: seq<Page>,
                           n: nat, record: Record)
    requires 0 < n <= |rounds| && n <= |pages| && Polled(v, q, rounds, pages, n) && AsksForUrlsOnly(q)
    requires record in StateAt(v, rounds, n).records && record.sequence > Cursor(v, pages, n - 1)
    requires Includes(record.request.url, q.filter)
    ensures ShownBefore(pages, n, record.sequence)
  {
    var asked, page := q.(afterSequence := Some(Cursor(v, pages, n - 1))), pages[n - 1];
    assert Matches(asked)(record);
    var k :| 0 <= k < |page.entries| && page.entries[k] == Public(record);
    assert page.entries[k].sequence == record.sequence;
  }

  lemma ShownStaysShown(pages: seq<Page>, m: nat, n: nat, sequence: nat)
    requires m <= n <= |pages| && ShownBefore(pages, m, sequence)
    ensures ShownBefore(pages, n, sequence)
  {
    var i, k :| 0 <= i < m && 0 <= k < |pages[i].entries| && pages[i].entries[k].sequence == sequence;
    assert i < n;
  }

  /**
   * Over any number of rounds whose pages were complete, as untruncated answers are: every request for such a
   * URL that began after the start and is still logged was on one of the pages.
   */
  lemma {:induction false} CursorMissesNothing(v: NetworkView, q: Query, rounds: seq<seq<Event>>,
                                               pages: seq<Page>, n: nat, record: Record)
    requires Valid(v) && NeverRenumbers(rounds) && AsksForUrlsOnly(q)
    requires n <= |rounds| && n <= |pages| && Polled(v, q, rounds, pages, n)
    requires record in StateAt(v, rounds, n).records && record.sequence > v.sequence
    requires Includes(record.request.url, q.filter)
    ensures ShownBefore(pages, n, record.sequence)
  {
    if n == 0 {
      NoNumberAboveTheSequence(v, record);
    } else if record.sequence > Cursor(v, pages, n - 1) {
      NewRecordsAreShown(v, q, rounds, pages, n, record);
    } else {
      RoundIsAnswered(v, q, rounds, pages, n);
      RoundIsAnswered(v, q, rounds, pages, n - 1);
      var was := CarriedOver(v, rounds, n, record);
      CursorMissesNothing(v, q, rounds, pages, n - 1, was);
      ShownStaysShown(pages, n - 1, n, record.sequence);
    }
  }

  lemma NoNumberAboveTheSequence(v: NetworkView, record: Record)
    requires Valid(v) && record in v.records
    ensures record.sequence <= v.sequence
  {
    assert RecordOk(v, record);
  }

  lemma CarriedOver(v: NetworkView, rounds: seq<seq<Event>>, n: nat, record: Record) returns (was: Record)
    requires Valid(v) && NeverRenumbers(rounds) && 0 < n <= |rounds|
    requires record in StateAt(v, rounds, n).records && record.sequence <= StateAt(v, rounds, n - 1).sequence
    ensures was in StateAt(v, rounds, n - 1).records && SameRequest(was, record)
  {
    RoundsKeepValid(v, rounds, n - 1);
    was := NumberedRecordsWereThere(StateAt(v, rounds, n - 1), rounds[n - 1], record);
  }

  /** And no request is on two of them: the numbers shown in a round are above those of every earlier one. */
  lemma RoundsShowDifferentRequests(v: NetworkView, q: Query, rounds: seq<seq<Event>>,
                                    pages: seq<Page>, n: nat, e: PublicEntry)
    requires Valid(v) && NeverRenumbers(rounds)
    requires 0 < n <= |rounds| && n <= |pages| && Polled(v, q, rounds, pages, n) && e in pages[n - 1].entries
    ensures Cursor(v, pages, n - 1) < e.sequence <= Cursor(v, pages, n)
  {
    RoundIsAnswered(v, q, rounds, pages, n);
    RoundsKeepValid(v, rounds, n);
    ShownNumbers(StateAt(v, rounds, n), q, Cursor(v, pages, n - 1), pages[n - 1], e);
  }

  lemma ShownNumbers(v: NetworkView, q: Query, cursor: nat, page: Page, e: PublicEntry)
    requires Valid(v) && Complete(v, q.(afterSequence := Some(cursor)), page) && e in page.entries
    ensures cursor < e.sequence <= v.sequence
  {
    var asked := q.(afterSequence := Some(cursor));
    var r :| r in v.records && Matches(asked)(r) && e == Public(r);
    assert RecordOk(v, r);
  }
}
