// What each protocol event does to the network log, field by field
// (packages/browser-core/src/cdp-helper.ts).

module NetworkEvents {
  import opened Options
  import opened Sequences
  import opened NetworkModel

  // ---- Requests --------------------------------------------------------------------

  /** Only a request of the main frame with an id is logged. */
  predicate Begins(v: NetworkView, e: Event) {
    e.RequestWillBeSent? && e.requestId != "" && e.frame == v.mainFrame
  }

  /** A record as it is logged: numbered, timed, with its request, pending and without any result. */
  ghost predicate JustLogged(record: Record, sequence: nat, e: Event)
    requires e.RequestWillBeSent?
  {
    && record.requestId == e.requestId && record.sequence == sequence && record.request == e.request
    && record.startedAt == (if e.timestamp.Some? then e.timestamp.value else 0.0)
    && record.progress == Progress(e.request.resourceType, Pending, None, None, None, None, None)
  }

  /** The predecessor under the same id ends as a redirect when the event carries the redirect response. */
  ghost predicate Succeeded(v: NetworkView, e: Event, before: Record, after: Record)
    requires e.RequestWillBeSent?
  {
    if e.redirect.Some? && e.requestId in v.live && before.sequence == v.live[e.requestId] then
      && after == before.(progress := after.progress)
      && Answered(before.progress, after.progress, e.redirect.value)
      && after.progress.outcome == Redirect && after.progress.resourceType == before.progress.resourceType
      && after.progress.durationMs ==
           Some(Elapsed(before.startedAt, if e.timestamp.Some? then e.timestamp.value else 0.0))
    else after == before
  }

  /** The state when the predecessor has been settled. */
  function Settled(v: NetworkView, e: Event): NetworkView
    requires e.RequestWillBeSent?
  {
    var previous := InFlight(v, e.requestId);
    if previous.Some? && e.redirect.Some? then
      Settle(v, e.requestId, previous.value.sequence,
             Redirected(previous.value.progress, e.redirect.value, previous.value.startedAt, Or(e.timestamp, 0.0)))
    else v
  }

  lemma SettledIsValid(v: NetworkView, e: Event)
    requires Valid(v) && e.RequestWillBeSent?
    ensures var settled := Settled(v, e);
      && Valid(settled) && settled.sequence == v.sequence && settled.mainFrame == v.mainFrame
      && |settled.records| == |v.records|
      && (forall i :: 0 <= i < |v.records| ==> Succeeded(v, e, v.records[i], settled.records[i]))
      && (forall r :: r != e.requestId ==>
            (r in settled.live <==> r in v.live) && (r in v.live ==> settled.live[r] == v.live[r]))
  {
    if e.requestId in v.live {
      InFlightIsOpen(v, e.requestId);
      var entry := InFlight(v, e.requestId).value;
      assert RecordOk(v, entry);
      if e.redirect.Some? {
        SettleKeepsValid(v, e.requestId, Redirected(entry.progress, e.redirect.value, entry.startedAt,
            Or(e.timestamp, 0.0)));
        forall i | 0 <= i < |v.records| ensures Succeeded(v, e, v.records[i], Settled(v, e).records[i]) {
          FindInIncreasing(v.records, i);
        }
      }
    }
  }

  function BegunRecord(v: NetworkView, e: Event): Record
    requires e.RequestWillBeSent?
  {
    Record(e.requestId, v.sequence + 1, Or(e.timestamp, 0.0), e.request, Started(e.request))
  }

  lemma BegunRecords(v: NetworkView, e: Event)
    requires |v.records| <= 200 && e.RequestWillBeSent?
    ensures var after, excess := Begin(v, e), if |v.records| < 200 then 0 else 1;
      && after.records == (v.records + [BegunRecord(v, e)])[excess..]
      && after.sequence == v.sequence + 1 && after.mainFrame == v.mainFrame
      && after.live == Without(v.live[e.requestId := v.sequence + 1], (v.records + [BegunRecord(v, e)])[..excess])
  {
  }

  lemma BeginsAfter(v: NetworkView, e: Event)
    requires |v.records| <= 200 && e.RequestWillBeSent?
    ensures var after := Begin(v, e);
      var n, excess := |after.records|, |v.records| + 1 - |after.records|;
      && after.sequence == v.sequence + 1 && after.mainFrame == v.mainFrame
      && n == (if |v.records| < 200 then |v.records| + 1 else 200)
      && JustLogged(after.records[n - 1], v.sequence + 1, e)
      && (forall i :: 0 <= i < n - 1 ==> after.records[i] == v.records[excess + i])
      && (forall r :: r in after.live && r != e.requestId ==> r in v.live && after.live[r] == v.live[r])
  {
    BegunRecords(v, e);
  }

  lemma NewestIsLive(v: NetworkView, e: Event)
    requires Valid(v) && e.RequestWillBeSent?
    ensures e.requestId in Begin(v, e).live && Begin(v, e).live[e.requestId] == v.sequence + 1
  {
    BegunRecords(v, e);
    var dropped := (v.records + [BegunRecord(v, e)])[..if |v.records| < 200 then 0 else 1];
    forall d | d in dropped ensures d.sequence != v.sequence + 1 {
      assert d in v.records;
      assert RecordOk(v, d);
    }
  }

  lemma LiveExactly(v: NetworkView, e: Event, r: string)
    requires |v.records| <= 200 && e.RequestWillBeSent? && r in v.live && r != e.requestId
    ensures r in Begin(v, e).live <==>
              Find((v.records + [BegunRecord(v, e)])[..if |v.records| < 200 then 0 else 1], v.live[r]).None?
  {
    BegunRecords(v, e);
  }

  lemma StaysLive(v: NetworkView, e: Event, r: string)
    requires Valid(v) && e.RequestWillBeSent? && r in v.live && r != e.requestId
    ensures var after := Begin(v, e);
      after.records != [] && (r in after.live <==> after.records[0].sequence <= v.live[r])
  {
    assert LiveOk(v, r);
    var i :| 0 <= i < |v.records| && v.records[i].sequence == v.live[r] && v.records[i].requestId == r;
    var excess := if |v.records| < 200 then 0 else 1;
    DroppedExactly(v.records, v.records + [BegunRecord(v, e)], excess, i);
    LiveExactly(v, e, r);
    FirstKept(v, e, excess, i);
    FirstRecord(v, e);
  }

  lemma FirstRecord(v: NetworkView, e: Event)
    requires |v.records| <= 200 && e.RequestWillBeSent?
    ensures Begin(v, e).records != []
    ensures Begin(v, e).records[0] == (v.records + [BegunRecord(v, e)])[if |v.records| < 200 then 0 else 1]
  {
    BegunRecords(v, e);
  }

  lemma FirstKept(v: NetworkView, e: Event, excess: nat, i: nat)
    requires Valid(v) && e.RequestWillBeSent? && i < |v.records| && excess <= |v.records|
    ensures (v.records + [BegunRecord(v, e)])[excess].sequence <= v.records[i].sequence <==> excess <= i
  {
    assert RecordOk(v, v.records[i]);
  }

  /** A record is among the dropped ones exactly when its position is. */
  lemma DroppedExactly(records: seq<Record>, all: seq<Record>, excess: nat, i: nat)
    requires Increasing(records) && i < |records| < |all| && all[..|records|] == records && excess <= |records|
    ensures Find(all[..excess], records[i].sequence).None? <==> excess <= i
  {
    var dropped := all[..excess];
    var found := Find(dropped, records[i].sequence);
    assert forall j :: 0 <= j < excess ==> dropped[j] == all[..|records|][j];
    if found.Some? {
      var j :| 0 <= j < excess && dropped[j] == found.value;
      assert dropped[j] == records[j];
    }
  }

  lemma RequestStep(v: NetworkView, e: Event)
    requires e.RequestWillBeSent?
    ensures Step(v, e) == if Begins(v, e) then Begin(Settled(v, e), e) else v
  {
  }

  /**
   * Requests of other frames and without an id change nothing. Any other is numbered next and logged last;
   * the log keeps its newest 200 records, all as they were but for a redirected predecessor.
   */
  lemma RequestsAreLogged(v: NetworkView, e: Event)
    requires Valid(v) && e.RequestWillBeSent?
    ensures !Begins(v, e) ==> Step(v, e) == v
    ensures Begins(v, e) ==> Logged(v, e, Step(v, e))
  {
    RequestStep(v, e);
    SettledIsValid(v, e);
    BeginsAfter(Settled(v, e), e);
  }

  ghost predicate Logged(v: NetworkView, e: Event, after: NetworkView)
    requires e.RequestWillBeSent?
  {
    var n, excess := |after.records|, |v.records| + 1 - |after.records|;
    && after.sequence == v.sequence + 1 && after.mainFrame == v.mainFrame
    && |v.records| <= 200 && n == (if |v.records| < 200 then |v.records| + 1 else 200)
    && JustLogged(after.records[n - 1], v.sequence + 1, e)
    && forall i :: 0 <= i < n - 1 ==> Succeeded(v, e, v.records[excess + i], after.records[i])
  }

  /** The new request is in flight; the others still are exactly if their record is not older than the oldest kept. */
  lemma RequestsAreInFlight(v: NetworkView, e: Event)
    requires Valid(v) && Begins(v, e)
    ensures var after := Step(v, e);
      && after.records != []
      && e.requestId in after.live && after.live[e.requestId] == v.sequence + 1
      && (forall r :: r in after.live && r != e.requestId ==> r in v.live && after.live[r] == v.live[r])
      && (forall r :: r in v.live && r != e.requestId ==> (r in after.live <==> after.records[0].sequence <= v.live[r]))
  {
    RequestStep(v, e);
    SettledIsValid(v, e);
    var settled := Settled(v, e);
    BeginsAfter(settled, e);
    NewestIsLive(settled, e);
    forall r | r in v.live && r != e.requestId
      ensures r in Begin(settled, e).live <==> Begin(settled, e).records[0].sequence <= v.live[r]
    {
      StaysLive(settled, e, r);
    }
  }

  // ---- Navigation, detaching and resets -----------------------------------------------

  ghost predicate OfLoader(record: Record, loaderId: Option<string>) {
    loaderId.Some? && loaderId.value != "" && record.request.loaderId == loaderId
  }

  /** A navigation keeps exactly the records and the requests in flight of its own loader, and remembers the frame. */
  lemma NavigationsKeepTheLoader(v: NetworkView, frame: FrameField, loaderId: Option<string>)
    requires Valid(v)
    ensures var after := Step(v, MainFrameNavigated(frame, loaderId));
      && Valid(after) && after.sequence == v.sequence && after.mainFrame == (if frame.Frame? then frame else Null)
      && (forall r :: r in after.records <==> r in v.records && OfLoader(r, loaderId))
      && (forall id :: id in after.live ==> id in v.live && after.live[id] == v.live[id])
      && (forall id :: id in v.live ==>
            InFlight(v, id).Some? && (id in after.live <==> OfLoader(InFlight(v, id).value, loaderId)))
  {
    StepKeepsValid(v, MainFrameNavigated(frame, loaderId));
    if loaderId.Some? && loaderId.value != "" {
      FilterMembers(HasLoader(loaderId.value), v.records);
    }
    forall id | id in v.live
      ensures InFlight(v, id).Some?
      ensures id in Navigate(v, loaderId).live <==> OfLoader(InFlight(v, id).value, loaderId)
    {
      InFlightIsOpen(v, id);
      if loaderId.Some? {
        NavigationKeepsTheLoadersRequests(v, loaderId.value, id);
      }
    }
  }

  /** What the remaining events leave. */
  lemma ScopeEventsAreExact(v: NetworkView, frame: FrameField, resetSequence: bool)
    ensures Step(v, FrameDetached(frame)) ==
      if frame.Frame? && frame == v.mainFrame then NetworkView([], map[], v.sequence, Null) else v
    ensures Step(v, MainFrameFound(frame)) ==
      if v.mainFrame == Null && frame.Frame? then NetworkView(v.records, v.live, v.sequence, frame) else v
    ensures Step(v, Reset(resetSequence)) ==
      NetworkView([], map[], if resetSequence then 0 else v.sequence, v.mainFrame)
    ensures Step(v, ScopeReset) == NetworkView(v.records, map[], v.sequence, Null)
  {
  }

  // ---- The log is the last two hundred requests ------------------------------------------

  datatype Begun = Begun(requestId: string, startedAt: real, request: Request)

  /** The requests of the main frame, in order of their events. */
  ghost function BegunRequests(v: NetworkView, events: seq<Event>): seq<Begun> {
    if events == [] then []
    else
      var init, e := events[..|events| - 1], events[|events| - 1];
      var before := BegunRequests(v, init);
      if Begins(Run(v, init), e) then
        before + [Begun(e.requestId, if e.timestamp.Some? then e.timestamp.value else 0.0, e.request)]
      else before
  }

  /** The records are those of the newest requests, one for each. */
  ghost predicate ShowsTheLast(records: seq<Record>, begun: seq<Begun>, sequence: nat) {
    && |records| == (if |begun| < 200 then |begun| else 200)
    && forall i :: 0 <= i < |records| ==>
         var b := begun[|begun| - |records| + i];
         && records[i].requestId == b.requestId && records[i].startedAt == b.startedAt
         && records[i].request == b.request
         && records[i].sequence == sequence + |begun| - |records| + i + 1
  }

  /** Logging one more request shows one more. */
  lemma LoggedShowsTheLast(v: NetworkView, e: Event, after: NetworkView, begun: seq<Begun>, sequence: nat)
    requires e.RequestWillBeSent? && Logged(v, e, after)
    requires ShowsTheLast(v.records, begun, sequence) && v.sequence == sequence + |begun|
    ensures var next := Begun(e.requestId, if e.timestamp.Some? then e.timestamp.value else 0.0, e.request);
      ShowsTheLast(after.records, begun + [next], sequence) && after.sequence == sequence + |begun| + 1
  {
    var n, excess := |after.records|, |v.records| + 1 - |after.records|;
    forall i | 0 <= i < n - 1 ensures SameRequest(after.records[i], v.records[excess + i]) {
      assert Succeeded(v, e, v.records[excess + i], after.records[i]);
    }
  }

  lemma TrafficStepShowsTheLast(v: NetworkView, e: Event, begun: seq<Begun>, sequence: nat)
    requires Valid(v) && IsTraffic(e) && ShowsTheLast(v.records, begun, sequence) && v.sequence == sequence + |begun|
    ensures Begins(v, e) ==>
      var next := Begun(e.requestId, if e.timestamp.Some? then e.timestamp.value else 0.0, e.request);
      ShowsTheLast(Step(v, e).records, begun + [next], sequence) && Step(v, e).sequence == sequence + |begun| + 1
    ensures !Begins(v, e) ==> ShowsTheLast(Step(v, e).records, begun, sequence) && Step(v, e).sequence == v.sequence
  {
    if e.RequestWillBeSent? {
      RequestsAreLogged(v, e);
      if Begins(v, e) {
        LoggedShowsTheLast(v, e, Step(v, e), begun, sequence);
      }
    } else {
      OtherTrafficKeepsRequests(v, e);
      StillShowsTheLast(v.records, Step(v, e).records, begun, sequence);
    }
  }

  lemma StillShowsTheLast(records: seq<Record>, after: seq<Record>, begun: seq<Begun>, sequence: nat)
    requires ShowsTheLast(records, begun, sequence) && |after| == |records|
    requires forall i :: 0 <= i < |records| ==> SameRequest(records[i], after[i])
    ensures ShowsTheLast(after, begun, sequence)
  {
    forall i | 0 <= i < |after|
      ensures var b := begun[|begun| - |after| + i];
        && after[i].requestId == b.requestId && after[i].startedAt == b.startedAt && after[i].request == b.request
        && after[i].sequence == sequence + |begun| - |after| + i + 1
    {
      assert SameRequest(records[i], after[i]);
    }
  }

  lemma OtherTrafficKeepsRequests(v: NetworkView, e: Event)
    requires IsTraffic(e) && !e.RequestWillBeSent?
    ensures Step(v, e).sequence == v.sequence && |Step(v, e).records| == |v.records|
    ensures forall i :: 0 <= i < |v.records| ==> SameRequest(v.records[i], Step(v, e).records[i])
  {
  }

  /** While nothing resets the log, it shows exactly the last two hundred requests of the main frame, numbered on. */
  lemma {:induction false} TheLogIsTheLastRequests(v: NetworkView, events: seq<Event>)
    requires Valid(v) && v.records == []
    requires forall i :: 0 <= i < |events| ==> IsTraffic(events[i])
    ensures var after, begun := Run(v, events), BegunRequests(v, events);
      && Valid(after) && ShowsTheLast(after.records, begun, v.sequence) && after.sequence == v.sequence + |begun|
  {
    if events != [] {
      var init, e := events[..|events| - 1], events[|events| - 1];
      TheLogIsTheLastRequests(v, init);
      StepKeepsValid(Run(v, init), e);
      TrafficStepShowsTheLast(Run(v, init), e, BegunRequests(v, init), v.sequence);
    }
  }

  // ---- What a query asks for ---------------------------------------------------------------

  predicate OccursAt(text: string, part: string, i: nat) {
    i + |part| <= |text| && text[i..i + |part|] == part
  }

  /** `text.includes(part)` */
  lemma {:induction false} IncludesExactlyWhenItOccurs(text: string, part: string)
    ensures Includes(text, part) <==> exists i: nat :: OccursAt(text, part, i)
  {
    if part <= text {
      assert OccursAt(text, part, 0);
    } else if text == [] {
      assert forall i: nat :: !OccursAt(text, part, i);
    } else {
      var rest := text[1..];
      IncludesExactlyWhenItOccurs(rest, part);
      if i: nat :| OccursAt(text, part, i) {
        assert i > 0;
        assert rest[i - 1..i - 1 + |part|] == part;
        assert OccursAt(rest, part, i - 1);
      }
      if i: nat :| OccursAt(rest, part, i) {
        assert text[i + 1..i + 1 + |part|] == part;
        assert OccursAt(text, part, i + 1);
      }
    }
  }

  /** What one status filter lets through. */
  predicate Passes(f: StatusFilter, p: Progress) {
    match f
    case IsPending => p.outcome == Pending
    case IsFailed => p.outcome == Failed
    case IsSuccess => p.outcome == Success
    case StatusClass(c) => p.status.Some? && 100 * c <= p.status.value < 100 * c + 100
  }

  lemma StatusMatchesExactlyWhen(p: Progress, filters: set<StatusFilter>)
    ensures StatusMatches(p, filters) <==> filters == {} || exists f :: f in filters && Passes(f, p)
  {
    if p.status.Some? && StatusClass(p.status.value / 100) in filters {
      assert Passes(StatusClass(p.status.value / 100), p);
    }
    if IsPending in filters && p.outcome == Pending { assert Passes(IsPending, p); }
    if IsFailed in filters && p.outcome == Failed { assert Passes(IsFailed, p); }
    if IsSuccess in filters && p.outcome == Success { assert Passes(IsSuccess, p); }
    if f :| f in filters && Passes(f, p) {
      assert f.StatusClass? ==> f == StatusClass(p.status.value / 100);
    }
  }

  /** Every filter that is given must hold, and one of the status filters is enough. */
  lemma MatchesExactlyWhen(q: Query, r: Record)
    ensures Matches(q)(r) <==>
      && (q.afterSequence.None? || q.afterSequence.value < r.sequence) && r.sequence > 0
      && (q.status == {} || exists f :: f in q.status && Passes(f, r.progress))
      && (q.resourceTypes == {} || r.progress.resourceType in q.resourceTypes)
      && exists i: nat :: OccursAt(r.request.url, q.filter, i)
  {
    IncludesExactlyWhenItOccurs(r.request.url, q.filter);
    StatusMatchesExactlyWhen(r.progress, q.status);
  }

  /** A hundred unless asked otherwise, at least one and at most two hundred. */
  lemma LimitsAreClamped(q: Query)
    ensures q.limit.None? ==> Limit(q) == 100
    ensures q.limit.Some? && 1 <= q.limit.value <= 200 ==> Limit(q) == q.limit.value
    ensures q.limit.Some? && q.limit.value < 1 ==> Limit(q) == 1
    ensures q.limit.Some? && q.limit.value > 200 ==> Limit(q) == 200
  {
  }

  /**
   * The page of an answer, entry by entry: the newest matching records in order, with everything but ids and
   * start time, no more than the limit and the byte budget allow, and as many as they do.
   */
  lemma AnswersShowTheNewest(size: PublicEntry -> nat, v: NetworkView, q: Query, page: Page)
    requires Answers(size, v, q, page)
    ensures var matching := Filter(Matches(q), v.records);
      var n := |page.entries|;
      && n == page.returnedEntries <= |matching| == page.totalEntries && n <= Limit(q)
      && page.lastSequence == v.sequence && (page.truncated <==> n < |matching|)
      && (forall i :: 0 <= i < n ==>
            var r := matching[|matching| - n + i];
            page.entries[i] == PublicEntry(r.sequence, r.request.httpMethod, r.request.url, r.request.wallTime,
                r.progress))
      && (n > 0 ==> PageBytes(size, page) <= 49_152)
      && (n < |matching| && n < Limit(q) ==> PageBytes(size, NewestPage(matching, n + 1, v.sequence)) > 49_152)
  {
    var matching, n := Filter(Matches(q), v.records), page.returnedEntries;
    assert |NewestPage(matching, n, v.sequence).entries| == n;
    assert n > 0 ==> NewestFit(size, matching, n, v.sequence);
    assert n < |matching| && n < Limit(q) ==> !NewestFit(size, matching, n + 1, v.sequence);
  }
}
