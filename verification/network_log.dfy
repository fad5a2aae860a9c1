// The network diagnostics of packages/browser-core/src/cdp-helper.ts as the
// source keeps them: one entry object shared by the bounded log and the map
// of requests in flight. Every method is tied to a step of NetworkModel.

module NetworkLog {
  import opened Options
  import opened Sequences
  import M = NetworkModel
  import E = NetworkEvents

  class Entry {
    const requestId: string
    const sequence: nat
    const startedAt: real
    const request: M.Request
    var resourceType: string
    var outcome: M.Outcome
    var status: Option<int>
    var statusText: Option<string>
    var mimeType: Option<string>
    var failureReason: Option<string>
    var durationMs: Option<int>

    constructor (requestId: string, sequence: nat, startedAt: real, request: M.Request)
      ensures View() == M.Record(requestId, sequence, startedAt, request, M.Started(request))
    {
      this.requestId, this.sequence, this.startedAt, this.request := requestId, sequence, startedAt, request;
      resourceType, outcome := request.resourceType, M.Pending;
      status, statusText, mimeType, failureReason, durationMs := None, None, None, None, None;
    }

    function Progress(): M.Progress
      reads this
    {
      M.Progress(resourceType, outcome, status, statusText, mimeType, failureReason, durationMs)
    }

    function View(): M.Record
      reads this
    {
      M.Record(requestId, sequence, startedAt, request, Progress())
    }

    method ApplyResponse(response: M.Response)
      modifies this
      ensures Progress() == M.WithResponse(old(Progress()), response)
    {
      if response.status.Some? {
        status := response.status;
      }
      if response.statusText.Some? {
        statusText := response.statusText;
      }
      if response.mimeType.Some? {
        mimeType := response.mimeType;
      }
    }

    method Finish(endedAt: real)
      modifies this`durationMs
      ensures durationMs == Some(M.Elapsed(startedAt, endedAt))
    {
      var rounded := ((endedAt - startedAt) * 1000.0 + 0.5).Floor;
      durationMs := Some(if rounded < 0 then 0 else rounded);
    }

    method Receive(response: M.Response, answeredType: string)
      modifies this
      ensures Progress() == M.Received(old(Progress()), response, answeredType)
    {
      ApplyResponse(response);
      if status.Some? && status.value >= 400 {
        outcome := M.HttpError;
      }
      if resourceType == "other" {
        resourceType := answeredType;
      }
    }

    method Redirect(response: M.Response, now: real)
      modifies this
      ensures Progress() == M.Redirected(old(Progress()), response, startedAt, now)
    {
      ApplyResponse(response);
      outcome := M.Redirect;
      Finish(now);
    }

    method Complete(endedAt: real)
      modifies this
      ensures Progress() == M.Finished(old(Progress()), startedAt, endedAt)
    {
      if outcome == M.Pending {
        outcome := M.Success;
      }
      Finish(endedAt);
    }

    method Fail(reason: string, endedAt: real)
      modifies this
      ensures Progress() == M.FailedWith(old(Progress()), reason, startedAt, endedAt)
    {
      outcome := M.Failed;
      failureReason := Some(reason);
      Finish(endedAt);
    }
  }

  ghost function Views(entries: seq<Entry>): (views: seq<M.Record>)
    reads entries
    ensures |views| == |entries|
  {
    seq(|entries|, i requires 0 <= i < |entries| reads entries => entries[i].View())
  }

  ghost function Numbers(requests: map<string, Entry>): map<string, nat> {
    map r | r in requests :: requests[r].sequence
  }

  /** Newest first, until the limit or the byte budget is reached. */
  method NewestThatFit(size: M.PublicEntry -> nat, matching: seq<M.Record>, bound: nat, lastSequence: nat)
    returns (page: M.Page)
    requires bound <= |matching|
    ensures page.returnedEntries <= |matching|
    ensures page == M.NewestPage(matching, page.returnedEntries, lastSequence)
    ensures M.Best(size, matching, bound, lastSequence, page.returnedEntries)
  {
    var total := |matching|;
    page := M.Page([], lastSequence, total, 0, 0 < total);
    for count := 0 to bound
      invariant page == M.NewestPage(matching, count, lastSequence)
      invariant count > 0 ==> M.NewestFit(size, matching, count, lastSequence)
    {
      var entry := M.Public(matching[total - count - 1]);
      var candidate := M.Page([entry] + page.entries, lastSequence, total, count + 1, count + 1 < total);
      M.OneMoreEntry(matching, count, lastSequence);
      assert candidate == M.NewestPage(matching, count + 1, lastSequence);
      if M.PageBytes(size, candidate) > M.MAX_PAGE_BYTES {
        M.BestWhenTheNextDoesNotFit(size, matching, bound, lastSequence, count);
        return;
      }
      page := candidate;
    }
  }

  class NetworkLog {
    var log: seq<Entry>
    var live: map<string, Entry>
    var sequence: nat
    var mainFrame: M.FrameField

    constructor ()
      ensures Valid() && View() == M.NetworkView([], map[], 0, M.Null)
    {
      log, live, sequence, mainFrame := [], map[], 0, M.Null;
    }

    /** Every request in flight is represented by an object of the log itself. */
    ghost predicate Shared()
      reads this, log
    {
      forall r :: r in live ==> live[r] in log && live[r].requestId == r
    }

    ghost predicate Valid()
      reads this, log
    {
      Shared() && M.Valid(View())
    }

    ghost function View(): M.NetworkView
      reads this, log
    {
      M.NetworkView(Views(log), Numbers(live), sequence, mainFrame)
    }

    ghost function InFlight(requestId: string): set<Entry>
      reads this
    {
      if requestId in live then {live[requestId]} else {}
    }

    lemma LiveObject(requestId: string)
      requires Valid()
      ensures requestId in live ==>
        && M.InFlight(View(), requestId) == Some(live[requestId].View())
        && forall e :: e in log && e.sequence == live[requestId].sequence ==> e == live[requestId]
      ensures requestId !in live ==> M.InFlight(View(), requestId).None?
    {
      if requestId in live {
        var k :| 0 <= k < |log| && log[k] == live[requestId];
        M.FindInIncreasing(Views(log), k);
        forall e | e in log && e.sequence == live[requestId].sequence ensures e == live[requestId] {
          var i :| 0 <= i < |log| && log[i] == e;
          assert Views(log)[i].sequence == Views(log)[k].sequence;
        }
      }
    }

    /** Changing one shared object is advancing its record. */
    twostate lemma AdvancedViews(entry: Entry)
      requires log == old(log) && entry in log
      requires forall e :: e in log && e.sequence == entry.sequence ==> e == entry
      requires forall e :: e in log && e != entry ==> unchanged(e)
      ensures Views(log) == M.Advance(old(Views(log)), entry.sequence, entry.Progress())
    {
      forall i | 0 <= i < |log|
        ensures Views(log)[i] == M.Advance(old(Views(log)), entry.sequence, entry.Progress())[i]
      {
        assert log[i] in log;
      }
    }

    /** A request that leaves the live map takes its final record along. */
    method Remove(ghost before: M.NetworkView, requestId: string)
      requires Shared() && requestId in live
      requires before.live == View().live && before.sequence == sequence && before.mainFrame == mainFrame
      requires Views(log) == M.Advance(before.records, live[requestId].sequence, live[requestId].Progress())
      modifies this`live
      ensures Shared() && live == old(live) - {requestId}
      ensures View() == M.Settle(before, requestId, old(live[requestId]).sequence, old(live[requestId].Progress()))
    {
      live := live - {requestId};
    }

    method HandleResponseReceived(requestId: string, response: M.Response, resourceType: string)
      requires Valid()
      modifies InFlight(requestId)
      ensures Valid() && View() == M.Step(old(View()), M.ResponseReceived(requestId, response, resourceType))
    {
      ghost var goal := M.Step(View(), M.ResponseReceived(requestId, response, resourceType));
      M.StepKeepsValid(View(), M.ResponseReceived(requestId, response, resourceType));
      LiveObject(requestId);
      if requestId == "" || requestId !in live {
        return;
      }
      var entry := live[requestId];
      ghost var before := View();
      ghost var received := M.Received(entry.Progress(), response, resourceType);
      assert goal == before.(records := M.Advance(before.records, entry.sequence, received));
      entry.Receive(response, resourceType);
      AdvancedViews(entry);
      assert View() == goal;
    }

    method HandleLoadingFinished(requestId: string, timestamp: Option<real>)
      requires Valid()
      modifies this`live, InFlight(requestId)
      ensures Valid() && View() == M.Step(old(View()), M.LoadingFinished(requestId, timestamp))
      ensures live == if requestId == "" then old(live) else old(live) - {requestId}
    {
      ghost var goal := M.Step(View(), M.LoadingFinished(requestId, timestamp));
      M.StepKeepsValid(View(), M.LoadingFinished(requestId, timestamp));
      LiveObject(requestId);
      if requestId == "" || requestId !in live {
        return;
      }
      var entry := live[requestId];
      ghost var before := View();
      var endedAt := if timestamp.Some? then timestamp.value else entry.startedAt;
      assert goal == M.Settle(before, requestId, entry.sequence,
          M.Finished(entry.Progress(), entry.startedAt, endedAt));
      entry.Complete(endedAt);
      AdvancedViews(entry);
      Remove(before, requestId);
    }

    method HandleLoadingFailed(requestId: string, timestamp: Option<real>, reason: string)
      requires Valid()
      modifies this`live, InFlight(requestId)
      ensures Valid() && View() == M.Step(old(View()), M.LoadingFailed(requestId, timestamp, reason))
      ensures live == if requestId == "" then old(live) else old(live) - {requestId}
    {
      ghost var goal := M.Step(View(), M.LoadingFailed(requestId, timestamp, reason));
      M.StepKeepsValid(View(), M.LoadingFailed(requestId, timestamp, reason));
      LiveObject(requestId);
      if requestId == "" || requestId !in live {
        return;
      }
      var entry := live[requestId];
      ghost var before := View();
      var endedAt := if timestamp.Some? then timestamp.value else entry.startedAt;
      assert goal == M.Settle(before, requestId, entry.sequence,
          M.FailedWith(entry.Progress(), reason, entry.startedAt, endedAt));
      entry.Fail(reason, endedAt);
      AdvancedViews(entry);
      Remove(before, requestId);
    }

    /** Requests of other frames change nothing; any other is numbered, logged last and in flight. */
    method HandleRequestWillBeSent(
      requestId: string, frame: M.FrameField, timestamp: Option<real>, redirect: Option<M.Response>, request: M.Request)
      requires Valid()
      modifies this, InFlight(requestId)
      ensures Valid()
      ensures View() == M.Step(old(View()), M.RequestWillBeSent(requestId, frame, timestamp, redirect, request))
      ensures requestId == "" || frame != old(mainFrame) ==> View() == old(View())
      ensures requestId != "" && frame == old(mainFrame) ==>
                && sequence == old(sequence) + 1
                && log != [] && requestId in live && live[requestId] == log[|log| - 1]
                && E.JustLogged(log[|log| - 1].View(), old(sequence) + 1,
                                M.RequestWillBeSent(requestId, frame, timestamp, redirect, request))
      ensures forall r :: r in live ==> fresh(live[r]) || (r in old(live) && live[r] == old(live[r]))
    {
      ghost var event, before := M.RequestWillBeSent(requestId, frame, timestamp, redirect, request), View();
      LogRequest(requestId, frame, timestamp, redirect, request);
      E.RequestsAreLogged(before, event);
      if E.Begins(before, event) {
        E.RequestsAreInFlight(before, event);
        NewestIsLast(before, event);
      }
    }

    /** The newest request is in flight under its id, and its object is the last of the log. */
    lemma NewestIsLast(before: M.NetworkView, event: M.Event)
      requires Valid() && event.RequestWillBeSent? && E.Logged(before, event, View())
      requires event.requestId in View().live && View().live[event.requestId] == before.sequence + 1
      ensures log != [] && event.requestId in live && live[event.requestId] == log[|log| - 1]
      ensures E.JustLogged(log[|log| - 1].View(), before.sequence + 1, event)
    {
      LiveObject(event.requestId);
      assert log[|log| - 1] in log;
      assert View().records[|log| - 1] == log[|log| - 1].View();
    }

    method LogRequest(
      requestId: string, frame: M.FrameField, timestamp: Option<real>, redirect: Option<M.Response>, request: M.Request)
      requires Valid()
      modifies this, InFlight(requestId)
      ensures Valid()
      ensures View() == M.Step(old(View()), M.RequestWillBeSent(requestId, frame, timestamp, redirect, request))
      ensures forall r :: r in live ==> fresh(live[r]) || (r in old(live) && live[r] == old(live[r]))
    {
      ghost var event := M.RequestWillBeSent(requestId, frame, timestamp, redirect, request);
      M.StepKeepsValid(View(), event);
      LiveObject(requestId);
      if requestId == "" || frame != mainFrame {
        return;
      }
      var now := if timestamp.Some? then timestamp.value else 0.0;
      if requestId in live && redirect.Some? {
        SettleRedirect(requestId, now, redirect.value);
      }
      Begin(event, requestId, now, request);
    }

    method SettleRedirect(requestId: string, now: real, response: M.Response)
      requires Valid() && requestId in live
      modifies this`live, live[requestId]
      ensures Valid()
      ensures var entry := old(live[requestId].View());
        View() == M.Settle(old(View()), requestId, entry.sequence,
            M.Redirected(entry.progress, response, entry.startedAt, now))
      ensures live == old(live) - {requestId}
    {
      LiveObject(requestId);
      M.InFlightIsOpen(View(), requestId);
      var entry := live[requestId];
      ghost var before := View();
      assert M.RecordOk(before, entry.View());
      M.SettleKeepsValid(before, requestId, M.Redirected(entry.Progress(), response, entry.startedAt, now));
      entry.Redirect(response, now);
      AdvancedViews(entry);
      Remove(before, requestId);
    }

    method Begin(ghost event: M.Event, requestId: string, now: real, request: M.Request)
      requires Valid() && requestId != ""
      requires event.RequestWillBeSent? && event.requestId == requestId && event.request == request
      requires now == M.Or(event.timestamp, 0.0)
      modifies this
      ensures Valid() && View() == M.Begin(old(View()), event)
      ensures forall r :: r in live ==> fresh(live[r]) || (r in old(live) && live[r] == old(live[r]))
    {
      ghost var before := View();
      M.BeginKeepsValid(before, event);
      var entry := Register(requestId, now, request);
      M.NewestIsLast(before, entry.View());
      AppendShared(entry);
      assert View() == M.Begin(before, event);
    }

    /** The next number, a new object, and the object in flight. */
    method Register(requestId: string, now: real, request: M.Request) returns (entry: Entry)
      requires Shared()
      modifies this`sequence, this`live
      ensures fresh(entry) && sequence == old(sequence) + 1 && live == old(live)[requestId := entry]
      ensures entry.View() == M.Record(requestId, sequence, now, request, M.Started(request))
      ensures View() == old(View()).(sequence := sequence, live := old(View().live)[requestId := sequence])
      ensures forall r :: r in live ==> live[r] in log + [entry] && live[r].requestId == r
    {
      ghost var records := Views(log);
      sequence := sequence + 1;
      entry := new Entry(requestId, sequence, now, request);
      live := live[requestId := entry];
      assert Views(log) == records;
      assert Numbers(live) == Numbers(old(live))[requestId := sequence];
    }

    method AppendShared(entry: Entry)
      requires M.Increasing(Views(log) + [entry.View()])
      requires forall r :: r in live ==> live[r] in log + [entry] && live[r].requestId == r
      modifies this`log, this`live
      ensures Shared() && View() == M.Append(old(View()), entry.View())
      ensures forall r :: r in live ==> r in old(live) && live[r] == old(live[r])
    {
      ghost var before, entries, requests := View(), log, live;
      Append(entry);
      AppendedView(before, entries, requests, entry);
    }

    /** The log without its oldest excess entries. */
    ghost function Excess(entries: seq<Entry>): nat {
      if |entries| > M.MAX_ENTRIES then |entries| - M.MAX_ENTRIES else 0
    }

    method Append(entry: Entry)
      requires forall r :: r in live ==> live[r].requestId == r
      modifies this`log, this`live
      ensures var all := old(log) + [entry];
        && log == all[Excess(all)..]
        && (forall r :: r in live <==> r in old(live) && old(live[r]) !in all[..Excess(all)])
      ensures forall r :: r in live ==> live[r] == old(live[r])
    {
      log := log + [entry];
      var excess := if |log| > M.MAX_ENTRIES then |log| - M.MAX_ENTRIES else 0;
      var removed := log[..excess];
      log := log[excess..];
      DropRequests(removed);
    }

    /** The objects after an append, seen as values. */
    lemma AppendedView(before: M.NetworkView, entries: seq<Entry>, requests: map<string, Entry>, entry: Entry)
      requires before.records == Views(entries) && before.sequence == sequence && before.mainFrame == mainFrame
      requires before.live == Numbers(requests)
      requires M.Increasing(Views(entries) + [entry.View()])
      requires forall r :: r in requests ==> requests[r] in entries + [entry] && requests[r].requestId == r
      requires log == (entries + [entry])[Excess(entries + [entry])..]
      requires forall r :: r in live <==>
                r in requests && requests[r] !in (entries + [entry])[..Excess(entries + [entry])]
      requires forall r :: r in live ==> live[r] == requests[r]
      ensures Shared() && View() == M.Append(before, entry.View())
    {
      var all := entries + [entry];
      var allViews := Views(entries) + [entry.View()];
      assert Views(all) == allViews;
      var removed := all[..Excess(all)];
      assert all == removed + log;
      assert Views(removed) == allViews[..Excess(all)];
      assert Views(log) == allViews[Excess(all)..];
      Dropped(removed, requests);
      assert Numbers(live) == M.Without(Numbers(requests), Views(removed)) by {
        LiveWithout(removed, requests);
      }
    }

    lemma LiveWithout(removed: seq<Entry>, requests: map<string, Entry>)
      requires forall r :: r in requests ==>
        (requests[r] in removed <==> M.Find(Views(removed), requests[r].sequence).Some?)
      requires forall r :: r in live <==> r in requests && requests[r] !in removed
      requires forall r :: r in live ==> live[r] == requests[r]
      ensures Numbers(live) == M.Without(Numbers(requests), Views(removed))
    {
    }

    method DropRequests(removed: seq<Entry>)
      requires forall r :: r in live ==> live[r].requestId == r
      modifies this`live
      ensures forall r :: r in live <==> r in old(live) && old(live[r]) !in removed
      ensures forall r :: r in live ==> live[r] == old(live[r])
    {
      for i := 0 to |removed|
        invariant forall r :: r in live <==> r in old(live) && old(live[r]) !in removed[..i]
        invariant forall r :: r in live ==> live[r] == old(live[r])
      {
        var candidate := removed[i];
        assert removed[..i + 1] == removed[..i] + [candidate];
        if candidate.requestId in live && live[candidate.requestId] == candidate {
          live := live - {candidate.requestId};
        }
      }
      assert removed[..|removed|] == removed;
    }

    method ResetForNavigation(loaderId: Option<string>)
      requires Valid()
      modifies this`log, this`live
      ensures Valid() && View() == M.Navigate(old(View()), loaderId)
      ensures forall r :: r in live ==> r in old(live) && live[r] == old(live[r])
    {
      M.NavigateKeepsValid(View(), loaderId);
      if loaderId.None? || loaderId.value == "" {
        log, live := [], map[];
        assert View() == M.Navigate(old(View()), loaderId);
        return;
      }
      var kept := KeepLoader(loaderId.value);
      ghost var goal := M.Navigate(View(), loaderId);
      NavigatedRequests(loaderId.value);
      live := map r | r in live && live[r].request.loaderId == loaderId :: live[r];
      log := kept;
      assert View() == goal;
    }

    lemma NavigatedRequests(loaderId: string)
      requires Valid() && loaderId != ""
      ensures M.Navigate(View(), Some(loaderId)).live
        == Numbers(map r | r in live && live[r].request.loaderId == Some(loaderId) :: live[r])
    {
      forall r | r in live
        ensures r in M.Navigate(View(), Some(loaderId)).live <==> live[r].request.loaderId == Some(loaderId)
      {
        LiveObject(r);
        M.NavigationKeepsTheLoadersRequests(View(), loaderId, r);
      }
    }

    method KeepLoader(loaderId: string) returns (kept: seq<Entry>)
      ensures Views(kept) == Filter(M.HasLoader(loaderId), Views(log))
      ensures forall e :: e in kept <==> e in log && e.request.loaderId == Some(loaderId)
    {
      kept := [];
      ghost var all := Views(log);
      for i := 0 to |log|
        invariant forall e :: e in kept <==> e in log[..i] && e.request.loaderId == Some(loaderId)
        invariant Views(kept) == Filter(M.HasLoader(loaderId), all[..i])
      {
        FilterSnoc(M.HasLoader(loaderId), all[..i], all[i]);
        assert all[..i + 1] == all[..i] + [all[i]];
        assert log[..i + 1] == log[..i] + [log[i]];
        assert Views(kept + [log[i]]) == Views(kept) + [log[i].View()];
        if log[i].request.loaderId == Some(loaderId) {
          kept := kept + [log[i]];
        }
      }
      assert all[..|log|] == all && log[..|log|] == log;
    }

    method HandleFrameNavigated(frame: M.FrameField, loaderId: Option<string>)
      requires Valid()
      modifies this
      ensures Valid() && View() == M.Step(old(View()), M.MainFrameNavigated(frame, loaderId))
      ensures forall r :: r in live ==> r in old(live) && live[r] == old(live[r])
    {
      M.StepKeepsValid(View(), M.MainFrameNavigated(frame, loaderId));
      ResetForNavigation(loaderId);
      mainFrame := if frame.Frame? then frame else M.Null;
    }

    method HandleFrameDetached(frame: M.FrameField)
      requires Valid()
      modifies this
      ensures Valid() && View() == M.Step(old(View()), M.FrameDetached(frame))
    {
      if frame.Frame? && frame == mainFrame {
        Reset(false);
        ResetScope();
      }
    }

    method MainFrameFound(frame: M.FrameField)
      requires Valid()
      modifies this`mainFrame
      ensures Valid() && View() == M.Step(old(View()), M.MainFrameFound(frame))
    {
      M.StepKeepsValid(View(), M.MainFrameFound(frame));
      if mainFrame == M.Null && frame.Frame? {
        mainFrame := frame;
      }
    }

    method Reset(resetSequence: bool)
      requires Valid()
      modifies this
      ensures Valid() && View() == M.Step(old(View()), M.Reset(resetSequence))
    {
      if resetSequence {
        sequence := 0;
      }
      log, live := [], map[];
    }

    method ResetScope()
      requires Valid()
      modifies this`mainFrame, this`live
      ensures Valid() && View() == M.Step(old(View()), M.ScopeReset)
    {
      M.StepKeepsValid(View(), M.ScopeReset);
      mainFrame, live := M.Null, map[];
    }

    method GetNetworkDiagnostics(size: M.PublicEntry -> nat, q: M.Query) returns (page: M.Page)
      requires Valid()
      ensures M.Answers(size, View(), q, page)
    {
      var matching := Matching(q);
      page := NewestThatFit(size, matching, if |matching| < M.Limit(q) then |matching| else M.Limit(q), sequence);
    }

    method Matching(q: M.Query) returns (matching: seq<M.Record>)
      ensures matching == Filter(M.Matches(q), Views(log))
    {
      matching := [];
      ghost var all := Views(log);
      for i := 0 to |log|
        invariant matching == Filter(M.Matches(q), all[..i])
      {
        FilterSnoc(M.Matches(q), all[..i], all[i]);
        assert all[..i + 1] == all[..i] + [all[i]];
        if M.Matches(q)(log[i].View()) {
          matching := matching + [log[i].View()];
        }
      }
      assert all[..|log|] == all;
    }

    /** By identity or by sequence number, the same requests are dropped. */
    lemma Dropped(removed: seq<Entry>, requests: map<string, Entry>)
      requires M.Increasing(Views(removed + log))
      requires forall r :: r in requests ==> requests[r] in removed + log
      ensures forall r :: r in requests ==>
        (requests[r] in removed <==> M.Find(Views(removed), requests[r].sequence).Some?)
    {
      forall r | r in requests
        ensures requests[r] in removed <==> M.Find(Views(removed), requests[r].sequence).Some?
      {
        var all := removed + log;
        var j :| 0 <= j < |all| && all[j] == requests[r];
        assert forall i :: 0 <= i < |all| && all[i].sequence == requests[r].sequence ==> i == j by {
          assert forall i :: 0 <= i < |all| ==> Views(all)[i].sequence == all[i].sequence;
        }
        assert forall i :: 0 <= i < |removed| ==> Views(removed)[i].sequence == all[i].sequence;
        if requests[r] in removed {
          var k :| 0 <= k < |removed| && removed[k] == requests[r];
          assert Views(removed)[k].sequence == requests[r].sequence;
        }
      }
    }
  }
}
