// One Browser action at a time: the gate of `execute` and its recovery after an
// interruption (packages/browser-core/src/browser-core.ts). A call is cut at its
// awaits; promises settle, aborts fire and timers expire between any two segments.

module ActionGate {
  import opened Options

  datatype Promise = Absent | Pending | Resolved | Rejected(interruption: bool) {
    predicate Settled() { Resolved? || Rejected? }
  }

  datatype Outcome = Returned | Threw | Interrupted

  datatype Phase =
    | RacingStart
    | RacingAction
    | Recovering
    | Settling(recovered: bool)
    | Finished(outcome: Outcome, generation: nat)

  /** `entered` is the session generation when the call claimed the gate. */
  datatype Call = Call(phase: Phase, start: Promise, action: Promise, aborted: bool, entered: nat) {
    /** Nothing this call started is still running. */
    predicate Quiet() { start != Pending && action != Pending }
  }

  /** All calls that ever passed the gate, oldest first. */
  datatype Gate = Gate(active: bool, poisoned: bool, generation: nat, calls: seq<Call>)

  datatype Refusal = Busy | Poisoned | Aborted | BadDeadline

  datatype StartAttempt = StartPending | StartThrew(interruption: bool)

  datatype Event =
    | Requested(aborted: bool, badDeadline: bool, attempt: StartAttempt)
    | StartSettled(call: nat, result: Promise)
    | ActionSettled(call: nat, result: Promise)
    | AbortFired(call: nat)
    | RaceWon(call: nat, byAbort: bool)
    | RecoveryFinished(call: nat, recovered: bool)
    | SettlementFinished(call: nat, inTime: bool)
    | Invalidated

  function Initial(): Gate {
    Gate(false, false, 0, [])
  }

  // ---- The segments of `execute`, on values ------------------------------------

  function Refuse(g: Gate, aborted: bool, badDeadline: bool): Option<Refusal> {
    if g.active then Some(Busy)
    else if g.poisoned then Some(Poisoned)
    else if aborted then Some(Aborted)
    else if badDeadline then Some(BadDeadline)
    else None
  }

  function Finish(g: Gate, i: nat, outcome: Outcome): Gate
    requires i < |g.calls|
  {
    g.(active := false, calls := g.calls[i := g.calls[i].(phase := Finished(outcome, g.generation))])
  }

  /** The catch block up to its first await. */
  function Catch(g: Gate, i: nat, interruption: bool): Gate
    requires i < |g.calls|
  {
    if g.calls[i].aborted || interruption then g.(calls := g.calls[i := g.calls[i].(phase := Recovering)])
    else Finish(g, i, Threw)
  }

  function Enter(g: Gate, attempt: StartAttempt): Gate {
    var claimed := g.(active := true);
    match attempt
    case StartPending =>
      claimed.(calls := g.calls + [Call(RacingStart, Pending, Absent, false, g.generation)])
    case StartThrew(interruption) =>
      Catch(claimed.(calls := g.calls + [Call(RacingStart, Absent, Absent, false, g.generation)]),
            |g.calls|, interruption)
  }

  predicate CanResume(c: Call, byAbort: bool) {
    match c.phase
    case RacingStart => if byAbort then c.aborted else c.start.Settled()
    case RacingAction => if byAbort then c.aborted else c.action.Settled()
    case _ => false
  }

  function Resume(g: Gate, i: nat, byAbort: bool): Gate
    requires i < |g.calls| && CanResume(g.calls[i], byAbort)
  {
    var c := g.calls[i];
    if byAbort then Catch(g, i, true)
    else if c.phase.RacingStart? then
      if c.start.Resolved? then g.(calls := g.calls[i := c.(phase := RacingAction, action := Pending)])
      else Catch(g, i, c.start.interruption)
    else
      if c.action.Resolved? then Finish(g, i, Returned)
      else Catch(g, i, c.action.interruption)
  }

  /** `Promise.allSettled` over what was started wins only when all of it settled; an empty list never times out. */
  predicate CanSettle(c: Call, inTime: bool) {
    && c.phase.Settling?
    && (if inTime then c.Quiet() else c.start != Absent || c.action != Absent)
  }

  function Settle(g: Gate, i: nat, settled: bool): Gate
    requires i < |g.calls| && g.calls[i].phase.Settling?
  {
    var invalidated := g.(generation := g.generation + 1, poisoned := !g.calls[i].phase.recovered || !settled);
    Finish(invalidated, i, Interrupted)
  }

  function Step(g: Gate, e: Event): Gate {
    match e
    case Requested(aborted, badDeadline, attempt) =>
      if Refuse(g, aborted, badDeadline).Some? then g else Enter(g, attempt)
    case StartSettled(i, result) =>
      if i < |g.calls| && g.calls[i].start == Pending && result.Settled()
      then g.(calls := g.calls[i := g.calls[i].(start := result)]) else g
    case ActionSettled(i, result) =>
      if i < |g.calls| && g.calls[i].action == Pending && result.Settled()
      then g.(calls := g.calls[i := g.calls[i].(action := result)]) else g
    case AbortFired(i) =>
      if i < |g.calls| && !g.calls[i].phase.Finished?
      then g.(calls := g.calls[i := g.calls[i].(aborted := true)]) else g
    case RaceWon(i, byAbort) =>
      if i < |g.calls| && CanResume(g.calls[i], byAbort) then Resume(g, i, byAbort) else g
    case RecoveryFinished(i, recovered) =>
      if i < |g.calls| && g.calls[i].phase.Recovering?
      then g.(calls := g.calls[i := g.calls[i].(phase := Settling(recovered))]) else g
    case SettlementFinished(i, inTime) =>
      if i < |g.calls| && CanSettle(g.calls[i], inTime) then Settle(g, i, inTime) else g
    case Invalidated => g.(generation := g.generation + 1)
  }

  function Run(g: Gate, events: seq<Event>): Gate
    decreases |events|
  {
    if events == [] then g else Step(Run(g, events[..|events| - 1]), events[|events| - 1])
  }

  // ---- The invariant ----------------------------------------------------------------

  /** An abort, or a promise (or a start that threw at once) that failed with an interruption. */
  ghost predicate MayBeInterrupted(c: Call) {
    c.aborted || c.start in {Rejected(true), Absent} || c.action == Rejected(true)
  }

  /** What must have happened for a call to end like this. */
  ghost predicate Explains(c: Call, outcome: Outcome) {
    match outcome
    case Returned => c.start == Resolved && c.action == Resolved
    case Threw =>
      && !c.aborted
      && ((c.start == Resolved && c.action == Rejected(false))
           || (c.start in {Rejected(false), Absent} && c.action == Absent))
    case Interrupted => MayBeInterrupted(c)
  }

  ghost predicate CallInvariant(c: Call, generation: nat) {
    && c.entered <= generation
    && match c.phase
       case RacingStart => c.action == Absent && c.start != Absent
       case RacingAction => c.start == Resolved && c.action != Absent
       case Recovering => MayBeInterrupted(c)
       case Settling(_) => MayBeInterrupted(c)
       case Finished(outcome, at) =>
         at <= generation && (outcome.Interrupted? ==> c.entered < at) && Explains(c, outcome)
  }

  ghost predicate Invariant(g: Gate) {
    && (forall c | c in g.calls :: CallInvariant(c, g.generation))
    && (forall i :: 0 <= i < |g.calls| - 1 ==> g.calls[i].phase.Finished? && g.calls[i].Quiet())
    && (g.active ==> !g.poisoned && g.calls != [] && !g.calls[|g.calls| - 1].phase.Finished?)
    && (!g.active && g.calls != [] ==> g.calls[|g.calls| - 1].phase.Finished?)
    && (!g.active && !g.poisoned && g.calls != [] ==> g.calls[|g.calls| - 1].Quiet())
  }

  lemma CatchKeepsInvariant(g: Gate, i: nat, interruption: bool)
    requires Invariant(g) && g.active && i == |g.calls| - 1
    requires interruption ==> MayBeInterrupted(g.calls[i])
    requires !g.calls[i].aborted && !interruption ==> g.calls[i].Quiet() && Explains(g.calls[i], Threw)
    ensures Invariant(Catch(g, i, interruption))
  {
    assert CallInvariant(g.calls[i], g.generation);
  }

  lemma SettleKeepsInvariant(g: Gate, i: nat, inTime: bool)
    requires Invariant(g) && i < |g.calls| && CanSettle(g.calls[i], inTime)
    ensures Invariant(Settle(g, i, inTime))
  {
    forall j | 0 <= j < |g.calls| ensures CallInvariant(Settle(g, i, inTime).calls[j], g.generation + 1) {
      assert CallInvariant(g.calls[j], g.generation);
    }
  }

  lemma RequestKeepsInvariant(g: Gate, aborted: bool, badDeadline: bool, attempt: StartAttempt)
    requires Invariant(g)
    ensures Invariant(Step(g, Requested(aborted, badDeadline, attempt)))
  {
    var h := Step(g, Requested(aborted, badDeadline, attempt));
    forall c | c in h.calls ensures CallInvariant(c, h.generation) {
      assert c in g.calls ==> CallInvariant(c, g.generation);
    }
  }

  lemma ResumeKeepsInvariant(g: Gate, i: nat, byAbort: bool)
    requires Invariant(g) && i < |g.calls| && CanResume(g.calls[i], byAbort)
    ensures Invariant(Resume(g, i, byAbort))
  {
    assert i == |g.calls| - 1;
    assert CallInvariant(g.calls[i], g.generation);
    if byAbort {
      CatchKeepsInvariant(g, i, true);
    } else if g.calls[i].phase.RacingStart? && g.calls[i].start.Rejected? {
      CatchKeepsInvariant(g, i, g.calls[i].start.interruption);
    } else if g.calls[i].phase.RacingAction? && g.calls[i].action.Rejected? {
      CatchKeepsInvariant(g, i, g.calls[i].action.interruption);
    }
  }

  lemma StepKeepsInvariant(g: Gate, e: Event)
    requires Invariant(g)
    ensures Invariant(Step(g, e))
  {
    match e {
      case Requested(aborted, badDeadline, attempt) => RequestKeepsInvariant(g, aborted, badDeadline, attempt);
      case RaceWon(i, byAbort) =>
        if i < |g.calls| && CanResume(g.calls[i], byAbort) {
          ResumeKeepsInvariant(g, i, byAbort);
        }
      case SettlementFinished(i, inTime) =>
        if i < |g.calls| && CanSettle(g.calls[i], inTime) {
          SettleKeepsInvariant(g, i, inTime);
        }
      case StartSettled(i, result) =>
        if i < |g.calls| { assert CallInvariant(g.calls[i], g.generation); }
      case ActionSettled(i, result) =>
        if i < |g.calls| { assert CallInvariant(g.calls[i], g.generation); }
      case AbortFired(i) =>
        if i < |g.calls| { assert CallInvariant(g.calls[i], g.generation); }
      case RecoveryFinished(i, recovered) =>
        if i < |g.calls| { assert CallInvariant(g.calls[i], g.generation); }
      case Invalidated =>
        forall c | c in g.calls ensures CallInvariant(c, g.generation + 1) {
          assert CallInvariant(c, g.generation);
        }
    }
  }

  lemma {:induction false} RunKeepsInvariant(g: Gate, events: seq<Event>)
    requires Invariant(g)
    ensures Invariant(Run(g, events))
    decreases |events|
  {
    if events != [] {
      RunKeepsInvariant(g, events[..|events| - 1]);
      StepKeepsInvariant(Run(g, events[..|events| - 1]), events[|events| - 1]);
    }
  }

  // ---- One event at a time -------------------------------------------------------------

  /** Which requests are admitted, and what an admitted one leaves behind. */
  lemma AdmittedExactlyWhen(g: Gate, aborted: bool, badDeadline: bool, attempt: StartAttempt)
    ensures var h := Step(g, Requested(aborted, badDeadline, attempt));
            && (|h.calls| == |g.calls| + 1 <==> !g.active && !g.poisoned && !aborted && !badDeadline)
            && (|h.calls| != |g.calls| + 1 ==> h == g)
            && (|h.calls| == |g.calls| + 1 ==> Admission(g, h, attempt))
  {
  }

  /** The new call is the newest; its start is pending, or threw at once. */
  ghost predicate Admission(g: Gate, h: Gate, attempt: StartAttempt) {
    && |h.calls| == |g.calls| + 1 && h.calls[..|g.calls|] == g.calls
    && h.generation == g.generation && !h.poisoned
    && var c := h.calls[|g.calls|];
       && c.entered == g.generation && !c.aborted && c.action == Absent
       && match attempt
          case StartPending => h.active && c.phase == RacingStart && c.start == Pending
          case StartThrew(interruption) =>
            && c.start == Absent
            && (if interruption then h.active && c.phase == Recovering
                else !h.active && c.phase == Finished(Threw, g.generation))
  }

  /**
   * A race goes to whoever settled first: a started transport lets the action begin, a result opens the gate,
   * an ordinary error opens it too, and an interruption keeps it closed for the recovery.
   */
  lemma TheWinnerOfTheRaceDecides(g: Gate, i: nat, byAbort: bool)
    requires i < |g.calls|
    ensures var c, h := g.calls[i], Step(g, RaceWon(i, byAbort));
            var awaited := if c.phase == RacingStart then c.start else c.action;
            var interrupted := byAbort || c.aborted || awaited == Rejected(true);
            if c.phase !in {RacingStart, RacingAction}
                || (if byAbort then !c.aborted else awaited in {Absent, Pending}) then
              h == g
            else if !byAbort && awaited == Resolved && c.phase == RacingStart then
              h == g.(calls := g.calls[i := c.(phase := RacingAction, action := Pending)])
            else if !byAbort && awaited == Resolved then
              h == g.(active := false, calls := g.calls[i := c.(phase := Finished(Returned, g.generation))])
            else if interrupted then
              h == g.(calls := g.calls[i := c.(phase := Recovering)])
            else
              h == g.(active := false, calls := g.calls[i := c.(phase := Finished(Threw, g.generation))])
  {
  }

  /** Recovery and settlement together decide whether the session may go on, in a new generation. */
  lemma RecoveryAndSettlementDecide(g: Gate, i: nat, recovered: bool, inTime: bool)
    requires i < |g.calls| && g.calls[i].phase == Recovering
    ensures var c := g.calls[i];
            var waiting := g.(calls := g.calls[i := c.(phase := Settling(recovered))]);
            && Step(g, RecoveryFinished(i, recovered)) == waiting
            && Step(waiting, SettlementFinished(i, inTime)) ==
               if (if inTime then c.start != Pending && c.action != Pending
                   else c.start != Absent || c.action != Absent)
               then Gate(false, !(recovered && inTime), g.generation + 1,
                         g.calls[i := c.(phase := Finished(Interrupted, g.generation + 1))])
               else waiting
  {
    var settling := g.calls[i := g.calls[i].(phase := Settling(recovered))];
    assert settling[i := g.calls[i].(phase := Finished(Interrupted, g.generation + 1))]
           == g.calls[i := g.calls[i].(phase := Finished(Interrupted, g.generation + 1))];
  }

  /** Promises settle once, an abort reaches any call that has not ended, and nothing else about a call changes. */
  lemma OutsideEventsAreNoted(g: Gate, i: nat, result: Promise)
    requires i < |g.calls| && result in {Resolved, Rejected(false), Rejected(true)}
    ensures var c := g.calls[i];
            && Step(g, StartSettled(i, result)) ==
               g.(calls := g.calls[i := if c.start == Pending then c.(start := result) else c])
            && Step(g, ActionSettled(i, result)) ==
               g.(calls := g.calls[i := if c.action == Pending then c.(action := result) else c])
            && Step(g, AbortFired(i)) ==
               g.(calls := g.calls[i := if c.phase.Finished? then c else c.(aborted := true)])
            && Step(g, Invalidated) == g.(generation := g.generation + 1)
  {
    assert g.calls[i := g.calls[i]] == g.calls;
  }

  // ---- What every run guarantees -------------------------------------------------------

  /** How many requests found the gate open and were neither cancelled nor without a valid deadline. */
  ghost function Admissions(events: seq<Event>): nat {
    if events == [] then 0
    else
      var init, last := events[..|events| - 1], events[|events| - 1];
      var g := Run(Initial(), init);
      var admitted := last.Requested? && !last.aborted && !last.badDeadline && !g.active && !g.poisoned;
      Admissions(init) + (if admitted then 1 else 0)
  }

  lemma OnlyRequestsAddCalls(g: Gate, e: Event)
    requires !e.Requested?
    ensures |Step(g, e).calls| == |g.calls|
  {
  }

  lemma {:induction false} CallsAreTheAdmittedRequests(events: seq<Event>)
    ensures |Run(Initial(), events).calls| == Admissions(events)
  {
    if events != [] {
      var g, last := Run(Initial(), events[..|events| - 1]), events[|events| - 1];
      if last.Requested? {
        AdmittedExactlyWhen(g, last.aborted, last.badDeadline, last.attempt);
      } else {
        OnlyRequestsAddCalls(g, last);
      }
      CallsAreTheAdmittedRequests(events[..|events| - 1]);
    }
  }

  /** A call returns only with the result of its action, and throws only for an ordinary failure. */
  lemma OutcomesAreExplained(events: seq<Event>)
    ensures forall c :: c in Run(Initial(), events).calls && c.phase.Finished? ==>
              match c.phase.outcome
              case Returned => c.start == Resolved && c.action == Resolved
              case Threw =>
                !c.aborted && (c.action == Rejected(false)
                    || (c.action == Absent && c.start in {Rejected(false), Absent}))
              case Interrupted => c.aborted || c.start in {Rejected(true), Absent} || c.action == Rejected(true)
  {
    RunKeepsInvariant(Initial(), events);
    forall c | c in Run(Initial(), events).calls && c.phase.Finished?
      ensures Explains(c, c.phase.outcome)
    {
      assert CallInvariant(c, Run(Initial(), events).generation);
    }
  }

  /** Whenever the gate is open, nothing any earlier call started is still running. */
  lemma OpenGateMeansNothingPending(events: seq<Event>)
    ensures var g := Run(Initial(), events);
            !g.active && !g.poisoned ==> forall c :: c in g.calls ==> c.Quiet()
  {
    RunKeepsInvariant(Initial(), events);
  }

  /** Pending work belongs to the newest call only: a new action never overlaps an old one, poisoned or not. */
  lemma OnlyTheNewestCallCanBePending(events: seq<Event>, i: nat)
    ensures var g := Run(Initial(), events);
            i < |g.calls| && (!g.calls[i].Quiet() || !g.calls[i].phase.Finished?) ==> i == |g.calls| - 1
  {
    RunKeepsInvariant(Initial(), events);
  }

  /** Every interrupted call ends in a later generation than it began, so the refs it used are dead. */
  lemma InterruptionsEndTheGeneration(events: seq<Event>)
    ensures forall c :: c in Run(Initial(), events).calls && c.phase.Finished? && c.phase.outcome.Interrupted? ==>
              c.entered < c.phase.generation <= Run(Initial(), events).generation
  {
    RunKeepsInvariant(Initial(), events);
    forall c | c in Run(Initial(), events).calls && c.phase.Finished? && c.phase.outcome.Interrupted?
      ensures c.entered < c.phase.generation <= Run(Initial(), events).generation
    {
      assert CallInvariant(c, Run(Initial(), events).generation);
    }
  }

  lemma StepKeepsPoison(g: Gate, e: Event)
    requires Invariant(g) && g.poisoned
    ensures Step(g, e).poisoned && |Step(g, e).calls| == |g.calls|
  {
  }

  /** Poison is for good: the session stays poisoned and admits no further call. */
  lemma {:induction false} PoisonIsPermanent(before: seq<Event>, after: seq<Event>)
    requires Run(Initial(), before).poisoned
    ensures var g := Run(Run(Initial(), before), after);
            g.poisoned && |g.calls| == |Run(Initial(), before).calls|
    decreases |after|
  {
    RunKeepsInvariant(Initial(), before);
    if after != [] {
      var init := after[..|after| - 1];
      PoisonIsPermanent(before, init);
      RunKeepsInvariant(Run(Initial(), before), init);
      StepKeepsPoison(Run(Run(Initial(), before), init), after[|after| - 1]);
    }
  }

  lemma {:induction false} PoisonStays(events: seq<Event>, n: nat)
    requires n <= |events| && Run(Initial(), events[..n]).poisoned
    ensures Run(Initial(), events).poisoned
    decreases |events|
  {
    if n < |events| {
      var init := events[..|events| - 1];
      assert init[..n] == events[..n];
      PoisonStays(init, n);
      RunKeepsInvariant(Initial(), init);
      StepKeepsPoison(Run(Initial(), init), events[|events| - 1]);
    } else {
      assert events[..n] == events;
    }
  }

  /** The gate reopens after an interruption exactly when recovery worked and everything settled in time. */
  lemma ReopensExactlyWhenRecoveredAndSettled(events: seq<Event>, i: nat, inTime: bool)
    ensures var g := Run(Initial(), events);
            i < |g.calls| && CanSettle(g.calls[i], inTime) ==>
              var next := Step(g, SettlementFinished(i, inTime));
              && !next.active
              && next.generation == g.generation + 1
              && (!next.poisoned <==> g.calls[i].phase.recovered && inTime)
              && (!next.poisoned ==> forall c :: c in next.calls ==> c.Quiet())
  {
    RunKeepsInvariant(Initial(), events);
    StepKeepsInvariant(Run(Initial(), events), SettlementFinished(i, inTime));
  }

  // ---- The session object ---------------------------------------------------------------

  /** The fields of the session and the calls suspended in `execute`, updated step by step. */
  class BrowserCoreSession {
    var active: bool
    var poisoned: bool
    var generation: nat
    var calls: seq<Call>

    constructor ()
      ensures View() == Initial() && !active && !poisoned && generation == 0 && calls == []
    {
      active, poisoned, generation, calls := false, false, 0, [];
    }

    ghost function View(): Gate
      reads this
    {
      Gate(active, poisoned, generation, calls)
    }

    method SetPhase(i: nat, phase: Phase)
      requires i < |calls|
      modifies this`calls
      ensures calls == old(calls)[i := old(calls)[i].(phase := phase)]
    {
      calls := calls[i := calls[i].(phase := phase)];
    }

    /** The finally block. */
    method Release(i: nat, outcome: Outcome)
      requires i < |calls|
      modifies this
      ensures View() == Finish(old(View()), i, outcome)
    {
      SetPhase(i, Finished(outcome, generation));
      active := false;
    }

    method HandleError(i: nat, interruption: bool)
      requires i < |calls|
      modifies this
      ensures View() == Catch(old(View()), i, interruption)
    {
      if calls[i].aborted || interruption {
        SetPhase(i, Recovering);
      } else {
        Release(i, Threw);
      }
    }

    method Execute(aborted: bool, badDeadline: bool, attempt: StartAttempt) returns (refusal: Option<Refusal>)
      modifies this
      ensures refusal ==
              if old(active) then Some(Busy) else if old(poisoned) then Some(Poisoned)
              else if aborted then Some(Aborted) else if badDeadline then Some(BadDeadline) else None
      ensures refusal == None ==> Admission(old(View()), View(), attempt)
      ensures refusal != None ==> View() == old(View())
      ensures View() == Step(old(View()), Requested(aborted, badDeadline, attempt))
    {
      if active { return Some(Busy); }
      if poisoned { return Some(Poisoned); }
      if aborted { return Some(Aborted); }
      if badDeadline { return Some(BadDeadline); }
      refusal := None;
      active := true;
      match attempt {
        case StartPending =>
          calls := calls + [Call(RacingStart, Pending, Absent, false, generation)];
        case StartThrew(interruption) =>
          calls := calls + [Call(RacingStart, Absent, Absent, false, generation)];
          HandleError(|calls| - 1, interruption);
      }
    }

    method ResumeRace(i: nat, byAbort: bool)
      requires i < |calls| && CanResume(calls[i], byAbort)
      modifies this
      ensures View() == Step(old(View()), RaceWon(i, byAbort))
    {
      if byAbort {
        HandleError(i, true);
      } else if calls[i].phase.RacingStart? {
        if calls[i].start.Resolved? {
          calls := calls[i := calls[i].(phase := RacingAction, action := Pending)];
        } else {
          HandleError(i, calls[i].start.interruption);
        }
      } else if calls[i].action.Resolved? {
        Release(i, Returned);
      } else {
        HandleError(i, calls[i].action.interruption);
      }
    }

    method ResumeAfterRecovery(i: nat, recovered: bool)
      requires i < |calls| && calls[i].phase.Recovering?
      modifies this
      ensures View() == Step(old(View()), RecoveryFinished(i, recovered))
    {
      SetPhase(i, Settling(recovered));
    }

    method ResumeAfterSettlement(i: nat, inTime: bool)
      requires i < |calls| && CanSettle(calls[i], inTime)
      modifies this
      ensures View() == Step(old(View()), SettlementFinished(i, inTime))
    {
      var recovered := calls[i].phase.recovered;
      Invalidate();
      poisoned := !recovered || !inTime;
      Release(i, Interrupted);
    }

    method Invalidate()
      modifies this`generation
      ensures generation == old(generation) + 1
      ensures View() == Step(old(View()), Invalidated)
    {
      generation := generation + 1;
    }

    /** Whatever happens next: a request, a promise that settles, an abort, or a call that goes on. */
    method Handle(e: Event)
      modifies this
      ensures View() == Step(old(View()), e)
    {
      match e {
        case Requested(aborted, badDeadline, attempt) =>
          var _ := Execute(aborted, badDeadline, attempt);
        case StartSettled(i, result) =>
          if i < |calls| && calls[i].start == Pending && result.Settled() {
            calls := calls[i := calls[i].(start := result)];
          }
        case ActionSettled(i, result) =>
          if i < |calls| && calls[i].action == Pending && result.Settled() {
            calls := calls[i := calls[i].(action := result)];
          }
        case AbortFired(i) =>
          if i < |calls| && !calls[i].phase.Finished? {
            calls := calls[i := calls[i].(aborted := true)];
          }
        case RaceWon(i, byAbort) =>
          if i < |calls| && CanResume(calls[i], byAbort) {
            ResumeRace(i, byAbort);
          }
        case RecoveryFinished(i, recovered) =>
          if i < |calls| && calls[i].phase.Recovering? {
            ResumeAfterRecovery(i, recovered);
          }
        case SettlementFinished(i, inTime) =>
          if i < |calls| && CanSettle(calls[i], inTime) {
            ResumeAfterSettlement(i, inTime);
          }
        case Invalidated => Invalidate();
      }
    }

    method HandleAll(events: seq<Event>)
      modifies this
      ensures View() == Run(old(View()), events)
    {
      for n := 0 to |events|
        invariant View() == Run(old(View()), events[..n])
      {
        assert events[..n + 1][..n] == events[..n];
        Handle(events[n]);
      }
      assert events[..|events|] == events;
    }

    /**
     * The life of a session: in any order of events, there is one call for each admitted request, every
     * outcome is explained by what the promises and the signal of the call did, an open gate means that
     * nothing is pending, only the newest call can be unfinished, interrupted calls ended the generation
     * they began in, and a session that was poisoned at any time still is.
     */
    method Serve(events: seq<Event>)
      requires View() == Initial()
      modifies this
      ensures !active && !poisoned ==> forall c :: c in calls ==> c.Quiet()
      ensures forall i :: 0 <= i < |calls| - 1 ==> calls[i].phase.Finished? && calls[i].Quiet()
      ensures forall c :: c in calls && c.phase.Finished? && c.phase.outcome.Interrupted? ==>
        c.entered < c.phase.generation <= generation
      ensures forall n :: 0 <= n <= |events| && Run(Initial(), events[..n]).poisoned ==> poisoned
      ensures active ==> calls != [] && !calls[|calls| - 1].phase.Finished?
      ensures |calls| == Admissions(events)
      ensures forall c :: c in calls && c.phase.Finished? ==> Explains(c, c.phase.outcome)
    {
      HandleAll(events);
      RunKeepsInvariant(Initial(), events);
      InterruptionsEndTheGeneration(events);
      CallsAreTheAdmittedRequests(events);
      OutcomesAreExplained(events);
      forall n | 0 <= n <= |events| && Run(Initial(), events[..n]).poisoned ensures poisoned {
        PoisonStays(events, n);
      }
    }
  }
}
