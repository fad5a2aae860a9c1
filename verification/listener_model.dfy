// The listener initializations of packages/browser-core/src/cdp-helper.ts as
// a state machine. An asynchronous initialization is a task that stops at each
// await; between any two of its segments the listener may be reset.

module ListenerModel {
  import opened Options

  datatype Kind = Base | Dom | Console | Network

  /** Where a task waits. A domain task waits once, the base task up to three times. */
  datatype Stage = Attaching | EnablingPage | ReadingFrame | Enabling | Settled

  /** How an enable command ends: an interruption is rethrown, any other failure is a plain "no". */
  datatype Answer = Enabled | Refused | Interrupted

  datatype FrameAnswer = FrameIs(frame: Option<string>) | FrameInterrupted

  datatype Listener = Listener(
    generation: nat,
    transport: nat,
    desired: bool,
    attached: bool,
    domEnabled: bool,
    pageEnabled: bool,
    consoleEnabled: bool,
    networkEnabled: bool,
    consoleFrame: Option<string>,
    networkFrame: Option<string>,
    registered: map<Kind, nat>)

  /** Generation and transport are those captured at creation; `succeeded` says its enable command was obeyed. */
  datatype Task = Task(kind: Kind, generation: nat, transport: nat, stage: Stage, succeeded: bool)

  datatype System = System(listener: Listener, tasks: map<nat, Task>, next: nat)

  datatype Event =
    | Desire
    | Ensure(kind: Kind)
    | Remove
    | Stop
    | SetTransport(transport: nat)
    | FrameChanged(frame: Option<string>)
    | AttachAnswered(id: nat, attached: bool)
    | PageAnswered(id: nat, answer: Answer)
    | FrameAnswered(id: nat, frameAnswer: FrameAnswer)
    | DomainAnswered(id: nat, answer: Answer)
    | Cleared(id: nat)

  // ---- The listener ------------------------------------------------------------

  function Fresh(transport: nat): Listener {
    Listener(0, transport, false, false, false, false, false, false, None, None, map[])
  }

  predicate IsCurrent(l: Listener, transport: nat, generation: nat) {
    l.desired && l.attached && l.transport == transport && l.generation == generation
  }

  predicate BaseReady(l: Listener) {
    l.attached && l.pageEnabled && l.consoleFrame.Some? && l.networkFrame.Some?
  }

  predicate Ready(l: Listener, kind: Kind) {
    match kind
    case Base => BaseReady(l)
    case Dom => l.domEnabled
    case Console => l.consoleEnabled
    case Network => l.networkEnabled
  }

  function Removed(l: Listener): Listener {
    Listener(l.generation + 1, l.transport, l.desired, false, false, false, false, false, None, None, map[])
  }

  function AttachListener(l: Listener): Listener {
    l.(attached := true, consoleFrame := None, networkFrame := None)
  }

  function Forget(l: Listener, kind: Kind, id: nat): Listener {
    if kind in l.registered && l.registered[kind] == id then l.(registered := l.registered - {kind}) else l
  }

  function SetReady(l: Listener, kind: Kind, ready: bool): Listener {
    match kind
    case Base => l
    case Dom => l.(domEnabled := ready)
    case Console => l.(consoleEnabled := ready)
    case Network => l.(networkEnabled := ready)
  }

  // ---- The segments of the initializations ---------------------------------------

  /** Up to the first await; a domain initialization may end before it sends anything. */
  function FirstStage(l: Listener, kind: Kind): Stage {
    if kind == Base then Attaching
    else if (kind != Dom && !BaseReady(l)) || !IsCurrent(l, l.transport, l.generation) then Settled
    else Enabling
  }

  function AfterAttach(l: Listener, t: Task, attached: bool): (Listener, Stage) {
    if !attached then (l, Settled)
    else
      var now := if l.attached then l else AttachListener(l);
      if !IsCurrent(now, t.transport, t.generation) then (now, Settled)
      else if !now.pageEnabled then (now, EnablingPage)
      else AfterPage(now, t)
  }

  function AfterPage(l: Listener, t: Task): (Listener, Stage) {
    if !IsCurrent(l, t.transport, t.generation) || !l.pageEnabled then (l, Settled)
    else if l.consoleFrame.None? then (l, ReadingFrame)
    else (WithNetworkFrame(l), Settled)
  }

  /** The flag is assigned before anything is checked again. */
  function AfterPageAnswer(l: Listener, t: Task, answer: Answer): (Listener, Stage) {
    if answer == Interrupted then (l, Settled) else AfterPage(l.(pageEnabled := answer == Enabled), t)
  }

  function AfterFrame(l: Listener, t: Task, answer: FrameAnswer): (Listener, Stage) {
    if answer.FrameInterrupted? || !IsCurrent(l, t.transport, t.generation) then (l, Settled)
    else (WithNetworkFrame(l.(consoleFrame := answer.frame, networkFrame := answer.frame)), Settled)
  }

  function WithNetworkFrame(l: Listener): Listener {
    if l.networkFrame.None? then l.(networkFrame := l.consoleFrame) else l
  }

  function AfterDomain(l: Listener, t: Task, answer: Answer): Listener {
    if answer == Interrupted || !IsCurrent(l, t.transport, t.generation) then l
    else SetReady(l, t.kind, answer == Enabled)
  }

  // ---- Steps ---------------------------------------------------------------------

  predicate Waits(s: System, id: nat, stage: Stage) {
    id in s.tasks && s.tasks[id].stage == stage
  }

  function Advance(s: System, id: nat, succeeded: bool, next: (Listener, Stage)): System
    requires id in s.tasks
  {
    s.(listener := next.0,
       tasks := s.tasks[id := s.tasks[id].(stage := next.1, succeeded := s.tasks[id].succeeded || succeeded)])
  }

  function Step(s: System, e: Event): System {
    var l := s.listener;
    match e
    case Desire => s.(listener := l.(desired := true))
    case Ensure(kind) =>
      if Ready(l, kind) || kind in l.registered then s
      else
        s.(listener := l.(registered := l.registered[kind := s.next]),
           tasks := s.tasks[s.next := Task(kind, l.generation, l.transport, FirstStage(l, kind), false)],
           next := s.next + 1)
    case Remove => s.(listener := Removed(l))
    case Stop => s.(listener := Removed(l.(desired := false)))
    case SetTransport(transport) => s.(listener := Removed(l.(desired := false)).(transport := transport))
    case FrameChanged(frame) =>
      if l.attached then s.(listener := l.(consoleFrame := frame, networkFrame := frame)) else s
    case AttachAnswered(id, attached) =>
      if Waits(s, id, Attaching) then Advance(s, id, false, AfterAttach(l, s.tasks[id], attached)) else s
    case PageAnswered(id, answer) =>
      if Waits(s, id, EnablingPage) then
        Advance(s, id, answer == Enabled, AfterPageAnswer(l, s.tasks[id], answer))
      else s
    case FrameAnswered(id, answer) =>
      if Waits(s, id, ReadingFrame) then Advance(s, id, false, AfterFrame(l, s.tasks[id], answer)) else s
    case DomainAnswered(id, answer) =>
      if Waits(s, id, Enabling) then
        Advance(s, id, answer == Enabled, (AfterDomain(l, s.tasks[id], answer), Settled))
      else s
    case Cleared(id) =>
      if Waits(s, id, Settled) then s.(listener := Forget(l, s.tasks[id].kind, id)) else s
  }

  function Run(s: System, events: seq<Event>): System {
    if events == [] then s else Step(Run(s, events[..|events| - 1]), events[|events| - 1])
  }

  function Initial(transport: nat): System {
    System(Fresh(transport), map[], 0)
  }

  // ---- What every interleaving keeps ------------------------------------------------

  /** The task belongs to the current generation and has not settled. */
  ghost predicate Unfinished(s: System, id: nat)
    requires id in s.tasks
  {
    s.tasks[id].generation == s.listener.generation && s.tasks[id].stage != Settled
  }

  /** An enable command of this task was sent in the current generation, on the current transport, and obeyed. */
  ghost predicate EnabledNow(s: System, id: nat, kind: Kind) {
    && id in s.tasks && s.tasks[id].kind == kind && s.tasks[id].succeeded
    && s.tasks[id].generation == s.listener.generation && s.tasks[id].transport == s.listener.transport
  }

  ghost predicate TaskOk(s: System, id: nat)
    requires id in s.tasks
  {
    var t, l := s.tasks[id], s.listener;
    && id < s.next
    && t.generation <= l.generation
    && (t.generation == l.generation ==> t.transport == l.transport)
    && (t.stage in {Attaching, EnablingPage, ReadingFrame} ==> t.kind == Base)
    && (t.stage == Enabling ==> t.kind != Base)
    && (Unfinished(s, id) ==> t.kind in l.registered && l.registered[t.kind] == id)
    && (Unfinished(s, id) && t.kind != Base ==> l.desired && l.attached && !Ready(l, t.kind) && !t.succeeded)
    && (Unfinished(s, id) && t.stage in {EnablingPage, ReadingFrame} ==> l.desired && l.attached)
    && (t.generation == l.generation && t.succeeded && t.kind != Base ==> Ready(l, t.kind))
  }

  ghost predicate RegisteredOk(s: System, kind: Kind)
    requires kind in s.listener.registered
  {
    var id := s.listener.registered[kind];
    id in s.tasks && s.tasks[id].kind == kind && s.tasks[id].generation == s.listener.generation
  }

  ghost predicate Justified(s: System, kind: Kind) {
    exists id :: EnabledNow(s, id, kind)
  }

  /** Still waiting, or its domain command was obeyed. */
  predicate Active(t: Task) {
    t.stage != Settled || (t.kind != Base && t.succeeded)
  }

  /** Two tasks doing, or having done, the same work in the same generation. */
  ghost predicate Rivals(s: System, a: nat, b: nat) {
    && a in s.tasks && b in s.tasks && a != b
    && s.tasks[a].kind == s.tasks[b].kind && s.tasks[a].generation == s.tasks[b].generation
    && Active(s.tasks[a]) && Active(s.tasks[b])
  }

  ghost predicate Invariant(s: System) {
    && (forall id :: id in s.tasks ==> TaskOk(s, id))
    && (forall kind :: kind in s.listener.registered ==> RegisteredOk(s, kind))
    && (forall kind :: kind != Base && Ready(s.listener, kind) ==> Justified(s, kind))
    && (forall a: nat, b: nat :: !Rivals(s, a, b))
  }

  lemma EnsureKeepsInvariant(s: System, kind: Kind)
    requires Invariant(s)
    ensures Invariant(Step(s, Ensure(kind)))
  {
    var after := Step(s, Ensure(kind));
    if after != s {
      assert s.next !in s.tasks by {
        assert s.next in s.tasks ==> TaskOk(s, s.next);
      }
      forall id | id in after.tasks ensures TaskOk(after, id) {
        if id != s.next {
          assert TaskOk(s, id);
        }
      }
      forall k | k in after.listener.registered ensures RegisteredOk(after, k) {
        assert k != kind ==> RegisteredOk(s, k);
      }
      forall k | k != Base && Ready(after.listener, k) ensures Justified(after, k) {
        assert Ready(s.listener, k);
        var id :| EnabledNow(s, id, k);
        assert EnabledNow(after, id, k);
      }
      forall a: nat, b: nat ensures !Rivals(after, a, b) {
        assert !Rivals(s, a, b);
      }
    }
  }

  lemma ResetKeepsInvariant(s: System, e: Event)
    requires Invariant(s) && (e.Remove? || e.Stop? || e.SetTransport?)
    ensures Invariant(Step(s, e))
  {
    var after := Step(s, e);
    forall id | id in after.tasks ensures TaskOk(after, id) {
      assert TaskOk(s, id);
    }
    forall a: nat, b: nat ensures !Rivals(after, a, b) {
      assert !Rivals(s, a, b);
    }
  }

  /** A base task moves on and may attach the listener or set the page flag and the frames. */
  lemma BaseKeepsInvariant(s: System, id: nat, succeeded: bool, next: (Listener, Stage))
    requires Invariant(s) && id in s.tasks && s.tasks[id].kind == Base && s.tasks[id].stage != Settled
    requires next.1 in {EnablingPage, ReadingFrame, Settled}
    requires next.0 == s.listener.(attached := next.0.attached, pageEnabled := next.0.pageEnabled,
                                   consoleFrame := next.0.consoleFrame, networkFrame := next.0.networkFrame)
    requires s.listener.attached ==> next.0.attached
    requires next.1 != Settled ==> next.0.desired && next.0.attached
    ensures Invariant(Advance(s, id, succeeded, next))
  {
    var after := Advance(s, id, succeeded, next);
    forall i | i in after.tasks ensures TaskOk(after, i) {
      assert TaskOk(s, i);
    }
    forall k | k in after.listener.registered ensures RegisteredOk(after, k) {
      assert RegisteredOk(s, k);
    }
    forall k | k != Base && Ready(after.listener, k) ensures Justified(after, k) {
      assert Ready(s.listener, k);
      var i :| EnabledNow(s, i, k);
      assert EnabledNow(after, i, k);
    }
    forall a: nat, b: nat ensures !Rivals(after, a, b) {
      assert !Rivals(s, a, b);
    }
  }

  lemma DomainKeepsTask(s: System, id: nat, answer: Answer, i: nat)
    requires Invariant(s) && Waits(s, id, Enabling) && i in s.tasks
    ensures TaskOk(Step(s, DomainAnswered(id, answer)), i)
  {
    assert TaskOk(s, id) && TaskOk(s, i);
  }

  lemma DomainKeepsInvariant(s: System, id: nat, answer: Answer)
    requires Invariant(s) && Waits(s, id, Enabling)
    ensures Invariant(Step(s, DomainAnswered(id, answer)))
  {
    var after := Step(s, DomainAnswered(id, answer));
    assert TaskOk(s, id);
    forall i | i in after.tasks ensures TaskOk(after, i) {
      DomainKeepsTask(s, id, answer, i);
    }
    forall k | k in after.listener.registered ensures RegisteredOk(after, k) {
      assert RegisteredOk(s, k);
    }
    forall k | k != Base && Ready(after.listener, k) ensures Justified(after, k) {
      if Ready(s.listener, k) {
        var i :| EnabledNow(s, i, k);
        assert EnabledNow(after, i, k);
      } else {
        assert EnabledNow(after, id, k);
      }
    }
    forall a: nat, b: nat ensures !Rivals(after, a, b) {
      assert !Rivals(s, a, b);
    }
  }

  lemma AttachKeepsInvariant(s: System, id: nat, attached: bool)
    requires Invariant(s) && Waits(s, id, Attaching)
    ensures Invariant(Step(s, AttachAnswered(id, attached)))
  {
    assert TaskOk(s, id);
    BaseKeepsInvariant(s, id, false, AfterAttach(s.listener, s.tasks[id], attached));
  }

  lemma PageKeepsInvariant(s: System, id: nat, answer: Answer)
    requires Invariant(s) && Waits(s, id, EnablingPage)
    ensures Invariant(Step(s, PageAnswered(id, answer)))
  {
    assert TaskOk(s, id);
    BaseKeepsInvariant(s, id, answer == Enabled, AfterPageAnswer(s.listener, s.tasks[id], answer));
  }

  lemma FrameKeepsInvariant(s: System, id: nat, answer: FrameAnswer)
    requires Invariant(s) && Waits(s, id, ReadingFrame)
    ensures Invariant(Step(s, FrameAnswered(id, answer)))
  {
    assert TaskOk(s, id);
    BaseKeepsInvariant(s, id, false, AfterFrame(s.listener, s.tasks[id], answer));
  }

  lemma StepKeepsInvariant(s: System, e: Event)
    requires Invariant(s)
    ensures Invariant(Step(s, e))
  {
    match e
    case Ensure(kind) => EnsureKeepsInvariant(s, kind);
    case Remove => ResetKeepsInvariant(s, e);
    case Stop => ResetKeepsInvariant(s, e);
    case SetTransport(_) => ResetKeepsInvariant(s, e);
    case AttachAnswered(id, attached) => if Waits(s, id, Attaching) { AttachKeepsInvariant(s, id, attached); }
    case PageAnswered(id, answer) => if Waits(s, id, EnablingPage) { PageKeepsInvariant(s, id, answer); }
    case FrameAnswered(id, answer) => if Waits(s, id, ReadingFrame) { FrameKeepsInvariant(s, id, answer); }
    case DomainAnswered(id, answer) => if Waits(s, id, Enabling) { DomainKeepsInvariant(s, id, answer); }
    case Desire => SameTasks(s, e);
    case FrameChanged(_) => SameTasks(s, e);
    case Cleared(_) => SameTasks(s, e);
  }

  lemma SameTasks(s: System, e: Event)
    requires Invariant(s) && (e.Desire? || e.FrameChanged? || e.Cleared?)
    ensures Invariant(Step(s, e))
  {
    var after := Step(s, e);
    SameTasksStayOk(s, e);
    forall k | k != Base && Ready(after.listener, k) ensures Justified(after, k) {
      assert Ready(s.listener, k);
      var id :| EnabledNow(s, id, k);
      assert EnabledNow(after, id, k);
    }
    forall a: nat, b: nat ensures !Rivals(after, a, b) {
      assert !Rivals(s, a, b);
    }
  }

  lemma SameTasksStayOk(s: System, e: Event)
    requires Invariant(s) && (e.Desire? || e.FrameChanged? || e.Cleared?)
    ensures var after := Step(s, e);
      && (forall id :: id in after.tasks ==> TaskOk(after, id))
      && forall k :: k in after.listener.registered ==> RegisteredOk(after, k)
  {
    var after := Step(s, e);
    forall id | id in after.tasks ensures TaskOk(after, id) {
      assert TaskOk(s, id);
    }
    forall k | k in after.listener.registered ensures RegisteredOk(after, k) {
      assert RegisteredOk(s, k);
    }
  }

  lemma {:induction false} RunKeepsInvariant(transport: nat, events: seq<Event>)
    ensures Invariant(Run(Initial(transport), events))
  {
    if events != [] {
      RunKeepsInvariant(transport, events[..|events| - 1]);
      StepKeepsInvariant(Run(Initial(transport), events[..|events| - 1]), events[|events| - 1]);
    }
  }

  /**
   * After any run: the dom, console and network flags say exactly whether an enable command sent in the
   * current generation over the current transport was obeyed.
   */
  lemma ReadyExactlyWhenEnabledInThisGeneration(transport: nat, events: seq<Event>, kind: Kind)
    requires kind != Base
    ensures var s := Run(Initial(transport), events);
      Ready(s.listener, kind) <==> exists id :: EnabledNow(s, id, kind)
    ensures var l := Run(Initial(transport), events).listener;
      Ready(l, kind) <==> (kind == Dom && l.domEnabled) || (kind == Console && l.consoleEnabled)
                          || (kind == Network && l.networkEnabled)
  {
    RunKeepsInvariant(transport, events);
    var s := Run(Initial(transport), events);
    if id :| EnabledNow(s, id, kind) {
      assert TaskOk(s, id);
    }
    if Ready(s.listener, kind) {
      assert Justified(s, kind);
    }
  }

  /** After any run: work of one kind is never done, nor being done, twice in one generation. */
  lemma WorkIsNeverDuplicated(transport: nat, events: seq<Event>, a: nat, b: nat)
    requires var s := Run(Initial(transport), events);
      && a in s.tasks && b in s.tasks && s.tasks[a].kind == s.tasks[b].kind
      && s.tasks[a].generation == s.tasks[b].generation
      && (s.tasks[a].stage != Settled || (s.tasks[a].kind != Base && s.tasks[a].succeeded))
      && (s.tasks[b].stage != Settled || (s.tasks[b].kind != Base && s.tasks[b].succeeded))
    ensures a == b
  {
    RunKeepsInvariant(transport, events);
    assert !Rivals(Run(Initial(transport), events), a, b);
  }

  /** A task of an ended generation can no longer touch the registrations or the domain flags. */
  lemma LateSettlementsLeaveNewerWorkAlone(transport: nat, events: seq<Event>, id: nat, e: Event)
    requires var s := Run(Initial(transport), events);
      id in s.tasks && s.tasks[id].generation < s.listener.generation
    requires IsSettlement(e) && e.id == id
    ensures var s := Run(Initial(transport), events);
      var after := Step(s, e);
      && after.listener.registered == s.listener.registered
      && after.listener.generation == s.listener.generation
      && (forall kind :: kind != Base ==> (Ready(after.listener, kind) <==> Ready(s.listener, kind)))
      && (forall other :: other != id && other in s.tasks ==>
           other in after.tasks && after.tasks[other] == s.tasks[other])
  {
    RunKeepsInvariant(transport, events);
    var s := Run(Initial(transport), events);
    var kind := s.tasks[id].kind;
    assert kind in s.listener.registered ==> RegisteredOk(s, kind);
    OnlyResetsEndAGeneration(s, e);
    StaleAnswersSetNoDomain(s, e);
  }

  predicate IsSettlement(e: Event) {
    e.AttachAnswered? || e.PageAnswered? || e.FrameAnswered? || e.DomainAnswered? || e.Cleared?
  }

  predicate SameDomains(l: Listener, m: Listener) {
    l.domEnabled == m.domEnabled && l.consoleEnabled == m.consoleEnabled && l.networkEnabled == m.networkEnabled
  }

  lemma StaleAnswersSetNoDomain(s: System, e: Event)
    requires IsSettlement(e) && e.id in s.tasks && s.tasks[e.id].generation < s.listener.generation
    ensures var l, after := s.listener, Step(s, e).listener;
      SameDomains(l, after)
  {
    var l, t := s.listener, s.tasks[e.id];
    match e
    case AttachAnswered(id, attached) =>
      var after := AfterAttach(l, t, attached).0;
      assert SameDomains(l, after);
    case PageAnswered(id, answer) =>
      var after := AfterPageAnswer(l, t, answer).0;
      assert SameDomains(l, after);
    case FrameAnswered(id, answer) =>
      assert AfterFrame(l, t, answer).0 == l;
    case DomainAnswered(id, answer) =>
      assert AfterDomain(l, t, answer) == l;
    case Cleared(id) =>
  }

  predicate IsReset(e: Event) {
    e.Remove? || e.Stop? || e.SetTransport?
  }

  /** Whatever settles, the generation, the transport and what was registered stay. */
  lemma OnlyResetsEndAGeneration(s: System, e: Event)
    requires !IsReset(e)
    ensures var l, after := s.listener, Step(s, e).listener;
      && after.generation == l.generation && after.transport == l.transport
      && (!e.Ensure? && !e.Cleared? ==> after.registered == l.registered)
      && (after.pageEnabled && !l.pageEnabled ==>
            e.PageAnswered? && e.answer == Enabled && Waits(s, e.id, EnablingPage))
  {
    var l := s.listener;
    match e
    case AttachAnswered(id, attached) => if Waits(s, id, Attaching) { AttachingTouches(l, s.tasks[id], attached); }
    case PageAnswered(id, answer) => if Waits(s, id, EnablingPage) { PageAnswersTouch(l, s.tasks[id], answer); }
    case FrameAnswered(id, answer) => if Waits(s, id, ReadingFrame) { FrameAnswersTouch(l, s.tasks[id], answer); }
    case DomainAnswered(id, answer) => if Waits(s, id, Enabling) { DomainAnswersTouch(l, s.tasks[id], answer); }
    case _ =>
  }

  lemma AttachingTouches(l: Listener, t: Task, attached: bool)
    ensures var after := AfterAttach(l, t, attached).0;
      after == l.(attached := after.attached, consoleFrame := after.consoleFrame, networkFrame := after.networkFrame)
  {
  }

  lemma PageAnswersTouch(l: Listener, t: Task, answer: Answer)
    ensures var after := AfterPageAnswer(l, t, answer).0;
      && after == l.(pageEnabled := after.pageEnabled, networkFrame := after.networkFrame)
      && after.pageEnabled == (if answer == Interrupted then l.pageEnabled else answer == Enabled)
  {
  }

  lemma FrameAnswersTouch(l: Listener, t: Task, answer: FrameAnswer)
    ensures var after := AfterFrame(l, t, answer).0;
      after == l.(consoleFrame := after.consoleFrame, networkFrame := after.networkFrame)
  {
  }

  lemma DomainAnswersTouch(l: Listener, t: Task, answer: Answer)
    ensures var after := AfterDomain(l, t, answer);
      after == l.(domEnabled := after.domEnabled, consoleEnabled := after.consoleEnabled,
          networkEnabled := after.networkEnabled)
  {
  }

  lemma TasksAreKept(s: System, e: Event, id: nat)
    requires id in s.tasks && s.next !in s.tasks
    ensures id in Step(s, e).tasks
    ensures Step(s, e).tasks[id].(stage := s.tasks[id].stage, succeeded := s.tasks[id].succeeded) == s.tasks[id]
    ensures s.tasks[id].succeeded ==> Step(s, e).tasks[id].succeeded
  {
  }

  /** A registration disappears only by a reset or when the very task it names has settled. */
  lemma OnlyItsOwnSettlementClearsARegistration(s: System, e: Event, kind: Kind)
    requires kind in s.listener.registered && kind !in Step(s, e).listener.registered
    ensures IsReset(e) || (e.Cleared? && e.id == s.listener.registered[kind] && Waits(s, e.id, Settled))
  {
    if !IsReset(e) {
      OnlyResetsEndAGeneration(s, e);
    }
  }

  // ---- The page flag is different -----------------------------------------------------

  /**
   * When Page.enable is obeyed after the listener was reset, the page flag is set all the same. It then
   * stands for the current generation exactly when some Page.enable of that generation was obeyed too.
   */
  lemma PageFlagStandsForItsGenerationExactly(s: System, id: nat)
    requires Invariant(s) && Waits(s, id, EnablingPage)
    ensures var after := Step(s, PageAnswered(id, Enabled));
      && after.listener.pageEnabled
      && (Justified(after, Base) <==> s.tasks[id].generation == s.listener.generation || Justified(s, Base))
  {
    var after := Step(s, PageAnswered(id, Enabled));
    assert TaskOk(s, id);
    if s.tasks[id].generation == s.listener.generation {
      assert EnabledNow(after, id, Base);
    } else {
      if i :| EnabledNow(s, i, Base) {
        assert EnabledNow(after, i, Base);
      }
      if i :| EnabledNow(after, i, Base) {
        assert EnabledNow(s, i, Base);
      }
    }
  }

  predicate LatePageAnswer(s: System, e: Event) {
    && e.PageAnswered? && e.answer == Enabled
    && Waits(s, e.id, EnablingPage) && s.tasks[e.id].generation != s.listener.generation
  }

  /** Without such late answers the page flag, too, is true only by an enable of the current generation. */
  lemma {:induction false} PageFlagIsRightWithoutLateAnswers(transport: nat, events: seq<Event>)
    requires forall i {:trigger events[i]} :: 0 <= i < |events| ==>
      !LatePageAnswer(Run(Initial(transport), events[..i]), events[i])
    ensures var s := Run(Initial(transport), events); s.listener.pageEnabled ==> Justified(s, Base)
  {
    if events != [] {
      var n := |events| - 1;
      var s, e := Run(Initial(transport), events[..n]), events[n];
      RunKeepsInvariant(transport, events[..n]);
      forall i | 0 <= i < n ensures !LatePageAnswer(Run(Initial(transport), events[..n][..i]), events[..n][i]) {
        assert events[..n][..i] == events[..i];
        assert events[..n][i] == events[i];
      }
      PageFlagIsRightWithoutLateAnswers(transport, events[..n]);
      StepKeepsPageFlagRight(s, e);
    }
  }

  lemma StepKeepsPageFlagRight(s: System, e: Event)
    requires Invariant(s) && !LatePageAnswer(s, e)
    requires s.listener.pageEnabled ==> Justified(s, Base)
    ensures Step(s, e).listener.pageEnabled ==> Justified(Step(s, e), Base)
  {
    if e.PageAnswered? && e.answer == Enabled && Waits(s, e.id, EnablingPage) {
      PageFlagStandsForItsGenerationExactly(s, e.id);
    } else if !IsReset(e) && Step(s, e).listener.pageEnabled {
      OnlyResetsEndAGeneration(s, e);
      var i :| EnabledNow(s, i, Base);
      assert s.next in s.tasks ==> TaskOk(s, s.next);
      TasksAreKept(s, e, i);
      assert EnabledNow(Step(s, e), i, Base);
    }
  }

  /** The page flag says whether some Page.enable of the current generation was obeyed. */
  ghost predicate PageFlagRight(s: System) {
    s.listener.pageEnabled <==> Justified(s, Base)
  }

  /**
   * In both directions: an obeyed answer leaves the flag right exactly when it, or an earlier one, belongs to
   * the current generation; a refusal exactly when no enable of the current generation was obeyed; an
   * interruption changes nothing.
   */
  lemma PageFlagAfterAnAnswer(s: System, id: nat, answer: Answer)
    requires Invariant(s) && Waits(s, id, EnablingPage)
    ensures PageFlagRight(Step(s, PageAnswered(id, answer))) <==>
      match answer
      case Enabled => s.tasks[id].generation == s.listener.generation || Justified(s, Base)
      case Refused => !Justified(s, Base)
      case Interrupted => PageFlagRight(s)
  {
    var after := Step(s, PageAnswered(id, answer));
    assert TaskOk(s, id);
    if answer == Enabled {
      PageFlagStandsForItsGenerationExactly(s, id);
    } else {
      if i :| EnabledNow(s, i, Base) {
        assert EnabledNow(after, i, Base);
      }
      if i :| EnabledNow(after, i, Base) {
        assert EnabledNow(s, i, Base);
      }
    }
  }

  lemma {:induction false} RunConcat(s: System, a: seq<Event>, b: seq<Event>)
    ensures Run(s, a + b) == Run(Run(s, a), b)
  {
    if b == [] {
      assert a + b == a;
    } else {
      RunConcat(s, a, b[..|b| - 1]);
      assert (a + b)[..|a + b| - 1] == a + b[..|b| - 1];
    }
  }

  lemma RunOfTwo(s: System, a: Event, b: Event)
    ensures Run(s, [a, b]) == Step(Step(s, a), b)
  {
    assert [a, b][..1] == [a] && [a][..0] == [];
    assert Run(s, [a]) == Step(s, a);
  }

  const BEGUN: seq<Event> := [Desire, Ensure(Base)] + [AttachAnswered(0, true), Remove]

  /** Reset while Page.enable is in flight: the first task waits on, and the listener is bare. */
  lemma ResetInFlight()
    ensures Run(Initial(0), BEGUN) == System(
      Removed(Fresh(0).(desired := true)), map[0 := Task(Base, 0, 0, EnablingPage, false)], 1)
  {
    RunConcat(Initial(0), [Desire, Ensure(Base)], [AttachAnswered(0, true), Remove]);
    RunOfTwo(Initial(0), Desire, Ensure(Base));
    RunOfTwo(Run(Initial(0), [Desire, Ensure(Base)]), AttachAnswered(0, true), Remove);
  }

  /** Then the late answer sets the flag of a generation in which nothing was enabled. */
  lemma PageFlagCanOutliveItsGeneration()
    ensures var s := Run(Initial(0), BEGUN + [PageAnswered(0, Enabled)]);
      s.listener.pageEnabled && !Justified(s, Base)
  {
    ResetInFlight();
    assert (BEGUN + [PageAnswered(0, Enabled)])[..|BEGUN|] == BEGUN;
  }

  const AGAIN: seq<Event> := BEGUN + [Ensure(Base), AttachAnswered(1, true)]

  const ENABLED_AGAIN: seq<Event> := AGAIN + [PageAnswered(1, Enabled), PageAnswered(0, Refused)]

  /** Or the late refusal clears the flag of a generation in which the page domain was enabled. */
  lemma PageFlagCanBeClearedLate()
    ensures var s := Run(Initial(0), ENABLED_AGAIN);
      !s.listener.pageEnabled && Justified(s, Base)
  {
    EnabledAgain();
    var again := Run(Initial(0), AGAIN);
    RunConcat(Initial(0), AGAIN, [PageAnswered(1, Enabled), PageAnswered(0, Refused)]);
    RunOfTwo(again, PageAnswered(1, Enabled), PageAnswered(0, Refused));
    assert EnabledNow(Run(Initial(0), ENABLED_AGAIN), 1, Base);
  }

  /** A second task asks for the page domain while the first still waits for its answer. */
  lemma EnabledAgain()
    ensures var s := Run(Initial(0), AGAIN);
      && s.listener.generation == 1 && s.listener.transport == 0 && s.listener.desired && s.listener.attached
      && s.tasks == map[0 := Task(Base, 0, 0, EnablingPage, false), 1 := Task(Base, 1, 0, EnablingPage, false)]
  {
    ResetInFlight();
    RunConcat(Initial(0), BEGUN, [Ensure(Base), AttachAnswered(1, true)]);
    RunOfTwo(Run(Initial(0), BEGUN), Ensure(Base), AttachAnswered(1, true));
  }
}
