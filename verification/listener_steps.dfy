// What one event does to the listener and its initializations, field by field,
// and that an initialization nobody disturbs succeeds
// (packages/browser-core/src/cdp-helper.ts).

module ListenerSteps {
  import opened Options
  import opened ListenerModel

  /** Attached, with the page domain enabled and both main frames known. */
  predicate HasBase(l: Listener) {
    l.attached && l.pageEnabled && l.consoleFrame.Some? && l.networkFrame.Some?
  }

  predicate Has(l: Listener, kind: Kind) {
    match kind
    case Base => HasBase(l)
    case Dom => l.domEnabled
    case Console => l.consoleEnabled
    case Network => l.networkEnabled
  }

  /** Whether a task still speaks for this listener. */
  predicate SpeaksFor(t: Task, l: Listener) {
    l.desired && l.attached && l.transport == t.transport && l.generation == t.generation
  }

  /**
   * Nothing is begun for what is ready or under way. Otherwise a task is registered that captures generation
   * and transport, and it sends its command: the base task always, the dom task when the listener is desired
   * and attached, the diagnostic tasks when moreover the base is ready.
   */
  lemma EnsuringSendsTheCommand(s: System, kind: Kind)
    ensures var l, after := s.listener, Step(s, Ensure(kind));
      if Has(l, kind) || kind in l.registered then after == s
      else
        var sends := l.desired && l.attached && (kind == Dom || HasBase(l));
        var stage := if kind == Base then Attaching else if sends then Enabling else Settled;
        after == System(l.(registered := l.registered[kind := s.next]),
                        s.tasks[s.next := Task(kind, l.generation, l.transport, stage, false)], s.next + 1)
  {
  }

  /** Before the frames are read, the page domain must be enabled; known frames are shared. */
  function Onward(l: Listener, t: Task): (Listener, Stage) {
    if !SpeaksFor(t, l) || !l.pageEnabled then (l, Settled)
    else if l.consoleFrame.None? then (l, ReadingFrame)
    else (l.(networkFrame := if l.networkFrame.None? then l.consoleFrame else l.networkFrame), Settled)
  }

  lemma AttachingDecides(s: System, id: nat, attached: bool)
    requires Waits(s, id, Attaching)
    ensures var l, t := s.listener, s.tasks[id];
      var now := if attached && !l.attached then l.(attached := true, consoleFrame := None, networkFrame := None)
          else l;
      var (next, stage) :=
        if attached && SpeaksFor(t, now) && !now.pageEnabled then (now, EnablingPage)
        else if attached then Onward(now, t)
        else (now, Settled);
      Step(s, AttachAnswered(id, attached)) == System(next, s.tasks[id := t.(stage := stage)], s.next)
  {
  }

  /** The flag is set by any answer but an interruption, whoever it speaks for. */
  lemma PageAnswersDecide(s: System, id: nat, answer: Answer)
    requires Waits(s, id, EnablingPage)
    ensures var l, t := s.listener, s.tasks[id];
      var (next, stage) :=
        match answer
        case Enabled => Onward(l.(pageEnabled := true), t)
        case Refused => (l.(pageEnabled := false), Settled)
        case Interrupted => (l, Settled);
      Step(s, PageAnswered(id, answer)) ==
        System(next, s.tasks[id := t.(stage := stage, succeeded := t.succeeded || answer == Enabled)], s.next)
  {
  }

  /** A frame is taken over exactly from a task that still speaks for the listener. */
  lemma FrameAnswersDecide(s: System, id: nat, answer: FrameAnswer)
    requires Waits(s, id, ReadingFrame)
    ensures var l, t := s.listener, s.tasks[id];
      var next := if answer.FrameIs? && SpeaksFor(t, l)
                  then l.(consoleFrame := answer.frame, networkFrame := answer.frame) else l;
      Step(s, FrameAnswered(id, answer)) == System(next, s.tasks[id := t.(stage := Settled)], s.next)
  {
  }

  /** The flag of its own domain, exactly from a task that still speaks for the listener. */
  lemma DomainAnswersDecide(s: System, id: nat, answer: Answer)
    requires Waits(s, id, Enabling)
    ensures var l, t := s.listener, s.tasks[id];
      var flag := answer == Enabled;
      var next :=
        if answer == Interrupted || !SpeaksFor(t, l) then l
        else match t.kind
             case Base => l
             case Dom => l.(domEnabled := flag)
             case Console => l.(consoleEnabled := flag)
             case Network => l.(networkEnabled := flag);
      Step(s, DomainAnswered(id, answer)) ==
        System(next, s.tasks[id := t.(stage := Settled, succeeded := t.succeeded || flag)], s.next)
  {
  }

  /** Resets end the generation and leave a bare listener; stopping and a new transport also end the wish for one. */
  lemma ResetsLeaveABareListener(s: System, transport: nat)
    ensures var l := s.listener;
      && Step(s, Remove) == s.(listener :=
           Listener(l.generation + 1, l.transport, l.desired, false, false, false, false, false, None, None, map[]))
      && Step(s, Stop) == s.(listener :=
           Listener(l.generation + 1, l.transport, false, false, false, false, false, false, None, None, map[]))
      && Step(s, SetTransport(transport)) == s.(listener :=
           Listener(l.generation + 1, transport, false, false, false, false, false, false, None, None, map[]))
  {
  }

  lemma TheOtherEvents(s: System, frame: Option<string>, id: nat)
    ensures var l := s.listener;
      && Step(s, Desire) == s.(listener := l.(desired := true))
      && Step(s, FrameChanged(frame)) ==
           (if l.attached then s.(listener := l.(consoleFrame := frame, networkFrame := frame)) else s)
      && (Waits(s, id, Settled) ==>
            var kind := s.tasks[id].kind;
            Step(s, Cleared(id)) ==
              if kind in l.registered && l.registered[kind] == id
              then s.(listener := l.(registered := l.registered - {kind})) else s)
  {
  }

  // ---- An initialization nobody disturbs -------------------------------------------------

  /** The base task waits for the page domain, or for the frames, or is no longer needed. */
  ghost predicate OnItsWay(s: System, id: nat, generation: nat) {
    var l := s.listener;
    && l.desired && l.attached && l.generation == generation
    && (HasBase(l)
        || (Waits(s, id, EnablingPage) && SpeaksFor(s.tasks[id], l))
        || (Waits(s, id, ReadingFrame) && SpeaksFor(s.tasks[id], l) && l.pageEnabled))
  }

  lemma BegunAndAttached(s: System)
    requires s.listener.desired && Base !in s.listener.registered && !Has(s.listener, Base)
    ensures OnItsWay(Step(Step(s, Ensure(Base)), AttachAnswered(s.next, true)), s.next, s.listener.generation)
  {
    EnsuringSendsTheCommand(s, Base);
    AttachingDecides(Step(s, Ensure(Base)), s.next, true);
  }

  lemma PageIsEnabled(s: System, id: nat, generation: nat)
    requires OnItsWay(s, id, generation)
    ensures var after := Step(s, PageAnswered(id, Enabled));
      && OnItsWay(after, id, generation) && after.listener.pageEnabled
      && (HasBase(after.listener) || Waits(after, id, ReadingFrame))
  {
    if Waits(s, id, EnablingPage) {
      PageAnswersDecide(s, id, Enabled);
    }
  }

  lemma FrameIsRead(s: System, id: nat, generation: nat, frame: string)
    requires OnItsWay(s, id, generation) && s.listener.pageEnabled
    requires HasBase(s.listener) || Waits(s, id, ReadingFrame)
    ensures var after := Step(s, FrameAnswered(id, FrameIs(Some(frame)))).listener;
      HasBase(after) && after.generation == generation
  {
    if Waits(s, id, ReadingFrame) {
      FrameAnswersDecide(s, id, FrameIs(Some(frame)));
    }
  }

  /**
   * Whatever state the wished-for listener is in: when a base initialization is begun, and every command it
   * sends is obeyed before anything else happens, the base is ready.
   */
  lemma UndisturbedBaseSucceeds(s: System, frame: string)
    requires s.listener.desired && Base !in s.listener.registered && !Has(s.listener, Base)
    ensures var after := Run(s, [Ensure(Base), AttachAnswered(s.next, true)]
                                + [PageAnswered(s.next, Enabled), FrameAnswered(s.next, FrameIs(Some(frame)))]);
      HasBase(after.listener) && after.listener.generation == s.listener.generation
  {
    var id, g := s.next, s.listener.generation;
    var a, b := [Ensure(Base), AttachAnswered(id, true)],
        [PageAnswered(id, Enabled), FrameAnswered(id, FrameIs(Some(frame)))];
    RunConcat(s, a, b);
    RunOfTwo(s, a[0], a[1]);
    RunOfTwo(Run(s, a), b[0], b[1]);
    BegunAndAttached(s);
    PageIsEnabled(Run(s, a), id, g);
    FrameIsRead(Step(Run(s, a), b[0]), id, g, frame);
  }

  /** The same for a domain on a ready base. */
  lemma UndisturbedDomainSucceeds(s: System, kind: Kind)
    requires kind != Base && s.listener.desired && HasBase(s.listener)
    requires kind !in s.listener.registered && !Has(s.listener, kind)
    ensures var after := Run(s, [Ensure(kind), DomainAnswered(s.next, Enabled)]);
      Has(after.listener, kind) && after.listener.generation == s.listener.generation
  {
    RunOfTwo(s, Ensure(kind), DomainAnswered(s.next, Enabled));
  }
}
