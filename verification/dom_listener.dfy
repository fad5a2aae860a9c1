// The listener fields of packages/browser-core/src/cdp-helper.ts, updated in
// place by the segments of the asynchronous initializations. Promises are
// named by numbers; every method is tied to the segment of ListenerModel.

module DomListener {
  import opened Options
  import M = ListenerModel

  class DomListener {
    var generation: nat
    var transport: nat
    var desired: bool
    var attached: bool
    var domEnabled: bool
    var pageEnabled: bool
    var consoleEnabled: bool
    var networkEnabled: bool
    var consoleFrame: Option<string>
    var networkFrame: Option<string>
    var registered: map<M.Kind, nat>
    /** The initializations ever begun: where each waits, and what it captured. */
    var tasks: map<nat, M.Task>
    var next: nat

    constructor (transport: nat)
      ensures System() == M.Initial(transport)
    {
      generation, this.transport := 0, transport;
      desired, attached := false, false;
      domEnabled, pageEnabled, consoleEnabled, networkEnabled := false, false, false, false;
      consoleFrame, networkFrame, registered := None, None, map[];
      tasks, next := map[], 0;
    }

    ghost function System(): M.System
      reads this
    {
      M.System(View(), tasks, next)
    }

    function View(): M.Listener
      reads this
    {
      M.Listener(generation, transport, desired, attached, domEnabled, pageEnabled, consoleEnabled, networkEnabled,
                 consoleFrame, networkFrame, registered)
    }

    predicate IsCurrent(transport: nat, generation: nat)
      reads this
    {
      desired && attached && this.transport == transport && this.generation == generation
    }

    predicate IsReady(kind: M.Kind)
      reads this
    {
      match kind
      case Base => attached && pageEnabled && consoleFrame.Some? && networkFrame.Some?
      case Dom => domEnabled
      case Console => consoleEnabled
      case Network => networkEnabled
    }

    // ---- Single flight ---------------------------------------------------------

    /** Shares the registered initialization of this kind, or creates one up to its first await. */
    method Ensure(kind: M.Kind)
      modifies this`registered, this`tasks, this`next
      ensures System() == M.Step(old(System()), M.Ensure(kind))
    {
      if IsReady(kind) || kind in registered {
        return;
      }
      var stage := M.Enabling;
      if kind == M.Base {
        stage := M.Attaching;
      } else if kind != M.Dom && !IsReady(M.Base) {
        stage := M.Settled;
      } else if !IsCurrent(transport, generation) {
        stage := M.Settled;
      }
      registered := registered[kind := next];
      tasks := tasks[next := M.Task(kind, generation, transport, stage, false)];
      next := next + 1;
    }

    method ClearIfCurrent(kind: M.Kind, id: nat)
      modifies this`registered
      ensures View() == M.Forget(old(View()), kind, id)
    {
      if kind in registered && registered[kind] == id {
        registered := registered - {kind};
      }
    }

    // ---- Base initialization ---------------------------------------------------

    method AttachMessageListener()
      modifies this
      ensures tasks == old(tasks) && next == old(next)
      ensures View() == M.AttachListener(old(View()))
    {
      consoleFrame, networkFrame := None, None;
      attached := true;
    }

    method AfterAttach(task: M.Task, ok: bool) returns (stage: M.Stage)
      modifies this
      ensures tasks == old(tasks) && next == old(next)
      ensures (View(), stage) == M.AfterAttach(old(View()), task, ok)
    {
      if !ok {
        return M.Settled;
      }
      if !attached {
        AttachMessageListener();
      }
      if !IsCurrent(task.transport, task.generation) {
        return M.Settled;
      }
      if !pageEnabled {
        return M.EnablingPage;
      }
      stage := AfterPage(task);
    }

    method AfterPageAnswer(task: M.Task, answer: M.Answer) returns (stage: M.Stage)
      modifies this
      ensures tasks == old(tasks) && next == old(next)
      ensures (View(), stage) == M.AfterPageAnswer(old(View()), task, answer)
    {
      if answer == M.Interrupted {
        return M.Settled;
      }
      pageEnabled := answer == M.Enabled;
      stage := AfterPage(task);
    }

    method AfterPage(task: M.Task) returns (stage: M.Stage)
      modifies this
      ensures tasks == old(tasks) && next == old(next)
      ensures (View(), stage) == M.AfterPage(old(View()), task)
    {
      if !IsCurrent(task.transport, task.generation) || !pageEnabled {
        return M.Settled;
      }
      if consoleFrame.None? {
        return M.ReadingFrame;
      }
      ShareFrame();
      return M.Settled;
    }

    method AfterFrame(task: M.Task, answer: M.FrameAnswer) returns (stage: M.Stage)
      modifies this
      ensures tasks == old(tasks) && next == old(next)
      ensures (View(), stage) == M.AfterFrame(old(View()), task, answer)
    {
      if answer.FrameInterrupted? || !IsCurrent(task.transport, task.generation) {
        return M.Settled;
      }
      consoleFrame := answer.frame;
      networkFrame := consoleFrame;
      ShareFrame();
      return M.Settled;
    }

    method ShareFrame()
      modifies this`networkFrame
      ensures View() == M.WithNetworkFrame(old(View()))
    {
      if networkFrame.None? {
        networkFrame := consoleFrame;
      }
    }

    // ---- Domain initialization --------------------------------------------------

    method AfterDomain(task: M.Task, answer: M.Answer)
      modifies this
      ensures tasks == old(tasks) && next == old(next)
      ensures View() == M.AfterDomain(old(View()), task, answer)
    {
      if answer == M.Interrupted || !IsCurrent(task.transport, task.generation) {
        return;
      }
      match task.kind
      case Base =>
      case Dom => domEnabled := answer == M.Enabled;
      case Console => consoleEnabled := answer == M.Enabled;
      case Network => networkEnabled := answer == M.Enabled;
    }

    // ---- Resets --------------------------------------------------------------------

    method Remove()
      modifies this
      ensures tasks == old(tasks) && next == old(next)
      ensures View() == M.Removed(old(View()))
    {
      generation := generation + 1;
      registered := map[];
      attached, domEnabled, pageEnabled, consoleEnabled, networkEnabled := false, false, false, false, false;
      consoleFrame, networkFrame := None, None;
    }

    method Stop()
      modifies this
      ensures tasks == old(tasks) && next == old(next)
      ensures View() == M.Removed(old(View()).(desired := false))
    {
      desired := false;
      Remove();
    }

    method SetTransport(transport: nat)
      modifies this
      ensures System() == M.Step(old(System()), M.SetTransport(transport))
    {
      Stop();
      this.transport := transport;
    }

    // ---- The life of a helper ------------------------------------------------------------

    /** The task goes on to its next await, or settles. */
    method MoveOn(id: nat, succeeded: bool, stage: M.Stage)
      requires id in tasks
      modifies this`tasks
      ensures tasks == old(tasks)[id :=
                old(tasks)[id].(stage := stage, succeeded := old(tasks)[id].succeeded || succeeded)]
    {
      tasks := tasks[id := tasks[id].(stage := stage, succeeded := tasks[id].succeeded || succeeded)];
    }

    predicate Waits(id: nat, stage: M.Stage)
      reads this
    {
      id in tasks && tasks[id].stage == stage
    }

    method HandleAnswer(e: M.Event)
      requires M.IsSettlement(e)
      modifies this
      ensures System() == M.Step(old(System()), e)
    {
      var stage;
      match e {
        case AttachAnswered(id, ok) =>
          if Waits(id, M.Attaching) {
            stage := AfterAttach(tasks[id], ok);
            MoveOn(id, false, stage);
          }
        case PageAnswered(id, answer) =>
          if Waits(id, M.EnablingPage) {
            stage := AfterPageAnswer(tasks[id], answer);
            MoveOn(id, answer == M.Enabled, stage);
          }
        case FrameAnswered(id, answer) =>
          if Waits(id, M.ReadingFrame) {
            stage := AfterFrame(tasks[id], answer);
            MoveOn(id, false, stage);
          }
        case DomainAnswered(id, answer) =>
          if Waits(id, M.Enabling) {
            AfterDomain(tasks[id], answer);
            MoveOn(id, answer == M.Enabled, M.Settled);
          }
        case Cleared(id) =>
          if Waits(id, M.Settled) {
            ClearIfCurrent(tasks[id].kind, id);
          }
      }
    }

    method Handle(e: M.Event)
      modifies this
      ensures System() == M.Step(old(System()), e)
    {
      if M.IsSettlement(e) {
        HandleAnswer(e);
        return;
      }
      match e {
        case Desire => desired := true;
        case Ensure(kind) => Ensure(kind);
        case Remove => Remove();
        case Stop => Stop();
        case SetTransport(transport) => SetTransport(transport);
        case FrameChanged(frame) =>
          if attached {
            consoleFrame, networkFrame := frame, frame;
          }
      }
    }

    method HandleAll(events: seq<M.Event>)
      modifies this
      ensures System() == M.Run(old(System()), events)
    {
      for n := 0 to |events|
        invariant System() == M.Run(old(System()), events[..n])
      {
        assert events[..n + 1][..n] == events[..n];
        Handle(events[n]);
      }
      assert events[..|events|] == events;
    }

    /**
     * In any interleaving of initializations, answers and resets: each domain flag of the object says exactly
     * whether an enable of its own generation and transport was obeyed, and no work is done twice.
     */
    method Serve(events: seq<M.Event>)
      requires System() == M.Initial(transport)
      modifies this
      ensures forall kind :: kind != M.Base ==>
        (IsReady(kind) <==> exists id :: id in tasks && Obeyed(kind, tasks[id]))
      ensures domEnabled <==> exists id :: id in tasks && Obeyed(M.Dom, tasks[id])
      ensures consoleEnabled <==> exists id :: id in tasks && Obeyed(M.Console, tasks[id])
      ensures networkEnabled <==> exists id :: id in tasks && Obeyed(M.Network, tasks[id])
      ensures forall a, b :: a in tasks && b in tasks && SameWork(tasks[a], tasks[b]) ==> a == b
    {
      ghost var initial := transport;
      HandleAll(events);
      ReadyAsInTheModel(initial, events);
      forall a, b | a in tasks && b in tasks && SameWork(tasks[a], tasks[b]) ensures a == b {
        M.WorkIsNeverDuplicated(initial, events, a, b);
      }
    }

    /** Waiting, or enabled a domain, in the same generation for the same kind. */
    static predicate SameWork(s: M.Task, t: M.Task) {
      && s.kind == t.kind && s.generation == t.generation
      && (s.stage != M.Settled || (s.kind != M.Base && s.succeeded))
      && (t.stage != M.Settled || (t.kind != M.Base && t.succeeded))
    }

    predicate Obeyed(kind: M.Kind, t: M.Task)
      reads this
    {
      t.kind == kind && t.succeeded && t.generation == generation && t.transport == transport
    }

    lemma ReadyAsInTheModel(initial: nat, events: seq<M.Event>)
      requires System() == M.Run(M.Initial(initial), events)
      ensures forall kind :: kind != M.Base ==>
        (IsReady(kind) <==> exists id :: id in tasks && Obeyed(kind, tasks[id]))
      ensures IsReady(M.Dom) == domEnabled && IsReady(M.Console) == consoleEnabled
                && IsReady(M.Network) == networkEnabled
    {
      forall kind | kind != M.Base
        ensures IsReady(kind) <==> exists id :: id in tasks && Obeyed(kind, tasks[id])
      {
        M.ReadyExactlyWhenEnabledInThisGeneration(initial, events, kind);
        assert IsReady(kind) == M.Ready(View(), kind);
        forall id | id in tasks && Obeyed(kind, tasks[id]) ensures M.EnabledNow(System(), id, kind) {
        }
        if id :| M.EnabledNow(System(), id, kind) {
          assert id in tasks && Obeyed(kind, tasks[id]);
        }
      }
    }
  }
}
