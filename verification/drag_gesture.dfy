// The drag gesture of packages/browser-core/src/cdp-helper.ts: commands that
// may each fail, with cleanup that must not leave a pressed pointer, an enabled
// interception or an attached listener behind.

module DragGesture {
  import opened Options

  const PATH_STEPS: nat := 8
  /** The answer that says whether the first pressed move began a drag, when all before it was obeyed. */
  const PROBE_REPORT: nat := 6

  datatype Point = Point(x: int, y: int)

  datatype Action =
    | CheckAbort
    | Move(point: Point)
    | Press(point: Point)
    | InstallProbe
    | AttachListener
    | EnableInterception
    | HeldMove(point: Point)
    | FinishProbe
    | DisposeListener
    | DisableInterception
    | AwaitDragData
    | DragEnter(point: Point)
    | DragOver(point: Point)
    | Drop(point: Point)
    | CancelDrag(point: Point)
    | Release(point: Point)

  /** `flag` is what the probe reports; other actions ignore it. */
  datatype Answer = Ok(flag: bool) | Failed(interruption: bool)

  datatype Event = Event(action: Action, answer: Answer)

  /** What was done so far, newest last. */
  datatype History = Start | Then(before: History, last: Event)

  function Trace(h: History): seq<Event> {
    if h.Start? then [] else Trace(h.before) + [h.last]
  }

  datatype Outcome = Html5 | Pointer | DropFailed | Threw(interruption: bool)

  // ---- The path ------------------------------------------------------------------

  /** `Math.round(from + (to - from) * (step / 8))` for integral endpoints. */
  function Coordinate(from: int, to: int, step: nat): int {
    (8 * from + (to - from) * step + 4) / 8
  }

  function PathPoint(source: Point, target: Point, step: nat): Point {
    Point(Coordinate(source.x, target.x, step), Coordinate(source.y, target.y, step))
  }

  function Path(source: Point, target: Point): (points: seq<Point>)
    ensures |points| == PATH_STEPS
  {
    seq(PATH_STEPS, i requires 0 <= i < PATH_STEPS => PathPoint(source, target, i + 1))
  }

  predicate Between(a: int, x: int, b: int) {
    a <= x <= b || b <= x <= a
  }

  lemma CoordinatesStayBetween(from: int, to: int, step: nat)
    requires step <= 8
    ensures Between(from, Coordinate(from, to, step), to)
  {
    if from <= to {
      assert 0 <= (to - from) * step <= (to - from) * 8;
    } else {
      assert 0 <= (from - to) * step <= (from - to) * 8;
      assert (to - from) * step == -((from - to) * step);
    }
  }

  lemma CoordinatesAreMonotone(from: int, to: int, step: nat, later: nat)
    requires step <= later
    ensures from <= to ==> Coordinate(from, to, step) <= Coordinate(from, to, later)
    ensures to <= from ==> Coordinate(from, to, later) <= Coordinate(from, to, step)
  {
    if from <= to {
      assert (to - from) * step <= (to - from) * later;
    } else {
      assert (from - to) * step <= (from - to) * later;
      assert (to - from) * step == -((from - to) * step) && (to - from) * later == -((from - to) * later);
    }
  }

  /** Monotone in each coordinate, never outside the rectangle spanned by the ends, and exactly at the target. */
  lemma PathLeadsToTheTarget(source: Point, target: Point)
    ensures var points := Path(source, target);
      && points[PATH_STEPS - 1] == target
      && (forall i :: 0 <= i < PATH_STEPS ==>
            Between(source.x, points[i].x, target.x) && Between(source.y, points[i].y, target.y))
      && (forall i, j :: 0 <= i < j < PATH_STEPS ==>
            Between(points[i].x, points[j].x, target.x) && Between(points[i].y, points[j].y, target.y))
  {
    var points := Path(source, target);
    assert (target.x - source.x) * 8 + 8 * source.x == 8 * target.x;
    assert (target.y - source.y) * 8 + 8 * source.y == 8 * target.y;
    forall i | 0 <= i < PATH_STEPS
      ensures Between(source.x, points[i].x, target.x) && Between(source.y, points[i].y, target.y)
    {
      CoordinatesStayBetween(source.x, target.x, i + 1);
      CoordinatesStayBetween(source.y, target.y, i + 1);
    }
    forall i, j | 0 <= i < j < PATH_STEPS
      ensures Between(points[i].x, points[j].x, target.x) && Between(points[i].y, points[j].y, target.y)
    {
      CoordinatesAreMonotone(source.x, target.x, i + 1, j + 1);
      CoordinatesAreMonotone(source.y, target.y, i + 1, j + 1);
      CoordinatesStayBetween(source.x, target.x, j + 1);
      CoordinatesStayBetween(source.y, target.y, j + 1);
    }
  }

  /** Each point is the exact eighth of the way, rounded half up in each coordinate. */
  lemma PointsAreTheEighths(source: Point, target: Point, i: nat)
    requires i < 8
    ensures var p := Path(source, target)[i];
      && 8 * p.x - 4 <= 8 * source.x + (target.x - source.x) * (i + 1) < 8 * p.x + 4
      && 8 * p.y - 4 <= 8 * source.y + (target.y - source.y) * (i + 1) < 8 * p.y + 4
  {
  }

  // ---- What a trace leaves open -----------------------------------------------------

  predicate Presses(e: Event) { e.action.Press? && e.answer.Ok? }

  /** Any attempt counts, whether or not it succeeds. */
  predicate LetsGo(e: Event) { e.action.Release? || e.action.Drop? || e.action.CancelDrag? }

  predicate Intercepts(e: Event) { e.action.EnableInterception? && e.answer.Ok? }

  predicate StopsIntercepting(e: Event) { e.action.DisableInterception? }

  predicate Attaches(e: Event) { e.action.AttachListener? }

  predicate Disposes(e: Event) { e.action.DisposeListener? }

  /**
   * A trace read from left to right: what is open, whether the last release and the last disable attempt
   * were refused, whether everything was obeyed, and what was done.
   */
  datatype Reading = Reading(
    held: bool,
    intercepting: bool,
    listening: bool,
    releaseRefused: bool,
    disableRefused: bool,
    allOk: bool,
    actions: seq<Action>)

  function Next(r: Reading, e: Event): Reading {
    Reading(Presses(e) || (!LetsGo(e) && r.held),
            Intercepts(e) || (!StopsIntercepting(e) && r.intercepting),
            Attaches(e) || (!Disposes(e) && r.listening),
            if e.action.Release? then e.answer.Failed? else r.releaseRefused,
            if e.action.DisableInterception? then e.answer.Failed? else r.disableRefused,
            r.allOk && e.answer.Ok?,
            r.actions + [e.action])
  }

  function Read(h: History): Reading {
    if h.Start? then Reading(false, false, false, false, false, true, []) else Next(Read(h.before), h.last)
  }

  datatype Log = Log(history: History, reading: Reading)

  /** A history that is read while it grows. */
  type ReadLog = l: Log | l.reading == Read(l.history) witness Log(Start, Read(Start))

  ghost predicate Followed(opens: Event -> bool, closes: Event -> bool, trace: seq<Event>) {
    forall i :: 0 <= i < |trace| && opens(trace[i]) ==> exists j :: i < j < |trace| && closes(trace[j])
  }

  lemma FollowedOnce(opens: Event -> bool, closes: Event -> bool, trace: seq<Event>, e: Event)
    requires !(opens(e) && closes(e))
    ensures Followed(opens, closes, trace + [e]) <==> !opens(e) && (closes(e) || Followed(opens, closes, trace))
  {
    var all := trace + [e];
    assert all[|trace|] == e && forall i :: 0 <= i < |trace| ==> all[i] == trace[i];
    if Followed(opens, closes, all) {
      assert !opens(all[|trace|]);
      if !closes(e) {
        forall i | 0 <= i < |trace| && opens(trace[i]) ensures exists j :: i < j < |trace| && closes(trace[j]) {
          assert opens(all[i]);
          var j :| i < j < |all| && closes(all[j]);
        }
      }
    }
    if !opens(e) && (closes(e) || Followed(opens, closes, trace)) {
      forall i | 0 <= i < |all| && opens(all[i]) ensures exists j :: i < j < |all| && closes(all[j]) {
        if closes(e) {
          assert closes(all[|trace|]);
        } else {
          var j :| i < j < |trace| && closes(trace[j]);
          assert closes(all[j]);
        }
      }
    }
  }

  /** The reading is right: nothing is open exactly when every opening is followed by a closing attempt. */
  lemma {:induction false} ReadingSaysWhatIsOpen(h: History)
    ensures !Read(h).held <==> Followed(Presses, LetsGo, Trace(h))
    ensures !Read(h).intercepting <==> Followed(Intercepts, StopsIntercepting, Trace(h))
    ensures !Read(h).listening <==> Followed(Attaches, Disposes, Trace(h))
  {
    if h.Then? {
      ReadingSaysWhatIsOpen(h.before);
      var before := Trace(h.before);
      FollowedOnce(Presses, LetsGo, before, h.last);
      FollowedOnce(Intercepts, StopsIntercepting, before, h.last);
      FollowedOnce(Attaches, Disposes, before, h.last);
    }
  }

  /** It also says what was done, and whether all of it was obeyed. */
  lemma {:induction false} ReadingSaysWhatWasDone(h: History)
    ensures Read(h).allOk <==> forall i :: 0 <= i < |Trace(h)| ==> Trace(h)[i].answer.Ok?
    ensures |Read(h).actions| == |Trace(h)|
    ensures forall i :: 0 <= i < |Trace(h)| ==> Read(h).actions[i] == Trace(h)[i].action
  {
    if h.Then? {
      ReadingSaysWhatWasDone(h.before);
      var before := Trace(h.before);
      assert Trace(h)[|before|] == h.last && forall i :: 0 <= i < |before| ==> Trace(h)[i] == before[i];
    }
  }

  // ---- The successful runs ------------------------------------------------------------

  function Opening(source: Point, first: Point): seq<Action> {
    [CheckAbort, Move(source), Press(source), InstallProbe, AttachListener, EnableInterception, HeldMove(first),
     FinishProbe, CheckAbort, DisposeListener, DisableInterception]
  }

  function Each(action: Point -> Action, points: seq<Point>): seq<Action> {
    seq(|points|, i requires 0 <= i < |points| => action(points[i]))
  }

  function Html5Script(source: Point, target: Point): seq<Action> {
    var points := Path(source, target);
    Opening(source, points[0]) + [AwaitDragData, DragEnter(points[0])]
    + Each(p => DragOver(p), points[1..]) + [Drop(target)]
  }

  function PointerScript(source: Point, target: Point): seq<Action> {
    var points := Path(source, target);
    Opening(source, points[0]) + Each(p => HeldMove(p), points[1..]) + [Release(target)]
  }

  /** The two scripts in full. */
  lemma ScriptsInFull(source: Point, target: Point)
    ensures var p := Path(source, target);
      var opening := [CheckAbort, Move(source), Press(source), InstallProbe, AttachListener, EnableInterception,
                      HeldMove(p[0]), FinishProbe, CheckAbort, DisposeListener, DisableInterception];
      && Html5Script(source, target) == opening
           + [AwaitDragData, DragEnter(p[0]), DragOver(p[1]), DragOver(p[2]), DragOver(p[3]), DragOver(p[4]),
              DragOver(p[5]), DragOver(p[6]), DragOver(p[7]), Drop(target)]
      && PointerScript(source, target) == opening
           + [HeldMove(p[1]), HeldMove(p[2]), HeldMove(p[3]), HeldMove(p[4]), HeldMove(p[5]), HeldMove(p[6]),
              HeldMove(p[7]), Release(target)]
  {
    var points := Path(source, target);
    assert Each(p => DragOver(p), points[1..]) == [DragOver(points[1]), DragOver(points[2]), DragOver(points[3]),
      DragOver(points[4]), DragOver(points[5]), DragOver(points[6]), DragOver(points[7])];
    assert Each(p => HeldMove(p), points[1..]) == [HeldMove(points[1]), HeldMove(points[2]), HeldMove(points[3]),
      HeldMove(points[4]), HeldMove(points[5]), HeldMove(points[6]), HeldMove(points[7])];
  }

  class Gesture {
    const source: Point
    const target: Point
    const points: seq<Point>
    /** How the environment answers the n-th action of this gesture. */
    const answers: nat -> Answer
    var log: ReadLog
    var steps: nat
    var interceptEnabled: bool
    var listenerAttached: bool
    var pointerDown: bool
    var probePending: bool
    var lastPoint: Point

    constructor (source: Point, target: Point, answers: nat -> Answer)
      ensures this.source == source && this.target == target && this.answers == answers
      ensures Fresh()
    {
      this.source, this.target, this.answers := source, target, answers;
      points := Path(source, target);
      log, steps, lastPoint := Log(Start, Read(Start)), 0, source;
      interceptEnabled, listenerAttached, pointerDown, probePending := false, false, false, false;
    }

    ghost predicate Fresh()
      reads this
    {
      && points == Path(source, target) && log == Log(Start, Read(Start)) && steps == 0 && lastPoint == source
      && !interceptEnabled && !listenerAttached && !pointerDown && !probePending
    }

    /** The local variables agree with what was sent; only a refused cleanup leaves a flag behind. */
    ghost predicate Tracks()
      reads this
    {
      var r := log.reading;
      && (r.held ==> pointerDown)
      && (r.intercepting ==> interceptEnabled)
      && (r.listening <==> listenerAttached)
      && (pointerDown && !r.held ==> r.releaseRefused)
      && (interceptEnabled && !r.intercepting ==> r.disableRefused)
    }

    /** Every answer since the `from`-th was a yes. */
    ghost predicate Obeyed(from: nat)
      reads this
    {
      forall n :: from <= n < steps ==> answers(n).Ok?
    }

    /** Some answer since the `from`-th was a refusal of this kind. */
    ghost predicate Heard(from: nat, interruption: bool)
      reads this
    {
      exists n :: from <= n < steps && answers(n) == Failed(interruption)
    }

    method Append(e: Event)
      modifies this`log
      ensures log.reading == Next(old(log).reading, e) && log.history == Then(old(log).history, e)
    {
      log := Log(Then(log.history, e), Next(log.reading, e));
    }

    /** A command, or a check, that the environment may refuse. */
    method Send(action: Action) returns (answer: Answer)
      modifies this`log, this`steps
      ensures answer == answers(old(steps)) && steps == old(steps) + 1
      ensures log.reading == Next(old(log).reading, Event(action, answer))
    {
      answer := answers(steps);
      Append(Event(action, answer));
      steps := steps + 1;
    }

    /** A local effect that cannot fail. */
    method Do(action: Action)
      modifies this`log
      ensures log.reading == Next(old(log).reading, Event(action, Ok(true)))
    {
      Append(Event(action, Ok(true)));
    }

    method StopInterception() returns (answer: Answer)
      requires Tracks()
      modifies this`log, this`steps, this`listenerAttached, this`interceptEnabled
      ensures Tracks() && !log.reading.listening && !log.reading.intercepting
      ensures log.reading.held == old(log).reading.held
      ensures interceptEnabled ==> answer.Failed?
      ensures steps == old(steps) + (if old(interceptEnabled) then 1 else 0)
      ensures old(interceptEnabled) ==> answer == answers(old(steps))
      ensures !old(interceptEnabled) ==> answer.Ok?
      ensures log.reading.allOk == (old(log).reading.allOk && answer.Ok?)
      ensures !old(listenerAttached) && !old(interceptEnabled) ==> log == old(log) && steps == old(steps)
      ensures old(listenerAttached) && old(interceptEnabled) ==>
        && log.reading.actions == old(log).reading.actions + [DisposeListener, DisableInterception]
    {
      answer := Ok(true);
      if listenerAttached {
        Do(DisposeListener);
        listenerAttached := false;
      }
      if interceptEnabled {
        answer := Send(DisableInterception);
        if answer.Ok? {
          interceptEnabled := false;
        }
      }
    }

    method ReleasePointer() returns (answer: Answer)
      requires Tracks()
      modifies this`log, this`steps, this`pointerDown
      ensures Tracks() && !log.reading.held
      ensures log.reading.listening == old(log).reading.listening
      ensures log.reading.intercepting == old(log).reading.intercepting
      ensures pointerDown ==> answer.Failed?
      ensures steps == old(steps) + (if old(pointerDown) then 1 else 0)
      ensures old(pointerDown) ==> answer == answers(old(steps))
      ensures log.reading.allOk == (old(log).reading.allOk && answer.Ok?)
      ensures old(pointerDown) ==> log.reading.actions == old(log).reading.actions + [Release(lastPoint)]
    {
      if !pointerDown {
        return Ok(true);
      }
      answer := Send(Release(lastPoint));
      if answer.Ok? {
        pointerDown := false;
      }
    }

    /** The check and the move before the press. */
    method MoveToSource() returns (answer: Answer)
      requires Fresh()
      modifies this`log, this`steps
      ensures Tracks() && !log.reading.held
      ensures log.reading.allOk <==> answer.Ok?
      ensures steps > 0 && answer == answers(steps - 1)
      ensures answer.Ok? ==> steps == 2 && Obeyed(0) && log.reading.actions == [CheckAbort, Move(source)]
    {
      answer := Send(CheckAbort);
      if answer.Ok? {
        answer := Send(Move(source));
      }
    }

    /** From the first check to the press; None when everything was obeyed. */
    method PressSource() returns (error: Option<Outcome>)
      requires Fresh()
      modifies this`log, this`steps, this`pointerDown
      ensures Tracks() && (error.Some? ==> error.value.Threw?)
      ensures log.reading.allOk <==> error.None?
      ensures if error.None? then Obeyed(0) else Heard(0, error.value.interruption)
      ensures error.None? ==>
                pointerDown && steps == 3 && log.reading.actions == [CheckAbort, Move(source), Press(source)]
    {
      var answer := MoveToSource();
      if answer.Ok? {
        answer := Send(Press(source));
        if answer.Ok? {
          pointerDown := true;
          return None;
        }
      }
      assert answers(steps - 1) == Failed(answer.interruption);
      return Some(Threw(answer.interruption));
    }

    method InstallDragProbe() returns (error: Option<Outcome>)
      requires Tracks() && pointerDown
      modifies this`log, this`steps, this`probePending
      ensures Tracks() && (error.Some? ==> error.value.Threw?)
      ensures log.reading == Next(old(log).reading, Event(InstallProbe, answers(old(steps))))
      ensures error.None? <==> answers(old(steps)).Ok?
      ensures steps == old(steps) + 1
      ensures if error.None? then Obeyed(old(steps)) else Heard(old(steps), error.value.interruption)
      ensures error.None? ==> probePending
    {
      var answer := Send(InstallProbe);
      if answer.Failed? {
        return Some(Threw(answer.interruption));
      }
      probePending := true;
      return None;
    }

    method StartInterception() returns (error: Option<Outcome>)
      requires Tracks() && pointerDown && !listenerAttached && !interceptEnabled
      modifies this`log, this`steps, this`listenerAttached, this`interceptEnabled
      ensures Tracks() && (error.Some? ==> error.value.Threw?)
      ensures log.reading.allOk == (old(log).reading.allOk && error.None?)
      ensures steps == old(steps) + 1
      ensures if error.None? then Obeyed(old(steps)) else Heard(old(steps), error.value.interruption)
      ensures error.None? ==>
        && listenerAttached && interceptEnabled && steps == old(steps) + 1
        && log.reading.actions == old(log).reading.actions + [AttachListener, EnableInterception]
    {
      Do(AttachListener);
      listenerAttached := true;
      var answer := Send(EnableInterception);
      if answer.Failed? {
        return Some(Threw(answer.interruption));
      }
      interceptEnabled := true;
      return None;
    }

    /** The probe and the interception that watch for a drag. */
    method Arm() returns (error: Option<Outcome>)
      requires Tracks() && pointerDown && !probePending && !listenerAttached && !interceptEnabled
      modifies this`log, this`steps, this`probePending, this`listenerAttached, this`interceptEnabled
      ensures Tracks() && (error.Some? ==> error.value.Threw?)
      ensures log.reading.allOk == (old(log).reading.allOk && error.None?)
      ensures steps >= old(steps)
      ensures if error.None? then Obeyed(old(steps)) else Heard(old(steps), error.value.interruption)
      ensures error.None? ==>
        && probePending && listenerAttached && interceptEnabled && steps == old(steps) + 2
        && log.reading.actions == old(log).reading.actions + [InstallProbe, AttachListener, EnableInterception]
    {
      error := InstallDragProbe();
      if error.None? {
        error := StartInterception();
      }
    }

    method AwaitProbe() returns (answer: Answer, expectingDrag: bool)
      requires Tracks() && pointerDown && listenerAttached && interceptEnabled
      modifies this`log, this`steps, this`probePending
      ensures Tracks() && steps >= old(steps)
      ensures log.reading.allOk == (old(log).reading.allOk && answer.Ok?)
      ensures if answer.Ok? then Obeyed(old(steps)) else Heard(old(steps), answer.interruption)
      ensures answer.Ok? ==>
        && !probePending && steps == old(steps) + 2
        && log.reading.actions == old(log).reading.actions + [FinishProbe, CheckAbort]
        && answers(old(steps)) == Ok(expectingDrag)
    {
      expectingDrag := false;
      answer := Send(FinishProbe);
      if answer.Ok? {
        expectingDrag := answer.flag;
        answer := Send(CheckAbort);
        if answer.Ok? {
          probePending := false;
        }
      }
    }

    /** The first pressed move, and what the probe saw of it. */
    method ProbeFirstMove() returns (answer: Answer, expectingDrag: bool)
      requires Tracks() && pointerDown && probePending && listenerAttached && interceptEnabled
      requires |points| == PATH_STEPS
      modifies this`log, this`steps, this`lastPoint, this`probePending
      ensures Tracks() && lastPoint == points[0] && steps >= old(steps)
      ensures log.reading.allOk == (old(log).reading.allOk && answer.Ok?)
      ensures if answer.Ok? then Obeyed(old(steps)) else Heard(old(steps), answer.interruption)
      ensures answer.Ok? ==>
        && !probePending && steps == old(steps) + 3
        && log.reading.actions == old(log).reading.actions + [HeldMove(points[0]), FinishProbe, CheckAbort]
        && answers(old(steps) + 1) == Ok(expectingDrag)
    {
      expectingDrag := false;
      lastPoint := points[0];
      answer := Send(HeldMove(lastPoint));
      if answer.Ok? {
        answer, expectingDrag := AwaitProbe();
      }
    }

    /** The interception is always switched off again before anything else happens. */
    method FirstMove() returns (error: Option<Outcome>, expectingDrag: bool)
      requires Tracks() && pointerDown && probePending && listenerAttached && interceptEnabled
      requires |points| == PATH_STEPS
      modifies this`log, this`steps, this`lastPoint, this`probePending, this`listenerAttached, this`interceptEnabled
      ensures Tracks() && !log.reading.listening && !log.reading.intercepting
      ensures error.Some? ==> error.value.Threw?
      ensures log.reading.allOk == (old(log).reading.allOk && error.None?)
      ensures steps >= old(steps)
      ensures if error.None? then Obeyed(old(steps)) else Heard(old(steps), error.value.interruption)
      ensures error.None? ==>
        && !probePending && !listenerAttached && !interceptEnabled && lastPoint == points[0]
        && log.reading.actions == old(log).reading.actions
             + [HeldMove(points[0]), FinishProbe, CheckAbort] + [DisposeListener, DisableInterception]
        && answers(old(steps) + 1) == Ok(expectingDrag)
    {
      var answer: Answer;
      answer, expectingDrag := ProbeFirstMove();
      error := if answer.Failed? then Some(Threw(answer.interruption)) else None;
      var stopped := StopInterception();
      if stopped.Failed? {
        error := Some(Threw(stopped.interruption));
      }
    }

    /**
     * Nothing was refused, or the k-th of these actions was the first to be; then it is the last one attempted.
     */
    ghost predicate StoppedAt(from: nat, k: nat, count: nat) {
      k < count && answers(from + k).Failed? && forall n :: from <= n < from + k ==> answers(n).Ok?
    }

    /** Entering, and on over the points as far as that is obeyed; `k` is the last one attempted. */
    method EnterAndDragOver() returns (answer: Answer, ghost k: nat)
      requires |points| == PATH_STEPS && lastPoint == points[0]
      modifies this`log, this`steps, this`lastPoint
      ensures k <= 7 && steps == old(steps) + k + 1 && lastPoint == points[k]
      ensures log.reading.allOk == (old(log).reading.allOk && answer.Ok?)
      ensures log.reading == old(log).reading.(allOk := log.reading.allOk, actions := log.reading.actions)
      ensures log.reading.actions == old(log).reading.actions + DragEvents()[..k + 1]
      ensures answer.Ok? ==> k == 7 && Obeyed(old(steps))
      ensures answer.Failed? ==> answer == answers(old(steps) + k) && StoppedAt(old(steps), k, 9)
    {
      k := 0;
      DragEventsInParts(0);
      answer := Send(DragEnter(lastPoint));
      if answer.Ok? {
        answer, k := DragOverPoints();
        DragEventsInParts(k);
        if answer.Failed? {
          StoppedOneLater(old(steps), k - 1);
        }
      }
    }

    /** All the drag events in their order, as far as they are obeyed. */
    method SendDragEvents() returns (answer: Answer, ghost k: nat)
      requires |points| == PATH_STEPS && lastPoint == points[0]
      modifies this`log, this`steps, this`lastPoint
      ensures k <= 8 && steps == old(steps) + k + 1 && lastPoint == points[if k < 8 then k else 7]
      ensures log.reading.allOk == (old(log).reading.allOk && answer.Ok?)
      ensures log.reading == old(log).reading.(allOk := log.reading.allOk, actions := log.reading.actions,
                                               held := log.reading.held)
      ensures log.reading.actions == old(log).reading.actions + DragEvents()[..k + 1]
      ensures answer.Ok? ==> k == 8 && !log.reading.held && Obeyed(old(steps))
      ensures answer.Failed? ==> answer == answers(old(steps) + k) && StoppedAt(old(steps), k, 9)
    {
      answer, k := EnterAndDragOver();
      if answer.Ok? {
        DragEventsInParts(7);
        k := 8;
        answer := Send(Drop(target));
      }
    }

    lemma DragEventsInParts(k: nat)
      requires |points| == PATH_STEPS && k <= 7
      ensures DragEvents()[..k + 1] == [DragEnter(points[0])] + Each(p => DragOver(p), points[1..])[..k]
      ensures DragEvents()[..9] == DragEvents()[..8] + [Drop(target)]
      ensures Each(p => DragOver(p), points[1..])[..7] == Each(p => DragOver(p), points[1..])
    {
    }

    function DragEvents(): (events: seq<Action>)
      requires |points| == PATH_STEPS
      ensures |events| == 9
    {
      [DragEnter(points[0])] + Each(p => DragOver(p), points[1..]) + [Drop(target)]
    }

    lemma StoppedOneLater(from: nat, k: nat)
      requires answers(from).Ok? && StoppedAt(from + 1, k, 7)
      ensures StoppedAt(from, k + 1, 9)
    {
    }

    /**
     * The remaining points under HTML5 drag events. The first refusal ends them: the drag is cancelled where
     * the pointer is, and the error is an interruption exactly when the refusal was one.
     */
    method DragToTarget() returns (outcome: Outcome)
      requires Tracks() && pointerDown && !interceptEnabled && !listenerAttached
      requires |points| == PATH_STEPS && lastPoint == points[0]
      modifies this`log, this`steps, this`lastPoint, this`pointerDown
      ensures Tracks() && !pointerDown && steps >= old(steps)
      ensures log.reading.allOk == (old(log).reading.allOk && outcome.Html5?)
      ensures outcome.Html5? || outcome.DropFailed? || outcome == Threw(true)
      ensures outcome.Html5? ==> Obeyed(old(steps)) && log.reading.actions == old(log).reading.actions + DragEvents()
      ensures !outcome.Html5? ==>
        exists k: nat :: StoppedAt(old(steps), k, 9) && old(steps) + k < steps
          && outcome == (if answers(old(steps) + k).interruption then Threw(true) else DropFailed)
          && log.reading.actions ==
               old(log).reading.actions + DragEvents()[..k + 1] + [CancelDrag(if k < 8 then points[k] else points[7])]
    {
      pointerDown := false;
      var answer: Answer;
      ghost var k: nat;
      answer, k := SendDragEvents();
      if answer.Failed? {
        var _ := Send(CancelDrag(lastPoint));
        assert StoppedAt(old(steps), k, 9);
        return if answer.interruption then Threw(true) else DropFailed;
      }
      assert DragEvents()[..9] == DragEvents();
      return Html5;
    }

    /** Point by point until one is refused; `done` counts the attempts. */
    method DragOverPoints() returns (answer: Answer, ghost done: nat)
      requires |points| == PATH_STEPS && lastPoint == points[0]
      modifies this`log, this`steps, this`lastPoint
      ensures log.reading.allOk == (old(log).reading.allOk && answer.Ok?)
      ensures log.reading == old(log).reading.(allOk := log.reading.allOk, actions := log.reading.actions)
      ensures done <= 7 && steps == old(steps) + done && lastPoint == points[done]
      ensures log.reading.actions == old(log).reading.actions + Each(p => DragOver(p), points[1..])[..done]
      ensures answer.Ok? ==> done == 7 && Obeyed(old(steps))
      ensures answer.Failed? ==>
                done > 0 && answer == answers(old(steps) + done - 1) && StoppedAt(old(steps), done - 1, 7)
    {
      answer := Ok(true);
      ghost var over := Each(p => DragOver(p), points[1..]);
      done := 0;
      var i := 1;
      assert over[..0] == [];
      while i < |points| && answer.Ok?
        invariant 1 <= i <= |points| && done == i - 1
        invariant steps == old(steps) + done && lastPoint == points[done]
        invariant log.reading.allOk == (old(log).reading.allOk && answer.Ok?)
        invariant log.reading == old(log).reading.(allOk := log.reading.allOk, actions := log.reading.actions)
        invariant log.reading.actions == old(log).reading.actions + over[..done]
        invariant answer.Ok? ==> Obeyed(old(steps))
        invariant answer.Failed? ==>
            done > 0 && answer == answers(old(steps) + done - 1) && StoppedAt(old(steps), done - 1, 7)
      {
        lastPoint := points[i];
        answer := Send(DragOver(lastPoint));
        assert over[..i] == over[..i - 1] + [DragOver(points[i])];
        done := i;
        i := i + 1;
      }
    }

    /** No drag began: the pressed pointer is moved to the target and released there. */
    method MoveToTarget() returns (outcome: Outcome)
      requires Tracks() && pointerDown
      requires |points| == PATH_STEPS && lastPoint == points[0]
      modifies this`log, this`steps, this`lastPoint, this`pointerDown
      ensures Tracks() && (outcome.Pointer? || outcome.Threw?) && steps >= old(steps)
      ensures log.reading.listening == old(log).reading.listening
      ensures log.reading.intercepting == old(log).reading.intercepting
      ensures log.reading.allOk == (old(log).reading.allOk && outcome.Pointer?)
      ensures var did := Each(p => HeldMove(p), points[1..]) + [Release(target)];
        outcome.Pointer? ==> !pointerDown && log.reading.actions == old(log).reading.actions + did
      ensures outcome.Threw? ==>
        exists k: nat :: StoppedAt(old(steps), k, 8) && old(steps) + k < steps
          && outcome == Threw(answers(old(steps) + k).interruption)
    {
      var answer: Answer;
      ghost var k: nat;
      answer, k := HeldMoves();
      if answer.Failed? {
        assert StoppedAt(old(steps), k - 1, 8);
        return Threw(answer.interruption);
      }
      lastPoint := target;
      answer := ReleasePointer();
      if answer.Failed? {
        assert StoppedAt(old(steps), 7, 8);
        return Threw(answer.interruption);
      }
      assert !pointerDown;
      return Pointer;
    }

    method HeldMoves() returns (answer: Answer, ghost done: nat)
      requires |points| == PATH_STEPS && lastPoint == points[0]
      modifies this`log, this`steps, this`lastPoint
      ensures log.reading.allOk == (old(log).reading.allOk && answer.Ok?)
      ensures log.reading == old(log).reading.(allOk := log.reading.allOk, actions := log.reading.actions)
      ensures done <= 7 && steps == old(steps) + done && lastPoint == points[done]
      ensures log.reading.actions == old(log).reading.actions + Each(p => HeldMove(p), points[1..])[..done]
      ensures answer.Ok? ==> done == 7 && Obeyed(old(steps))
      ensures answer.Ok? ==> log.reading.actions == old(log).reading.actions + Each(p => HeldMove(p), points[1..])
      ensures answer.Failed? ==>
                done > 0 && answer == answers(old(steps) + done - 1) && StoppedAt(old(steps), done - 1, 7)
    {
      answer := Ok(true);
      ghost var moves := Each(p => HeldMove(p), points[1..]);
      done := 0;
      var i := 1;
      assert moves[..0] == [];
      while i < |points| && answer.Ok?
        invariant 1 <= i <= |points| && done == i - 1
        invariant steps == old(steps) + done && lastPoint == points[done]
        invariant log.reading.allOk == (old(log).reading.allOk && answer.Ok?)
        invariant log.reading == old(log).reading.(allOk := log.reading.allOk, actions := log.reading.actions)
        invariant log.reading.actions == old(log).reading.actions + moves[..done]
        invariant answer.Ok? ==> Obeyed(old(steps))
        invariant answer.Failed? ==>
            done > 0 && answer == answers(old(steps) + done - 1) && StoppedAt(old(steps), done - 1, 7)
      {
        lastPoint := points[i];
        answer := Send(HeldMove(lastPoint));
        assert moves[..i] == moves[..i - 1] + [HeldMove(points[i])];
        done := i;
        i := i + 1;
      }
      assert moves[..|points| - 1] == moves;
    }

    /** Up to the first pressed move, with the interception switched off again. */
    method Begin() returns (error: Option<Outcome>, expectingDrag: bool)
      requires Fresh()
      modifies this
      ensures Tracks() && (error.Some? ==> error.value.Threw?)
      ensures log.reading.allOk <==> error.None?
      ensures if error.None? then Obeyed(0) else Heard(0, error.value.interruption)
      ensures error.None? ==>
        && pointerDown && !probePending && !listenerAttached && !interceptEnabled && lastPoint == points[0]
        && log.reading.actions == Opening(source, points[0]) && answers(PROBE_REPORT) == Ok(expectingDrag)
    {
      expectingDrag := false;
      error := PressSource();
      if error.None? {
        error := Arm();
        if error.None? {
          error, expectingDrag := FirstMove();
        }
      }
    }

    /** Something was refused, and the first refusal was no interruption. */
    ghost predicate FirstRefusalIsOrdinary()
      reads this
    {
      exists n :: 0 <= n < steps && answers(n) == Failed(false) && forall m :: 0 <= m < n ==> answers(m).Ok?
    }

    /** The gesture up to its first error. */
    method Attempt() returns (outcome: Outcome)
      requires Fresh()
      modifies this
      ensures Tracks() && (log.reading.allOk <==> outcome.Html5? || outcome.Pointer?)
      ensures outcome.Html5? || outcome.Pointer? ==>
                !pointerDown && !interceptEnabled && !listenerAttached && !probePending
      ensures outcome.Html5? ==> log.reading.actions == Html5Script(source, target) && answers(PROBE_REPORT) == Ok(true)
      ensures outcome.Pointer? ==>
                log.reading.actions == PointerScript(source, target) && answers(PROBE_REPORT) == Ok(false)
      ensures outcome.Threw? ==> Heard(0, outcome.interruption)
      ensures outcome.DropFailed? ==> FirstRefusalIsOrdinary() && answers(PROBE_REPORT) == Ok(true)
      ensures outcome.DropFailed? ==> !interceptEnabled && !listenerAttached
    {
      var error, expectingDrag := Begin();
      if error.Some? {
        return error.value;
      }
      if expectingDrag {
        outcome := AwaitAndDrag();
        if outcome.Html5? {
          ScriptsInParts();
        }
      } else {
        outcome := MoveToTarget();
      }
    }

    lemma ScriptsInParts()
      requires points == Path(source, target)
      ensures Html5Script(source, target) == Opening(source, points[0]) + [AwaitDragData] + DragEvents()
    {
    }

    /** A drag began: its data is awaited, and then it is carried to the target. */
    method AwaitAndDrag() returns (outcome: Outcome)
      requires Tracks() && pointerDown && !interceptEnabled && !listenerAttached
      requires |points| == PATH_STEPS && lastPoint == points[0]
      modifies this`log, this`steps, this`lastPoint, this`pointerDown
      ensures Tracks() && steps >= old(steps)
      ensures log.reading.allOk == (old(log).reading.allOk && outcome.Html5?)
      ensures outcome.Html5? || outcome.DropFailed? || outcome.Threw?
      ensures outcome.Html5? ==>
        !pointerDown && log.reading.actions == old(log).reading.actions + [AwaitDragData] + DragEvents()
      ensures outcome.Threw? ==> Heard(old(steps), outcome.interruption)
      ensures outcome.DropFailed? ==>
        exists n :: old(steps) <= n < steps && answers(n) == Failed(false)
                    && forall m :: old(steps) <= m < n ==> answers(m).Ok?
    {
      var answer := Send(AwaitDragData);
      if answer.Failed? {
        return Threw(answer.interruption);
      }
      outcome := DragToTarget();
    }

    /**
     * Whatever is refused: a successful press is followed by a release, drop or cancel attempt, a successful
     * enable by a disable attempt, and the listener is disposed. A flag survives only a refused cleanup.
     * Success is reported exactly when everything was obeyed, and then the whole script was followed. An
     * error that is reported was met on the way; a failed drop means a drag began and its first refusal was
     * no interruption.
     */
    method Dispatch() returns (outcome: Outcome)
      requires Fresh()
      modifies this
      ensures Followed(Presses, LetsGo, Trace(log.history))
      ensures Followed(Intercepts, StopsIntercepting, Trace(log.history))
      ensures Followed(Attaches, Disposes, Trace(log.history)) && !listenerAttached
      ensures pointerDown ==> log.reading.releaseRefused
      ensures interceptEnabled ==> log.reading.disableRefused
      ensures log.reading.allOk <==> outcome.Html5? || outcome.Pointer?
      ensures outcome.Html5? ==> log.reading.actions == Html5Script(source, target) && answers(PROBE_REPORT) == Ok(true)
      ensures outcome.Pointer? ==>
                log.reading.actions == PointerScript(source, target) && answers(PROBE_REPORT) == Ok(false)
      ensures outcome.Threw? ==> Heard(0, outcome.interruption)
      ensures outcome.DropFailed? ==> FirstRefusalIsOrdinary() && answers(PROBE_REPORT) == Ok(true)
    {
      outcome := Attempt();
      if outcome.DropFailed? || outcome.Threw? {
        var _ := ReleasePointer();
      }
      assert Tracks() && !log.reading.held;
      if probePending {
        var _ := Send(FinishProbe);
      }
      var stopped := StopInterception();
      if stopped.Failed? {
        outcome := Threw(stopped.interruption);
      }
      ReadingSaysWhatIsOpen(log.history);
    }
  }
}
