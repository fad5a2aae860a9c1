// The assembly of a turn from loaded extensions, during whose awaits anything
// may be enabled or disabled (packages/agent-runtime/src/registry.ts).

module TurnAssembly {
  import opened Options
  import opened Sequences
  import opened StableSort

  datatype Tool = Tool(name: string, body: int)

  /** A missing priority counts as 0. */
  datatype Reminder = Reminder(provider: nat, priority: int, body: int)

  /** What an extension registered; functions are named by numbers. */
  datatype Contributions = Contributions(
    id: string,
    tools: seq<nat>,
    systemPrompts: seq<nat>,
    userPrompts: seq<nat>,
    reminders: seq<nat>,
    turnStart: seq<nat>,
    turnEnd: seq<nat>)

  /** What the registered functions return in this turn; an empty prompt is left out. */
  datatype Answers = Answers(tools: nat -> seq<Tool>, prompt: nat -> string, reminder: nat -> Option<Reminder>)

  datatype Seed = Seed(tools: seq<Tool>, userPrompt: string)

  datatype Assembly = Assembly(
    tools: seq<Tool>,
    systemPrompts: seq<string>,
    userPrompts: seq<string>,
    reminders: seq<Reminder>,
    turnStart: seq<nat>,
    turnEnd: seq<nat>,
    enabled: seq<string>,
    disabled: seq<string>)

  datatype Outcome = Assembled(assembly: Assembly) | DuplicateTool(name: string)

  datatype Snapshot = Snapshot(contributions: Contributions, enabled: bool)

  // ---- The intended result ------------------------------------------------------------

  function Flatten<T, U>(f: T -> seq<U>, s: seq<T>): seq<U> {
    if s == [] then [] else Flatten(f, s[..|s| - 1]) + f(s[|s| - 1])
  }

  function Active(snapshot: seq<Snapshot>): seq<Contributions> {
    Flatten(ActiveOne(), snapshot)
  }

  function ActiveOne(): Snapshot -> seq<Contributions> {
    (s: Snapshot) => if s.enabled then [s.contributions] else []
  }

  function IdWhen(enabled: bool): Snapshot -> seq<string> {
    (s: Snapshot) => if s.enabled == enabled then [s.contributions.id] else []
  }

  function NonEmpty(prompt: nat -> string): nat -> seq<string> {
    (f: nat) => if prompt(f) == "" then [] else [prompt(f)]
  }

  function Emitted(reminder: nat -> Option<Reminder>): nat -> seq<Reminder> {
    (f: nat) => if reminder(f).None? then [] else [reminder(f).value]
  }

  function ToolsOf(answers: Answers): Contributions -> seq<Tool> {
    (c: Contributions) => Flatten(answers.tools, c.tools)
  }

  function SystemPromptsOf(answers: Answers): Contributions -> seq<string> {
    (c: Contributions) => Flatten(NonEmpty(answers.prompt), c.systemPrompts)
  }

  function UserPromptsOf(answers: Answers): Contributions -> seq<string> {
    (c: Contributions) => Flatten(NonEmpty(answers.prompt), c.userPrompts)
  }

  function RemindersOf(answers: Answers): Contributions -> seq<Reminder> {
    (c: Contributions) => Flatten(Emitted(answers.reminder), c.reminders)
  }

  function TurnStartOf(): Contributions -> seq<nat> {
    (c: Contributions) => c.turnStart
  }

  function TurnEndOf(): Contributions -> seq<nat> {
    (c: Contributions) => c.turnEnd
  }

  function Priority(): Reminder -> int {
    (r: Reminder) => r.priority
  }

  function Start(seed: Seed): Assembly {
    Assembly(seed.tools, [], if seed.userPrompt == "" then [] else [seed.userPrompt], [], [], [], [], [])
  }

  /** What one more extension adds. */
  function With(a: Assembly, s: Snapshot, answers: Answers): Assembly {
    var c := s.contributions;
    if !s.enabled then a.(disabled := a.disabled + [c.id])
    else
      Assembly(
        a.tools + ToolsOf(answers)(c),
        a.systemPrompts + SystemPromptsOf(answers)(c),
        a.userPrompts + UserPromptsOf(answers)(c),
        a.reminders + RemindersOf(answers)(c),
        a.turnStart + c.turnStart,
        a.turnEnd + c.turnEnd,
        a.enabled + [c.id],
        a.disabled)
  }

  /** Everything enabled contributes, in load order. */
  function Gathered(snapshot: seq<Snapshot>, seed: Seed, answers: Answers): Assembly {
    if snapshot == [] then Start(seed)
    else With(Gathered(snapshot[..|snapshot| - 1], seed, answers), snapshot[|snapshot| - 1], answers)
  }

  /** Only the reminders are sorted. */
  function Expected(snapshot: seq<Snapshot>, seed: Seed, answers: Answers): Assembly {
    var gathered := Gathered(snapshot, seed, answers);
    gathered.(reminders := Sort(Priority(), gathered.reminders))
  }

  ghost predicate DistinctNames(tools: seq<Tool>) {
    forall i, j :: 0 <= i < j < |tools| ==> tools[i].name != tools[j].name
  }

  ghost predicate OccursTwice(tools: seq<Tool>, name: string) {
    exists i, j :: 0 <= i < j < |tools| && tools[i].name == name && tools[j].name == name
  }

  lemma FlattenSnoc<T, U>(f: T -> seq<U>, s: seq<T>, x: T)
    ensures Flatten(f, s + [x]) == Flatten(f, s) + f(x)
  {
    assert (s + [x])[..|s|] == s;
  }

  lemma {:induction false} FlattenGrows<T, U>(f: T -> seq<U>, s: seq<T>, n: nat)
    requires n <= |s|
    ensures Flatten(f, s[..n]) <= Flatten(f, s)
    decreases |s| - n
  {
    if n < |s| {
      assert s[..n + 1] == s[..n] + [s[n]];
      FlattenSnoc(f, s[..n], s[n]);
      FlattenGrows(f, s, n + 1);
    } else {
      assert s[..n] == s;
    }
  }

  lemma GatheredSnoc(snapshot: seq<Snapshot>, s: Snapshot, seed: Seed, answers: Answers)
    ensures Gathered(snapshot + [s], seed, answers) == With(Gathered(snapshot, seed, answers), s, answers)
  {
    assert (snapshot + [s])[..|snapshot|] == snapshot;
  }

  lemma {:induction false} ToolsGrow(snapshot: seq<Snapshot>, n: nat, seed: Seed, answers: Answers)
    requires n <= |snapshot|
    ensures Gathered(snapshot[..n], seed, answers).tools <= Gathered(snapshot, seed, answers).tools
    decreases |snapshot| - n
  {
    if n < |snapshot| {
      assert snapshot[..n + 1] == snapshot[..n] + [snapshot[n]];
      GatheredSnoc(snapshot[..n], snapshot[n], seed, answers);
      ToolsGrow(snapshot, n + 1, seed, answers);
    } else {
      assert snapshot[..n] == snapshot;
    }
  }

  lemma TwiceInPrefix(part: seq<Tool>, all: seq<Tool>, name: string)
    requires part <= all && OccursTwice(part, name)
    ensures OccursTwice(all, name) && !DistinctNames(all)
  {
    var i, j :| 0 <= i < j < |part| && part[i].name == name && part[j].name == name;
    assert all[i].name == name && all[j].name == name;
  }

  // ---- The registry ----------------------------------------------------------------------

  class Loaded {
    const contributions: Contributions
    var enabledGlobal: bool

    constructor (contributions: Contributions)
      ensures this.contributions == contributions && enabledGlobal
    {
      this.contributions, enabledGlobal := contributions, true;
    }
  }

  datatype Toggle = SetEnabled(id: string, enabled: bool, session: string) | Dispose(session: string)

  class Registry {
    const extensions: seq<Loaded>
    var overrides: map<string, map<string, bool>>
    /** What the host switches while the n-th await is pending. */
    const schedule: nat -> seq<Toggle>
    var clock: nat

    constructor (extensions: seq<Loaded>, schedule: nat -> seq<Toggle>)
      ensures this.extensions == extensions && this.schedule == schedule && overrides == map[]
    {
      this.extensions, this.schedule := extensions, schedule;
      overrides, clock := map[], 0;
    }

    ghost predicate Valid() {
      forall i, j :: 0 <= i < j < |extensions| ==> extensions[i].contributions.id != extensions[j].contributions.id
    }

    predicate IsEnabled(loaded: Loaded, session: string)
      reads this, loaded
    {
      var id := loaded.contributions.id;
      if session in overrides && id in overrides[session] then overrides[session][id] else loaded.enabledGlobal
    }

    ghost function Flags(session: string): seq<Snapshot>
      reads this, extensions
    {
      seq(|extensions|, i requires 0 <= i < |extensions| reads this, extensions =>
        Snapshot(extensions[i].contributions, IsEnabled(extensions[i], session)))
    }

    /**
     * An override belongs to one session; the global flag shows wherever no override does. The empty
     * session id addresses the global flag.
     */
    method SetEnabled(id: string, enabled: bool, session: string) returns (known: bool)
      requires Valid()
      modifies this`overrides, extensions
      ensures known <==> exists i :: 0 <= i < |extensions| && extensions[i].contributions.id == id
      ensures forall i :: 0 <= i < |extensions| && extensions[i].contributions.id != id ==>
        forall s :: IsEnabled(extensions[i], s) == old(IsEnabled(extensions[i], s))
      ensures forall i :: 0 <= i < |extensions| && extensions[i].contributions.id == id && session != "" ==>
        && IsEnabled(extensions[i], session) == enabled
        && forall s :: s != session ==> IsEnabled(extensions[i], s) == old(IsEnabled(extensions[i], s))
      ensures forall i :: 0 <= i < |extensions| && extensions[i].contributions.id == id && session == "" ==>
        forall s :: IsEnabled(extensions[i], s)
          == if s in old(overrides) && id in old(overrides)[s] then old(overrides)[s][id] else enabled
    {
      for i := 0 to |extensions|
        invariant forall j :: 0 <= j < i ==> extensions[j].contributions.id != id
        invariant overrides == old(overrides) && forall j :: 0 <= j < |extensions| ==> unchanged(extensions[j])
      {
        if extensions[i].contributions.id == id {
          assert forall j :: 0 <= j < |extensions| && j != i ==>
            extensions[j].contributions.id != id && extensions[j] != extensions[i];
          if session != "" {
            var ofSession := if session in overrides then overrides[session] else map[];
            overrides := overrides[session := ofSession[id := enabled]];
          } else {
            extensions[i].enabledGlobal := enabled;
          }
          return true;
        }
      }
      return false;
    }

    method DisposeSession(session: string)
      modifies this`overrides
      ensures overrides == old(overrides) - {session}
      ensures forall e :: e in extensions ==> IsEnabled(e, session) == e.enabledGlobal
    {
      overrides := overrides - {session};
    }

    /** An await: whatever the host switches meanwhile takes effect at once. */
    method Await()
      requires Valid()
      modifies this`overrides, this`clock, extensions
    {
      var toggles := schedule(clock);
      clock := clock + 1;
      for i := 0 to |toggles|
      {
        match toggles[i] {
          case SetEnabled(id, enabled, session) => var _ := SetEnabled(id, enabled, session);
          case Dispose(session) => DisposeSession(session);
        }
      }
    }

    method SnapshotExtensions(session: string) returns (snapshot: seq<Snapshot>)
      ensures snapshot == Flags(session)
      ensures |snapshot| == |extensions| && forall i :: 0 <= i < |extensions| ==>
                snapshot[i] == Snapshot(extensions[i].contributions, IsEnabled(extensions[i], session))
    {
      snapshot := [];
      for i := 0 to |extensions|
        invariant snapshot == Flags(session)[..i]
      {
        assert Flags(session)[..i + 1] == Flags(session)[..i] + [Flags(session)[i]];
        snapshot := snapshot + [Snapshot(extensions[i].contributions, IsEnabled(extensions[i], session))];
      }
      assert Flags(session)[..|extensions|] == Flags(session);
    }

    /** Adds the tools of one contribution; None when all their names are new. */
    method AppendCatalog(tools: seq<Tool>, catalog: seq<Tool>) returns (more: seq<Tool>, duplicate: Option<string>)
      requires DistinctNames(tools)
      ensures duplicate.None? ==> more == tools + catalog && DistinctNames(more)
      ensures duplicate.Some? ==> OccursTwice(tools + catalog, duplicate.value)
    {
      more := tools;
      for i := 0 to |catalog|
        invariant more == tools + catalog[..i] && DistinctNames(more)
      {
        var name := catalog[i].name;
        var names := set k | 0 <= k < |more| :: more[k].name;
        if name in names {
          var k :| 0 <= k < |more| && more[k].name == name;
          assert (tools + catalog)[k].name == name && (tools + catalog)[|tools| + i].name == name;
          return more, Some(name);
        }
        more := more + [catalog[i]];
        assert catalog[..i + 1] == catalog[..i] + [catalog[i]];
      }
      assert catalog[..|catalog|] == catalog;
      return more, None;
    }

    method AppendTools(c: Contributions, answers: Answers, tools: seq<Tool>) returns (more: seq<Tool>,
        duplicate: Option<string>)
      requires Valid() && DistinctNames(tools)
      modifies this`overrides, this`clock, extensions
      ensures duplicate.None? ==> more == tools + ToolsOf(answers)(c) && DistinctNames(more)
      ensures duplicate.Some? ==> OccursTwice(tools + ToolsOf(answers)(c), duplicate.value)
    {
      more := tools;
      for i := 0 to |c.tools|
        invariant more == tools + Flatten(answers.tools, c.tools[..i]) && DistinctNames(more)
      {
        Await();
        assert c.tools[..i + 1] == c.tools[..i] + [c.tools[i]];
        FlattenSnoc(answers.tools, c.tools[..i], c.tools[i]);
        ghost var before := more;
        more, duplicate := AppendCatalog(more, answers.tools(c.tools[i]));
        if duplicate.Some? {
          FlattenGrows(answers.tools, c.tools, i + 1);
          TwiceInPrefix(before + answers.tools(c.tools[i]), tools + ToolsOf(answers)(c), duplicate.value);
          return;
        }
      }
      assert c.tools[..|c.tools|] == c.tools;
      return more, None;
    }

    method CollectPrompts(handles: seq<nat>, prompt: nat -> string) returns (prompts: seq<string>)
      requires Valid()
      modifies this`overrides, this`clock, extensions
      ensures prompts == Flatten(NonEmpty(prompt), handles)
    {
      prompts := [];
      for i := 0 to |handles|
        invariant prompts == Flatten(NonEmpty(prompt), handles[..i])
      {
        Await();
        assert handles[..i + 1] == handles[..i] + [handles[i]];
        FlattenSnoc(NonEmpty(prompt), handles[..i], handles[i]);
        var text := prompt(handles[i]);
        if text != "" {
          prompts := prompts + [text];
        }
      }
      assert handles[..|handles|] == handles;
    }

    method CollectReminders(handles: seq<nat>, reminder: nat -> Option<Reminder>) returns (reminders: seq<Reminder>)
      requires Valid()
      modifies this`overrides, this`clock, extensions
      ensures reminders == Flatten(Emitted(reminder), handles)
    {
      reminders := [];
      for i := 0 to |handles|
        invariant reminders == Flatten(Emitted(reminder), handles[..i])
      {
        Await();
        assert handles[..i + 1] == handles[..i] + [handles[i]];
        FlattenSnoc(Emitted(reminder), handles[..i], handles[i]);
        var emission := reminder(handles[i]);
        if emission.Some? {
          reminders := reminders + [emission.value];
        }
      }
      assert handles[..|handles|] == handles;
    }

    method AppendExtension(a: Assembly, s: Snapshot, answers: Answers) returns (after: Assembly,
        duplicate: Option<string>)
      requires Valid() && DistinctNames(a.tools)
      modifies this`overrides, this`clock, extensions
      ensures duplicate.None? ==> after == With(a, s, answers) && DistinctNames(after.tools)
      ensures duplicate.Some? ==> OccursTwice(With(a, s, answers).tools, duplicate.value)
    {
      var c := s.contributions;
      if !s.enabled {
        return a.(disabled := a.disabled + [c.id]), None;
      }
      var tools;
      tools, duplicate := AppendTools(c, answers, a.tools);
      if duplicate.Some? {
        return a, duplicate;
      }
      var system := CollectPrompts(c.systemPrompts, answers.prompt);
      var user := CollectPrompts(c.userPrompts, answers.prompt);
      var reminders := CollectReminders(c.reminders, answers.reminder);
      after := Assembly(tools, a.systemPrompts + system, a.userPrompts + user, a.reminders + reminders,
                        a.turnStart + c.turnStart, a.turnEnd + c.turnEnd, a.enabled + [c.id], a.disabled);
    }

    /**
     * The outcome is fixed by the flags at the call, whatever is switched at any await. It is a failure
     * exactly when two tools would share a name.
     */
    method AssembleTurn(session: string, seed: Seed, answers: Answers) returns (outcome: Outcome)
      requires Valid()
      modifies this`overrides, this`clock, extensions
      ensures var expected := Expected(old(Flags(session)), seed, answers);
        && (outcome.Assembled? <==> DistinctNames(expected.tools))
        && (outcome.Assembled? ==> outcome.assembly == expected)
        && (outcome.DuplicateTool? ==> OccursTwice(expected.tools, outcome.name))
    {
      var snapshot := SnapshotExtensions(session);
      outcome := AssembleSnapshot(snapshot, seed, answers);
    }

    method AssembleSnapshot(snapshot: seq<Snapshot>, seed: Seed, answers: Answers) returns (outcome: Outcome)
      requires Valid()
      modifies this`overrides, this`clock, extensions
      ensures var expected := Expected(snapshot, seed, answers);
        && (outcome.Assembled? <==> DistinctNames(expected.tools))
        && (outcome.Assembled? ==> outcome.assembly == expected)
        && (outcome.DuplicateTool? ==> OccursTwice(expected.tools, outcome.name))
    {
      var tools, duplicate := AppendCatalog([], seed.tools);
      assert [] + seed.tools == seed.tools;
      if duplicate.Some? {
        DuplicateSoFar(snapshot, 0, seed, answers, duplicate.value);
        return DuplicateTool(duplicate.value);
      }
      var a := Assembly(tools, [], if seed.userPrompt == "" then [] else [seed.userPrompt], [], [], [], [], []);
      for i := 0 to |snapshot|
        invariant a == Gathered(snapshot[..i], seed, answers) && DistinctNames(a.tools)
      {
        assert snapshot[..i + 1] == snapshot[..i] + [snapshot[i]];
        GatheredSnoc(snapshot[..i], snapshot[i], seed, answers);
        a, duplicate := AppendExtension(a, snapshot[i], answers);
        if duplicate.Some? {
          DuplicateSoFar(snapshot, i + 1, seed, answers, duplicate.value);
          return DuplicateTool(duplicate.value);
        }
      }
      assert snapshot[..|snapshot|] == snapshot;
      return Assembled(a.(reminders := Sort(Priority(), a.reminders)));
    }

    lemma DuplicateSoFar(snapshot: seq<Snapshot>, n: nat, seed: Seed, answers: Answers, name: string)
      requires n <= |snapshot| && OccursTwice(Gathered(snapshot[..n], seed, answers).tools, name)
      ensures var all := Expected(snapshot, seed, answers).tools; OccursTwice(all, name) && !DistinctNames(all)
    {
      ToolsGrow(snapshot, n, seed, answers);
      TwiceInPrefix(Gathered(snapshot[..n], seed, answers).tools, Gathered(snapshot, seed, answers).tools, name);
    }
  }

  // ---- What the expected result is --------------------------------------------------------

  /** Descending priorities; equal priorities in the order in which they were emitted; none lost. */
  lemma RemindersAreStablySorted(snapshot: seq<Snapshot>, seed: Seed, answers: Answers)
    ensures var emitted, sorted := Gathered(snapshot, seed, answers).reminders,
              Expected(snapshot, seed, answers).reminders;
      && (forall i, j :: 0 <= i < j < |sorted| ==> sorted[i].priority >= sorted[j].priority)
      && multiset(sorted) == multiset(emitted)
      && forall p :: Filter(WithKey(Priority(), p), sorted) == Filter(WithKey(Priority(), p), emitted)
  {
    SortIsStable(Priority(), Gathered(snapshot, seed, answers).reminders);
  }

  /** An empty turn has what the host hands in and nothing else. */
  lemma EmptyTurn(seed: Seed, answers: Answers)
    ensures Gathered([], seed, answers) ==
      Assembly(seed.tools, [], if seed.userPrompt == "" then [] else [seed.userPrompt], [], [], [], [], [])
  {
  }

  /**
   * One more extension adds its tools, non-empty prompts, reminders and handlers, or only its name if it is
   * disabled.
   */
  lemma OneMoreExtension(snapshot: seq<Snapshot>, s: Snapshot, seed: Seed, answers: Answers)
    ensures var a, c, after := Gathered(snapshot, seed, answers), s.contributions,
              Gathered(snapshot + [s], seed, answers);
      if s.enabled then
        && after.tools == a.tools + Flatten(answers.tools, c.tools)
        && after.systemPrompts == a.systemPrompts + Flatten(NonEmpty(answers.prompt), c.systemPrompts)
        && after.userPrompts == a.userPrompts + Flatten(NonEmpty(answers.prompt), c.userPrompts)
        && after.reminders == a.reminders + Flatten(Emitted(answers.reminder), c.reminders)
        && after.turnStart == a.turnStart + c.turnStart && after.turnEnd == a.turnEnd + c.turnEnd
        && after.enabled == a.enabled + [c.id] && after.disabled == a.disabled
      else after == a.(disabled := a.disabled + [c.id])
  {
    GatheredSnoc(snapshot, s, seed, answers);
  }

  /** Each registered function is asked in turn; empty prompts and missing reminders are left out. */
  lemma OneMoreFunction(answers: Answers, handles: seq<nat>, f: nat)
    ensures Flatten(answers.tools, handles + [f]) == Flatten(answers.tools, handles) + answers.tools(f)
    ensures Flatten(NonEmpty(answers.prompt), handles + [f]) ==
      Flatten(NonEmpty(answers.prompt), handles) + (if answers.prompt(f) == "" then [] else [answers.prompt(f)])
    ensures Flatten(Emitted(answers.reminder), handles + [f]) ==
      Flatten(Emitted(answers.reminder), handles)
      + (if answers.reminder(f).None? then [] else [answers.reminder(f).value])
    ensures Flatten(answers.tools, []) == [] && Flatten(NonEmpty(answers.prompt), []) == []
    ensures Flatten(Emitted(answers.reminder), []) == []
  {
    FlattenSnoc(answers.tools, handles, f);
    FlattenSnoc(NonEmpty(answers.prompt), handles, f);
    FlattenSnoc(Emitted(answers.reminder), handles, f);
  }

  /** Everything but the order of the reminders is as it was gathered. */
  lemma OnlyRemindersAreSorted(snapshot: seq<Snapshot>, seed: Seed, answers: Answers)
    ensures var a, b := Gathered(snapshot, seed, answers), Expected(snapshot, seed, answers);
      b == a.(reminders := b.reminders)
  {
  }

  /** Field by field: what the enabled extensions contribute, one after the other. */
  lemma {:induction false} GatheredIsInLoadOrder(snapshot: seq<Snapshot>, seed: Seed, answers: Answers)
    ensures var a, active := Gathered(snapshot, seed, answers), Active(snapshot);
      && a.tools == seed.tools + Flatten(ToolsOf(answers), active)
      && a.systemPrompts == Flatten(SystemPromptsOf(answers), active)
      && a.userPrompts == (if seed.userPrompt == "" then [] else [seed.userPrompt])
           + Flatten(UserPromptsOf(answers), active)
      && a.reminders == Flatten(RemindersOf(answers), active)
      && a.turnStart == Flatten(TurnStartOf(), active)
      && a.turnEnd == Flatten(TurnEndOf(), active)
  {
    if snapshot != [] {
      var init, last := snapshot[..|snapshot| - 1], snapshot[|snapshot| - 1];
      GatheredIsInLoadOrder(init, seed, answers);
      assert Active(snapshot) == Active(init) + ActiveOne()(last);
      if !last.enabled {
        assert Active(snapshot) == Active(init);
      } else {
        var active, c := Active(init), last.contributions;
        FlattenSnoc(ToolsOf(answers), active, c);
        FlattenSnoc(SystemPromptsOf(answers), active, c);
        FlattenSnoc(UserPromptsOf(answers), active, c);
        FlattenSnoc(RemindersOf(answers), active, c);
        FlattenSnoc(TurnStartOf(), active, c);
        FlattenSnoc(TurnEndOf(), active, c);
      }
    }
  }

  /** Each loaded extension is reported once: among the enabled or among the disabled, in load order. */
  lemma {:induction false} EnabledAndDisabledPartition(snapshot: seq<Snapshot>, seed: Seed, answers: Answers)
    ensures Gathered(snapshot, seed, answers).enabled == Flatten(IdWhen(true), snapshot)
    ensures Gathered(snapshot, seed, answers).disabled == Flatten(IdWhen(false), snapshot)
    ensures multiset(Flatten(IdWhen(true), snapshot)) + multiset(Flatten(IdWhen(false), snapshot))
      == multiset(Flatten((s: Snapshot) => [s.contributions.id], snapshot))
  {
    if snapshot != [] {
      EnabledAndDisabledPartition(snapshot[..|snapshot| - 1], seed, answers);
    }
  }

  lemma ForgetsDisabled(a: Assembly, s: Snapshot, answers: Answers)
    ensures With(a, s, answers).(disabled := []) == With(a.(disabled := []), s, answers).(disabled := [])
  {
  }

  /** A disabled extension leaves no trace but its name among the disabled. */
  lemma DisabledContributeNothing(before: seq<Snapshot>, s: Snapshot, after: seq<Snapshot>, seed: Seed,
      answers: Answers)
    requires !s.enabled
    ensures Gathered(before + [s] + after, seed, answers).(disabled := [])
      == Gathered(before + after, seed, answers).(disabled := [])
  {
    GatheredSnoc(before, s, seed, answers);
    SameWithout(before + [s], before, after, seed, answers);
  }

  lemma SameWithOneMore(a: seq<Snapshot>, b: seq<Snapshot>, s: Snapshot, seed: Seed, answers: Answers)
    requires Gathered(a, seed, answers).(disabled := []) == Gathered(b, seed, answers).(disabled := [])
    ensures Gathered(a + [s], seed, answers).(disabled := []) == Gathered(b + [s], seed, answers).(disabled := [])
  {
    GatheredSnoc(a, s, seed, answers);
    GatheredSnoc(b, s, seed, answers);
    ForgetsDisabled(Gathered(a, seed, answers), s, answers);
    ForgetsDisabled(Gathered(b, seed, answers), s, answers);
  }

  lemma SplitLast<T>(s: seq<T>, after: seq<T>)
    requires after != []
    ensures s + after == (s + after[..|after| - 1]) + [after[|after| - 1]]
  {
  }

  lemma {:induction false} SameWithout(a: seq<Snapshot>, b: seq<Snapshot>, after: seq<Snapshot>, seed: Seed,
      answers: Answers)
    requires Gathered(a, seed, answers).(disabled := []) == Gathered(b, seed, answers).(disabled := [])
    ensures Gathered(a + after, seed, answers).(disabled := []) == Gathered(b + after, seed, answers).(disabled := [])
  {
    if after == [] {
      assert a + after == a && b + after == b;
    } else {
      var init, last := after[..|after| - 1], after[|after| - 1];
      SameWithout(a, b, init, seed, answers);
      SameWithOneMore(a + init, b + init, last, seed, answers);
      SplitLast(a, after);
      SplitLast(b, after);
    }
  }
}
