// Which extensions a profile loads, and in which order
// (packages/agent-runtime/src/resolve.ts).

module ExtensionResolution {
  import opened Options
  import opened Sequences

  /** `body` stands for everything an extension brings along. */
  datatype Extension = Extension(id: string, body: int)

  datatype Replacement = Replacement(target: string, source: string)

  /** The keys of `replace` are property names of one object. */
  datatype Overlay = Overlay(disable: seq<string>, enable: seq<string>, replace: seq<Replacement>)

  datatype Problem =
    | DuplicateInPool(id: string)
    | DisablesUnknown(id: string)
    | EnablesDisabled(id: string)
    | EnablesUnknown(id: string)
    | ReplacesMissing(target: string)
    | ReplacesByUnknown(source: string)
    | DuplicateInResult(id: string)

  datatype Outcome = Loaded(extensions: seq<Extension>) | Refused(problem: Problem)

  // ---- The intended list -----------------------------------------------------------

  function Ids(extensions: seq<Extension>): (ids: seq<string>)
    ensures |ids| == |extensions| && forall i :: 0 <= i < |ids| ==> ids[i] == extensions[i].id
  {
    seq(|extensions|, i requires 0 <= i < |extensions| => extensions[i].id)
  }

  ghost predicate Distinct<T>(s: seq<T>) {
    forall i, j :: 0 <= i < j < |s| ==> s[i] != s[j]
  }

  predicate HasId(extensions: seq<Extension>, id: string) {
    exists i :: 0 <= i < |extensions| && extensions[i].id == id
  }

  function NotIn(ids: seq<string>): Extension -> bool {
    (e: Extension) => e.id !in ids
  }

  function In(ids: seq<string>): Extension -> bool {
    (e: Extension) => e.id in ids
  }

  /** What remains of the base, followed by the enabled additions in the order of the additions. */
  function Selected(base: seq<Extension>, additions: seq<Extension>, overlay: Overlay): seq<Extension> {
    Filter(NotIn(overlay.disable), base) + Filter(In(overlay.enable), additions)
  }

  function Lookup(pool: seq<Extension>, id: string): (found: Option<Extension>)
    ensures found.Some? ==> found.value in pool && found.value.id == id
    ensures found.None? ==> !HasId(pool, id)
  {
    if pool == [] then None
    else if pool[|pool| - 1].id == id then Some(pool[|pool| - 1])
    else
      assert pool == pool[..|pool| - 1] + [pool[|pool| - 1]];
      Lookup(pool[..|pool| - 1], id)
  }

  function SourceOf(replace: seq<Replacement>, target: string): (source: Option<string>)
    ensures source.Some? ==> Replacement(target, source.value) in replace
    ensures source.None? ==> forall r :: r in replace ==> r.target != target
  {
    if replace == [] then None
    else
      var last := replace[|replace| - 1];
      if last.target == target then Some(last.source) else SourceOf(replace[..|replace| - 1], target)
  }

  /** What stands in for an extension; every replacement refers to the list before any of them. */
  function Replaced(pool: seq<Extension>, replace: seq<Replacement>, e: Extension): Extension {
    var source := SourceOf(replace, e.id);
    if source.None? then e
    else
      var found := Lookup(pool, source.value);
      if found.Some? then found.value else e
  }

  function ReplacedAll(pool: seq<Extension>, replace: seq<Replacement>, list: seq<Extension>): (result: seq<Extension>)
    ensures |result| == |list| && forall i :: 0 <= i < |list| ==> result[i] == Replaced(pool, replace, list[i])
  {
    seq(|list|, i requires 0 <= i < |list| => Replaced(pool, replace, list[i]))
  }

  /** The base without what is disabled, and after it the enabled additions, both in their own order. */
  lemma SelectedInOrder(base: seq<Extension>, additions: seq<Extension>, overlay: Overlay)
    ensures var kept, added := Filter(NotIn(overlay.disable), base), Filter(In(overlay.enable), additions);
      && Selected(base, additions, overlay) == kept + added
      && (forall e :: e in kept <==> e in base && e.id !in overlay.disable)
      && (forall e :: e in added <==> e in additions && e.id in overlay.enable)
  {
    FilterMembers(NotIn(overlay.disable), base);
    FilterMembers(In(overlay.enable), additions);
  }

  /** An extension of the list stands for itself, or is replaced by the one of the pool that its replacement names. */
  ghost predicate StandsFor(pool: seq<Extension>, replace: seq<Replacement>, e: Extension, stand: Extension) {
    if exists r :: r in replace && r.target == e.id then
      exists r :: r in replace && r.target == e.id && stand.id == r.source && stand in pool
    else stand == e
  }

  lemma ReplacedStandFor(pool: seq<Extension>, replace: seq<Replacement>, list: seq<Extension>)
    requires forall r :: r in replace ==> HasId(pool, r.source)
    ensures forall i :: 0 <= i < |list| ==> StandsFor(pool, replace, list[i], ReplacedAll(pool, replace, list)[i])
  {
    forall i | 0 <= i < |list| ensures StandsFor(pool, replace, list[i], Replaced(pool, replace, list[i])) {
      var source := SourceOf(replace, list[i].id);
      if source.Some? {
        assert Replacement(list[i].id, source.value) in replace;
        LookupFinds(pool, source.value);
      }
    }
  }

  // ---- When a profile can be loaded -----------------------------------------------------

  ghost predicate NamesExist(base: seq<Extension>, additions: seq<Extension>, overlay: Overlay) {
    && (forall id :: id in overlay.disable ==> HasId(base, id))
    && (forall id :: id in overlay.enable ==> id !in overlay.disable && HasId(additions, id))
    && (forall r :: r in overlay.replace ==>
          HasId(Selected(base, additions, overlay), r.target) && HasId(base + additions, r.source))
  }

  /** No two targets share a source, and a source that is loaded anyway is itself replaced. */
  ghost predicate ReplacementsFit(list: seq<Extension>, replace: seq<Replacement>) {
    && (forall r, q :: r in replace && q in replace && r.source == q.source ==> r.target == q.target)
    && (forall r :: r in replace && HasId(list, r.source) ==> exists q :: q in replace && q.target == r.source)
  }

  ghost predicate Loadable(base: seq<Extension>, additions: seq<Extension>, overlay: Overlay) {
    && Distinct(Ids(base + additions))
    && NamesExist(base, additions, overlay)
    && ReplacementsFit(Selected(base, additions, overlay), overlay.replace)
  }

  ghost predicate DistinctTargets(replace: seq<Replacement>) {
    forall i, j :: 0 <= i < j < |replace| ==> replace[i].target != replace[j].target
  }

  // ---- Lemmas ------------------------------------------------------------------------------

  lemma {:induction false} LookupFinds(pool: seq<Extension>, id: string)
    requires HasId(pool, id)
    ensures Lookup(pool, id).Some?
  {
    var i :| 0 <= i < |pool| && pool[i].id == id;
    if pool[|pool| - 1].id != id {
      assert pool[..|pool| - 1][i].id == id;
      LookupFinds(pool[..|pool| - 1], id);
    }
  }

  /** With distinct targets, membership alone decides what a target is replaced by. */
  lemma SourceIsTheOnlyOne(replace: seq<Replacement>, r: Replacement)
    requires DistinctTargets(replace) && r in replace
    ensures SourceOf(replace, r.target) == Some(r.source)
  {
    var source := SourceOf(replace, r.target);
    var i :| 0 <= i < |replace| && replace[i] == r;
    if source.Some? {
      var j :| 0 <= j < |replace| && replace[j] == Replacement(r.target, source.value);
      assert i == j;
    }
  }

  /** The order in which replacements are listed does not matter. */
  lemma ReplacementOrderIsIrrelevant(pool: seq<Extension>, list: seq<Extension>, a: seq<Replacement>,
      b: seq<Replacement>)
    requires DistinctTargets(a) && DistinctTargets(b) && forall r :: r in a <==> r in b
    ensures ReplacedAll(pool, a, list) == ReplacedAll(pool, b, list)
    ensures ReplacementsFit(list, a) <==> ReplacementsFit(list, b)
  {
    forall i | 0 <= i < |list| ensures Replaced(pool, a, list[i]) == Replaced(pool, b, list[i]) {
      var id := list[i].id;
      var x, y := SourceOf(a, id), SourceOf(b, id);
      if x.Some? {
        SourceIsTheOnlyOne(b, Replacement(id, x.value));
      }
      if y.Some? {
        SourceIsTheOnlyOne(a, Replacement(id, y.value));
      }
    }
  }

  /** The id that stands at the place of `id` afterwards. */
  function NewId(replace: seq<Replacement>, id: string): string {
    var source := SourceOf(replace, id);
    if source.Some? then source.value else id
  }

  lemma ReplacedHasNewId(pool: seq<Extension>, replace: seq<Replacement>, e: Extension)
    requires forall r :: r in replace ==> HasId(pool, r.source)
    ensures Replaced(pool, replace, e).id == NewId(replace, e.id)
  {
    var source := SourceOf(replace, e.id);
    if source.Some? {
      LookupFinds(pool, source.value);
    }
  }

  lemma NewIdsOf(pool: seq<Extension>, replace: seq<Replacement>, list: seq<Extension>)
    requires forall r :: r in replace ==> HasId(pool, r.source)
    ensures forall i :: 0 <= i < |list| ==> Ids(ReplacedAll(pool, replace, list))[i] == NewId(replace, list[i].id)
  {
    forall i | 0 <= i < |list| ensures Ids(ReplacedAll(pool, replace, list))[i] == NewId(replace, list[i].id) {
      ReplacedHasNewId(pool, replace, list[i]);
    }
  }

  lemma FittingStaysDistinct(pool: seq<Extension>, replace: seq<Replacement>, list: seq<Extension>)
    requires Distinct(Ids(list)) && DistinctTargets(replace) && ReplacementsFit(list, replace)
    requires forall r :: r in replace ==> HasId(pool, r.source)
    ensures Distinct(Ids(ReplacedAll(pool, replace, list)))
  {
    var result := ReplacedAll(pool, replace, list);
    NewIdsOf(pool, replace, list);
    forall i, j | 0 <= i < j < |list| ensures Ids(result)[i] != Ids(result)[j] {
      assert Ids(list)[i] != Ids(list)[j];
      NewIdsDiffer(replace, list, i, j);
    }
  }

  lemma DistinctSources(pool: seq<Extension>, replace: seq<Replacement>, list: seq<Extension>, r: Replacement,
      q: Replacement)
    requires DistinctTargets(replace) && Distinct(Ids(ReplacedAll(pool, replace, list)))
    requires forall r :: r in replace ==> HasId(list, r.target) && HasId(pool, r.source)
    requires r in replace && q in replace && r.source == q.source
    ensures r.target == q.target
  {
    var ids := Ids(ReplacedAll(pool, replace, list));
    NewIdsOf(pool, replace, list);
    var i :| 0 <= i < |list| && list[i].id == r.target;
    var j :| 0 <= j < |list| && list[j].id == q.target;
    SourceIsTheOnlyOne(replace, r);
    SourceIsTheOnlyOne(replace, q);
    SamePosition(ids, i, j);
  }

  lemma SamePosition<T>(s: seq<T>, i: nat, j: nat)
    requires Distinct(s) && i < |s| && j < |s| && s[i] == s[j]
    ensures i == j
  {
  }

  lemma LoadedSourceIsReplaced(pool: seq<Extension>, replace: seq<Replacement>, list: seq<Extension>, r: Replacement)
    requires DistinctTargets(replace) && Distinct(Ids(ReplacedAll(pool, replace, list)))
    requires forall r :: r in replace ==> HasId(list, r.target) && HasId(pool, r.source)
    requires r in replace && HasId(list, r.source)
    ensures exists q :: q in replace && q.target == r.source
  {
    var result := ReplacedAll(pool, replace, list);
    NewIdsOf(pool, replace, list);
    var i :| 0 <= i < |list| && list[i].id == r.target;
    var j :| 0 <= j < |list| && list[j].id == r.source;
    SourceIsTheOnlyOne(replace, r);
    assert Ids(result)[i] == r.source && Ids(result)[j] == NewId(replace, r.source);
    assert i != j ==> Ids(result)[i] != Ids(result)[j];
    assert SourceOf(replace, r.source).Some?;
    assert Replacement(r.source, SourceOf(replace, r.source).value) in replace;
  }

  /** Duplicates appear exactly when the replacements do not fit the list. */
  lemma DistinctExactlyWhenReplacementsFit(pool: seq<Extension>, replace: seq<Replacement>, list: seq<Extension>)
    requires Distinct(Ids(list)) && DistinctTargets(replace)
    requires forall r :: r in replace ==> HasId(list, r.target) && HasId(pool, r.source)
    ensures Distinct(Ids(ReplacedAll(pool, replace, list))) <==> ReplacementsFit(list, replace)
  {
    if ReplacementsFit(list, replace) {
      FittingStaysDistinct(pool, replace, list);
    }
    if Distinct(Ids(ReplacedAll(pool, replace, list))) {
      forall r, q | r in replace && q in replace && r.source == q.source ensures r.target == q.target {
        DistinctSources(pool, replace, list, r, q);
      }
      forall r | r in replace && HasId(list, r.source) ensures exists q :: q in replace && q.target == r.source {
        LoadedSourceIsReplaced(pool, replace, list, r);
      }
    }
  }

  lemma NewIdsDiffer(replace: seq<Replacement>, list: seq<Extension>, i: nat, j: nat)
    requires i < |list| && j < |list| && list[i].id != list[j].id
    requires ReplacementsFit(list, replace) && DistinctTargets(replace)
    ensures NewId(replace, list[i].id) != NewId(replace, list[j].id)
  {
    var a, b := SourceOf(replace, list[i].id), SourceOf(replace, list[j].id);
    if a.Some? {
      assert Replacement(list[i].id, a.value) in replace;
    }
    if b.Some? {
      assert Replacement(list[j].id, b.value) in replace;
    }
    assert HasId(list, list[i].id) && HasId(list, list[j].id);
  }

  lemma {:induction false} FilterKeepsDistinctIds(p: Extension -> bool, s: seq<Extension>)
    requires Distinct(Ids(s))
    ensures Distinct(Ids(Filter(p, s)))
  {
    if s != [] {
      var n := |s| - 1;
      var init := s[..n];
      forall i, j | 0 <= i < j < n ensures Ids(init)[i] != Ids(init)[j] {
        assert Ids(s)[i] != Ids(s)[j];
      }
      FilterKeepsDistinctIds(p, init);
      FilterMembers(p, init);
      var f := Filter(p, init);
      forall i | 0 <= i < |f| ensures f[i].id != s[n].id {
        assert f[i] in init;
        var k :| 0 <= k < n && init[k] == f[i];
        assert Ids(s)[k] != Ids(s)[n];
      }
    }
  }

  /** Before replacing, no id occurs twice. */
  lemma SelectedAreDistinct(base: seq<Extension>, additions: seq<Extension>, overlay: Overlay)
    requires Distinct(Ids(base + additions))
    ensures Distinct(Ids(Selected(base, additions, overlay)))
  {
    var all := base + additions;
    forall i, j | 0 <= i < j < |base| ensures Ids(base)[i] != Ids(base)[j] {
      assert Ids(all)[i] != Ids(all)[j];
    }
    forall i, j | 0 <= i < j < |additions| ensures Ids(additions)[i] != Ids(additions)[j] {
      assert Ids(all)[|base| + i] != Ids(all)[|base| + j];
    }
    FilterKeepsDistinctIds(NotIn(overlay.disable), base);
    FilterKeepsDistinctIds(In(overlay.enable), additions);
    FilterMembers(NotIn(overlay.disable), base);
    FilterMembers(In(overlay.enable), additions);
    var kept, added := Filter(NotIn(overlay.disable), base), Filter(In(overlay.enable), additions);
    forall i, j | 0 <= i < |kept| && 0 <= j < |added| ensures kept[i].id != added[j].id {
      assert kept[i] in base && added[j] in additions;
      var k :| 0 <= k < |base| && base[k] == kept[i];
      var l :| 0 <= l < |additions| && additions[l] == added[j];
      assert Ids(all)[k] != Ids(all)[|base| + l];
    }
  }

  // ---- The resolution as the source runs it ---------------------------------------------------

  ghost predicate Twice(ids: seq<string>, id: string) {
    exists i, j :: 0 <= i < j < |ids| && ids[i] == id && ids[j] == id
  }

  /** Every kind of refusal is justified. */
  ghost predicate Justified(base: seq<Extension>, additions: seq<Extension>, overlay: Overlay, problem: Problem) {
    match problem
    case DuplicateInPool(id) => Twice(Ids(base + additions), id)
    case DisablesUnknown(id) => id in overlay.disable && !HasId(base, id)
    case EnablesDisabled(id) => id in overlay.enable && id in overlay.disable
    case EnablesUnknown(id) => id in overlay.enable && !HasId(additions, id)
    case ReplacesMissing(target) =>
      (exists r :: r in overlay.replace && r.target == target) && !HasId(Selected(base, additions, overlay), target)
    case ReplacesByUnknown(source) =>
      (exists r :: r in overlay.replace && r.source == source) && !HasId(base + additions, source)
    case DuplicateInResult(id) =>
      && !ReplacementsFit(Selected(base, additions, overlay), overlay.replace)
      && Twice(Ids(ReplacedAll(base + additions, overlay.replace, Selected(base, additions, overlay))), id)
  }

  /** None when all ids differ, else one that occurs twice. */
  method FindDuplicate(extensions: seq<Extension>) returns (duplicate: Option<string>)
    ensures duplicate.None? <==> Distinct(Ids(extensions))
    ensures duplicate.Some? ==> Twice(Ids(extensions), duplicate.value)
  {
    var seen: set<string> := {};
    for i := 0 to |extensions|
      invariant seen == set k | 0 <= k < i :: extensions[k].id
      invariant forall j, k :: 0 <= j < k < i ==> Ids(extensions)[j] != Ids(extensions)[k]
    {
      if extensions[i].id in seen {
        var k :| 0 <= k < i && extensions[k].id == extensions[i].id;
        assert Ids(extensions)[k] == Ids(extensions)[i];
        return Some(extensions[i].id);
      }
      seen := seen + {extensions[i].id};
    }
    return None;
  }

  method Disable(base: seq<Extension>, disable: seq<string>) returns (kept: seq<Extension>, unknown: Option<string>)
    ensures unknown.Some? ==> unknown.value in disable && !HasId(base, unknown.value)
    ensures unknown.None? ==> (forall id :: id in disable ==> HasId(base, id)) && kept == Filter(NotIn(disable), base)
  {
    kept := base;
    FilterKeepsAll(NotIn([]), base);
    FilterAlike(NotIn([]), NotIn(disable[..0]), base);
    for i := 0 to |disable|
      invariant forall id :: id in disable[..i] ==> HasId(base, id)
      invariant kept == Filter(NotIn(disable[..i]), base)
    {
      if !HasId(base, disable[i]) {
        return kept, Some(disable[i]);
      }
      FilterTwice(NotIn(disable[..i]), NotIn([disable[i]]), NotIn(disable[..i + 1]), base);
      kept := Filter(NotIn([disable[i]]), kept);
    }
    assert disable[..|disable|] == disable;
    return kept, None;
  }

  lemma {:induction false} FilterTwice(p: Extension -> bool, q: Extension -> bool, both: Extension -> bool,
      s: seq<Extension>)
    requires forall e :: both(e) <==> p(e) && q(e)
    ensures Filter(q, Filter(p, s)) == Filter(both, s)
  {
    if s != [] {
      var init, last := s[..|s| - 1], s[|s| - 1];
      FilterTwice(p, q, both, init);
      FilterSnoc(q, Filter(p, init), last);
    }
  }

  ghost predicate EnableProblem(additions: seq<Extension>, overlay: Overlay, problem: Problem) {
    && (problem.EnablesDisabled? || problem.EnablesUnknown?)
    && Justified([], additions, overlay, problem)
  }

  method CheckEnabled(additions: seq<Extension>, overlay: Overlay) returns (problem: Option<Problem>)
    ensures problem.None? <==> forall id :: id in overlay.enable ==> id !in overlay.disable && HasId(additions, id)
    ensures problem.Some? ==> EnableProblem(additions, overlay, problem.value)
  {
    for i := 0 to |overlay.enable|
      invariant forall id :: id in overlay.enable[..i] ==> id !in overlay.disable && HasId(additions, id)
    {
      var id := overlay.enable[i];
      if id in overlay.disable {
        return Some(EnablesDisabled(id));
      }
      if !HasId(additions, id) {
        return Some(EnablesUnknown(id));
      }
    }
    assert overlay.enable[..|overlay.enable|] == overlay.enable;
    return None;
  }

  ghost predicate Blames(list: seq<Extension>, pool: seq<Extension>, r: Replacement, problem: Problem) {
    || (problem == ReplacesMissing(r.target) && !HasId(list, r.target))
    || (problem == ReplacesByUnknown(r.source) && !HasId(pool, r.source))
  }

  ghost predicate ReplaceProblem(list: seq<Extension>, pool: seq<Extension>, replace: seq<Replacement>,
      problem: Problem) {
    exists r :: r in replace && Blames(list, pool, r, problem)
  }

  method CollectReplacements(list: seq<Extension>, pool: seq<Extension>, replace: seq<Replacement>)
    returns (replacements: map<string, Extension>, problem: Option<Problem>)
    requires DistinctTargets(replace)
    ensures problem.None? <==> forall r :: r in replace ==> HasId(list, r.target) && HasId(pool, r.source)
    ensures problem.Some? ==> ReplaceProblem(list, pool, replace, problem.value)
    ensures problem.None? ==> forall e: Extension ::
      Replaced(pool, replace, e) == if e.id in replacements then replacements[e.id] else e
  {
    replacements := map[];
    for i := 0 to |replace|
      invariant forall r :: r in replace[..i] ==> HasId(list, r.target) && HasId(pool, r.source)
      invariant forall id :: id in replacements <==> SourceOf(replace[..i], id).Some?
      invariant forall id :: id in replacements ==>
        Lookup(pool, SourceOf(replace[..i], id).value) == Some(replacements[id])
    {
      var r := replace[i];
      assert r in replace;
      assert replace[..i + 1][..i] == replace[..i];
      if !HasId(list, r.target) {
        return replacements, Some(ReplacesMissing(r.target));
      }
      if !HasId(pool, r.source) {
        return replacements, Some(ReplacesByUnknown(r.source));
      }
      LookupFinds(pool, r.source);
      replacements := replacements[r.target := Lookup(pool, r.source).value];
    }
    assert replace[..|replace|] == replace;
    return replacements, None;
  }

  /** Loads exactly when it can, and then the selected list with all replacements made at once. */
  method ResolveExtensions(base: seq<Extension>, additions: seq<Extension>,
      overlay: Option<Overlay>) returns (outcome: Outcome)
    requires overlay.Some? ==> DistinctTargets(overlay.value.replace)
    ensures overlay.None? ==> (outcome.Loaded? <==> Distinct(Ids(base + additions)))
    ensures overlay.None? && outcome.Loaded? ==> outcome.extensions == base
    ensures overlay.None? && outcome.Refused? ==>
      outcome.problem.DuplicateInPool? && Twice(Ids(base + additions), outcome.problem.id)
    ensures overlay.Some? ==> (outcome.Loaded? <==> Loadable(base, additions, overlay.value))
    ensures overlay.Some? && outcome.Loaded? ==>
      outcome.extensions == ReplacedAll(base + additions, overlay.value.replace,
          Selected(base, additions, overlay.value))
    ensures overlay.Some? && outcome.Loaded? ==>
      var list := Filter(NotIn(overlay.value.disable), base) + Filter(In(overlay.value.enable), additions);
      && |outcome.extensions| == |list|
      && forall i :: 0 <= i < |list| ==>
           StandsFor(base + additions, overlay.value.replace, list[i], outcome.extensions[i])
    ensures outcome.Loaded? ==> Distinct(Ids(outcome.extensions))
    ensures overlay.Some? && outcome.Refused? ==> Justified(base, additions, overlay.value, outcome.problem)
  {
    var pool := base + additions;
    var duplicate := FindDuplicate(pool);
    if duplicate.Some? {
      return Refused(DuplicateInPool(duplicate.value));
    }
    if overlay.None? {
      PrefixIsDistinct(base, additions);
      return Loaded(base);
    }
    outcome := ApplyOverlay(base, additions, overlay.value);
    SelectedInOrder(base, additions, overlay.value);
    if outcome.Loaded? {
      ReplacedStandFor(pool, overlay.value.replace, Selected(base, additions, overlay.value));
    }
  }

  lemma PrefixIsDistinct(base: seq<Extension>, additions: seq<Extension>)
    requires Distinct(Ids(base + additions))
    ensures Distinct(Ids(base))
  {
    forall i, j | 0 <= i < j < |base| ensures Ids(base)[i] != Ids(base)[j] {
      assert Ids(base + additions)[i] != Ids(base + additions)[j];
    }
  }

  method ApplyOverlay(base: seq<Extension>, additions: seq<Extension>, overlay: Overlay) returns (outcome: Outcome)
    requires Distinct(Ids(base + additions)) && DistinctTargets(overlay.replace)
    ensures outcome.Loaded? <==> Loadable(base, additions, overlay)
    ensures outcome.Loaded? ==>
      && outcome.extensions == ReplacedAll(base + additions, overlay.replace, Selected(base, additions, overlay))
      && Distinct(Ids(outcome.extensions))
    ensures outcome.Refused? ==> Justified(base, additions, overlay, outcome.problem)
  {
    var list, unknown := Disable(base, overlay.disable);
    if unknown.Some? {
      return Refused(DisablesUnknown(unknown.value));
    }
    var problem := CheckEnabled(additions, overlay);
    if problem.Some? {
      return Refused(problem.value);
    }
    list := list + Filter(In(overlay.enable), additions);
    SelectedAreDistinct(base, additions, overlay);
    outcome := Replace(list, base + additions, overlay.replace);
  }

  method Replace(list: seq<Extension>, pool: seq<Extension>, replace: seq<Replacement>) returns (outcome: Outcome)
    requires Distinct(Ids(list)) && DistinctTargets(replace)
    ensures outcome.Loaded? <==>
      (forall r :: r in replace ==> HasId(list, r.target) && HasId(pool, r.source)) && ReplacementsFit(list, replace)
    ensures outcome.Loaded? ==>
      outcome.extensions == ReplacedAll(pool, replace, list) && Distinct(Ids(outcome.extensions))
    ensures outcome.Refused? ==>
      ReplaceProblem(list, pool, replace, outcome.problem)
      || (outcome.problem.DuplicateInResult? && !ReplacementsFit(list, replace)
          && Twice(Ids(ReplacedAll(pool, replace, list)), outcome.problem.id))
  {
    var replacements, problem := CollectReplacements(list, pool, replace);
    if problem.Some? {
      return Refused(problem.value);
    }
    var result := seq(|list|, i requires 0 <= i < |list| =>
      if list[i].id in replacements then replacements[list[i].id] else list[i]);
    assert result == ReplacedAll(pool, replace, list);
    var duplicate := FindDuplicate(result);
    DistinctExactlyWhenReplacementsFit(pool, replace, list);
    if duplicate.Some? {
      return Refused(DuplicateInResult(duplicate.value));
    }
    return Loaded(result);
  }
}
