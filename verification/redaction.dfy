// The bounded walk that overwrites credentials in parsed JSON in place, with
// an explicit stack (packages/browser-core/src/console-diagnostic-sanitizer.ts).
// Which keys are sensitive is left open.

module Redaction {
  const MAX_DEPTH: nat := 12
  const MAX_NODES: nat := 1_000
  const MARKER := "[REDACTED]"

  /** Array items are fields whose key plays no role. */
  datatype Json = Scalar(text: string) | Node(isArray: bool, fields: seq<Field>)

  datatype Field = Field(key: string, value: Json)

  type Sensitivity = string -> bool

  // ---- What the walk is for, on trees -------------------------------------------------

  predicate Hidden(sensitive: Sensitivity, isArray: bool, key: string) {
    !isArray && sensitive(key)
  }

  function Redact(sensitive: Sensitivity, j: Json): Json {
    match j
    case Scalar(_) => j
    case Node(isArray, fields) =>
      Node(isArray, seq(|fields|, i requires 0 <= i < |fields| =>
        Field(fields[i].key,
              if Hidden(sensitive, isArray, fields[i].key) then Scalar(MARKER)
                  else Redact(sensitive, fields[i].value))))
  }

  /** The number of arrays and objects that are not inside a redacted value. */
  function Containers(sensitive: Sensitivity, j: Json): nat
    decreases j
  {
    match j
    case Scalar(_) => 0
    case Node(isArray, fields) => 1 + ContainersIn(sensitive, isArray, fields)
  }

  function ContainersIn(sensitive: Sensitivity, isArray: bool, fields: seq<Field>): nat
    decreases fields
  {
    if fields == [] then 0
    else
      var last := fields[|fields| - 1];
      ContainersIn(sensitive, isArray, fields[..|fields| - 1])
      + if Hidden(sensitive, isArray, last.key) then 0 else Containers(sensitive, last.value)
  }

  /** None of them lies deeper than `depth`. */
  predicate Within(sensitive: Sensitivity, j: Json, depth: int) {
    match j
    case Scalar(_) => true
    case Node(isArray, fields) =>
      && depth >= 0
      && forall i :: 0 <= i < |fields| && !Hidden(sensitive, isArray, fields[i].key) ==>
           Within(sensitive, fields[i].value, depth - 1)
  }

  /** No sensitive key is left with anything but the marker. */
  predicate Clean(sensitive: Sensitivity, j: Json) {
    match j
    case Scalar(_) => true
    case Node(isArray, fields) =>
      forall i :: 0 <= i < |fields| ==>
        && (!isArray && sensitive(fields[i].key) ==> fields[i].value == Scalar("[REDACTED]"))
        && Clean(sensitive, fields[i].value)
  }

  /** The two trees are the same outside the values of sensitive keys. */
  predicate SameElsewhere(sensitive: Sensitivity, a: Json, b: Json) {
    match (a, b)
    case (Node(x, as_), Node(y, bs)) =>
      && x == y && |as_| == |bs|
      && forall i :: 0 <= i < |as_| ==>
           && as_[i].key == bs[i].key
           && ((!x && sensitive(as_[i].key)) || SameElsewhere(sensitive, as_[i].value, bs[i].value))
    case _ => a == b
  }

  /** Redaction is the only tree that is clean and the same elsewhere, so redacting twice changes nothing. */
  lemma {:induction false} RedactIsTheOnlyCleanCopy(sensitive: Sensitivity, j: Json, k: Json)
    ensures Clean(sensitive, k) && SameElsewhere(sensitive, j, k) <==> k == Redact(sensitive, j)
  {
    if j.Node? && k.Node? && |j.fields| == |k.fields| {
      forall i | 0 <= i < |j.fields|
        ensures Clean(sensitive, k.fields[i].value) && SameElsewhere(sensitive, j.fields[i].value, k.fields[i].value)
          <==> k.fields[i].value == Redact(sensitive, j.fields[i].value)
      {
        RedactIsTheOnlyCleanCopy(sensitive, j.fields[i].value, k.fields[i].value);
      }
      var r := Redact(sensitive, j);
      if k == r {
        forall i | 0 <= i < |j.fields|
          ensures k.fields[i].key == j.fields[i].key
        {
          assert r.fields[i] == k.fields[i];
        }
      }
      if Clean(sensitive, k) && SameElsewhere(sensitive, j, k) {
        forall i | 0 <= i < |j.fields| ensures k.fields[i] == r.fields[i] {
        }
        assert k.fields == r.fields;
      }
    }
  }

  lemma RedactingTwiceChangesNothing(sensitive: Sensitivity, j: Json)
    ensures Redact(sensitive, Redact(sensitive, j)) == Redact(sensitive, j)
  {
    RedactIsTheOnlyCleanCopy(sensitive, j, Redact(sensitive, j));
    SameAsItself(sensitive, Redact(sensitive, j));
    RedactIsTheOnlyCleanCopy(sensitive, Redact(sensitive, j), Redact(sensitive, j));
  }

  lemma {:induction false} SameAsItself(sensitive: Sensitivity, j: Json)
    ensures SameElsewhere(sensitive, j, j)
  {
    if j.Node? {
      forall i | 0 <= i < |j.fields| ensures SameElsewhere(sensitive, j.fields[i].value, j.fields[i].value) {
        SameAsItself(sensitive, j.fields[i].value);
      }
    }
  }

  // ---- Counting and measuring by paths -----------------------------------------------------

  /** The path leads to an array or an object, and through no sensitive key. */
  predicate LeadsTo(sensitive: Sensitivity, j: Json, path: seq<nat>)
    decreases |path|
  {
    && j.Node?
    && (path == []
        || (&& path[0] < |j.fields| && (j.isArray || !sensitive(j.fields[path[0]].key))
            && LeadsTo(sensitive, j.fields[path[0]].value, path[1..])))
  }

  /** Within a depth means that no such path is longer. */
  lemma {:induction false} WithinMeansShortPaths(sensitive: Sensitivity, j: Json, depth: int)
    ensures Within(sensitive, j, depth) <==> forall path :: LeadsTo(sensitive, j, path) ==> |path| <= depth
  {
    if j.Node? {
      assert LeadsTo(sensitive, j, []);
      forall i | 0 <= i < |j.fields|
        ensures Within(sensitive, j.fields[i].value, depth - 1)
          <==> forall path :: LeadsTo(sensitive, j.fields[i].value, path) ==> |path| <= depth - 1
      {
        WithinMeansShortPaths(sensitive, j.fields[i].value, depth - 1);
      }
      if Within(sensitive, j, depth) {
        forall path | LeadsTo(sensitive, j, path) ensures |path| <= depth {
          assert path != [] ==> LeadsTo(sensitive, j.fields[path[0]].value, path[1..]);
        }
      }
      if forall path :: LeadsTo(sensitive, j, path) ==> |path| <= depth {
        forall i, path | 0 <= i < |j.fields| && (j.isArray || !sensitive(j.fields[i].key))
                         && LeadsTo(sensitive, j.fields[i].value, path)
          ensures |path| <= depth - 1
        {
          assert ([i] + path)[1..] == path;
          assert LeadsTo(sensitive, j, [i] + path);
        }
      }
    }
  }

  function Prefixed(i: nat, paths: seq<seq<nat>>): (prefixed: seq<seq<nat>>)
    ensures |prefixed| == |paths| && forall k :: 0 <= k < |paths| ==> prefixed[k] == [i] + paths[k]
  {
    seq(|paths|, k requires 0 <= k < |paths| => [i] + paths[k])
  }

  function Paths(sensitive: Sensitivity, j: Json): seq<seq<nat>>
    decreases j, 1
  {
    if j.Scalar? then [] else [[]] + PathsIn(sensitive, j, |j.fields|)
  }

  /** Those through the first `n` fields. */
  function PathsIn(sensitive: Sensitivity, j: Json, n: nat): seq<seq<nat>>
    requires j.Node? && n <= |j.fields|
    decreases j, 0, n
  {
    if n == 0 then []
    else
      PathsIn(sensitive, j, n - 1)
      + if Hidden(sensitive, j.isArray, j.fields[n - 1].key) then []
        else Prefixed(n - 1, Paths(sensitive, j.fields[n - 1].value))
  }

  ghost predicate Distinct(paths: seq<seq<nat>>) {
    forall a, b :: 0 <= a < b < |paths| ==> paths[a] != paths[b]
  }

  /** Containers are counted by their paths: each once, and no other. */
  lemma {:induction false} ContainersAreThePaths(sensitive: Sensitivity, j: Json)
    ensures var paths := Paths(sensitive, j);
      && |paths| == Containers(sensitive, j) && Distinct(paths)
      && forall path :: path in paths <==> LeadsTo(sensitive, j, path)
    decreases j, 1
  {
    if j.Node? {
      PathsThroughFields(sensitive, j, |j.fields|);
      assert j.fields[..|j.fields|] == j.fields;
      var inside := PathsIn(sensitive, j, |j.fields|);
      assert forall k :: 0 <= k < |inside| ==> inside[k] in inside && inside[k] != [];
      forall path ensures path in Paths(sensitive, j) <==> LeadsTo(sensitive, j, path) {
        assert path in Paths(sensitive, j) <==> path == [] || path in PathsIn(sensitive, j, |j.fields|);
      }
    }
  }

  lemma {:induction false} PathsThroughFields(sensitive: Sensitivity, j: Json, n: nat)
    requires j.Node? && n <= |j.fields|
    ensures var paths := PathsIn(sensitive, j, n);
      && |paths| == ContainersIn(sensitive, j.isArray, j.fields[..n]) && Distinct(paths)
      && forall path :: path in paths <==> path != [] && path[0] < n && LeadsTo(sensitive, j, path)
    decreases j, 0, n
  {
    if n > 0 {
      PathsThroughFields(sensitive, j, n - 1);
      assert j.fields[..n][..n - 1] == j.fields[..n - 1];
      var before, inside := PathsIn(sensitive, j, n - 1), Paths(sensitive, j.fields[n - 1].value);
      ContainersAreThePaths(sensitive, j.fields[n - 1].value);
      var more := if Hidden(sensitive, j.isArray, j.fields[n - 1].key) then [] else Prefixed(n - 1, inside);
      ThroughOneField(sensitive, j, n - 1, inside, more);
      DistinctApart(before, more, n - 1);
    }
  }

  lemma ThroughOneField(sensitive: Sensitivity, j: Json, i: nat, inside: seq<seq<nat>>, more: seq<seq<nat>>)
    requires j.Node? && i < |j.fields| && Distinct(inside)
    requires forall path :: path in inside <==> LeadsTo(sensitive, j.fields[i].value, path)
    requires more == if Hidden(sensitive, j.isArray, j.fields[i].key) then [] else Prefixed(i, inside)
    ensures Distinct(more)
    ensures forall path :: path in more <==> path != [] && path[0] == i && LeadsTo(sensitive, j, path)
  {
    PrefixedMembers(i, inside);
  }

  lemma PrefixedMembers(i: nat, paths: seq<seq<nat>>)
    ensures forall path :: path in Prefixed(i, paths) <==> path != [] && path[0] == i && path[1..] in paths
    ensures Distinct(paths) ==> Distinct(Prefixed(i, paths))
  {
    var prefixed := Prefixed(i, paths);
    forall path ensures path in prefixed <==> path != [] && path[0] == i && path[1..] in paths {
      if path != [] && path[0] == i && path[1..] in paths {
        var k :| 0 <= k < |paths| && paths[k] == path[1..];
        assert prefixed[k] == path;
      }
      if path in prefixed {
        var k :| 0 <= k < |prefixed| && prefixed[k] == path;
        assert path[1..] == paths[k];
      }
    }
    forall a, b | 0 <= a < b < |paths| && paths[a] != paths[b] ensures prefixed[a] != prefixed[b] {
      assert prefixed[a][1..] == paths[a] && prefixed[b][1..] == paths[b];
    }
  }

  lemma DistinctApart(a: seq<seq<nat>>, b: seq<seq<nat>>, i: nat)
    requires Distinct(a) && Distinct(b)
    requires forall path :: path in a ==> path != [] && path[0] < i
    requires forall path :: path in b ==> path != [] && path[0] == i
    ensures Distinct(a + b)
  {
    forall x, y | 0 <= x < |a| && 0 <= y < |b| ensures a[x] != b[y] {
      assert a[x] in a && b[y] in b;
    }
  }

  // ---- The tree in memory ----------------------------------------------------------------

  datatype Value = Text(text: string) | Ref(index: nat)

  datatype Slot = Slot(key: string, value: Value)

  datatype Container = Container(isArray: bool, slots: seq<Slot>)

  type Memory = seq<Container>

  /** Containers are numbered so that what a container holds comes after it. */
  ghost predicate Ordered(m: Memory) {
    forall i, k :: 0 <= i < |m| && 0 <= k < |m[i].slots| && m[i].slots[k].value.Ref? ==>
      i < m[i].slots[k].value.index < |m|
  }

  function Tree(m: Memory, i: nat): Json
    requires Ordered(m) && i < |m|
    decreases |m| - i
  {
    Node(m[i].isArray, seq(|m[i].slots|, k requires 0 <= k < |m[i].slots| =>
      Field(m[i].slots[k].key, Denotes(m, i, m[i].slots[k].value))))
  }

  function Denotes(m: Memory, i: nat, v: Value): Json
    requires Ordered(m) && i < |m|
    requires v.Ref? ==> i < v.index < |m|
    decreases |m| - i, 0
  {
    match v
    case Text(t) => Scalar(t)
    case Ref(index) => Tree(m, index)
  }

  function RedactSlot(sensitive: Sensitivity, isArray: bool, slot: Slot): Slot {
    if Hidden(sensitive, isArray, slot.key) then slot.(value := Text(MARKER)) else slot
  }

  function RedactSlots(sensitive: Sensitivity, c: Container): Container {
    c.(slots := seq(|c.slots|, k requires 0 <= k < |c.slots| => RedactSlot(sensitive, c.isArray, c.slots[k])))
  }

  /** The containers that are pushed for the first `n` slots, in order. */
  function Held(sensitive: Sensitivity, c: Container, n: nat): seq<nat>
    requires n <= |c.slots|
  {
    if n == 0 then []
    else
      var slot := c.slots[n - 1];
      Held(sensitive, c, n - 1)
      + if slot.value.Ref? && !Hidden(sensitive, c.isArray, slot.key) then [slot.value.index] else []
  }

  lemma {:induction false} HeldMembers(sensitive: Sensitivity, c: Container, n: nat)
    requires n <= |c.slots|
    ensures forall h :: h in Held(sensitive, c, n) <==>
      exists k :: 0 <= k < n && !Hidden(sensitive, c.isArray, c.slots[k].key) && c.slots[k].value == Ref(h)
  {
    if n > 0 {
      HeldMembers(sensitive, c, n - 1);
    }
  }

  lemma HeldAreLater(sensitive: Sensitivity, m: Memory, i: nat)
    requires Ordered(m) && i < |m|
    ensures forall h :: h in Held(sensitive, m[i], |m[i].slots|) ==> i < h < |m|
  {
    HeldMembers(sensitive, m[i], |m[i].slots|);
  }

  /** `k` is `i` or lies below it, outside redacted values. */
  ghost predicate Reaches(sensitive: Sensitivity, m: Memory, i: nat, k: nat)
    requires Ordered(m) && i < |m|
    decreases |m| - i
  {
    i == k || exists h :: h in Held(sensitive, m[i], |m[i].slots|) && i < h < |m| && Reaches(sensitive, m, h, k)
  }

  lemma {:induction false} ReachesOnward(sensitive: Sensitivity, m: Memory, i: nat, h: nat, k: nat)
    requires Ordered(m) && i < |m| && h < |m|
    requires Reaches(sensitive, m, i, h) && Reaches(sensitive, m, h, k)
    ensures Reaches(sensitive, m, i, k)
    decreases |m| - i
  {
    if i != h {
      var next :| next in Held(sensitive, m[i], |m[i].slots|) && i < next < |m| && Reaches(sensitive, m, next, h);
      ReachesOnward(sensitive, m, next, h, k);
    }
  }

  function ContainersAt(sensitive: Sensitivity, m: Memory, i: nat): nat
    requires Ordered(m)
  {
    if i < |m| then Containers(sensitive, Tree(m, i)) else 0
  }

  function ContainersOf(sensitive: Sensitivity, m: Memory, indices: seq<nat>): nat
    requires Ordered(m)
  {
    if indices == [] then 0
    else ContainersOf(sensitive, m, indices[..|indices| - 1]) + ContainersAt(sensitive, m, indices[|indices| - 1])
  }

  lemma {:induction false} ContainersOfConcat(sensitive: Sensitivity, m: Memory, a: seq<nat>, b: seq<nat>)
    requires Ordered(m)
    ensures ContainersOf(sensitive, m, a + b) == ContainersOf(sensitive, m, a) + ContainersOf(sensitive, m, b)
  {
    if b == [] {
      assert a + b == a;
    } else {
      var init := b[..|b| - 1];
      assert (a + b)[..|a + b| - 1] == a + init;
      ContainersOfConcat(sensitive, m, a, init);
    }
  }

  /** A container counts itself and what it holds. */
  lemma ContainersOfTree(sensitive: Sensitivity, m: Memory, i: nat)
    requires Ordered(m) && i < |m|
    ensures Containers(sensitive, Tree(m, i)) == 1 + ContainersOf(sensitive, m, Held(sensitive, m[i], |m[i].slots|))
  {
    var fields := Tree(m, i).fields;
    assert fields[..|m[i].slots|] == fields;
    ContainersOfSlots(sensitive, m, i, |m[i].slots|);
  }

  lemma {:induction false} ContainersOfSlots(sensitive: Sensitivity, m: Memory, i: nat, n: nat)
    requires Ordered(m) && i < |m| && n <= |m[i].slots|
    ensures ContainersIn(sensitive, m[i].isArray, Tree(m, i).fields[..n]) ==
              ContainersOf(sensitive, m, Held(sensitive, m[i], n))
  {
    var fields := Tree(m, i).fields;
    if n > 0 {
      ContainersOfSlots(sensitive, m, i, n - 1);
      assert fields[..n][..n - 1] == fields[..n - 1];
      var slot := m[i].slots[n - 1];
      assert fields[..n][n - 1] == Field(slot.key, Denotes(m, i, slot.value));
      var held := Held(sensitive, m[i], n - 1);
      if slot.value.Ref? && !Hidden(sensitive, m[i].isArray, slot.key) {
        assert (held + [slot.value.index])[..|held|] == held;
      } else {
        assert held + [] == held;
      }
    }
  }

  lemma WithinTree(sensitive: Sensitivity, m: Memory, i: nat, depth: int)
    requires Ordered(m) && i < |m|
    ensures Within(sensitive, Tree(m, i), depth)
      <==> depth >= 0
           && forall h :: h in Held(sensitive, m[i], |m[i].slots|) && h < |m| ==>
                Within(sensitive, Tree(m, h), depth - 1)
  {
    HeldMembers(sensitive, m[i], |m[i].slots|);
    var fields := Tree(m, i).fields;
    var held := Held(sensitive, m[i], |m[i].slots|);
    if depth >= 0 && forall h :: h in held && h < |m| ==> Within(sensitive, Tree(m, h), depth - 1) {
      forall k | 0 <= k < |fields| && !Hidden(sensitive, m[i].isArray, fields[k].key)
        ensures Within(sensitive, fields[k].value, depth - 1)
      {
        var v := m[i].slots[k].value;
        assert fields[k] == Field(m[i].slots[k].key, Denotes(m, i, v));
        if v.Ref? {
          assert v == Ref(v.index);
          assert v.index in Held(sensitive, m[i], |m[i].slots|);
        }
      }
    }
    if Within(sensitive, Tree(m, i), depth) {
      forall h | h in Held(sensitive, m[i], |m[i].slots|) && h < |m| ensures Within(sensitive, Tree(m, h), depth - 1) {
        var slots := m[i].slots;
        var k :| 0 <= k < |slots| && !Hidden(sensitive, m[i].isArray, slots[k].key) && slots[k].value == Ref(h);
        assert fields[k] == Field(m[i].slots[k].key, Denotes(m, i, m[i].slots[k].value));
      }
    }
  }

  /** When everything within reach has been overwritten, the tree is the redacted tree. */
  lemma {:induction false} OverwrittenTree(sensitive: Sensitivity, was: Memory, now: Memory, i: nat)
    requires Ordered(was) && Ordered(now) && |now| == |was| && i < |was|
    requires forall k :: 0 <= k < |was| && Reaches(sensitive, was, i, k) ==> now[k] == RedactSlots(sensitive, was[k])
    ensures Tree(now, i) == Redact(sensitive, Tree(was, i))
    decreases |was| - i
  {
    assert Reaches(sensitive, was, i, i);
    HeldMembers(sensitive, was[i], |was[i].slots|);
    forall k | 0 <= k < |was[i].slots|
      ensures Tree(now, i).fields[k] == Redact(sensitive, Tree(was, i)).fields[k]
    {
      var slot := was[i].slots[k];
      if !Hidden(sensitive, was[i].isArray, slot.key) && slot.value.Ref? {
        var h := slot.value.index;
        assert slot.value == Ref(h);
        assert h in Held(sensitive, was[i], |was[i].slots|);
        forall x | 0 <= x < |was| && Reaches(sensitive, was, h, x) ensures now[x] == RedactSlots(sensitive, was[x]) {
          assert Reaches(sensitive, was, i, x);
        }
        OverwrittenTree(sensitive, was, now, h);
      }
    }
  }

  // ---- The walk ---------------------------------------------------------------------------

  datatype Entry = Entry(index: nat, depth: nat)

  function Indices(stack: seq<Entry>): (indices: seq<nat>)
    ensures |indices| == |stack| && forall k :: 0 <= k < |stack| ==> indices[k] == stack[k].index
  {
    seq(|stack|, k requires 0 <= k < |stack| => stack[k].index)
  }

  function Entries(indices: seq<nat>, depth: nat): (entries: seq<Entry>)
    ensures |entries| == |indices| && forall k :: 0 <= k < |indices| ==> entries[k] == Entry(indices[k], depth)
  {
    seq(|indices|, k requires 0 <= k < |indices| => Entry(indices[k], depth))
  }

  ghost predicate Overwritten(sensitive: Sensitivity, was: Memory, now: Memory, root: nat)
    requires Ordered(was) && root < |was|
  {
    && |now| == |was|
    && forall k :: 0 <= k < |was| ==>
         now[k] == was[k] || (now[k] == RedactSlots(sensitive, was[k]) && Reaches(sensitive, was, root, k))
  }

  /** What is within reach is overwritten, or still below something on the stack. */
  ghost predicate Covered(sensitive: Sensitivity, was: Memory, now: Memory, root: nat, stack: seq<Entry>)
    requires Ordered(was) && root < |was| && |now| == |was|
    requires forall e :: e in stack ==> e.index < |was|
  {
    forall k :: 0 <= k < |was| && Reaches(sensitive, was, root, k) ==>
      now[k] == RedactSlots(sensitive, was[k]) || exists e :: e in stack && Reaches(sensitive, was, e.index, k)
  }

  /** What `fits` says of a container and the depth left for it, for every entry of a stack. */
  ghost predicate AllFit(fits: (nat, int) -> bool, stack: seq<Entry>) {
    forall e :: e in stack ==> fits(e.index, MAX_DEPTH - e.depth)
  }

  function Fits(sensitive: Sensitivity, m: Memory): (nat, int) -> bool
    requires Ordered(m)
  {
    (i: nat, depth: int) => i < |m| && Within(sensitive, Tree(m, i), depth)
  }

  /** Where the walk stands: nothing outside its reach is touched, and the stack accounts for what remains. */
  ghost predicate Walking(sensitive: Sensitivity, was: Memory, now: Memory, root: nat, stack: seq<Entry>,
      visited: nat) {
    && Ordered(was) && root < |was|
    && Overwritten(sensitive, was, now, root)
    && InReach(sensitive, was, root, stack)
    && Covered(sensitive, was, now, root, stack)
    && visited + ContainersOf(sensitive, was, Indices(stack)) == Containers(sensitive, Tree(was, root))
    && (AllFit(Fits(sensitive, was), stack) <==> Within(sensitive, Tree(was, root), MAX_DEPTH))
  }

  lemma OverwrittenStaysOrdered(sensitive: Sensitivity, was: Memory, now: Memory, root: nat)
    requires Ordered(was) && root < |was| && Overwritten(sensitive, was, now, root)
    ensures Ordered(now)
  {
    forall i, k | 0 <= i < |now| && 0 <= k < |now[i].slots| && now[i].slots[k].value.Ref?
      ensures i < now[i].slots[k].value.index < |now|
    {
      assert now[i].slots[k] == was[i].slots[k];
    }
  }

  /** A half-overwritten container holds the same things, and overwriting it again changes nothing. */
  lemma OverwrittenHoldsTheSame(sensitive: Sensitivity, c: Container)
    ensures Held(sensitive, RedactSlots(sensitive, c), |c.slots|) == Held(sensitive, c, |c.slots|)
    ensures RedactSlots(sensitive, RedactSlots(sensitive, c)) == RedactSlots(sensitive, c)
  {
    HeldAlike(sensitive, c, |c.slots|);
  }

  lemma {:induction false} HeldAlike(sensitive: Sensitivity, c: Container, n: nat)
    requires n <= |c.slots|
    ensures Held(sensitive, RedactSlots(sensitive, c), n) == Held(sensitive, c, n)
  {
    if n > 0 {
      HeldAlike(sensitive, c, n - 1);
    }
  }

  lemma ContainersOfPop(sensitive: Sensitivity, m: Memory, stack: seq<Entry>, depth: nat)
    requires Ordered(m) && stack != [] && stack[|stack| - 1].index < |m|
    ensures var top := stack[|stack| - 1];
      var pushed := Entries(Held(sensitive, m[top.index], |m[top.index].slots|), depth);
      ContainersOf(sensitive, m, Indices(stack)) ==
          1 + ContainersOf(sensitive, m, Indices(stack[..|stack| - 1] + pushed))
  {
    var init, top := stack[..|stack| - 1], stack[|stack| - 1];
    var held := Held(sensitive, m[top.index], |m[top.index].slots|);
    var pushed := Entries(held, depth);
    assert Indices(init + pushed) == Indices(init) + held;
    ContainersOfConcat(sensitive, m, Indices(init), held);
    ContainersOfTree(sensitive, m, top.index);
    assert Indices(stack)[..|stack| - 1] == Indices(init);
  }

  lemma AllFitConcat(fits: (nat, int) -> bool, a: seq<Entry>, b: seq<Entry>)
    ensures AllFit(fits, a + b) <==> AllFit(fits, a) && AllFit(fits, b)
  {
    if AllFit(fits, a + b) {
      forall e: Entry | e in a || e in b ensures fits(e.index, MAX_DEPTH - e.depth) {
        assert e in a + b;
      }
    }
  }

  lemma AllFitEntries(fits: (nat, int) -> bool, indices: seq<nat>, depth: nat)
    ensures AllFit(fits, Entries(indices, depth)) <==> forall h :: h in indices ==> fits(h, MAX_DEPTH - depth)
  {
    var entries := Entries(indices, depth);
    if AllFit(fits, entries) {
      forall h | h in indices ensures fits(h, MAX_DEPTH - depth) {
        var k :| 0 <= k < |indices| && indices[k] == h;
        assert entries[k] in entries;
      }
    } else if forall h :: h in indices ==> fits(h, MAX_DEPTH - depth) {
      forall e | e in entries ensures fits(e.index, MAX_DEPTH - e.depth) {
        assert e.index in indices && e.depth == depth;
      }
    }
  }

  /** The top fits exactly when it is not too deep itself and what it holds fits. */
  lemma AllFitPop(sensitive: Sensitivity, m: Memory, stack: seq<Entry>)
    requires Ordered(m) && stack != [] && stack[|stack| - 1].index < |m|
    ensures var top := stack[|stack| - 1];
      var pushed := Entries(Held(sensitive, m[top.index], |m[top.index].slots|), top.depth + 1);
      var rest := stack[..|stack| - 1] + pushed;
      AllFit(Fits(sensitive, m), stack) <==> top.depth <= MAX_DEPTH && AllFit(Fits(sensitive, m), rest)
  {
    var fits := Fits(sensitive, m);
    var init, top := stack[..|stack| - 1], stack[|stack| - 1];
    var held := Held(sensitive, m[top.index], |m[top.index].slots|);
    assert stack == init + Entries([top.index], top.depth);
    AllFitConcat(fits, init, Entries([top.index], top.depth));
    AllFitEntries(fits, [top.index], top.depth);
    assert top.index in [top.index];
    FitsBelow(sensitive, m, top.index, MAX_DEPTH - top.depth);
    AllFitConcat(fits, init, Entries(held, top.depth + 1));
    AllFitEntries(fits, held, top.depth + 1);
  }

  lemma FitsBelow(sensitive: Sensitivity, m: Memory, i: nat, depth: int)
    requires Ordered(m) && i < |m|
    ensures Fits(sensitive, m)(i, depth)
      <==> depth >= 0 && forall h :: h in Held(sensitive, m[i], |m[i].slots|) ==> Fits(sensitive, m)(h, depth - 1)
  {
    HeldAreLater(sensitive, m, i);
    WithinTree(sensitive, m, i, depth);
  }

  lemma CoveredPop(sensitive: Sensitivity, was: Memory, now: Memory, root: nat, stack: seq<Entry>, after: Memory,
      rest: seq<Entry>, depth: nat)
    requires Ordered(was) && root < |was| && |now| == |was| && stack != []
    requires forall e :: e in stack ==> e.index < |was|
    requires forall e :: e in rest ==> e.index < |was|
    requires Covered(sensitive, was, now, root, stack)
    requires var top := stack[|stack| - 1];
      && after == now[top.index := RedactSlots(sensitive, was[top.index])]
      && rest == stack[..|stack| - 1] + Entries(Held(sensitive, was[top.index], |was[top.index].slots|), depth)
    ensures Covered(sensitive, was, after, root, rest)
  {
    var init, top := stack[..|stack| - 1], stack[|stack| - 1];
    var held := Held(sensitive, was[top.index], |was[top.index].slots|);
    forall k | 0 <= k < |was| && Reaches(sensitive, was, root, k) && after[k] != RedactSlots(sensitive, was[k])
      ensures exists e :: e in rest && Reaches(sensitive, was, e.index, k)
    {
      var e :| e in stack && Reaches(sensitive, was, e.index, k);
      if e == top {
        var h :| h in held && top.index < h < |was| && Reaches(sensitive, was, h, k);
        var j :| 0 <= j < |held| && held[j] == h;
        assert Entries(held, depth)[j] in rest;
      } else {
        assert e in init;
        assert e in rest;
      }
    }
  }

  ghost predicate InReach(sensitive: Sensitivity, m: Memory, root: nat, stack: seq<Entry>)
    requires Ordered(m) && root < |m|
  {
    forall e :: e in stack ==> e.index < |m| && Reaches(sensitive, m, root, e.index)
  }

  lemma RestIsInReach(sensitive: Sensitivity, m: Memory, root: nat, stack: seq<Entry>, depth: nat)
    requires Ordered(m) && root < |m| && stack != [] && InReach(sensitive, m, root, stack)
    ensures var top := stack[|stack| - 1];
      && top in stack
      && InReach(sensitive, m, root, stack[..|stack| - 1]
           + Entries(Held(sensitive, m[top.index], |m[top.index].slots|), depth))
  {
    var top := stack[|stack| - 1];
    assert top in stack;
    var held := Held(sensitive, m[top.index], |m[top.index].slots|);
    HeldAreLater(sensitive, m, top.index);
    forall h | h in held ensures Reaches(sensitive, m, root, h) {
      assert Reaches(sensitive, m, h, h);
      assert Reaches(sensitive, m, top.index, h);
      ReachesOnward(sensitive, m, root, top.index, h);
    }
    forall e | e in Entries(held, depth) ensures e.index in held {
    }
  }

  lemma WalkingPop(sensitive: Sensitivity, was: Memory, now: Memory, root: nat, stack: seq<Entry>, visited: nat,
      after: Memory, rest: seq<Entry>)
    requires Walking(sensitive, was, now, root, stack, visited) && stack != []
    requires var top := stack[|stack| - 1];
      && top.depth <= MAX_DEPTH
      && after == now[top.index := RedactSlots(sensitive, now[top.index])]
      && rest == stack[..|stack| - 1] + Entries(Held(sensitive, now[top.index], |now[top.index].slots|), top.depth + 1)
    ensures Walking(sensitive, was, after, root, rest, visited + 1)
  {
    var top := stack[|stack| - 1];
    assert top in stack;
    var held := Held(sensitive, was[top.index], |was[top.index].slots|);
    OverwrittenHoldsTheSame(sensitive, was[top.index]);
    assert rest == stack[..|stack| - 1] + Entries(held, top.depth + 1);
    RestIsInReach(sensitive, was, root, stack, top.depth + 1);
    ContainersOfPop(sensitive, was, stack, top.depth + 1);
    AllFitPop(sensitive, was, stack);
    CoveredPop(sensitive, was, now, root, stack, after, rest, top.depth + 1);
  }

  /** Visits one container: sensitive slots are overwritten, other containers are to be visited. */
  method Expand(sensitive: Sensitivity, memory: array<Container>, index: nat, depth: nat) returns (pushed: seq<Entry>)
    requires index < memory.Length
    modifies memory
    ensures memory[..] == old(memory[..])[index := RedactSlots(sensitive, old(memory[index]))]
    ensures pushed == Entries(Held(sensitive, old(memory[index]), |old(memory[index]).slots|), depth)
  {
    var c := memory[index];
    pushed := [];
    for k := 0 to |c.slots|
      invariant memory[..] == old(memory[..])[index := memory[index]]
      invariant memory[index].isArray == c.isArray && |memory[index].slots| == |c.slots|
      invariant forall j :: 0 <= j < k ==> memory[index].slots[j] == RedactSlot(sensitive, c.isArray, c.slots[j])
      invariant forall j :: k <= j < |c.slots| ==> memory[index].slots[j] == c.slots[j]
      invariant pushed == Entries(Held(sensitive, c, k), depth)
    {
      var slot := c.slots[k];
      if !c.isArray && sensitive(slot.key) {
        memory[index] := memory[index].(slots := memory[index].slots[k := slot.(value := Text(MARKER))]);
      } else if slot.value.Ref? {
        pushed := pushed + [Entry(slot.value.index, depth)];
      }
    }
    assert memory[index] == RedactSlots(sensitive, c);
  }

  /** What makes the walk give up shows that the whole value is too large or too deep. */
  lemma GivingUpIsRight(sensitive: Sensitivity, was: Memory, now: Memory, root: nat, stack: seq<Entry>, visited: nat)
    requires Walking(sensitive, was, now, root, stack, visited) && stack != []
    requires visited + 1 > MAX_NODES || stack[|stack| - 1].depth > MAX_DEPTH
    ensures Containers(sensitive, Tree(was, root)) > MAX_NODES || !Within(sensitive, Tree(was, root), MAX_DEPTH)
  {
    var top := stack[|stack| - 1];
    assert top in stack;
    ContainersOfPop(sensitive, was, stack, 0);
    WithinTree(sensitive, was, top.index, MAX_DEPTH - top.depth);
  }

  ghost predicate SmallEnough(sensitive: Sensitivity, j: Json) {
    Containers(sensitive, j) <= MAX_NODES && Within(sensitive, j, MAX_DEPTH)
  }

  method Walk(sensitive: Sensitivity, memory: array<Container>, root: nat) returns (done: bool)
    requires Ordered(memory[..]) && root < memory.Length
    modifies memory
    ensures done <==> SmallEnough(sensitive, Tree(old(memory[..]), root))
    ensures Overwritten(sensitive, old(memory[..]), memory[..], root)
    ensures done ==>
      Walking(sensitive, old(memory[..]), memory[..], root, [], Containers(sensitive, Tree(old(memory[..]), root)))
  {
    ghost var was := memory[..];
    var stack := [Entry(root, 0)];
    var visited := 0;
    WalkBegins(sensitive, was, root);
    while stack != []
      invariant Walking(sensitive, was, memory[..], root, stack, visited)
      invariant visited <= MAX_NODES
      decreases ContainersOf(sensitive, was, Indices(stack))
    {
      var current := stack[|stack| - 1];
      ghost var now := memory[..];
      if visited + 1 > MAX_NODES || current.depth > MAX_DEPTH {
        GivingUpIsRight(sensitive, was, now, root, stack, visited);
        return false;
      }
      assert current in stack;
      var pushed := Expand(sensitive, memory, current.index, current.depth + 1);
      WalkingPop(sensitive, was, now, root, stack, visited, memory[..], stack[..|stack| - 1] + pushed);
      visited := visited + 1;
      stack := stack[..|stack| - 1] + pushed;
    }
    return true;
  }

  /**
   * The answer is true exactly when the containers outside redacted values number at most 1000 and lie at
   * most 12 deep, and then the value in memory is the redacted value. Nothing out of reach is written.
   */
  method RedactStructuredCredentials(sensitive: Sensitivity, memory: array<Container>,
      value: Value) returns (done: bool)
    requires Ordered(memory[..]) && (value.Ref? ==> value.index < memory.Length)
    modifies memory
    ensures Ordered(memory[..])
    ensures value.Text? ==> done && memory[..] == old(memory[..])
    ensures value.Ref? ==>
      && (done <==> Containers(sensitive, Tree(old(memory[..]), value.index)) <= 1000
                    && Within(sensitive, Tree(old(memory[..]), value.index), 12))
      && Overwritten(sensitive, old(memory[..]), memory[..], value.index)
      && (done ==> Tree(memory[..], value.index) == Redact(sensitive, Tree(old(memory[..]), value.index)))
      && (done ==> Clean(sensitive, Tree(memory[..], value.index))
                   && SameElsewhere(sensitive, Tree(old(memory[..]), value.index), Tree(memory[..], value.index)))
  {
    if value.Text? {
      return true;
    }
    ghost var was := memory[..];
    done := Walk(sensitive, memory, value.index);
    OverwrittenStaysOrdered(sensitive, was, memory[..], value.index);
    if done {
      OverwrittenTree(sensitive, was, memory[..], value.index);
      RedactIsTheOnlyCleanCopy(sensitive, Tree(was, value.index), Tree(memory[..], value.index));
    }
  }

  lemma WalkBegins(sensitive: Sensitivity, m: Memory, root: nat)
    requires Ordered(m) && root < |m|
    ensures Walking(sensitive, m, m, root, [Entry(root, 0)], 0)
  {
    var stack := [Entry(root, 0)];
    assert Indices(stack) == [root] && [root][..0] == [];
    assert Entry(root, 0) in stack;
  }
}
