// The session state as the source keeps it: a session object whose Map of
// snapshot objects is updated in place (packages/browser-core/src/browser-state.ts).
// Every method is tied to the operation of the same name in SessionModel.

module BrowserState {
  import opened Options
  import opened Sequences
  import M = SessionModel

  class Snapshot {
    const id: string
    const generation: nat
    const createdAt: int
    const kind: M.ContinuationKind
    var lastAccessedAt: Option<int>
    var elements: seq<M.Element>
    var continuationInvalidated: bool
    var nextOffset: Option<nat>
    var editableQuery: Option<M.EditableQuery>

    constructor (id: string, generation: nat, createdAt: int, kind: M.ContinuationKind, elements: seq<M.Element>)
      ensures View() == M.SnapshotView(id, generation, createdAt, kind, None, elements, false, Some(0), None)
    {
      this.id, this.generation, this.createdAt, this.kind := id, generation, createdAt, kind;
      this.elements := elements;
      lastAccessedAt, continuationInvalidated, nextOffset, editableQuery := None, false, Some(0), None;
    }

    ghost function View(): M.SnapshotView
      reads this
    {
      M.SnapshotView(id, generation, createdAt, kind, lastAccessedAt, elements, continuationInvalidated,
                     nextOffset, editableQuery)
    }

    function AccessTime(): int
      reads this
      ensures AccessTime() == View().AccessTime()
    {
      if lastAccessedAt.Some? then lastAccessedAt.value else createdAt
    }
  }

  ghost function Views(snapshots: seq<Snapshot>): seq<M.SnapshotView>
    reads snapshots
  {
    seq(|snapshots|, i requires 0 <= i < |snapshots| reads snapshots => snapshots[i].View())
  }

  class Session {
    var generation: nat
    var frameEpochs: M.Epochs
    var snapshots: seq<Snapshot>
    var latest: Snapshot?

    constructor ()
      ensures Valid() && View() == M.SessionView(0, map[], [], None)
    {
      generation, frameEpochs, snapshots, latest := 0, map[], [], null;
    }

    /** Map keys are distinct, and the latest snapshot is one of the retained objects. */
    ghost predicate Valid()
      reads this, snapshots
    {
      && (forall i, j :: 0 <= i < j < |snapshots| ==> snapshots[i] != snapshots[j])
      && M.DistinctIds(Views(snapshots))
      && (latest != null ==> latest in snapshots)
    }

    ghost function View(): M.SessionView
      reads this, snapshots, latest
    {
      M.SessionView(generation, frameEpochs, Views(snapshots), if latest == null then None else Some(latest.id))
    }

    // ---- Expiry and capacity ----------------------------------------------

    method RefreshLatest()
      requires forall i, j :: 0 <= i < j < |snapshots| ==> snapshots[i] != snapshots[j]
      requires M.DistinctIds(Views(snapshots))
      requires latest != null ==> forall s :: s in snapshots && s.id == latest.id ==> s == latest
      modifies this`latest
      ensures Valid()
      ensures View() == old(View()).(latest := M.RefreshLatest(old(Views(snapshots)), old(View().latest)))
    {
      var i := 0;
      if latest != null {
        while i < |snapshots|
          invariant 0 <= i <= |snapshots|
          invariant forall j :: 0 <= j < i ==> snapshots[j].id != latest.id
        {
          if snapshots[i].id == latest.id {
            assert Views(snapshots)[i].id == latest.id;
            assert snapshots[i] in snapshots;
            return;
          }
          i := i + 1;
        }
      }
      assert latest != null ==> !M.HasId(Views(snapshots), latest.id);
      latest := if |snapshots| == 0 then null else snapshots[|snapshots| - 1];
    }

    method KeepUnexpired(cutoff: int) returns (kept: seq<Snapshot>)
      requires forall i, j :: 0 <= i < j < |snapshots| ==> snapshots[i] != snapshots[j]
      ensures Views(kept) == Filter(M.Unexpired(generation, cutoff), Views(snapshots))
      ensures forall s :: s in kept ==> s in snapshots
      ensures forall a, b :: 0 <= a < b < |kept| ==> kept[a] != kept[b]
    {
      kept := [];
      ghost var p := M.Unexpired(generation, cutoff);
      ghost var all := Views(snapshots);
      for i := 0 to |snapshots|
        invariant forall s :: s in kept ==> s in snapshots[..i]
        invariant forall a, b :: 0 <= a < b < |kept| ==> kept[a] != kept[b]
        invariant Views(kept) == Filter(p, all[..i])
      {
        var s := snapshots[i];
        FilterSnoc(p, all[..i], all[i]);
        assert all[..i + 1] == all[..i] + [all[i]];
        assert Views(kept + [s]) == Views(kept) + [s.View()];
        assert s !in snapshots[..i];
        if s.generation == generation && s.AccessTime() >= cutoff {
          kept := kept + [s];
        }
      }
      assert all[..|snapshots|] == all;
    }

    method Prune(now: int)
      requires Valid()
      modifies this
      ensures Valid() && View() == M.Prune(old(View()), now)
      ensures forall s :: s in snapshots ==> s in old(snapshots)
    {
      var kept := KeepUnexpired(now - M.SNAPSHOT_TTL_MS);
      DistinctObjects(kept, snapshots);
      snapshots := kept;
      RefreshLatest();
    }

    /** Distinct objects chosen from a store have distinct ids. */
    lemma DistinctObjects(chosen: seq<Snapshot>, store: seq<Snapshot>)
      requires M.DistinctIds(Views(store))
      requires forall s :: s in chosen ==> s in store
      requires forall a, b :: 0 <= a < b < |chosen| ==> chosen[a] != chosen[b]
      ensures M.DistinctIds(Views(chosen))
      ensures forall s, t :: s in store && t in store && s.id == t.id ==> s == t
    {
      forall s, t | s in store && t in store && s.id == t.id ensures s == t {
        var i, j :| 0 <= i < |store| && store[i] == s && 0 <= j < |store| && store[j] == t;
        assert Views(store)[i].id == Views(store)[j].id;
      }
      forall a, b | 0 <= a < b < |chosen| ensures Views(chosen)[a].id != Views(chosen)[b].id {
        assert chosen[a] in store && chosen[b] in store;
      }
    }

    /** The reduce over the Map's values: the first snapshot among those accessed longest ago. */
    method Oldest() returns (oldest: nat)
      requires |snapshots| > 0
      ensures oldest < |snapshots| && oldest == M.OldestIndex(Views(snapshots))
    {
      oldest := 0;
      ghost var all := Views(snapshots);
      assert all[..1][..0] == [];
      for i := 1 to |snapshots|
        invariant oldest < i && oldest == M.OldestIndex(all[..i])
      {
        assert all[..i + 1][..i] == all[..i];
        if snapshots[i].AccessTime() < snapshots[oldest].AccessTime() {
          oldest := i;
        }
      }
      assert all[..|snapshots|] == all;
    }

    method DropOldest()
      requires |snapshots| > 0
      requires M.DistinctIds(Views(snapshots))
      modifies this`snapshots
      ensures Views(snapshots) == M.RemoveAt(old(Views(snapshots)), M.OldestIndex(old(Views(snapshots))))
      ensures forall s :: s in snapshots ==> s in old(snapshots)
      ensures M.DistinctIds(Views(snapshots)) && |snapshots| == old(|snapshots|) - 1
    {
      var oldest := Oldest();
      ghost var before := Views(snapshots);
      snapshots := snapshots[..oldest] + snapshots[oldest + 1..];
      assert Views(snapshots) == M.RemoveAt(before, oldest);
    }

    method Evict()
      requires M.DistinctIds(Views(snapshots))
      modifies this`snapshots
      ensures Views(snapshots) == M.Evict(old(Views(snapshots)))
      ensures M.DistinctIds(Views(snapshots))
      ensures forall s :: s in snapshots ==> s in old(snapshots)
    {
      while |snapshots| > M.MAX_RETAINED_SNAPSHOTS
        invariant M.Evict(Views(snapshots)) == M.Evict(old(Views(snapshots)))
        invariant M.DistinctIds(Views(snapshots))
        invariant forall s :: s in snapshots ==> s in old(snapshots)
        decreases |snapshots|
      {
        DropOldest();
      }
    }

    lemma DistinctIdsMeanDistinctObjects(store: seq<Snapshot>)
      requires M.DistinctIds(Views(store))
      ensures forall i, j :: 0 <= i < j < |store| ==> store[i] != store[j]
    {
      forall i, j | 0 <= i < j < |store| ensures store[i] != store[j] {
        assert Views(store)[i].id != Views(store)[j].id;
      }
    }

    // ---- Publishing, continuing and resolving -----------------------------

    /** `snapshots.set(id, snapshot)` for an id the Map does not hold yet. */
    method Put(snapshot: Snapshot, now: int)
      requires Valid() && !M.HasId(Views(snapshots), snapshot.id)
      modifies this`snapshots, this`latest, snapshot
      ensures snapshots == old(snapshots) + [snapshot] && latest == snapshot
      ensures Views(snapshots) == old(Views(snapshots)) + [old(snapshot.View()).(lastAccessedAt := Some(now))]
      ensures M.DistinctIds(Views(snapshots))
      ensures snapshot.View() == old(snapshot.View()).(lastAccessedAt := Some(now))
    {
      ghost var before := Views(snapshots);
      assert forall i :: 0 <= i < |before| ==> before[i].id != snapshot.id;
      assert forall i :: 0 <= i < |snapshots| ==> before[i].id == snapshots[i].id;
      assert snapshot !in snapshots;
      snapshot.lastAccessedAt := Some(now);
      assert Views(snapshots) == before;
      snapshots := snapshots + [snapshot];
      assert Views(snapshots) == before + [snapshot.View()];
      latest := snapshot;
    }

    lemma StillAbsent(p: M.SnapshotView -> bool, store: seq<M.SnapshotView>, id: string)
      requires !M.HasId(store, id)
      ensures !M.HasId(Filter(p, store), id)
    {
      FilterMembers(p, store);
      forall i | 0 <= i < |Filter(p, store)| ensures Filter(p, store)[i].id != id {
        assert Filter(p, store)[i] in store;
      }
    }

    method Store(snapshot: Snapshot, now: int)
      requires Valid() && !M.HasId(Views(snapshots), snapshot.id)
      modifies this, snapshot
      ensures Valid() && View() == M.Store(old(View()), old(snapshot.View()), now)
      ensures snapshot.View() == old(snapshot.View()).(lastAccessedAt := Some(now))
    {
      ghost var before := Views(snapshots);
      Prune(now);
      StillAbsent(M.Unexpired(generation, now - M.SNAPSHOT_TTL_MS), before, snapshot.id);
      Put(snapshot, now);
      ghost var full := snapshots;
      Evict();
      DistinctIdsMeanDistinctObjects(snapshots);
      DistinctIdsMeanDistinctObjects(full);
      DistinctObjects(full, full);
      assert snapshot in full;
      RefreshLatest();
    }

    method Renew(position: nat, now: int)
      requires Valid() && position < |snapshots|
      modifies snapshots[position]
      ensures Valid() && View() == old(View()).(store := M.Touch(old(Views(snapshots)), position, now))
      ensures snapshots[position].elements == old(snapshots[position].elements)
    {
      ghost var before := Views(snapshots);
      var snapshot := snapshots[position];
      assert snapshot in snapshots;
      snapshot.lastAccessedAt := Some(now);
      assert Views(snapshots) == M.Touch(before, position, now);
    }

    method Get(id: string, now: int) returns (found: Snapshot?)
      requires Valid()
      modifies this, snapshots
      ensures Valid() && forall s :: s in snapshots ==> s in old(snapshots)
      ensures var (after, position) := M.Get(old(View()), id, now);
              && View() == after
              && (if position == None then found == null
                  else position.value < |snapshots| && found == snapshots[position.value])
    {
      Prune(now);
      ghost var pruned := Views(snapshots);
      found := null;
      for i := 0 to |snapshots|
        invariant forall j :: 0 <= j < i ==> snapshots[j].id != id
      {
        if snapshots[i].id == id {
          assert M.IndexOf(pruned, id) == i by { FirstIndex(pruned, id, i); }
          if snapshots[i].generation == generation && !snapshots[i].continuationInvalidated {
            found := snapshots[i];
            assert found in snapshots;
            Renew(i, now);
          }
          return;
        }
      }
      assert M.IndexOf(pruned, id) == |pruned|;
    }

    lemma FirstIndex(store: seq<M.SnapshotView>, id: string, i: nat)
      requires i < |store| && store[i].id == id
      requires forall j :: 0 <= j < i ==> store[j].id != id
      ensures M.IndexOf(store, id) == i
    {
      if M.IndexOf(store, id) > i {
        assert false;
      }
    }

    method FindElement(snapshot: Snapshot, ref: M.Ref) returns (element: Option<M.Element>)
      ensures element.Some? <==> M.HasRef(snapshot.elements, ref)
      ensures element.Some? ==> element.value in snapshot.elements && element.value.ref == ref
    {
      for i := 0 to |snapshot.elements|
        invariant forall j :: 0 <= j < i ==> snapshot.elements[j].ref != ref
      {
        if snapshot.elements[i].ref == ref {
          return Some(snapshot.elements[i]);
        }
      }
      return None;
    }

    /** The reversed walk over the Map's values. */
    method FindHolder(ref: M.Ref) returns (position: Option<nat>, element: Option<M.Element>)
      ensures position == M.NewestHolder(Views(snapshots), generation, ref)
      ensures position.Some? ==>
                && element.Some? && element.value.ref == ref
                && element.value in snapshots[position.value].elements
      ensures position == None ==> element == None
    {
      var i := |snapshots|;
      ghost var all := Views(snapshots);
      assert all[..i] == all;
      while i > 0
        invariant 0 <= i <= |snapshots|
        invariant M.NewestHolder(all, generation, ref) == M.NewestHolder(all[..i], generation, ref)
      {
        i := i - 1;
        assert all[..i + 1][..i] == all[..i];
        if snapshots[i].generation == generation {
          element := FindElement(snapshots[i], ref);
          if element.Some? {
            return Some(i), element;
          }
        }
      }
      return None, None;
    }

    method Resolve(ref: M.Ref, now: int) returns (holder: Snapshot?, element: Option<M.Element>)
      requires Valid()
      modifies this, snapshots
      ensures Valid()
      ensures var (after, position) := M.Resolve(old(View()), ref, now);
              && View() == after
              && (if position == None then holder == null && element == None
                  else position.value < |snapshots| && holder == snapshots[position.value])
      ensures holder != null ==> element.Some? && element.value in holder.elements && element.value.ref == ref
    {
      Prune(now);
      var position;
      position, element := FindHolder(ref);
      holder := null;
      if position.Some? {
        holder := snapshots[position.value];
        assert holder in snapshots;
        Renew(position.value, now);
      }
    }

    // ---- Invalidation -------------------------------------------------------

    method BumpEpochs(keys: seq<M.FrameKey>)
      modifies this`frameEpochs
      ensures frameEpochs == M.Bump(old(frameEpochs), keys)
    {
      for i := 0 to |keys|
        invariant frameEpochs == M.Bump(old(frameEpochs), keys[..i])
      {
        assert keys[..i + 1][..i] == keys[..i];
        frameEpochs := frameEpochs[keys[i] := M.EpochOf(frameEpochs, keys[i]) + 1];
      }
      assert keys[..|keys|] == keys;
    }

    method InvalidateFrame(identity: M.FrameIdentity)
      requires Valid()
      modifies this, snapshots
      ensures Valid() && View() == M.InvalidateFrame(old(View()), identity)
      ensures snapshots == old(snapshots)
    {
      var keys := M.IdentityKeys(identity);
      if |keys| == 0 {
        return;
      }
      BumpEpochs(keys);
      RevokeFrameEverywhere(identity);
      assert Views(snapshots) == M.InvalidateFrame(old(View()), identity).store;
    }

    method RevokeFrameEverywhere(identity: M.FrameIdentity)
      requires Valid()
      modifies snapshots
      ensures forall j :: 0 <= j < |snapshots| ==>
                snapshots[j].View() == M.RevokeFrame(old(snapshots[j].View()), identity)
    {
      for i := 0 to |snapshots|
        invariant forall j :: 0 <= j < i ==> snapshots[j].View() == M.RevokeFrame(old(snapshots[j].View()), identity)
        invariant forall j :: i <= j < |snapshots| ==> snapshots[j].View() == old(snapshots[j].View())
      {
        RevokeFrame(snapshots[i], identity);
      }
    }

    method RevokeFrame(snapshot: Snapshot, identity: M.FrameIdentity)
      modifies snapshot
      ensures snapshot.View() == M.RevokeFrame(old(snapshot.View()), identity)
    {
      var retained := Filter(M.OwnedElsewhere(identity), snapshot.elements);
      if |retained| == |snapshot.elements| {
        return;
      }
      snapshot.elements := retained;
      snapshot.continuationInvalidated := true;
      if snapshot.editableQuery.Some? {
        var query := snapshot.editableQuery.value;
        snapshot.editableQuery :=
          Some(query.(elements := Filter(M.OwnedElsewhere(identity), query.elements)));
      }
    }

    method InvalidateObservations()
      requires Valid()
      modifies snapshots
      ensures Valid() && View() == M.InvalidateObservations(old(View()))
    {
      ghost var before := View();
      for i := 0 to |snapshots|
        invariant forall j :: 0 <= j < i ==>
          snapshots[j].View() == before.store[j].(continuationInvalidated := true)
        invariant forall j :: i <= j < |snapshots| ==> snapshots[j].View() == before.store[j]
      {
        snapshots[i].continuationInvalidated := true;
      }
      assert Views(snapshots) == M.InvalidateObservations(before).store;
    }

    method Invalidate()
      requires Valid()
      modifies this
      ensures Valid() && View() == M.Invalidate(old(View())) && snapshots == []
    {
      generation := generation + 1;
      frameEpochs := map[];
      snapshots := [];
      latest := null;
    }
  }
}
