// What the bounded snapshot store promises: capacity, recency and expiry.

module SnapshotStore {
  import opened Options
  import opened Sequences
  import opened SessionModel

  ghost predicate WellFormed(v: SessionView, now: int) {
    && |v.store| <= MAX_RETAINED_SNAPSHOTS
    && DistinctIds(v.store)
    && (forall s | s in v.store :: s.generation == v.generation && s.AccessTime() <= now)
    && (forall s, e | s in v.store && e in s.elements :: e.ref.generation == s.generation)
    && (if v.store == [] then v.latest == None else v.latest.Some? && HasId(v.store, v.latest.value))
  }

  lemma {:induction false} FilterKeepsDistinctIds(p: SnapshotView -> bool, store: seq<SnapshotView>)
    requires DistinctIds(store)
    ensures DistinctIds(Filter(p, store))
  {
    if store != [] {
      var n := |store| - 1;
      FilterKeepsDistinctIds(p, store[..n]);
      FilterMembers(p, store[..n]);
      var kept := Filter(p, store[..n]);
      forall i | 0 <= i < |kept| ensures kept[i].id != store[n].id {
        assert kept[i] in store[..n];
      }
    }
  }

  function AccessedSince(cutoff: int): SnapshotView -> bool {
    (s: SnapshotView) => s.AccessTime() >= cutoff
  }

  /**
   * Expiry keeps exactly the snapshots accessed within five minutes, in order; the latest one stays the
   * latest while it is retained, and then the last of the store takes its place.
   */
  lemma PruneKeepsWellFormed(v: SessionView, now: int, later: int)
    requires WellFormed(v, now) && now <= later
    ensures WellFormed(Prune(v, later), later)
    ensures forall s :: s in Prune(v, later).store <==> s in v.store && s.AccessTime() >= later - 300_000
    ensures Prune(v, later).store == Filter(AccessedSince(later - 300_000), v.store)
    ensures var w := Prune(v, later);
            && w.generation == v.generation && w.epochs == v.epochs
            && (w.store != [] ==>
                  w.latest == if exists s :: s in w.store && Some(s.id) == v.latest then v.latest
                              else Some(w.store[|w.store| - 1].id))
  {
    var p := Unexpired(v.generation, later - SNAPSHOT_TTL_MS);
    FilterMembers(p, v.store);
    FilterKeepsDistinctIds(p, v.store);
    FilterAlike(p, AccessedSince(later - 300_000), v.store);
    var store := Filter(p, v.store);
    if store != [] { assert store[|store| - 1].id == store[|store| - 1].id; }
  }

  lemma RemoveAtMembers(store: seq<SnapshotView>, i: nat)
    requires i < |store| && DistinctIds(store)
    ensures DistinctIds(RemoveAt(store, i))
    ensures forall s :: s in RemoveAt(store, i) <==> s in store && s != store[i]
  {
    var left := RemoveAt(store, i);
    forall s ensures s in left <==> s in store && s != store[i] {
      if s in store && s != store[i] {
        var j :| 0 <= j < |store| && store[j] == s;
        assert left[if j < i then j else j - 1] == s;
      }
      if s in left {
        var j :| 0 <= j < |left| && left[j] == s;
        assert s == store[if j < i then j else j + 1];
      }
    }
  }

  /** Of four snapshots the last of which is no older than the first, the oldest goes. */
  lemma EvictDropsTheOldest(full: seq<SnapshotView>)
    requires |full| == MAX_RETAINED_SNAPSHOTS + 1 && DistinctIds(full)
    requires full[0].AccessTime() <= full[|full| - 1].AccessTime()
    ensures var left := Evict(full);
            && |left| == MAX_RETAINED_SNAPSHOTS && DistinctIds(left)
            && left[|left| - 1] == full[|full| - 1]
            && (forall r | r in left :: r in full)
            && (forall d, r | d in full && d !in left && r in left :: d.AccessTime() <= r.AccessTime())
  {
    var i := OldestIndex(full);
    RemoveAtMembers(full, i);
    assert i < |full| - 1;
    assert Evict(full) == Evict(RemoveAt(full, i)) == RemoveAt(full, i);
  }

  /**
   * Storing keeps at most three snapshots, the new one is retained and becomes the latest, and an
   * unexpired snapshot is dropped only when the store is full and nothing retained is older.
   */
  lemma StoreKeepsTheNewest(v: SessionView, s: SnapshotView, now: int, later: int)
    requires WellFormed(v, now) && now <= later
    requires s.generation == v.generation && !HasId(v.store, s.id)
    requires forall e | e in s.elements :: e.ref.generation == s.generation
    ensures var w := Store(v, s, later);
            var stored := s.(lastAccessedAt := Some(later));
            && WellFormed(w, later) && |w.store| <= 3
            && w.generation == v.generation && w.epochs == v.epochs
            && w.latest == Some(s.id)
            && w.store != [] && w.store[|w.store| - 1] == stored
            && (forall r | r in w.store :: r == stored || (r in v.store && r.AccessTime() >= later - 300_000))
            && (forall d | d in v.store && d.AccessTime() >= later - 300_000 && d !in w.store ::
                  && |w.store| == 3
                  && forall r | r in w.store :: d.AccessTime() <= r.AccessTime())
  {
    var stored := s.(lastAccessedAt := Some(later));
    PruneKeepsWellFormed(v, now, later);
    var pruned := Prune(v, later).store;
    var full := pruned + [stored];
    forall i | 0 <= i < |pruned| ensures pruned[i].id != s.id {
      assert pruned[i] in v.store;
    }
    assert DistinctIds(full);
    if |full| > MAX_RETAINED_SNAPSHOTS {
      assert full[0].AccessTime() <= later == full[|full| - 1].AccessTime();
      EvictDropsTheOldest(full);
    }
    var w := Store(v, s, later);
    assert w.store[|w.store| - 1].id == s.id;
  }

  lemma HasRefMember(elements: seq<Element>, ref: Ref)
    ensures HasRef(elements, ref) <==> exists e :: e in elements && e.ref == ref
  {
    if e :| e in elements && e.ref == ref {
      var i :| 0 <= i < |elements| && elements[i] == e;
      assert elements[i].ref == ref;
    }
  }

  /** Only this snapshot changes, and only in its access time. */
  ghost function TouchedAt(v: SessionView, i: nat, now: int): SessionView {
    if i < |v.store| then v.(store := v.store[i := v.store[i].(lastAccessedAt := Some(now))]) else v
  }

  lemma TouchKeepsWellFormed(v: SessionView, i: nat, now: int)
    requires WellFormed(v, now) && i < |v.store|
    ensures WellFormed(v.(store := Touch(v.store, i, now)), now)
  {
    var touched := Touch(v.store, i, now);
    forall s | s in touched
      ensures s.generation == v.generation && s.AccessTime() <= now
      ensures forall e | e in s.elements :: e.ref.generation == s.generation
    {
      var j :| 0 <= j < |touched| && touched[j] == s;
      assert v.store[j] in v.store;
    }
    var k :| 0 <= k < |v.store| && v.store[k].id == v.latest.value;
    assert touched[k].id == v.latest.value;
  }

  /**
   * A ref resolves exactly when a retained snapshot that has not expired issued it, and then through
   * the newest such snapshot, whose lifetime is renewed.
   */
  lemma ResolvesExactlyThroughLiveSnapshots(v: SessionView, ref: Ref, now: int, later: int)
    requires WellFormed(v, now) && now <= later
    ensures var (w, holder) := Resolve(v, ref, later);
            && WellFormed(w, later)
            && (holder.Some? <==>
                exists s :: s in v.store && s.AccessTime() >= later - SNAPSHOT_TTL_MS && HasRef(s.elements, ref))
            && (holder.Some? ==>
                  && holder.value < |w.store|
                  && HasRef(w.store[holder.value].elements, ref)
                  && w == TouchedAt(Prune(v, later), holder.value, later)
                  && forall j :: holder.value < j < |w.store| ==> !HasRef(w.store[j].elements, ref))
            && (holder.None? ==> w == Prune(v, later))
  {
    PruneKeepsWellFormed(v, now, later);
    var pruned := Prune(v, later);
    var holder := NewestHolder(pruned.store, v.generation, ref);
    if holder.Some? {
      TouchKeepsWellFormed(pruned, holder.value, later);
      assert pruned.store[holder.value] in pruned.store;
      forall j | holder.value < j < |pruned.store| ensures !HasRef(pruned.store[j].elements, ref) {
        assert pruned.store[j] in pruned.store;
      }
    } else {
      forall s | s in v.store && s.AccessTime() >= later - SNAPSHOT_TTL_MS
        ensures !HasRef(s.elements, ref)
      {
        var j :| 0 <= j < |pruned.store| && pruned.store[j] == s;
      }
    }
  }

  /** A ref of another generation resolves to nothing. */
  lemma ForeignGenerationNeverResolves(v: SessionView, ref: Ref, now: int, later: int)
    requires WellFormed(v, now) && now <= later
    requires ref.generation != v.generation
    ensures Resolve(v, ref, later).1 == None
  {
    ResolvesExactlyThroughLiveSnapshots(v, ref, now, later);
    forall s | s in v.store ensures !HasRef(s.elements, ref) {
      HasRefMember(s.elements, ref);
    }
  }

  /** A continuation is served exactly for a retained, unexpired snapshot nobody invalidated. */
  lemma GetServesExactlyContinuableSnapshots(v: SessionView, id: string, now: int, later: int)
    requires WellFormed(v, now) && now <= later
    ensures var (w, found) := Get(v, id, later);
            && WellFormed(w, later)
            && (found.Some? <==>
                exists s :: s in v.store && s.id == id && !s.continuationInvalidated
                            && s.AccessTime() >= later - SNAPSHOT_TTL_MS)
            && (found.Some? ==>
                  && found.value < |w.store| && w.store[found.value].id == id
                  && w == TouchedAt(Prune(v, later), found.value, later)
                  && !w.store[found.value].continuationInvalidated)
            && (found.None? ==> w == Prune(v, later))
  {
    PruneKeepsWellFormed(v, now, later);
    var pruned := Prune(v, later);
    var i := IndexOf(pruned.store, id);
    if i < |pruned.store| {
      assert pruned.store[i] in pruned.store;
      TouchKeepsWellFormed(pruned, i, later);
    }
    forall s | s in v.store && s.id == id && s.AccessTime() >= later - SNAPSHOT_TTL_MS
      ensures i < |pruned.store| && pruned.store[i] == s
    {
      var j :| 0 <= j < |pruned.store| && pruned.store[j] == s;
    }
  }

  /** One snapshot, when a child document it may show is replaced. */
  lemma RevokeFrameRevokesExactly(s: SnapshotView, identity: FrameIdentity)
    ensures var t := RevokeFrame(s, identity);
            && t == s.(elements := t.elements, continuationInvalidated := t.continuationInvalidated,
                       editableQuery := t.editableQuery)
            && (forall e :: e in t.elements <==> e in s.elements && !IdentityMatches(e.owner, identity))
            && (t.continuationInvalidated <==>
                  s.continuationInvalidated || exists e :: e in s.elements && IdentityMatches(e.owner, identity))
            && (t == s || t.continuationInvalidated)
            && (t.editableQuery.Some? <==> s.editableQuery.Some?)
            && (t.editableQuery.Some? ==> t.editableQuery.value.nextOffset == s.editableQuery.value.nextOffset)
            && (t != s && t.editableQuery.Some? ==>
                  forall e :: e in t.editableQuery.value.elements <==>
                    e in s.editableQuery.value.elements && !IdentityMatches(e.owner, identity))
  {
    FilterMembers(OwnedElsewhere(identity), s.elements);
    FilterKeepsAll(OwnedElsewhere(identity), s.elements);
    if s.editableQuery.Some? {
      FilterMembers(OwnedElsewhere(identity), s.editableQuery.value.elements);
    }
  }

  lemma RevokedSnapshotStaysSound(s: SnapshotView, identity: FrameIdentity)
    requires forall e | e in s.elements :: e.ref.generation == s.generation
    ensures var t := RevokeFrame(s, identity);
            && t.id == s.id && t.generation == s.generation && t.AccessTime() == s.AccessTime()
            && forall e | e in t.elements :: e.ref.generation == t.generation
  {
    FilterMembers(OwnedElsewhere(identity), s.elements);
  }

  /** Replacing a child document keeps the store well formed. */
  lemma InvalidateFrameKeepsWellFormed(v: SessionView, identity: FrameIdentity, now: int)
    requires WellFormed(v, now)
    ensures WellFormed(InvalidateFrame(v, identity), now)
  {
    var w := InvalidateFrame(v, identity);
    if w != v {
      forall i | 0 <= i < |v.store|
        ensures w.store[i].id == v.store[i].id
        ensures w.store[i].generation == w.generation && w.store[i].AccessTime() <= now
        ensures forall e | e in w.store[i].elements :: e.ref.generation == w.store[i].generation
      {
        assert v.store[i] in v.store;
        RevokedSnapshotStaysSound(v.store[i], identity);
      }
      if v.store != [] {
        var k :| 0 <= k < |v.store| && v.store[k].id == v.latest.value;
        assert w.store[k].id == v.latest.value;
      }
    }
  }

  /** It removes the refs of that document, only those, and ends every continuation it touches. */
  lemma InvalidateFrameRevokesExactly(v: SessionView, identity: FrameIdentity, now: int)
    requires WellFormed(v, now)
    ensures var w := InvalidateFrame(v, identity);
            && WellFormed(w, now)
            && w.generation == v.generation && w.latest == v.latest && |w.store| == |v.store|
            && forall i | 0 <= i < |v.store| ::
                 && w.store[i].id == v.store[i].id
                 && (forall e :: e in w.store[i].elements <==>
                       e in v.store[i].elements && !IdentityMatches(e.owner, identity))
                 && (w.store[i].continuationInvalidated <==>
                       v.store[i].continuationInvalidated
                       || exists e :: e in v.store[i].elements && IdentityMatches(e.owner, identity))
                 && (w.store[i] == v.store[i] || w.store[i].continuationInvalidated)
  {
    InvalidateFrameKeepsWellFormed(v, identity, now);
    forall i | 0 <= i < |v.store| {
      RevokeFrameRevokesExactly(v.store[i], identity);
    }
  }

  /** A page mutation ends every continuation there is, at once and for good; refs are not affected. */
  lemma InvalidateObservationsEndsContinuations(v: SessionView, time: int, now: int, id: string)
    requires WellFormed(v, time) && time <= now
    ensures Get(InvalidateObservations(v), id, now).1 == None
    ensures var w := InvalidateObservations(v);
            && w.generation == v.generation && w.epochs == v.epochs && w.latest == v.latest && |w.store| == |v.store|
            && forall i :: 0 <= i < |v.store| ==> w.store[i] == v.store[i].(continuationInvalidated := true)
  {
    InvalidateObservationsKeepsWellFormed(v, time);
    GetServesExactlyContinuableSnapshots(InvalidateObservations(v), id, time, now);
  }

  lemma InvalidateObservationsKeepsWellFormed(v: SessionView, now: int)
    requires WellFormed(v, now)
    ensures WellFormed(InvalidateObservations(v), now)
  {
    var w := InvalidateObservations(v);
    forall s | s in w.store
      ensures s.generation == w.generation && s.AccessTime() <= now
      ensures forall e | e in s.elements :: e.ref.generation == s.generation
    {
      var i :| 0 <= i < |w.store| && w.store[i] == s;
      assert v.store[i] in v.store;
    }
    if v.store != [] {
      var k :| 0 <= k < |v.store| && v.store[k].id == v.latest.value;
      assert w.store[k].id == v.latest.value;
    }
  }

  /** A main navigation leaves nothing of the old generation behind. */
  lemma NavigationStartsOver(v: SessionView, key: FrameKey, ref: Ref, id: string, now: int)
    ensures var w := Invalidate(v);
            && w.generation == v.generation + 1 && EpochOf(w.epochs, key) == 0
            && Resolve(w, ref, now).1 == None && Get(w, id, now).1 == None && w.latest == None
  {
  }

  /** An editable query lists the editable elements of the latest snapshot, from the first, and changes nothing else. */
  lemma EditableQueriesListTheEditable(v: SessionView)
    ensures var w := QueryEditable(v);
            && w.generation == v.generation && w.epochs == v.epochs && w.latest == v.latest && |w.store| == |v.store|
            && forall i :: 0 <= i < |v.store| ==>
                 if Some(v.store[i].id) == v.latest then
                   && w.store[i].editableQuery.Some?
                   && w.store[i] == v.store[i].(editableQuery := w.store[i].editableQuery)
                   && w.store[i].editableQuery.value.nextOffset == Some(0)
                   && forall e :: e in w.store[i].editableQuery.value.elements
                        <==> e in v.store[i].elements && e.editable
                 else w.store[i] == v.store[i]
  {
    forall i | 0 <= i < |v.store| {
      FilterMembers(IsEditable(), v.store[i].elements);
    }
  }
}
