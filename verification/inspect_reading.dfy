// A caller reads one published snapshot by continuations while the system goes
// on: navigation, expiry, other inspects, page mutations
// (packages/browser-core/src/browser-snapshot.ts).

module InspectReading {
  import opened Options
  import opened SessionModel
  import opened SnapshotPaging
  import opened SnapshotStore
  import B = BrowserSnapshot
  import P = InspectProtocol

  /** Anything that happens to the system, or a continuation asked for at an offset. */
  datatype Item = Other(event: P.Event) | Ask(offset: nat, limit: int)

  /** What the accepted answers showed so far, and the snapshot's next offset. */
  datatype Reading = Reading(shown: seq<Element>, next: Option<nat>)

  /** Asking looks the snapshot up, which prunes the store and renews its access time. */
  function EventOf(id: string, item: Item): P.Event {
    match item
    case Other(event) => event
    case Ask(_, _) => P.Continued(id)
  }

  function EventsOf(id: string, items: seq<Item>): (events: seq<P.Event>)
    ensures |events| == |items|
  {
    seq(|items|, i requires 0 <= i < |items| => EventOf(id, items[i]))
  }

  /** The answer to one question in one state of the system; a refused question changes nothing. */
  function Answer(s: P.System, id: string, layout: PageLayout, r: Reading, offset: nat, limit: int): Reading {
    var (after, found) := Get(s.session, id, s.clock);
    if found == None || found.value >= |after.store| then r
    else
      var snapshot := after.store[found.value];
      if snapshot.kind != InspectPages || r.next != Some(offset) then r
      else
        match B.PageAnswer(snapshot.elements, layout, offset, ClampLimit(limit))
        case Served(page) => Reading(r.shown + page.elements, page.nextOffset)
        case Failed(_) => r
  }

  function Read(s: P.System, id: string, layout: PageLayout, items: seq<Item>): Reading {
    if items == [] then Reading([], Some(0))
    else
      var init, last := items[..|items| - 1], items[|items| - 1];
      var r := Read(s, id, layout, init);
      match last
      case Other(_) => r
      case Ask(offset, limit) => Answer(P.Run(s, EventsOf(id, init)), id, layout, r, offset, limit)
  }

  /** The store still serves this snapshot to continuations of `inspect`. */
  ghost predicate StillServed(s: P.System, id: string) {
    exists t :: t in s.session.store && t.id == id && t.kind == InspectPages && !t.continuationInvalidated
                && t.AccessTime() >= s.clock - 300_000
  }

  /** A question is answered exactly when it continues where the last answer ended and the snapshot is still served. */
  lemma AnsweredExactlyWhen(events: seq<P.Event>, id: string, layout: PageLayout, r: Reading, offset: nat, limit: int)
    requires id in P.Run(P.Initial(), events).published
    ensures var s := P.Run(P.Initial(), events);
            var page := B.PageAnswer(s.published[id].elements, layout, offset, ClampLimit(limit));
            Answer(s, id, layout, r, offset, limit)
              == if r.next == Some(offset) && StillServed(s, id) && page.Served?
                 then Reading(r.shown + page.page.elements, page.page.nextOffset) else r
  {
    var s := P.Run(P.Initial(), events);
    P.ServedContinuationsAreFrozen(events, id);
    P.RunKeepsInvariant(P.Initial(), events);
    GetServesExactlyContinuableSnapshots(s.session, id, s.clock, s.clock);
    PruneKeepsWellFormed(s.session, s.clock, s.clock);
    var pruned := Prune(s.session, s.clock).store;
    var i := IndexOf(pruned, id);
    if i < |pruned| {
      assert pruned[i] in s.session.store;
      forall t | t in s.session.store && t.id == id && t.AccessTime() >= s.clock - 300_000 ensures t == pruned[i] {
        assert t in pruned;
      }
    }
  }

  /** What was shown is the beginning of what was published, and the next offset says how far it got. */
  ghost predicate Consecutive(published: seq<Element>, r: Reading) {
    && r.shown <= published
    && (r.next.Some? ==> r.next.value == |r.shown|)
    && (r.next.None? ==> r.shown == published)
  }

  lemma AnswersAreConsecutive(events: seq<P.Event>, id: string, layout: PageLayout, r: Reading, offset: nat, limit: int)
    requires var s := P.Run(P.Initial(), events);
      id in s.published && Consecutive(s.published[id].elements, r)
    ensures var s := P.Run(P.Initial(), events);
      Consecutive(s.published[id].elements, Answer(s, id, layout, r, offset, limit))
  {
    var s := P.Run(P.Initial(), events);
    P.ServedContinuationsAreFrozen(events, id);
    var published := s.published[id].elements;
    var after := Answer(s, id, layout, r, offset, limit);
    if after != r {
      B.PagesKeepTheirPromises(published, layout, offset, ClampLimit(limit));
      var page := B.PageAnswer(published, layout, offset, ClampLimit(limit)).page;
      NextSlice(published, |r.shown|, page.elements);
    }
  }

  lemma NextSlice(all: seq<Element>, from: nat, slice: seq<Element>)
    requires from <= |all| && slice <= all[from..]
    ensures from + |slice| <= |all| && all[..from] + slice == all[..from + |slice|]
  {
    assert slice == all[from..][..|slice|];
    assert all[from..][..|slice|] == all[from..from + |slice|];
  }

  /**
   * In any interleaving after its publication, the accepted continuations of a snapshot return consecutive
   * slices of what was published, from the first element on, and no further page is announced exactly when
   * all of it was shown.
   */
  lemma {:induction false} ContinuationsReadWhatWasPublished(before: seq<P.Event>, id: string, layout: PageLayout,
      items: seq<Item>)
    requires id in P.Run(P.Initial(), before).published
    ensures var s := P.Run(P.Initial(), before);
      Consecutive(s.published[id].elements, Read(s, id, layout, items))
  {
    if items != [] {
      var init, last := items[..|items| - 1], items[|items| - 1];
      ContinuationsReadWhatWasPublished(before, id, layout, init);
      if last.Ask? {
        var s := P.Run(P.Initial(), before);
        P.RunInTwo(P.Initial(), before, EventsOf(id, init));
        P.PublicationsStay(s, EventsOf(id, init), id);
        AnswersAreConsecutive(before + EventsOf(id, init), id, layout, Read(s, id, layout, init), last.offset,
            last.limit);
      }
    }
  }

  /** One more question after whatever happened since the publication. */
  lemma ReadingGoesOn(before: seq<P.Event>, id: string, layout: PageLayout, items: seq<Item>, offset: nat, limit: int)
    requires id in P.Run(P.Initial(), before).published
    ensures var s := P.Run(P.Initial(), before);
            var r, now := Read(s, id, layout, items), P.Run(s, EventsOf(id, items));
            var page := B.PageAnswer(s.published[id].elements, layout, offset, ClampLimit(limit));
            && Read(s, id, layout, []) == Reading([], Some(0))
            && Read(s, id, layout, items + [Ask(offset, limit)])
                 == if r.next == Some(offset) && StillServed(now, id) && page.Served?
                    then Reading(r.shown + page.page.elements, page.page.nextOffset) else r
  {
    var s, more := P.Run(P.Initial(), before), items + [Ask(offset, limit)];
    assert more[..|more| - 1] == items;
    P.RunInTwo(P.Initial(), before, EventsOf(id, items));
    P.PublicationsStay(s, EventsOf(id, items), id);
    AnsweredExactlyWhen(before + EventsOf(id, items), id, layout, Read(s, id, layout, items), offset, limit);
  }
}
