/** What the fleet watcher's polls mean: over every run of snapshots with distinct keys, its memory is a function of the
    last snapshot alone and each poll's events are exactly the diff of two consecutive snapshots. */
module FleetDiff {
  import opened Wrappers
  import opened WatchClassify
  import opened FleetWatcher

  /** The memory that the last snapshot alone determines; `None` before the first poll. */
  function MemoryOf(last: Option<seq<Row>>): Memory {
    match last
    case None => Memory(map[], map[], false)
    case Some(rows) => Memory(PhaseOf(rows), IdentitiesOf(rows), true)
  }

  /** A row that is stopped for a reason its key did not have in the previous snapshot. */
  predicate NewlyStopped(previous: Option<seq<Row>>, d: Row, includeCurrent: bool) {
    && Stopped(Classify(d))
    && match previous
       case None => includeCurrent && Classify(d) != Archived
       case Some(rows) => forall d' :: d' in rows && RowKey(d') == RowKey(d) ==> Classify(d') != Classify(d)
  }

  /** The transitions between two snapshots. */
  function Diff(previous: Option<seq<Row>>, current: seq<Row>, includeCurrent: bool): set<Event> {
    (set d | d in current && NewlyStopped(previous, d, includeCurrent) :: StopEvent(d)) +
    match previous
    case None => {}
    case Some(rows) => set d | d in rows && RowKey(d) !in RowKeys(current) :: GoneEvent(IdentityOf(d))
  }

  /** What a diff holds, in the fields of the rows. Between two snapshots: for each current row that is not working, and
      whose reason its key did not have before, an event with the row, its names and that reason; for each earlier row
      whose key is gone, an event with its names and the reason gone. At the baseline: the current rows that are
      neither working nor archived, if asked for. */
  lemma DiffIff(previous: Option<seq<Row>>, current: seq<Row>, includeCurrent: bool, e: Event)
    ensures e in Diff(previous, current, includeCurrent) <==>
              match previous
              case None =>
                includeCurrent && exists d :: d in current && IsRowEvent(e, d) && e.reason !in {Working, Archived}
              case Some(rows) =>
                || (exists d :: && d in current && IsRowEvent(e, d) && e.reason != Working
                                && forall d' :: d' in rows && RowKey(d') == RowKey(d) ==> Classify(d') != e.reason)
                || (exists d :: && d in rows && (forall d' :: d' in current ==> RowKey(d') != RowKey(d))
                                && e == Event(d.title, d.id, d.path, Gone, None))
  {
    hide KeyOf, Classify;
    forall d ensures IsRowEvent(StopEvent(d), d) && (e == StopEvent(d) <==> IsRowEvent(e, d)) { }
  }

  /** `e` reports the row `d` with the reason it is classified under. */
  predicate IsRowEvent(e: Event, d: Row) {
    e == Event(d.title, d.id, d.path, Classify(d), Some(d))
  }

  /** What one call of Observe returns. */
  predicate Polled(m: Memory, includeCurrent: bool, rows: seq<Row>, events: seq<Event>) {
    && Coherent(m) && Sorted(events)
    && multiset(events) == multiset(RowEvents(m, includeCurrent, rows))
                           + multiset(GoneEvents(m.identity, Vanished(m, rows)))
  }

  predicate DistinctOption(last: Option<seq<Row>>) {
    last.Some? ==> DistinctKeys(last.value)
  }

  lemma MemoryOfCoherent(last: Option<seq<Row>>)
    ensures Coherent(MemoryOf(last))
  {
    hide KeyOf, PhaseOf, IdentitiesOf;
    if last.Some? {
      MapsOfRows(last.value);
    }
  }

  // ----- no two events of one poll share a key

  predicate KeySimple(ms: multiset<Event>) {
    && (forall e :: e in ms ==> ms[e] == 1)
    && forall e, e' :: e in ms && e' in ms && EventKey(e) == EventKey(e') ==> e == e'
  }

  /** The events of a snapshot's rows are those of its reported rows. */
  lemma {:induction false} RowEventsMeaning(m: Memory, includeCurrent: bool, rows: seq<Row>)
    requires DistinctKeys(rows)
    ensures forall e :: e in RowEvents(m, includeCurrent, rows) <==>
              exists d :: d in rows && Reported(m.phase, m.primed, includeCurrent, d) && e == StopEvent(d)
    decreases |rows|
  {
    hide KeyOf, Reported, PhaseOf, StopEvent;
    if |rows| > 0 {
      var init, last := rows[..|rows| - 1], rows[|rows| - 1];
      RowEventsMeaning(m, includeCurrent, init);
      assert rows == init + [last];
      MapsOfRows(init);
      FreshKey(init, last);
      ReportedFresh(m, includeCurrent, PhaseOf(init), last);
    }
  }

  /** They come each once, under the keys of the snapshot. */
  lemma {:induction false} RowEventsSimple(m: Memory, includeCurrent: bool, rows: seq<Row>)
    requires DistinctKeys(rows)
    ensures forall e :: e in RowEvents(m, includeCurrent, rows) ==> EventKey(e) in RowKeys(rows)
    ensures KeySimple(multiset(RowEvents(m, includeCurrent, rows)))
    decreases |rows|
  {
    hide KeyOf, PhaseOf, KeySimple, DistinctKeys, RowEvents, RowKeys, LastEvents;
    if |rows| > 0 {
      var init, last := rows[..|rows| - 1], rows[|rows| - 1];
      assert rows == init + [last];
      DistinctInit(init, last);
      RowEventsSimple(m, includeCurrent, init);
      RowKeysSnoc(init, last);
      FreshKey(init, last);
      var events, more := RowEvents(m, includeCurrent, init), LastEvents(m, includeCurrent, init, last);
      LastSimple(m, includeCurrent, init, last);
      RowEventsSnoc(m, includeCurrent, init, last);
      SimpleUnion(multiset(events), multiset(more), RowKeys(init));
      assert multiset(events + more) == multiset(events) + multiset(more);
    } else {
      NoRows(m, includeCurrent);
      NoneSimple();
    }
  }

  lemma LastSimple(m: Memory, includeCurrent: bool, init: seq<Row>, last: Row)
    ensures var more := LastEvents(m, includeCurrent, init, last);
            KeySimple(multiset(more)) && forall e :: e in more ==> EventKey(e) == RowKey(last)
  {
    hide KeyOf, Reported, PhaseOf, Classify;
  }

  lemma DistinctInit(init: seq<Row>, last: Row)
    requires DistinctKeys(init + [last])
    ensures DistinctKeys(init)
  {
    hide KeyOf;
    var rows := init + [last];
    assert forall i :: 0 <= i < |init| ==> rows[i] == init[i];
  }

  lemma NoneSimple()
    ensures KeySimple(multiset{})
  {
  }

  lemma FreshKey(init: seq<Row>, last: Row)
    requires DistinctKeys(init + [last])
    ensures RowKey(last) !in RowKeys(init)
  {
    hide KeyOf;
    var rows := init + [last];
    forall d | d in init ensures RowKey(d) != RowKey(last) {
      var i :| 0 <= i < |init| && init[i] == d;
      assert rows[i] == d && rows[|init|] == last;
    }
  }

  /** Rows before it in the same snapshot do not change whether a row is reported. */
  lemma ReportedFresh(m: Memory, includeCurrent: bool, earlier: map<string, Reason>, d: Row)
    requires RowKey(d) !in earlier
    ensures Reported(m.phase + earlier, m.primed, includeCurrent, d) == Reported(m.phase, m.primed, includeCurrent, d)
  {
  }

  lemma GoneSimple(identity: map<string, Event>, keys: set<string>)
    requires keys <= identity.Keys && forall k :: k in identity ==> EventKey(identity[k]) == k
    ensures KeySimple(multiset(GoneEvents(identity, keys)))
    ensures forall e :: e in GoneEvents(identity, keys) ==> EventKey(e) in keys
  {
    hide KeyOf;
    forall e | e in GoneEvents(identity, keys) ensures EventKey(e) in keys && e == GoneEvent(identity[EventKey(e)]) {
      var k :| k in keys && e == GoneEvent(identity[k]);
      assert EventKey(e) == EventKey(identity[k]);
    }
  }

  /** A sorted list of events with pairwise different keys is strictly sorted. */
  lemma StrictFromSimple(events: seq<Event>)
    requires Sorted(events) && KeySimple(multiset(events))
    ensures StrictlySorted(events)
  {
    hide KeyOf, EventLess;
    forall i, j | 0 <= i < j < |events| ensures EventLess(events[i], events[j]) {
      assert EventKey(events[i]) != EventKey(events[j]) by {
        if events[i] == events[j] {
          TwiceInMultiset(events, i, j);
        }
        assert events[i] in multiset(events) && events[j] in multiset(events);
      }
      EventOrder(events[i], events[j]);
    }
  }

  lemma TwiceInMultiset(events: seq<Event>, i: nat, j: nat)
    requires i < j < |events| && events[i] == events[j]
    ensures multiset(events)[events[i]] >= 2
  {
    var a, b := events[..j], events[j..];
    assert events == a + b && a[i] == events[i] && b[0] == events[i];
    assert events[i] in multiset(a) && events[i] in multiset(b);
  }

  // ----- one poll is one diff

  lemma ReportedIsNewlyStopped(previous: Option<seq<Row>>, includeCurrent: bool, d: Row)
    requires DistinctOption(previous)
    ensures var m := MemoryOf(previous);
            Reported(m.phase, m.primed, includeCurrent, d) == NewlyStopped(previous, d, includeCurrent)
  {
    hide KeyOf, Classify, PhaseOf;
    if previous.Some? {
      var rows := previous.value;
      MapsOfRows(rows);
      if RowKey(d) in PhaseOf(rows) {
        var d' :| d' in rows && RowKey(d') == RowKey(d);
        MapsOfRow(rows, d');
        forall e | e in rows && RowKey(e) == RowKey(d) ensures Classify(e) == Classify(d') {
          MapsOfRow(rows, e);
        }
      }
    }
  }

  lemma VanishedIsGone(previous: seq<Row>, current: seq<Row>)
    requires DistinctKeys(previous)
    ensures Coherent(MemoryOf(Some(previous)))
    ensures var m := MemoryOf(Some(previous));
            && Vanished(m, current) <= m.identity.Keys
            && GoneEvents(m.identity, Vanished(m, current))
               == set d | d in previous && RowKey(d) !in RowKeys(current) :: GoneEvent(IdentityOf(d))
  {
    hide KeyOf, PhaseOf, IdentitiesOf, GoneEvent, IdentityOf;
    MemoryOfCoherent(Some(previous));
    MapsOfRows(previous);
    var m := MemoryOf(Some(previous));
    var keys := Vanished(m, current);
    forall d | d in previous ensures IdentitiesOf(previous)[RowKey(d)] == IdentityOf(d) {
      MapsOfRow(previous, d);
    }
    forall k | k in keys
      ensures exists d :: && d in previous && RowKey(d) !in RowKeys(current)
                          && GoneEvent(IdentitiesOf(previous)[k]) == GoneEvent(IdentityOf(d))
    {
      var d :| d in previous && RowKey(d) == k;
    }
    forall d | d in previous && RowKey(d) !in RowKeys(current)
      ensures RowKey(d) in keys && GoneEvent(IdentitiesOf(previous)[RowKey(d)]) == GoneEvent(IdentityOf(d))
    {
      assert RowKey(d) in RowKeys(previous);
    }
  }

  /** A poll from the memory of one snapshot moves to the memory of the next, and reports exactly the diff, strictly
      ordered by title, id and path. */
  lemma PollIsDiff(previous: Option<seq<Row>>, current: seq<Row>, includeCurrent: bool, events: seq<Event>)
    requires DistinctOption(previous) && DistinctKeys(current)
    requires Polled(MemoryOf(previous), includeCurrent, current, events)
    ensures After(MemoryOf(previous), current) == MemoryOf(Some(current))
    ensures StrictlySorted(events)
    ensures forall e :: e in events <==> e in Diff(previous, current, includeCurrent)
  {
    hide PhaseOf, IdentitiesOf, RowEvents, GoneEvents, Sorted, StrictlySorted, RowKeys, DistinctKeys, Diff, EventKey;
    var m := MemoryOf(previous);
    var stops, gone := RowEvents(m, includeCurrent, current), GoneEvents(m.identity, Vanished(m, current));
    RowEventsSimple(m, includeCurrent, current);
    CoherentFacts(m);
    GoneSimple(m.identity, Vanished(m, current));
    SimpleUnion(multiset(stops), multiset(gone), RowKeys(current));
    StrictFromSimple(events);
    forall e ensures e in events <==> e in Diff(previous, current, includeCurrent) {
      assert e in events <==> e in multiset(events);
      assert e in stops <==> e in multiset(stops);
      EventsAreDiff(previous, current, includeCurrent, e);
    }
  }

  /** The events of the rows and of the vanished keys are the two halves of the diff. */
  lemma EventsAreDiff(previous: Option<seq<Row>>, current: seq<Row>, includeCurrent: bool, e: Event)
    requires DistinctOption(previous) && DistinctKeys(current) && Coherent(MemoryOf(previous))
    ensures var m := MemoryOf(previous);
            (e in RowEvents(m, includeCurrent, current) || e in GoneEvents(m.identity, Vanished(m, current))) <==>
              e in Diff(previous, current, includeCurrent)
  {
    hide KeyOf, PhaseOf, IdentitiesOf, RowEvents, StopEvent, GoneEvent, IdentityOf, Reported, NewlyStopped;
    hide RowKeys, DistinctKeys;
    var m := MemoryOf(previous);
    RowEventsMeaning(m, includeCurrent, current);
    forall d ensures Reported(m.phase, m.primed, includeCurrent, d) == NewlyStopped(previous, d, includeCurrent) {
      ReportedIsNewlyStopped(previous, includeCurrent, d);
    }
    if previous.Some? {
      VanishedIsGone(previous.value, current);
    } else {
      NoneGone(m.identity);
    }
  }

  lemma SimpleUnion(a: multiset<Event>, b: multiset<Event>, keys: set<string>)
    requires KeySimple(a) && KeySimple(b)
    requires (forall e :: e in a ==> EventKey(e) in keys) && (forall e :: e in b ==> EventKey(e) !in keys)
    ensures KeySimple(a + b)
  {
    hide EventKey;
  }

  // ----- whole runs

  /** The memory after a run of polls. */
  function RunMemory(snapshots: seq<seq<Row>>): Memory {
    if |snapshots| == 0 then MemoryOf(None)
    else After(RunMemory(snapshots[..|snapshots| - 1]), snapshots[|snapshots| - 1])
  }

  function LastOf(snapshots: seq<seq<Row>>): Option<seq<Row>> {
    if |snapshots| == 0 then None else Some(snapshots[|snapshots| - 1])
  }

  /** Over every run, whatever happened before the last snapshot is forgotten. */
  lemma {:induction false} RunForgets(snapshots: seq<seq<Row>>)
    ensures RunMemory(snapshots) == MemoryOf(LastOf(snapshots))
    decreases |snapshots|
  {
    hide PhaseOf, IdentitiesOf;
    if |snapshots| > 0 {
      RunForgets(snapshots[..|snapshots| - 1]);
    }
  }

  /** So the n-th poll of any run reports exactly the difference between snapshots n-1 and n. */
  lemma RunPollIsDiff(snapshots: seq<seq<Row>>, current: seq<Row>, includeCurrent: bool, events: seq<Event>)
    requires (forall rows :: rows in snapshots ==> DistinctKeys(rows)) && DistinctKeys(current)
    requires Polled(RunMemory(snapshots), includeCurrent, current, events)
    ensures StrictlySorted(events)
    ensures forall e :: e in events <==> e in Diff(LastOf(snapshots), current, includeCurrent)
  {
    hide Polled, Coherent, Diff, StrictlySorted, DistinctKeys;
    RunForgets(snapshots);
    PollIsDiff(LastOf(snapshots), current, includeCurrent, events);
  }

  /** The event list depends on neither map iteration order nor the row order inside the two snapshots. */
  lemma OrderIndependent(previous: Option<seq<Row>>, current: seq<Row>, events: seq<Event>,
                         previous': Option<seq<Row>>, current': seq<Row>, events': seq<Event>, includeCurrent: bool)
    requires DistinctOption(previous) && DistinctKeys(current) && DistinctOption(previous') && DistinctKeys(current')
    requires SameRows(current, current') && previous.Some? == previous'.Some?
    requires previous.Some? ==> SameRows(previous.value, previous'.value)
    requires Polled(MemoryOf(previous), includeCurrent, current, events)
    requires Polled(MemoryOf(previous'), includeCurrent, current', events')
    ensures events == events'
  {
    hide Polled, Coherent, StrictlySorted, DistinctKeys, NewlyStopped, MemoryOf;
    PollIsDiff(previous, current, includeCurrent, events);
    PollIsDiff(previous', current', includeCurrent, events');
    forall d ensures NewlyStopped(previous, d, includeCurrent) == NewlyStopped(previous', d, includeCurrent) {
      SameNewlyStopped(previous, previous', d, includeCurrent);
    }
    assert RowKeys(current) == RowKeys(current');
    assert Diff(previous, current, includeCurrent) == Diff(previous', current', includeCurrent);
    StrictlySortedUnique(events, events');
  }

  ghost predicate SameRows(a: seq<Row>, b: seq<Row>) {
    forall d :: d in a <==> d in b
  }

  lemma SameNewlyStopped(previous: Option<seq<Row>>, previous': Option<seq<Row>>, d: Row, includeCurrent: bool)
    requires previous.Some? == previous'.Some? && (previous.Some? ==> SameRows(previous.value, previous'.value))
    ensures NewlyStopped(previous, d, includeCurrent) == NewlyStopped(previous', d, includeCurrent)
  {
  }

  /** A repeated snapshot, rows in any order, reports nothing; neither does a baseline nobody asked for. */
  lemma QuietPolls(rows: seq<Row>, again: seq<Row>)
    requires SameRows(rows, again)
    ensures forall includeCurrent :: Diff(Some(rows), again, includeCurrent) == {}
    ensures Diff(None, rows, false) == {}
  {
    hide KeyOf, Classify;
  }
}
