/** The edge-triggered fleet watcher (api/sessions_watch_fleet.go, fleetWatcher.observe): whole-fleet snapshots in,
    transition events out. Every poll is proved to be the diff of two consecutive snapshots, in a unique order. */
module FleetWatcher {
  import opened Wrappers
  import opened WatchClassify

  // ----- keys and events

  /** watchKeyOf: the stable id wins; records without one are told apart by path and title. */
  function KeyOf(id: string, path: string, title: string): string {
    if id != "" then "id:" + id else "path:" + path + "\0" + title
  }

  /** Two records share a key exactly when they share an id, or have none and share path and title as joined; the join
      is unambiguous unless a path holds a NUL. */
  lemma KeyOfIff(id: string, path: string, title: string, id': string, path': string, title': string)
    ensures KeyOf(id, path, title) == KeyOf(id', path', title') <==>
              if id != "" || id' != "" then id == id' else path + "\0" + title == path' + "\0" + title'
    ensures id == "" && id' == "" && '\0' !in path && '\0' !in path' ==>
              (KeyOf(id, path, title) == KeyOf(id', path', title') <==> path == path' && title == title')
  {
    var a, b := path + "\0" + title, path' + "\0" + title';
    assert ("id:" + id)[3..] == id && ("id:" + id')[3..] == id';
    assert "path:" + path + "\0" + title == "path:" + a && "path:" + path' + "\0" + title' == "path:" + b;
    assert ("path:" + a)[5..] == a && ("path:" + b)[5..] == b;
    assert ("id:" + id)[0] == 'i' && ("path:" + b)[0] == 'p' && ("id:" + id')[0] == 'i' && ("path:" + a)[0] == 'p';
    if a == b && '\0' !in path && '\0' !in path' {
      NulSplits(path, title, path', title');
    }
  }

  lemma {:induction false} NulSplits(p: string, t: string, p': string, t': string)
    requires p + "\0" + t == p' + "\0" + t' && '\0' !in p && '\0' !in p'
    ensures p == p' && t == t'
    decreases |p|
  {
    var s := p + "\0" + t;
    assert s[0] == (if |p| > 0 then p[0] else '\0') && s[0] == (if |p'| > 0 then p'[0] else '\0');
    if |p| > 0 && |p'| > 0 {
      assert p[1..] + "\0" + t == s[1..] && p'[1..] + "\0" + t' == s[1..];
      NulSplits(p[1..], t, p'[1..], t');
      assert p == [p[0]] + p[1..] && p' == [p'[0]] + p'[1..];
    } else {
      assert t == s[1..] && t' == s[1..];
    }
  }

  function RowKey(d: Row): string {
    KeyOf(d.id, d.path, d.title)
  }

  /** Rows are one session to the watcher exactly when they share an id or, without one, path and title. */
  lemma RowKeyIff(d: Row, d': Row)
    requires '\0' !in d.path && '\0' !in d'.path
    ensures RowKey(d) == RowKey(d') <==> d.id == d'.id && (d.id == "" ==> d.path == d'.path && d.title == d'.title)
  {
    KeyOfIff(d.id, d.path, d.title, d'.id, d'.path, d'.title);
  }

  datatype Event = Event(title: string, id: string, path: string, reason: Reason, session: Option<Row>)

  function EventKey(e: Event): string {
    KeyOf(e.id, e.path, e.title)
  }

  function StopEvent(d: Row): Event {
    Event(d.title, d.id, d.path, Classify(d), Some(d))
  }

  /** The identity a watcher remembers, so that a vanished session can still be named. */
  function IdentityOf(d: Row): Event {
    Event(d.title, d.id, d.path, Working, None)
  }

  function GoneEvent(identity: Event): Event {
    identity.(reason := Gone)
  }

  // ----- the order of events

  predicate StringLess(a: string, b: string) {
    |b| > 0 && (|a| == 0 || a[0] < b[0] || (a[0] == b[0] && StringLess(a[1..], b[1..])))
  }

  lemma {:induction false} StringOrder(a: string, b: string)
    ensures !StringLess(a, a)
    ensures StringLess(a, b) || StringLess(b, a) || a == b
    ensures !(StringLess(a, b) && StringLess(b, a))
    decreases |a|
  {
    if |a| > 0 {
      StringOrder(a[1..], a[1..]);
      if |b| > 0 && a[0] == b[0] {
        StringOrder(a[1..], b[1..]);
        assert a == [a[0]] + a[1..] && b == [b[0]] + b[1..];
      }
    }
  }

  lemma {:induction false} StringTransitive(a: string, b: string, c: string)
    requires StringLess(a, b) && StringLess(b, c)
    ensures StringLess(a, c)
    decreases |a|
  {
    if |a| > 0 && a[0] == b[0] && b[0] == c[0] {
      StringTransitive(a[1..], b[1..], c[1..]);
    }
  }

  /** Title, then id, then path. */
  predicate EventLess(a: Event, b: Event) {
    if a.title != b.title then StringLess(a.title, b.title)
    else if a.id != b.id then StringLess(a.id, b.id)
    else StringLess(a.path, b.path)
  }

  /** Strings are ordered as Go orders them: at the first difference, a prefix before what extends it. */
  lemma {:induction false} StringLessIff(a: string, b: string)
    ensures StringLess(a, b) <==> exists k :: FirstDifference(a, b, k)
    decreases |a|
  {
    if |b| > 0 && |a| > 0 && a[0] == b[0] {
      StringLessIff(a[1..], b[1..]);
      if StringLess(a[1..], b[1..]) {
        var k :| FirstDifference(a[1..], b[1..], k);
        assert a[..k + 1] == [a[0]] + a[1..][..k] && b[..k + 1] == [b[0]] + b[1..][..k];
        assert FirstDifference(a, b, k + 1);
      }
      if exists k :: FirstDifference(a, b, k) {
        var k :| FirstDifference(a, b, k);
        assert k > 0 && a[1..][..k - 1] == a[..k][1..] && b[1..][..k - 1] == b[..k][1..];
        assert FirstDifference(a[1..], b[1..], k - 1);
      }
    } else {
      if StringLess(a, b) {
        assert FirstDifference(a, b, 0);
      }
      if exists k :: FirstDifference(a, b, k) {
        var k :| FirstDifference(a, b, k);
        assert k > 0 ==> a[..k][0] == b[..k][0];
      }
    }
  }

  predicate FirstDifference(a: string, b: string, k: int) {
    0 <= k <= |a| && k < |b| && a[..k] == b[..k] && (k == |a| || a[k] < b[k])
  }

  /** Ascending by title, within a title by id, within an id by path. */
  lemma EventLessIff(a: Event, b: Event)
    ensures EventLess(a, b) <==>
              || StringLess(a.title, b.title)
              || (a.title == b.title && StringLess(a.id, b.id))
              || (a.title == b.title && a.id == b.id && StringLess(a.path, b.path))
  {
    StringOrder(a.title, b.title);
    StringOrder(a.id, b.id);
  }

  lemma EventOrder(a: Event, b: Event)
    ensures !(EventLess(a, b) && EventLess(b, a))
    ensures EventKey(a) != EventKey(b) ==> EventLess(a, b) || EventLess(b, a)
  {
    StringOrder(a.title, b.title);
    StringOrder(a.id, b.id);
    StringOrder(a.path, b.path);
  }

  lemma EventTransitive(a: Event, b: Event, c: Event)
    requires EventLess(a, b) && !EventLess(c, b)
    ensures EventLess(a, c)
  {
    StringOrder(b.title, c.title);
    StringOrder(b.id, c.id);
    StringOrder(b.path, c.path);
    if StringLess(a.title, b.title) && StringLess(b.title, c.title) { StringTransitive(a.title, b.title, c.title); }
    if StringLess(a.id, b.id) && StringLess(b.id, c.id) { StringTransitive(a.id, b.id, c.id); }
    if StringLess(a.path, b.path) && StringLess(b.path, c.path) { StringTransitive(a.path, b.path, c.path); }
    StringOrder(a.title, c.title);
    StringOrder(a.id, c.id);
  }

  predicate Sorted(s: seq<Event>) {
    forall i, j :: 0 <= i < j < |s| ==> !EventLess(s[j], s[i])
  }

  predicate StrictlySorted(s: seq<Event>) {
    forall i, j :: 0 <= i < j < |s| ==> EventLess(s[i], s[j])
  }

  /** Two strictly sorted lists of the same events are the same list. */
  lemma {:induction false} StrictlySortedUnique(s: seq<Event>, t: seq<Event>)
    requires StrictlySorted(s) && StrictlySorted(t) && (forall e :: e in s <==> e in t)
    ensures s == t
    decreases |s|
  {
    assert |s| > 0 ==> s[0] in s;
    assert |t| > 0 ==> t[0] in t;
    if |s| > 0 && |t| > 0 {
      var i :| 0 <= i < |t| && t[i] == s[0];
      var j :| 0 <= j < |s| && s[j] == t[0];
      EventOrder(s[0], t[0]);
      assert i == 0 && j == 0;
      forall e ensures e in s[1..] <==> e in t[1..] {
        TailMembers(s, e);
        TailMembers(t, e);
      }
      StrictlySortedUnique(s[1..], t[1..]);
      assert s == [s[0]] + s[1..] && t == [t[0]] + t[1..];
    }
  }

  lemma TailMembers(s: seq<Event>, e: Event)
    requires |s| > 0 && StrictlySorted(s)
    ensures e in s[1..] <==> e in s && e != s[0]
  {
    EventOrder(s[0], s[0]);
    if e in s && e != s[0] {
      var i :| 0 <= i < |s| && s[i] == e;
      assert s[1..][i - 1] == e;
    }
    if e in s[1..] {
      var i :| 0 <= i < |s[1..]| && s[1..][i] == e;
      assert EventLess(s[0], s[i + 1]);
    }
  }

  /** sort.Slice: some sorted arrangement of the same events. */
  method SortEvents(events: seq<Event>) returns (s: seq<Event>)
    ensures Sorted(s) && multiset(s) == multiset(events)
  {
    s := [];
    for n := 0 to |events|
      invariant Sorted(s) && multiset(s) == multiset(events[..n])
    {
      var i := |s|;
      while i > 0 && EventLess(events[n], s[i - 1])
        invariant 0 <= i <= |s|
        invariant forall k :: i <= k < |s| ==> EventLess(events[n], s[k])
      {
        i := i - 1;
      }
      InsertSorted(s, i, events[n]);
      InsertOnce(s, i, events[n]);
      s := s[..i] + [events[n]] + s[i..];
      assert events[..n + 1] == events[..n] + [events[n]];
    }
    assert events[..|events|] == events;
  }

  lemma InsertOnce(s: seq<Event>, i: nat, e: Event)
    requires i <= |s|
    ensures multiset(s[..i] + [e] + s[i..]) == multiset(s) + multiset{e}
  {
    assert s == s[..i] + s[i..];
  }

  lemma InsertSorted(s: seq<Event>, i: nat, e: Event)
    requires Sorted(s) && i <= |s| && (i > 0 ==> !EventLess(e, s[i - 1]))
    requires forall k :: i <= k < |s| ==> EventLess(e, s[k])
    ensures Sorted(s[..i] + [e] + s[i..])
  {
    hide EventLess;
    var t := s[..i] + [e] + s[i..];
    forall a, b | 0 <= a < b < |t| ensures !EventLess(t[b], t[a]) {
      if a == i {
        EventOrder(e, s[b - 1]);
      } else if b == i && a < i - 1 {
        if EventLess(e, s[a]) {
          EventTransitive(e, s[a], s[i - 1]);
        }
      }
    }
  }

  // ----- what a snapshot says

  function RowKeys(rows: seq<Row>): set<string> {
    set d | d in rows :: RowKey(d)
  }

  /** The phase of every key, a later row winning over an earlier one. */
  function PhaseOf(rows: seq<Row>): map<string, Reason> {
    if |rows| == 0 then map[]
    else PhaseOf(rows[..|rows| - 1])[RowKey(rows[|rows| - 1]) := Classify(rows[|rows| - 1])]
  }

  function IdentitiesOf(rows: seq<Row>): map<string, Event> {
    if |rows| == 0 then map[]
    else IdentitiesOf(rows[..|rows| - 1])[RowKey(rows[|rows| - 1]) := IdentityOf(rows[|rows| - 1])]
  }

  predicate DistinctKeys(rows: seq<Row>) {
    forall i, j :: 0 <= i < j < |rows| ==> RowKey(rows[i]) != RowKey(rows[j])
  }

  /** An identity filed under its own key, with no reason and no session yet. */
  predicate IdentityAt(identity: map<string, Event>, k: string)
    requires k in identity
  {
    EventKey(identity[k]) == k && identity[k].reason == Working && identity[k].session.None?
  }

  lemma MapsOfRows(rows: seq<Row>)
    ensures PhaseOf(rows).Keys == RowKeys(rows) == IdentitiesOf(rows).Keys
    ensures forall k :: k in IdentitiesOf(rows) ==> IdentityAt(IdentitiesOf(rows), k)
    ensures forall k :: k in PhaseOf(rows) ==> PhaseOf(rows)[k] != Gone
  {
    hide PhaseOf, IdentitiesOf, IdentityAt, RowKeys;
    PhasesOfRows(rows);
    NamesOfRows(rows);
  }

  lemma {:induction false} PhasesOfRows(rows: seq<Row>)
    ensures PhaseOf(rows).Keys == RowKeys(rows)
    ensures forall k :: k in PhaseOf(rows) ==> PhaseOf(rows)[k] != Gone
    decreases |rows|
  {
    if |rows| > 0 {
      hide RowKey, Classify, RowKeys;
      var init, last := rows[..|rows| - 1], rows[|rows| - 1];
      PhasesOfRows(init);
      RowKeysSnoc(init, last);
      assert rows == init + [last];
      NeverGone(last);
    }
  }

  lemma {:induction false} NamesOfRows(rows: seq<Row>)
    ensures IdentitiesOf(rows).Keys == RowKeys(rows)
    ensures forall k :: k in IdentitiesOf(rows) ==> IdentityAt(IdentitiesOf(rows), k)
    decreases |rows|
  {
    if |rows| > 0 {
      hide RowKey, IdentityOf, RowKeys, IdentityAt;
      var init, last := rows[..|rows| - 1], rows[|rows| - 1];
      NamesOfRows(init);
      RowKeysSnoc(init, last);
      assert rows == init + [last];
      IdentitySnoc(IdentitiesOf(init), last);
    }
  }

  lemma IdentitySnoc(identity: map<string, Event>, d: Row)
    requires forall k :: k in identity ==> IdentityAt(identity, k)
    ensures var m := identity[RowKey(d) := IdentityOf(d)]; forall k :: k in m ==> IdentityAt(m, k)
  {
    hide KeyOf;
    var m := identity[RowKey(d) := IdentityOf(d)];
    forall k | k in m ensures IdentityAt(m, k) {
      assert k != RowKey(d) ==> IdentityAt(identity, k);
    }
  }

  lemma RowKeysSnoc(init: seq<Row>, last: Row)
    ensures RowKeys(init + [last]) == RowKeys(init) + {RowKey(last)}
  {
  }

  lemma NeverGone(d: Row)
    ensures Classify(d) != Gone
  {
  }

  lemma {:induction false} MapsOfRow(rows: seq<Row>, d: Row)
    requires DistinctKeys(rows) && d in rows
    ensures RowKey(d) in PhaseOf(rows) && PhaseOf(rows)[RowKey(d)] == Classify(d)
    ensures RowKey(d) in IdentitiesOf(rows) && IdentitiesOf(rows)[RowKey(d)] == IdentityOf(d)
    decreases |rows|
  {
    var init, last := rows[..|rows| - 1], rows[|rows| - 1];
    if d != last {
      assert rows == init + [last];
      assert d in init;
      MapsOfRow(init, d);
      var i :| 0 <= i < |init| && init[i] == d;
      assert RowKey(rows[i]) != RowKey(rows[|rows| - 1]);
    }
  }

  // ----- one poll, as the code computes it

  /** What a watcher remembers. */
  datatype Memory = Memory(phase: map<string, Reason>, identity: map<string, Event>, primed: bool)

  /** The identity map names exactly the known keys, and no phase is ever `gone`. */
  predicate Coherent(m: Memory) {
    && m.phase.Keys == m.identity.Keys
    && (forall k :: k in m.identity ==> IdentityAt(m.identity, k))
    && (forall k :: k in m.phase ==> m.phase[k] != Gone)
  }

  /** Whether one row is reported, given the phases known before it. */
  predicate Reported(phase: map<string, Reason>, primed: bool, includeCurrent: bool, d: Row) {
    var reason := Classify(d);
    if RowKey(d) !in phase then
      if !primed then includeCurrent && Stopped(reason) && reason != Archived else Stopped(reason)
    else reason != phase[RowKey(d)] && Stopped(reason)
  }

  function RowEvents(m: Memory, includeCurrent: bool, rows: seq<Row>): seq<Event> {
    if |rows| == 0 then []
    else
      var init, last := rows[..|rows| - 1], rows[|rows| - 1];
      RowEvents(m, includeCurrent, init) + LastEvents(m, includeCurrent, init, last)
  }

  /** What the row after `init` adds. */
  function LastEvents(m: Memory, includeCurrent: bool, init: seq<Row>, last: Row): seq<Event> {
    if Reported(m.phase + PhaseOf(init), m.primed, includeCurrent, last) then [StopEvent(last)] else []
  }

  /** The gone events of a set of vanished keys. */
  function GoneEvents(identity: map<string, Event>, keys: set<string>): set<Event>
    requires keys <= identity.Keys
  {
    set k | k in keys :: GoneEvent(identity[k])
  }

  function Vanished(m: Memory, rows: seq<Row>): set<string> {
    if m.primed then m.phase.Keys - RowKeys(rows) else {}
  }

  /** The memory after a poll. */
  function After(m: Memory, rows: seq<Row>): Memory {
    if m.primed then Memory(PhaseOf(rows), IdentitiesOf(rows), true)
    else Memory(m.phase + PhaseOf(rows), m.identity + IdentitiesOf(rows), true)
  }

  lemma AfterCoherent(m: Memory, rows: seq<Row>)
    requires Coherent(m)
    ensures Coherent(After(m, rows))
  {
    hide EventKey, PhaseOf, IdentitiesOf;
    MapsOfRows(rows);
  }

  lemma NoRows(m: Memory, includeCurrent: bool)
    ensures m.phase + PhaseOf([]) == m.phase && m.identity + IdentitiesOf([]) == m.identity
    ensures RowEvents(m, includeCurrent, []) == [] && RowKeys([]) == {}
  {
  }

  /** One more row. */
  lemma RowStep(m: Memory, includeCurrent: bool, init: seq<Row>, last: Row)
    ensures m.phase + PhaseOf(init + [last]) == (m.phase + PhaseOf(init))[RowKey(last) := Classify(last)]
    ensures m.identity + IdentitiesOf(init + [last])
         == (m.identity + IdentitiesOf(init))[RowKey(last) := IdentityOf(last)]
    ensures RowEvents(m, includeCurrent, init + [last])
         == RowEvents(m, includeCurrent, init) + LastEvents(m, includeCurrent, init, last)
    ensures RowKeys(init + [last]) == RowKeys(init) + {RowKey(last)}
  {
    hide RowKeys, PhaseOf, IdentitiesOf, RowEvents;
    MapsSnoc(init, last);
    RowEventsSnoc(m, includeCurrent, init, last);
    RowKeysSnoc(init, last);
  }

  lemma MapsSnoc(init: seq<Row>, last: Row)
    ensures PhaseOf(init + [last]) == PhaseOf(init)[RowKey(last) := Classify(last)]
    ensures IdentitiesOf(init + [last]) == IdentitiesOf(init)[RowKey(last) := IdentityOf(last)]
  {
    hide RowKey, Classify, IdentityOf;
    var rows := init + [last];
    assert rows[..|rows| - 1] == init && rows[|rows| - 1] == last;
  }

  lemma RowEventsSnoc(m: Memory, includeCurrent: bool, init: seq<Row>, last: Row)
    ensures RowEvents(m, includeCurrent, init + [last])
         == RowEvents(m, includeCurrent, init) + LastEvents(m, includeCurrent, init, last)
  {
    hide Reported, StopEvent, PhaseOf;
    var rows := init + [last];
    assert rows[..|rows| - 1] == init && rows[|rows| - 1] == last;
  }

  class Watcher {
    var phase: map<string, Reason>
    var identity: map<string, Event>
    var primed: bool
    const includeCurrent: bool

    ghost function View(): Memory
      reads this
    {
      Memory(phase, identity, primed)
    }

    constructor (includeCurrent: bool)
      ensures View() == Memory(map[], map[], false) && this.includeCurrent == includeCurrent
    {
      phase, identity, primed := map[], map[], false;
      this.includeCurrent := includeCurrent;
    }

    /** The rows of one snapshot. */
    method ObserveRows(snapshot: seq<Row>) returns (events: seq<Event>, seen: set<string>)
      modifies this`phase, this`identity
      ensures phase == old(phase) + PhaseOf(snapshot) && identity == old(identity) + IdentitiesOf(snapshot)
      ensures events == RowEvents(old(View()), includeCurrent, snapshot) && seen == RowKeys(snapshot)
    {
      hide KeyOf, Classify, PhaseOf, IdentitiesOf, RowEvents, RowKeys;
      events, seen := [], {};
      NoRows(View(), includeCurrent);
      for i := 0 to |snapshot|
        invariant phase == old(phase) + PhaseOf(snapshot[..i])
        invariant identity == old(identity) + IdentitiesOf(snapshot[..i])
        invariant events == RowEvents(old(View()), includeCurrent, snapshot[..i])
        invariant seen == RowKeys(snapshot[..i])
      {
        var data := snapshot[i];
        var key := RowKey(data);
        RowStep(old(View()), includeCurrent, snapshot[..i], data);
        assert snapshot[..i + 1] == snapshot[..i] + [data];
        seen := seen + {key};
        var reason := Classify(data);
        var known := key in phase;
        var previous := if known then phase[key] else Working;
        phase := phase[key := reason];
        identity := identity[key := IdentityOf(data)];
        if !known && !primed {
          if includeCurrent && Stopped(reason) && reason != Archived {
            events := events + [StopEvent(data)];
          }
        } else if !known {
          if Stopped(reason) {
            events := events + [StopEvent(data)];
          }
        } else if reason != previous && Stopped(reason) {
          events := events + [StopEvent(data)];
        }
      }
      assert snapshot[..|snapshot|] == snapshot;
    }

    /** Drop one vanished key and report it, once. */
    method Forget(key: string, events: seq<Event>) returns (more: seq<Event>)
      requires key in phase && key in identity
      modifies this`phase, this`identity
      ensures phase == old(phase) - {key} && identity == old(identity) - {key}
      ensures more == events + if old(phase)[key] != Gone then [GoneEvent(old(identity)[key])] else []
    {
      more := events;
      if phase[key] != Gone {
        more := more + [GoneEvent(identity[key])];
      }
      phase := phase - {key};
      identity := identity - {key};
    }

    /** The keys that were known and are now absent, visited in any order. */
    method ForgetVanished(seen: set<string>) returns (events: seq<Event>)
      requires Coherent(View())
      modifies this`phase, this`identity
      ensures phase == old(phase) - (old(phase).Keys - seen) && identity == old(identity) - (old(phase).Keys - seen)
      ensures multiset(events) == multiset(GoneEvents(old(identity), old(phase).Keys - seen))
    {
      hide GoneEvent, GoneEvents, Coherent, Forgot, EventKey;
      CoherentFacts(View());
      NoneForgot(View());
      events := [];
      var left := phase.Keys - seen;
      ghost var m, gone := View(), left;
      assert gone - left == {};
      while left != {}
        invariant left <= gone
        invariant Forgot(m, gone - left, View(), events)
        decreases left
      {
        var key :| key in left;
        ForgetStep(m, gone, left, View(), events, key);
        events := Forget(key, events);
        left := left - {key};
      }
      assert gone - left == gone;
      ForgotFacts(m, gone, View(), events);
    }

    method Observe(snapshot: seq<Row>) returns (events: seq<Event>)
      requires Coherent(View())
      modifies this
      ensures View() == After(old(View()), snapshot) && Coherent(View())
      ensures Sorted(events)
      ensures multiset(events) == multiset(RowEvents(old(View()), includeCurrent, snapshot))
                                  + multiset(GoneEvents(old(identity), Vanished(old(View()), snapshot)))
    {
      hide KeyOf, GoneEvents, RowEvents, PhaseOf, IdentitiesOf, RowKeys, Coherent, Sorted;
      MapsOfRows(snapshot);
      AfterCoherent(View(), snapshot);
      MergedCoherent(View(), snapshot);
      MergeForget(phase, PhaseOf(snapshot));
      MergeForget(identity, IdentitiesOf(snapshot));
      VanishedIdentity(View(), snapshot);
      NoneGone(identity);
      var seen;
      events, seen := ObserveRows(snapshot);
      if primed {
        var gone := ForgetVanished(seen);
        events := events + gone;
      }
      primed := true;
      events := SortEvents(events);
    }
  }

  lemma GoneStep(identity: map<string, Event>, done: set<string>, key: string)
    requires done <= identity.Keys && key in identity && key !in done
    requires forall k :: k in identity ==> EventKey(identity[k]) == k
    ensures multiset(GoneEvents(identity, done + {key}))
         == multiset(GoneEvents(identity, done)) + multiset{GoneEvent(identity[key])}
  {
    hide KeyOf;
    var gone := GoneEvents(identity, done);
    forall k | k in done ensures GoneEvent(identity[k]) != GoneEvent(identity[key]) {
      assert EventKey(GoneEvent(identity[k])) == k && EventKey(GoneEvent(identity[key])) == key;
    }
    assert GoneEvents(identity, done + {key}) == gone + {GoneEvent(identity[key])};
  }

  lemma ForgetOne<T>(m: map<string, T>, done: set<string>, key: string)
    requires key in m && key !in done
    ensures key in m - done && (m - done)[key] == m[key] && (m - done) - {key} == m - (done + {key})
  {
  }

  /** Of the memory `m`, the keys `done` have been dropped and reported. */
  ghost predicate Forgot(m: Memory, done: set<string>, now: Memory, events: seq<Event>) {
    && done <= m.identity.Keys && now == Memory(m.phase - done, m.identity - done, m.primed)
    && multiset(events) == multiset(GoneEvents(m.identity, done))
  }

  lemma NoneForgot(m: Memory)
    ensures Forgot(m, {}, m, [])
  {
    NoneGone(m.identity);
    assert m.phase - {} == m.phase && m.identity - {} == m.identity;
  }

  lemma ForgotFacts(m: Memory, done: set<string>, now: Memory, events: seq<Event>)
    requires Forgot(m, done, now, events)
    ensures done <= m.identity.Keys && now.phase == m.phase - done && now.identity == m.identity - done
    ensures multiset(events) == multiset(GoneEvents(m.identity, done))
  {
  }

  /** One more vanished key. */
  lemma ForgetStep(m: Memory, gone: set<string>, left: set<string>, now: Memory, events: seq<Event>, key: string)
    requires Coherent(m) && Forgot(m, gone - left, now, events) && gone <= m.phase.Keys && left <= gone && key in left
    ensures key in now.phase && key in now.identity && now.phase[key] != Gone
    ensures Forgot(m, gone - (left - {key}), Memory(now.phase - {key}, now.identity - {key}, now.primed),
                   events + [GoneEvent(now.identity[key])])
  {
    hide EventKey, GoneEvents, GoneEvent;
    var done := gone - left;
    assert gone - (left - {key}) == done + {key};
    CoherentFacts(m);
    GoneStep(m.identity, done, key);
    ForgetOne(m.phase, done, key);
    ForgetOne(m.identity, done, key);
  }

  /** Merging a snapshot's map into an older one and dropping what the snapshot lacks leaves the snapshot's map. */
  lemma MergeForget<T>(before: map<string, T>, now: map<string, T>)
    ensures (before + now) - ((before + now).Keys - now.Keys) == now
  {
  }

  lemma CoherentFacts(m: Memory)
    requires Coherent(m)
    ensures m.phase.Keys == m.identity.Keys
    ensures forall k :: k in m.phase ==> EventKey(m.identity[k]) == k && m.phase[k] != Gone
  {
  }

  lemma NoneGone(identity: map<string, Event>)
    ensures GoneEvents(identity, {}) == {}
  {
  }

  lemma MergedCoherent(m: Memory, rows: seq<Row>)
    requires Coherent(m)
    ensures Coherent(Memory(m.phase + PhaseOf(rows), m.identity + IdentitiesOf(rows), m.primed))
    ensures (m.phase + PhaseOf(rows)).Keys == (m.identity + IdentitiesOf(rows)).Keys
  {
    hide EventKey, PhaseOf, IdentitiesOf;
    MapsOfRows(rows);
  }

  /** The keys a merged memory loses are the old ones the snapshot lacks, under their old identities. */
  lemma VanishedIdentity(m: Memory, rows: seq<Row>)
    requires Coherent(m)
    ensures var gone := m.phase.Keys - RowKeys(rows);
            && (m.phase + PhaseOf(rows)).Keys - RowKeys(rows) == gone
            && gone <= (m.identity + IdentitiesOf(rows)).Keys && gone <= m.identity.Keys
            && GoneEvents(m.identity + IdentitiesOf(rows), gone) == GoneEvents(m.identity, gone)
  {
    hide KeyOf;
    MapsOfRows(rows);
  }
}
