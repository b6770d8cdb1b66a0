/** The fleet polling loop (api/sessions_watch_fleet.go, watchFleet): poll until something transitions, with a pinned
    source and a deadline. What the daemon answers and how long each read takes are inputs. */
module FleetLoop {
  import opened Wrappers
  import opened WatchClassify
  import opened FleetWatcher
  import opened FleetDiff

  /** Which projection a snapshot came from. */
  datatype Source = Daemon | Disk

  /** One read of the fleet: an error, or a snapshot, its source and the time the read took. */
  datatype Answer = Failed | Listed(rows: seq<Row>, source: Source, took: nat)

  datatype Outcome =
    | Reported(events: seq<Event>)
    | ListFailed
    | SourceSwitched
    | TimedOut
    | StillWatching   // every answer was used and none ended the watch

  /** The snapshots of the first `n` answers. */
  function RowsOf(answers: seq<Answer>, n: nat): seq<seq<Row>>
    requires n <= |answers|
  {
    seq(n, i requires 0 <= i < n => if answers[i].Listed? then answers[i].rows else [])
  }

  /** Poll `i` was compared with the polls before it, and returned `events`. */
  predicate PollReturns(answers: seq<Answer>, i: nat, includeCurrent: bool, events: seq<Event>) {
    && i < |answers| && answers[i].Listed? && answers[0].Listed? && answers[i].source == answers[0].source
    && Polled(RunMemory(RowsOf(answers, i)), includeCurrent, answers[i].rows, events)
  }

  lemma RowsSnoc(answers: seq<Answer>, n: nat)
    requires n < |answers| && answers[n].Listed?
    ensures RunMemory(RowsOf(answers, n + 1)) == After(RunMemory(RowsOf(answers, n)), answers[n].rows)
  {
    var all := RowsOf(answers, n + 1);
    assert all[..n] == RowsOf(answers, n) && all[n] == answers[n].rows;
  }

  /** Rounding up, for a positive divisor. */
  function CeilDiv(a: nat, b: nat): nat
    requires b > 0
  {
    (a + b - 1) / b
  }

  /** The clock after one sleep: the interval, or what is left to the deadline when that is less; a sleep that is not
      positive returns at once. */
  function AfterSleep(clock: int, interval: int, timeout: int): int {
    var wait := if timeout > 0 && timeout - clock < interval then timeout - clock else interval;
    if wait > 0 then clock + wait else clock
  }

  /** A sleep begun by the deadline is one interval, or ends at the deadline when that comes first; it never runs past
      it, never takes more than an interval, and is a full one whenever that fits. */
  lemma SleepFacts(clock: int, interval: int, timeout: int)
    requires timeout > 0 ==> clock <= timeout
    ensures timeout > 0 ==> AfterSleep(clock, interval, timeout) <= timeout
    ensures interval >= 0 ==> clock <= AfterSleep(clock, interval, timeout) <= clock + interval
    ensures interval >= 0 && (timeout <= 0 || clock + interval <= timeout) ==>
              AfterSleep(clock, interval, timeout) == clock + interval
    ensures interval >= 0 && timeout > 0 && clock + interval > timeout ==>
              AfterSleep(clock, interval, timeout) == timeout
    ensures interval < 0 ==> AfterSleep(clock, interval, timeout) == clock
  {
  }

  /** When read `n` begins, if every earlier one was followed by a sleep. */
  function ReadAt(answers: seq<Answer>, n: nat, interval: int, timeout: int): int
    requires n <= |answers|
    decreases n, 0
  {
    if n == 0 then 0 else AfterSleep(DoneAt(answers, n - 1, interval, timeout), interval, timeout)
  }

  /** When read `n` is answered; a read that fails is taken to fail at once. */
  function DoneAt(answers: seq<Answer>, n: nat, interval: int, timeout: int): int
    requires n < |answers|
    decreases n, 1
  {
    ReadAt(answers, n, interval, timeout) + if answers[n].Listed? then answers[n].took else 0
  }

  /** Between the answer to read `q` and the next read lies one interval, or what is left to the deadline. */
  predicate SleptOnce(answers: seq<Answer>, q: nat, interval: int, timeout: int)
    requires q < |answers|
  {
    interval >= 0 ==>
      var next := DoneAt(answers, q, interval, timeout) + interval;
      ReadAt(answers, q + 1, interval, timeout) == if timeout > 0 && timeout < next then timeout else next
  }

  lemma SleepIsOne(answers: seq<Answer>, q: nat, interval: int, timeout: int)
    requires q < |answers| && (timeout > 0 ==> DoneAt(answers, q, interval, timeout) <= timeout)
    ensures SleptOnce(answers, q, interval, timeout)
  {
    hide DoneAt, AfterSleep;
    ReadAtStep(answers, q, interval, timeout);
    SleepFacts(DoneAt(answers, q, interval, timeout), interval, timeout);
  }

  /** `polls` counts the reads made, `clock` is the time at return: that of the reads and sleeps before it. All sources
      compared are the first one; a report is the first poll with any event; a timeout is the first quiet poll answered
      at or after the deadline, and no read begins after it; with a positive interval and timeout the loop ends within
      ceil(timeout/interval) + 1 reads. */
  method WatchFleet(answers: seq<Answer>, interval: int, timeout: int, includeCurrent: bool)
    returns (outcome: Outcome, polls: nat, clock: int)
    ensures polls <= |answers| && (outcome.StillWatching? ==> polls == |answers|)
    ensures !outcome.StillWatching? ==>
              polls > 0 && forall q :: 0 <= q < polls - 1 ==> PollReturns(answers, q, includeCurrent, [])
    ensures outcome.StillWatching? ==> forall q :: 0 <= q < polls ==> PollReturns(answers, q, includeCurrent, [])
    ensures outcome.Reported? ==>
              outcome.events != [] && PollReturns(answers, polls - 1, includeCurrent, outcome.events)
    ensures outcome.TimedOut? ==> PollReturns(answers, polls - 1, includeCurrent, []) && 0 < timeout <= clock
    ensures forall q :: 0 <= q < polls && !(q == polls - 1 && (outcome.ListFailed? || outcome.SourceSwitched?)) ==>
              answers[q].Listed? && answers[0].Listed? && answers[q].source == answers[0].source
    ensures outcome.ListFailed? ==> answers[polls - 1].Failed?
    ensures outcome.SourceSwitched? ==>
              && answers[polls - 1].Listed? && answers[0].Listed?
              && answers[polls - 1].source != answers[0].source
    ensures clock == if outcome.StillWatching? then ReadAt(answers, polls, interval, timeout)
                     else DoneAt(answers, polls - 1, interval, timeout)
    ensures timeout > 0 ==> forall q :: 0 <= q < polls - 1 ==> DoneAt(answers, q, interval, timeout) < timeout
    ensures timeout > 0 && outcome.StillWatching? ==>
              forall q :: 0 <= q < polls ==> DoneAt(answers, q, interval, timeout) < timeout
    ensures forall q :: 0 <= q < polls - 1 ==> SleptOnce(answers, q, interval, timeout)
    ensures timeout > 0 ==> forall q :: 0 <= q < polls ==> ReadAt(answers, q, interval, timeout) <= timeout
    ensures timeout > 0 && polls > 0 && answers[polls - 1].Listed? ==> clock <= timeout + answers[polls - 1].took
    ensures interval > 0 && timeout > 0 ==>
              && polls <= CeilDiv(timeout, interval) + 1
              && (outcome.StillWatching? ==> polls <= CeilDiv(timeout, interval))
  {
    hide Polled, RunMemory, After, Coherent, RowsOf, CeilDiv, PollReturns, AfterSleep;
    hide Sorted, RowEvents, GoneEvents, Vanished, ReadAt, DoneAt, SleptOnce;
    ReadAtStart(answers, interval, timeout);
    var watcher := new Watcher(includeCurrent);
    var baseline: Option<Source> := None;
    clock, polls := 0, 0;
    StartMemory(answers);
    while polls < |answers|
      invariant polls <= |answers|
      invariant fresh(watcher) && watcher.includeCurrent == includeCurrent
      invariant Coherent(watcher.View()) && watcher.View() == RunMemory(RowsOf(answers, polls))
      invariant forall q :: 0 <= q < polls ==> PollReturns(answers, q, includeCurrent, [])
      invariant forall q :: 0 <= q < polls ==>
                  answers[q].Listed? && answers[0].Listed? && answers[q].source == answers[0].source
      invariant polls == 0 ==> baseline.None?
      invariant polls > 0 ==> answers[0].Listed? && baseline == Some(answers[0].source)
      invariant clock == ReadAt(answers, polls, interval, timeout)
      invariant timeout > 0 ==> forall q :: 0 <= q < polls ==> DoneAt(answers, q, interval, timeout) < timeout
    {
      TimeFacts(answers, polls, interval, timeout);
      ReadAtStep(answers, polls, interval, timeout);
      var answer := answers[polls];
      polls := polls + 1;
      if answer.Failed? {
        return ListFailed, polls, clock;
      }
      clock := clock + answer.took;
      if baseline.None? {
        baseline := Some(answer.source);
      } else if answer.source != baseline.value {
        return SourceSwitched, polls, clock;
      }
      ghost var memory := watcher.View();
      var events := watcher.Observe(answer.rows);
      ObservedIsPolled(answers, polls - 1, memory, includeCurrent, events);
      RowsSnoc(answers, polls - 1);
      if |events| > 0 {
        return Reported(events), polls, clock;
      }
      assert events == [];
      if timeout > 0 && clock >= timeout {
        return TimedOut, polls, clock;
      }
      clock := AfterSleep(clock, interval, timeout);
    }
    TimeFacts(answers, polls, interval, timeout);
    outcome := StillWatching;
  }

  /** What the clock does while every answer comes before the deadline. */
  lemma {:induction false} TimeFacts(answers: seq<Answer>, n: nat, interval: int, timeout: int)
    requires n <= |answers|
    requires timeout > 0 ==> forall q :: 0 <= q < n ==> DoneAt(answers, q, interval, timeout) < timeout
    ensures forall q :: 0 <= q < n ==> SleptOnce(answers, q, interval, timeout)
    ensures timeout > 0 ==> forall q :: 0 <= q <= n ==> ReadAt(answers, q, interval, timeout) <= timeout
    ensures interval > 0 && timeout > 0 ==>
              var at := ReadAt(answers, n, interval, timeout);
              (at == timeout || at >= Due(n, interval)) && n <= CeilDiv(timeout, interval)
    decreases n
  {
    hide ReadAt, DoneAt, SleptOnce, AfterSleep, Due, CeilDiv;
    if n == 0 {
      ReadAtStart(answers, interval, timeout);
      DueStart(interval);
    } else {
      TimeFacts(answers, n - 1, interval, timeout);
      ReadAtStep(answers, n - 1, interval, timeout);
      SleepIsOne(answers, n - 1, interval, timeout);
      SleepFacts(DoneAt(answers, n - 1, interval, timeout), interval, timeout);
      DueStep(n - 1, interval);
    }
    PollBound(n, interval, timeout);
  }

  lemma ReadAtStart(answers: seq<Answer>, interval: int, timeout: int)
    ensures ReadAt(answers, 0, interval, timeout) == 0
  {
  }

  lemma ReadAtStep(answers: seq<Answer>, n: nat, interval: int, timeout: int)
    requires n < |answers|
    ensures DoneAt(answers, n, interval, timeout)
         == ReadAt(answers, n, interval, timeout) + if answers[n].Listed? then answers[n].took else 0
    ensures ReadAt(answers, n + 1, interval, timeout)
         == AfterSleep(DoneAt(answers, n, interval, timeout), interval, timeout)
  {
    hide AfterSleep;
  }

  lemma StartMemory(answers: seq<Answer>)
    ensures RunMemory(RowsOf(answers, 0)) == Memory(map[], map[], false) && Coherent(RunMemory(RowsOf(answers, 0)))
  {
  }

  lemma ObservedIsPolled(answers: seq<Answer>, i: nat, m: Memory, includeCurrent: bool, events: seq<Event>)
    requires i < |answers| && answers[i].Listed? && answers[0].Listed? && answers[i].source == answers[0].source
    requires m == RunMemory(RowsOf(answers, i)) && Coherent(m) && Sorted(events)
    requires multiset(events) == multiset(RowEvents(m, includeCurrent, answers[i].rows))
                                 + multiset(GoneEvents(m.identity, Vanished(m, answers[i].rows)))
    ensures PollReturns(answers, i, includeCurrent, events)
  {
  }

  /** The time the first `n` full sleeps take. */
  function Due(n: int, interval: int): int {
    n * interval
  }

  lemma DueStart(interval: int)
    ensures Due(0, interval) == 0
  {
  }

  lemma DueStep(n: int, interval: int)
    ensures Due(n + 1, interval) == Due(n, interval) + interval
  {
  }

  lemma PollBound(n: int, interval: int, timeout: int)
    ensures interval > 0 && timeout > 0 && n >= 0 && (n == 0 || Due(n - 1, interval) < timeout) ==>
              n <= CeilDiv(timeout, interval)
  {
    if interval > 0 && timeout > 0 && n > 0 && Due(n - 1, interval) < timeout {
      hide CeilDiv;
      var c := CeilDiv(timeout, interval);
      CeilCovers(timeout, interval);
      if c <= n - 1 {
        DueGrows(c, n - 1, interval);
      }
    }
  }

  lemma CeilCovers(a: nat, b: nat)
    requires b > 0
    ensures a <= Due(CeilDiv(a, b), b) < a + b
  {
    var x := a + b - 1;
    assert x == b * (x / b) + x % b;
  }

  /** The bound is the least number of intervals that cover the timeout. */
  lemma CeilIsLeast(a: nat, b: nat, n: nat)
    requires b > 0
    ensures a <= n * b <==> CeilDiv(a, b) <= n
  {
    var c := CeilDiv(a, b);
    CeilCovers(a, b);
    if c <= n {
      DueGrows(c, n, b);
    } else {
      DueGrows(n, c - 1, b);
      assert Due(c - 1, b) < a;
    }
  }

  lemma {:induction false} DueGrows(m: nat, n: nat, interval: nat)
    requires m <= n
    ensures Due(m, interval) <= Due(n, interval)
    decreases n
  {
    hide Due;
    if m < n {
      DueGrows(m, n - 1, interval);
      DueStep(n - 1, interval);
    }
  }

  /** The snapshot before read `q`. */
  function Before(answers: seq<Answer>, q: nat): Option<seq<Row>>
    requires q <= |answers| && (q > 0 ==> answers[q - 1].Listed?)
  {
    if q == 0 then None else Some(answers[q - 1].rows)
  }

  /** What a report means when keys are distinct: no earlier pair of consecutive snapshots differed, and the report is
      the whole diff of the last pair, in its unique order. */
  lemma ReportIsFirstDiff(answers: seq<Answer>, polls: nat, includeCurrent: bool, events: seq<Event>)
    requires 0 < polls <= |answers|
    requires forall i :: 0 <= i < polls ==> answers[i].Listed? && DistinctKeys(answers[i].rows)
    requires forall q :: 0 <= q < polls - 1 ==> PollReturns(answers, q, includeCurrent, [])
    requires PollReturns(answers, polls - 1, includeCurrent, events)
    ensures forall q :: 0 <= q < polls - 1 ==> Diff(Before(answers, q), answers[q].rows, includeCurrent) == {}
    ensures StrictlySorted(events)
    ensures forall e ::
              e in events <==> e in Diff(Before(answers, polls - 1), answers[polls - 1].rows, includeCurrent)
  {
    hide Diff, StrictlySorted, DistinctKeys, PollReturns, Before;
    forall q | 0 <= q < polls - 1 ensures Diff(Before(answers, q), answers[q].rows, includeCurrent) == {} {
      OnePollIsDiff(answers, q, includeCurrent, []);
    }
    OnePollIsDiff(answers, polls - 1, includeCurrent, events);
  }

  lemma OnePollIsDiff(answers: seq<Answer>, q: nat, includeCurrent: bool, events: seq<Event>)
    requires q < |answers| && PollReturns(answers, q, includeCurrent, events)
    requires forall i :: 0 <= i <= q ==> answers[i].Listed? && DistinctKeys(answers[i].rows)
    ensures StrictlySorted(events)
    ensures forall e :: e in events <==> e in Diff(Before(answers, q), answers[q].rows, includeCurrent)
  {
    hide Polled, Diff, RunMemory, StrictlySorted, DistinctKeys;
    assert Before(answers, q) == LastOf(RowsOf(answers, q));
    RunPollIsDiff(RowsOf(answers, q), answers[q].rows, includeCurrent, events);
  }
}
