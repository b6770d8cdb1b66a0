/** Why a session is no longer working, from one snapshot row (api/sessions_watch_fleet.go, classifyWatchStop). */
module WatchClassify {
  import opened Wrappers

  // Liveness (session/liveness.go). Any other value is one a newer daemon wrote.
  const LIVENESS_UNSET := 0
  const LIVE_RUNNING := 1
  const LIVE_READY := 2
  const LIVE_LOST := 3
  const LIVE_DEAD := 4
  const LIVE_ARCHIVED := 5
  const LIVE_LIMIT_REACHED := 6

  // Operations in flight (session/liveness.go); the other values, known or not, are only ever "in motion" here.
  const OP_NONE := 0
  const OP_CREATING := 1
  const OP_RESPAWNING := 6

  // The legacy status axis (session/status.go). RUNNING is its zero value.
  const STATUS_RUNNING := 0
  const STATUS_READY := 1
  const STATUS_LOADING := 2
  const STATUS_DELETING := 3
  const STATUS_DEAD := 4
  const STATUS_LOST := 5
  const STATUS_ARCHIVED := 6

  /** A pending account swap. `programAgent` is the agent its launch command resolves to, "" when it names none. */
  datatype Swap = Swap(manual: bool, panesStarted: bool, accountAgent: string, programAgent: string)

  /** The fields of a session record the watch path reads. */
  datatype Row = Row(
    id: string, title: string, path: string,
    userKilled: bool, startupUnknown: bool, swap: Option<Swap>,
    liveness: int, inFlightOp: int, status: int, mission: string,
    account: string, currentAgent: string, limitAccount: string, limitAgent: string)

  datatype Reason = Idle | UsageLimited | Lost | Dead | Archived | Killed | Gone | Unknown | Working

  predicate Stopped(r: Reason) {
    r != Working
  }

  /** The durable incoming agent of a swap: committed at the handoff, or resolved from the launch command. */
  function SwapAgent(s: Swap): string {
    if s.accountAgent != "" then s.accountAgent else s.programAgent
  }

  function Classify(d: Row): Reason {
    if d.userKilled then Killed
    else if d.swap.Some? && !d.startupUnknown && (d.liveness == LIVE_RUNNING || d.liveness == LIVE_READY) then Working
    else if d.startupUnknown then Unknown
    else if d.swap.Some? && d.swap.value.manual && d.liveness == LIVE_LIMIT_REACHED && d.swap.value.panesStarted
            && d.limitAccount == d.account && d.limitAgent == d.currentAgent
            && (d.inFlightOp == OP_RESPAWNING || d.inFlightOp == OP_NONE) then UsageLimited
    else if d.swap.Some? && !d.swap.value.manual && d.liveness == LIVE_LIMIT_REACHED && d.inFlightOp == OP_NONE
            && !d.swap.value.panesStarted then Working
    else if d.swap.Some? && d.swap.value.manual && d.liveness == LIVE_LIMIT_REACHED && d.inFlightOp == OP_NONE
            && (|| !d.swap.value.panesStarted
                || d.limitAccount != d.account
                || (d.currentAgent != "" && d.limitAgent != d.currentAgent)
                || (d.currentAgent == "" && SwapAgent(d.swap.value) != "" && d.limitAgent != SwapAgent(d.swap.value)))
    then Working
    else if d.inFlightOp != OP_NONE then Working
    else if d.mission != "" then Working
    else if d.liveness == LIVE_RUNNING then Working
    else if d.liveness == LIVE_READY then Idle
    else if d.liveness == LIVE_LIMIT_REACHED then UsageLimited
    else if d.liveness == LIVE_LOST then Lost
    else if d.liveness == LIVE_DEAD then Dead
    else if d.liveness == LIVE_ARCHIVED then Archived
    else if d.liveness != LIVENESS_UNSET then Unknown
    else if d.status == STATUS_READY then Idle
    else if d.status == STATUS_LOADING || d.status == STATUS_DELETING then Working
    else if d.status == STATUS_LOST || d.status == STATUS_DEAD then Lost
    else if d.status == STATUS_ARCHIVED then Archived
    else Unknown
  }

  /** No operation and no mission in the way of reading the state axes. */
  predicate Settled(d: Row) {
    !d.userKilled && !d.startupUnknown && d.inFlightOp == OP_NONE && d.mission == ""
  }

  /** A row is idle exactly when it is settled: no kill, no startup doubt, no operation of any value, no pending
      mission, and either liveness ready with no pending swap or no liveness axis and legacy status ready. */
  lemma IdleIff(d: Row)
    ensures Classify(d) == Idle <==>
              && Settled(d)
              && ((d.liveness == LIVE_READY && d.swap.None?)
                  || (d.liveness == LIVENESS_UNSET && d.status == STATUS_READY))
  {
  }

  /** Usage-limited is reported exactly when the limit belongs to the identity the session now runs under. */
  lemma UsageLimitedIff(d: Row)
    ensures Classify(d) == UsageLimited <==>
              && !d.userKilled && !d.startupUnknown && d.liveness == LIVE_LIMIT_REACHED
              && match d.swap {
                   case None => d.inFlightOp == OP_NONE && d.mission == ""
                   case Some(s) =>
                     && s.panesStarted
                     && if !s.manual then d.inFlightOp == OP_NONE && d.mission == ""
                        else
                          && d.limitAccount == d.account
                          && (|| (d.limitAgent == d.currentAgent && d.inFlightOp in {OP_NONE, OP_RESPAWNING})
                              || (&& d.currentAgent == "" && d.inFlightOp == OP_NONE && d.mission == ""
                                  && if s.accountAgent != "" then d.limitAgent == s.accountAgent
                                     else s.programAgent == "" || d.limitAgent == s.programAgent))
                 }
  {
  }

  /** A liveness this build has no name for, or none at all and no legacy status that was ever set. */
  predicate NoKnownState(d: Row) {
    || !(LIVENESS_UNSET <= d.liveness <= LIVE_LIMIT_REACHED)
    || (d.liveness == LIVENESS_UNSET && !(STATUS_READY <= d.status <= STATUS_ARCHIVED))
  }

  /** When each of the other reasons is reported; every remaining row is working, and `gone` is never a row's reason. */
  lemma StopReasonIff(d: Row)
    ensures Classify(d) == Killed <==> d.userKilled
    ensures Classify(d) == Lost <==>
              && Settled(d)
              && (d.liveness == LIVE_LOST || (d.liveness == LIVENESS_UNSET && d.status in {STATUS_LOST, STATUS_DEAD}))
    ensures Classify(d) == Dead <==> Settled(d) && d.liveness == LIVE_DEAD
    ensures Classify(d) == Archived <==>
              && Settled(d)
              && (d.liveness == LIVE_ARCHIVED || (d.liveness == LIVENESS_UNSET && d.status == STATUS_ARCHIVED))
    ensures Classify(d) == Unknown <==>
              && !d.userKilled
              && (d.startupUnknown || (Settled(d) && NoKnownState(d)))
    ensures Classify(d) != Gone
  {
  }

  /** The wire numbers: a settled row without a swap by its liveness, and without one by its legacy status. */
  lemma SettledByNumber(d: Row)
    requires !d.userKilled && !d.startupUnknown && d.inFlightOp == 0 && d.mission == "" && d.swap.None?
    ensures 1 <= d.liveness <= 6 ==> Classify(d) == [Working, Idle, Lost, Dead, Archived, UsageLimited][d.liveness - 1]
    ensures d.liveness == 0 && 0 <= d.status <= 6 ==>
              Classify(d) == [Unknown, Idle, Working, Working, Lost, Lost, Archived][d.status]
    ensures d.liveness == 0 && !(0 <= d.status <= 6) ==> Classify(d) == Unknown
  {
  }

  /** Any operation in flight means working, whatever its number, except a respawn (6) of a manual swap whose limit is
      the incoming identity's own. */
  lemma OperationMeansWorking(d: Row)
    requires !d.userKilled && !d.startupUnknown && d.inFlightOp != 0
    ensures Classify(d) == Working ||
            (&& Classify(d) == UsageLimited && d.inFlightOp == 6 && d.liveness == 6
             && d.swap.Some? && d.swap.value.manual && d.swap.value.panesStarted
             && d.limitAccount == d.account && d.limitAgent == d.currentAgent)
  {
  }

  /** A state this build has no name for is never acted on as idle. */
  lemma UnknownLivenessNeverIdle(d: Row)
    requires d.liveness < 0 || d.liveness > 6
    ensures Classify(d) in {Killed, Unknown, Working}
  {
  }

  /** The record read off disk: the projection-only agent and the operation are gone. */
  function DiskProjection(d: Row): Row {
    d.(currentAgent := "", inFlightOp := OP_NONE)
  }

  predicate ManualSwapAtLimit(d: Row) {
    && !d.userKilled && !d.startupUnknown && d.mission == ""
    && d.swap.Some? && d.swap.value.manual && d.liveness == LIVE_LIMIT_REACHED
    && (d.inFlightOp == OP_NONE || d.inFlightOp == OP_RESPAWNING) && d.currentAgent != ""
  }

  /** For a manual swap at its limit, the live row and its disk projection agree exactly when the replacement has not
      started, the limit is another account's, or the live agent test and the durable agent test agree. */
  lemma DiskAgreesIff(d: Row)
    requires ManualSwapAtLimit(d)
    ensures var s := d.swap.value;
            Classify(d.(currentAgent := "", inFlightOp := 0)) == Classify(d) <==>
              || !s.panesStarted || d.limitAccount != d.account
              || (d.limitAgent == d.currentAgent <==>
                  (|| d.limitAgent == "" || (s.accountAgent == "" && s.programAgent == "")
                   || d.limitAgent == if s.accountAgent != "" then s.accountAgent else s.programAgent))
  {
  }

  /** With a nonempty limit agent and the committed agent running, the two projections agree: usage-limited exactly when
      the replacement started and the limit is the incoming identity's. */
  lemma DiskAgrees(d: Row)
    requires ManualSwapAtLimit(d) && d.limitAgent != "" && SwapAgent(d.swap.value) == d.currentAgent
    ensures Classify(DiskProjection(d)) == Classify(d)
    ensures Classify(d) == if d.swap.value.panesStarted && d.limitAccount == d.account && d.limitAgent == d.currentAgent
                           then UsageLimited else Working
  {
  }

  /** Without a durable incoming agent the disk reading can report a limit the live reading knows is stale. */
  lemma DiskCanDisagree() returns (d: Row)
    ensures ManualSwapAtLimit(d) && Classify(d) == Working && Classify(DiskProjection(d)) == UsageLimited
  {
    d := Row("i", "t", "p", false, false, Some(Swap(true, true, "", "")), LIVE_LIMIT_REACHED, OP_NONE, STATUS_RUNNING,
             "", "work", "codex", "work", "claude");
  }
}
