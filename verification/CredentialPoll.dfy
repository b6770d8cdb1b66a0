/** The credential-bound caller lookup and its users (api/sessions_identity.go, pollCredentialBoundCaller and
    resolveSelfSession; api/sessionsremote.go). The daemon's answers are an arbitrary, untrusted sequence. */
module CredentialPoll {
  import opened Wrappers
  import opened WatchClassify

  const ATTEMPTS: nat := 10   // selfResolveAttempts

  /** One answer of the lookup. `Race` is ErrCallerRowNotRegistered, `CallerGone` is ErrCallerSessionGone. */
  datatype Answer =
    | Bound(row: Row)
    | NoCaller
    | CallerGone
    | Race
    | OtherError(text: string)

  /** An answer together with whether the deadline has passed once it is in. */
  datatype Reply = Reply(answer: Answer, expired: bool)

  /** `boundCaller` marks an error wrapped in errBoundCaller. */
  datatype PollResult =
    | Found(row: Row)
    | NoBoundCaller
    | PollError(boundCaller: bool, cause: Option<Answer>)

  /** An answer the poll waits through: the row is missing or not committed. */
  predicate Waits(a: Answer) {
    a.Race? || (a.Bound? && a.row.inFlightOp == OP_CREATING)
  }

  /** pollCredentialBoundCaller, with the number of lookups it made. */
  method PollCredentialBoundCaller(replies: nat -> Reply) returns (result: PollResult, calls: nat)
    ensures IsPoll(replies, result, calls)
  {
    var sawBound, attempt := false, 0;
    while true
      invariant 0 <= attempt < ATTEMPTS
      invariant forall i :: 0 <= i < attempt ==> Waits(replies(i).answer) && !replies(i).expired
      invariant sawBound == (attempt > 0)
      decreases ATTEMPTS - attempt
    {
      var reply := replies(attempt);
      calls := attempt + 1;
      match reply.answer {
        case Bound(row) =>
          if row.inFlightOp != OP_CREATING {
            return Found(row), calls;
          }
          sawBound := true;
        case NoCaller =>
          if sawBound {
            return PollError(true, Some(NoCaller)), calls;
          }
          return NoBoundCaller, calls;
        case CallerGone =>
          return PollError(true, Some(CallerGone)), calls;
        case Race =>
          sawBound := true;
        case OtherError(_) =>
          if sawBound {
            return PollError(true, Some(reply.answer)), calls;
          }
          return PollError(false, Some(reply.answer)), calls;
      }
      if attempt == ATTEMPTS - 1 || reply.expired {
        return PollError(true, Some(reply.answer)), calls;
      }
      attempt := attempt + 1;
    }
  }

  /** What the last answer comes to, given whether an earlier one was waited through. */
  function Verdict(last: Answer, waited: bool): PollResult {
    match last
    case Bound(row) => if row.inFlightOp != OP_CREATING then Found(row) else PollError(true, Some(last))
    case NoCaller => if waited then PollError(true, Some(last)) else NoBoundCaller
    case CallerGone => PollError(true, Some(last))
    case Race => PollError(true, Some(last))
    case OtherError(_) => PollError(waited, Some(last))
  }

  /** A poll of at most ATTEMPTS lookups that waited through every answer but the last before the deadline, and stopped
      on a deciding answer or because the budget or the deadline was spent. */
  predicate IsPoll(replies: nat -> Reply, result: PollResult, calls: nat) {
    && 1 <= calls <= ATTEMPTS
    && (forall i :: 0 <= i < calls - 1 ==> Waits(replies(i).answer) && !replies(i).expired)
    && (Waits(replies(calls - 1).answer) ==> calls == ATTEMPTS || replies(calls - 1).expired)
    && result == Verdict(replies(calls - 1).answer, calls > 1)
  }

  /** What a poll is, answer by answer: at most ten lookups; every one before the last met a missing row or a row still
      being created, before the deadline; the last is such an answer only when the tenth or past the deadline; and what
      the last one was decides the result. */
  lemma PollIff(replies: nat -> Reply, result: PollResult, calls: nat)
    ensures IsPoll(replies, result, calls) <==>
              && 1 <= calls <= 10
              && (forall i :: 0 <= i < calls - 1 ==>
                    && !replies(i).expired
                    && match replies(i).answer {
                         case Race => true
                         case Bound(row) => row.inFlightOp == 1
                         case _ => false
                       })
              && var last := replies(calls - 1);
                 var spent := calls == 10 || last.expired;
                 match last.answer {
                   case Bound(row) =>
                     if row.inFlightOp != 1 then result == Found(row)
                     else spent && result == PollError(true, Some(last.answer))
                   case Race => spent && result == PollError(true, Some(Race))
                   case NoCaller => result == if calls == 1 then NoBoundCaller else PollError(true, Some(NoCaller))
                   case CallerGone => result == PollError(true, Some(CallerGone))
                   case OtherError(_) => result == PollError(calls > 1, Some(last.answer))
                 }
  {
  }

  /** Fail-closed: once any answer has said the credential is bound, the poll yields a committed row that the last
      answer carried, or an error that says a bound caller was seen; never "no bound caller" or a plain error. */
  lemma BoundAnswerFailsClosed(replies: nat -> Reply, result: PollResult, calls: nat, i: nat)
    requires IsPoll(replies, result, calls) && i < calls
    requires replies(i).answer.Bound? || replies(i).answer.CallerGone? || replies(i).answer.Race?
    ensures if result.Found?
            then result.row.inFlightOp != OP_CREATING && replies(calls - 1).answer == Bound(result.row)
            else result.PollError? && result.boundCaller
  {
  }

  /** A row is handed out only past creation, and it is the row the last answer carried. */
  lemma FoundRowIsCommitted(replies: nat -> Reply, result: PollResult, calls: nat)
    requires IsPoll(replies, result, calls) && result.Found?
    ensures result.row.inFlightOp != OP_CREATING && replies(calls - 1).answer == Bound(result.row)
  {
  }

  /** "No bound caller" and an unmarked error are verdicts on the first answer only, and no answer said bound. */
  lemma UnboundOnlyFirst(replies: nat -> Reply, result: PollResult, calls: nat)
    requires IsPoll(replies, result, calls) && (result.NoBoundCaller? || (result.PollError? && !result.boundCaller))
    ensures calls == 1 && if result.NoBoundCaller? then replies(0).answer.NoCaller? else replies(0).answer.OtherError?
  {
  }

  /** The contract leaves no choice: the answers determine the result and the number of lookups. */
  lemma PollDetermined(replies: nat -> Reply, result: PollResult, calls: nat, result': PollResult, calls': nat)
    requires IsPoll(replies, result, calls) && IsPoll(replies, result', calls')
    ensures result == result' && calls == calls'
  {
  }

  // ----- self resolution

  /** One answer of the tmux-name lookup. */
  datatype TmuxAnswer = TmuxFound(row: Row) | TmuxNotFound | TmuxError

  datatype SelfResult = Self(row: Row) | SelfPollError(error: PollResult) | NoTmuxName | ByTmux(answer: TmuxAnswer)

  /** resolveSelfSession. `tmuxName` is None when this process has no tmux name; `afName` says the name is one only af
      gives. `tmuxCalls` counts lookups by that name. */
  method ResolveSelfSession(hasToken: bool, remote: bool, replies: nat -> Reply,
                            tmuxName: Option<string>, afName: bool, lookups: nat -> TmuxAnswer)
    returns (result: SelfResult, calls: nat, tmuxCalls: nat)
    ensures calls <= ATTEMPTS && tmuxCalls <= ATTEMPTS && (calls > 0 <==> hasToken)
    // a credential proven bound never reaches the tmux path
    ensures forall i :: 0 <= i < calls && !replies(i).answer.NoCaller? && !replies(i).answer.OtherError? ==>
              && tmuxCalls == 0
              && (result.Self? || (result.SelfPollError? && result.error.PollError? && result.error.boundCaller))
    // a remote target falls through only on a clean "no bound caller"
    ensures hasToken && remote && tmuxCalls > 0 ==> calls == 1 && replies(0).answer.NoCaller?
    // a poll error or a row is the verdict of that poll
    ensures result.SelfPollError? ==> hasToken && IsPoll(replies, result.error, calls)
    ensures result.SelfPollError? ==> result.error.PollError? && (result.error.boundCaller || remote)
    ensures result.Self? ==> hasToken && IsPoll(replies, Found(result.row), calls)
    ensures result.Self? ==>
              calls > 0 && result.row.inFlightOp != OP_CREATING && replies(calls - 1).answer == Bound(result.row)
    // no token, a credential bound to no session and a failed local lookup do reach the tmux path
    ensures (!hasToken || replies(0).answer.NoCaller?) && tmuxName.Some? ==> tmuxCalls > 0
    ensures hasToken && !remote && replies(0).answer.OtherError? && tmuxName.Some? ==> tmuxCalls > 0
    ensures result.ByTmux? ==> tmuxCalls > 0 && tmuxName.Some?
    ensures tmuxCalls == 0 && tmuxName.Some? ==> result.Self? || result.SelfPollError?
    // the tmux path retries a miss, for an af name only, until an answer or the end of the budget
    ensures tmuxCalls > 0 ==> result == ByTmux(lookups(tmuxCalls - 1))
    ensures forall i :: 0 <= i < tmuxCalls - 1 ==> lookups(i).TmuxNotFound?
    ensures tmuxCalls > 1 ==> afName
    ensures result == ByTmux(TmuxNotFound) && afName ==> tmuxCalls == ATTEMPTS
    ensures result.NoTmuxName? ==> tmuxName.None?
  {
    calls, tmuxCalls := 0, 0;
    if hasToken {
      var poll;
      poll, calls := PollCredentialBoundCaller(replies);
      ghost var n := calls;
      forall i | 0 <= i < n && !replies(i).answer.NoCaller? && !replies(i).answer.OtherError?
        ensures poll.Found? || (poll.PollError? && poll.boundCaller)
      {
        BoundAnswerFailsClosed(replies, poll, n, i);
      }
      if poll.Found? {
        FoundRowIsCommitted(replies, poll, calls);
        return Self(poll.row), calls, 0;
      }
      if poll.PollError? && poll.boundCaller {
        return SelfPollError(poll), calls, 0;
      }
      if poll.PollError? && remote {
        return SelfPollError(poll), calls, 0;
      }
      UnboundOnlyFirst(replies, poll, calls);
    }
    if tmuxName.None? {
      return NoTmuxName, calls, 0;
    }
    var attempt := 0;
    while true
      invariant 0 <= attempt < ATTEMPTS
      invariant forall i :: 0 <= i < attempt ==> lookups(i).TmuxNotFound?
      invariant attempt > 0 ==> afName
      decreases ATTEMPTS - attempt
    {
      var answer := lookups(attempt);
      if !answer.TmuxNotFound? || !afName || attempt == ATTEMPTS - 1 {
        return ByTmux(answer), calls, attempt + 1;
      }
      attempt := attempt + 1;
    }
  }

  /** resolveCredentialSelf: `--self` against a remote daemon has no tmux fallback at all. */
  method ResolveCredentialSelf(replies: nat -> Reply)
    returns (row: Option<Row>, error: Option<PollResult>, calls: nat)
    ensures 1 <= calls <= ATTEMPTS
    ensures row.Some? ==>
              error.None? && row.value.inFlightOp != OP_CREATING && replies(calls - 1).answer == Bound(row.value)
    ensures row.Some? ==> IsPoll(replies, Found(row.value), calls)
    ensures row.None? ==> error.Some? && !error.value.Found? && IsPoll(replies, error.value, calls)
    ensures replies(0).answer.NoCaller? <==> error == Some(NoBoundCaller)
  {
    var poll;
    poll, calls := PollCredentialBoundCaller(replies);
    if poll.NoBoundCaller? {
      UnboundOnlyFirst(replies, poll, calls);
      return None, Some(NoBoundCaller), calls;
    }
    if poll.PollError? {
      return None, Some(poll), calls;
    }
    FoundRowIsCommitted(replies, poll, calls);
    return Some(poll.row), None, calls;
  }
}
