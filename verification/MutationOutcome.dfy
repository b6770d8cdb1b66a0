/** What a client may conclude about a mutation from one HTTP exchange (apiclient/client.go roundTrip,
    apiclient/skew.go, apiclient/outcome.go), when something other than the daemon may have answered. */
module MutationOutcome {
  import opened Wrappers

  const MUTATION_COMMITTED := "mutation_committed"
  const PROJECT_REBOUND := "project_rebound"

  /** The error member of an envelope. `namesUnknownField` says its message matches the strict decoder's rejection. */
  datatype EnvelopeError = EnvelopeError(message: string, code: string, daemonRejected: bool, namesUnknownField: bool)

  /** A response body: not an envelope at all, or an envelope with its error, whether its data decodes into the caller's
      response, and whether that response says the mutation committed before a follow-up failed. */
  datatype Body = NotEnvelope | Envelope(error: Option<EnvelopeError>, dataDecodes: bool, saysCommitted: bool)

  /** What came of one request. */
  datatype Exchange =
    | NotBuilt                             // marshalling or building the request failed
    | NoResponse(gotConn: bool)            // the transport failed; gotConn: a connection had been obtained
    | BodyUnreadable(status: int)
    | Response(status: int, body: Body)

  /** The errors a caller sees, with `Wrapped` for added context. */
  datatype Error =
    | Local
    | Transport(notSent: bool)
    | Unconfirmed
    | Malformed
    | RouteNotServed
    | Committed
    | ProjectRebound
    | VersionSkew
    | Refused
    | ContextDone
    | Wrapped(inner: Error)

  predicate GatewayStatus(status: int) {
    status == 502 || status == 504
  }

  /** routeNotServed404. `legacy` is the unknown-route sentence for the requested path. */
  predicate RouteNotServed404(body: Body, legacy: string, localSocket: bool) {
    || localSocket
    || (&& body.Envelope? && body.error.Some?
        && (|| body.error.value.daemonRejected
            || (body.error.value.code == "" && body.error.value.message == legacy)))
  }

  /** interpretEnvelopeError. */
  function InterpretEnvelopeError(status: int, e: EnvelopeError): Error {
    if e.code == MUTATION_COMMITTED then
      if GatewayStatus(status) then Unconfirmed else Committed
    else if e.code == PROJECT_REBOUND then
      if e.daemonRejected && !GatewayStatus(status) then ProjectRebound else Unconfirmed
    else if e.namesUnknownField then VersionSkew
    else Refused
  }

  /** roundTrip: status before body, error before data, and nothing but a clean 200 is a success. */
  function RoundTrip(x: Exchange, legacy: string, localSocket: bool, wantsData: bool): Option<Error> {
    match x
    case NotBuilt => Some(Local)
    case NoResponse(gotConn) => Some(Transport(!gotConn))
    case BodyUnreadable(_) => Some(Transport(false))
    case Response(status, body) =>
      if status == 404 then
        if RouteNotServed404(body, legacy, localSocket) then Some(RouteNotServed) else Some(Unconfirmed)
      else if body.NotEnvelope? then Some(Malformed)
      else if body.error.Some? then Some(InterpretEnvelopeError(status, body.error.value))
      else if status != 200 then Some(Unconfirmed)
      else if wantsData && !body.dataDecodes then Some(Malformed)
      else if wantsData && body.saysCommitted then Some(Committed)
      else None
  }

  /** The error itself, under any context wrapped around it. Every class below is read off the root, as errors.As does,
      so the context that remoteMutationError (api/sessionsremote.go) adds changes none of them. */
  function Root(e: Error): Error {
    match e
    case Wrapped(inner) => Root(inner)
    case _ => e
  }

  predicate IsMutationCommitted(e: Option<Error>) {
    e.Some? && Root(e.value).Committed?
  }

  predicate IsMutationOutcomeUncertain(e: Option<Error>) {
    if e.None? then false
    else if IsMutationCommitted(e) then true
    else if Root(e.value).Transport? then !Root(e.value).notSent
    else Root(e.value).Unconfirmed? || Root(e.value).Malformed? || Root(e.value).ContextDone?
  }

  /** A caller may treat the mutation as not applied. */
  predicate Definitive(e: Option<Error>) {
    e.Some? && !IsMutationOutcomeUncertain(e)
  }

  // ----- which error says what

  /** When each error is reported, and so, by elimination, `Unconfirmed`: every other failed exchange. */
  lemma ErrorIff(x: Exchange, legacy: string, localSocket: bool, wantsData: bool)
    ensures var r := RoundTrip(x, legacy, localSocket, wantsData);
            // the daemon says it committed, in an error it sent itself or in the data of a success
            && (r == Some(Committed) <==>
                  && x.Response? && x.body.Envelope?
                  && if x.body.error.Some?
                     then x.status !in {404, 502, 504} && x.body.error.value.code == "mutation_committed"
                     else x.status == 200 && wantsData && x.body.dataDecodes && x.body.saysCommitted)
            && (r == Some(ProjectRebound) <==>
                  && x.Response? && x.body.Envelope? && x.body.error.Some? && x.status !in {404, 502, 504}
                  && x.body.error.value.code == "project_rebound" && x.body.error.value.daemonRejected)
            && (r == Some(VersionSkew) <==> PlainError(x) && x.body.error.value.namesUnknownField)
            && (r == Some(Refused) <==> PlainError(x) && !x.body.error.value.namesUnknownField)
            && (r == Some(RouteNotServed) <==>
                  && x.Response? && x.status == 404
                  && (|| localSocket
                      || (&& x.body.Envelope? && x.body.error.Some?
                          && (|| x.body.error.value.daemonRejected
                              || (x.body.error.value.code == "" && x.body.error.value.message == legacy)))))
            && (r == Some(Malformed) <==>
                  && x.Response? && x.status != 404
                  && (|| x.body.NotEnvelope?
                      || (x.status == 200 && x.body.error.None? && wantsData && !x.body.dataDecodes)))
            && (r == Some(Transport(true)) <==> x == NoResponse(false))
            && (r == Some(Transport(false)) <==> x == NoResponse(true) || x.BodyUnreadable?)
            && (r == Some(Local) <==> x.NotBuilt?)
            && (r.Some? ==> !r.value.Wrapped? && !r.value.ContextDone?)
  {
  }

  /** An error envelope, not on a 404, without one of the two outcome codes. */
  predicate PlainError(x: Exchange) {
    && x.Response? && x.status != 404 && x.body.Envelope? && x.body.error.Some?
    && x.body.error.value.code !in {"mutation_committed", "project_rebound"}
  }

  /** Which errors leave the outcome open, under any context. */
  lemma UncertainIff(e: Error)
    ensures IsMutationOutcomeUncertain(Some(e)) <==>
              Root(e) in {Committed, Transport(false), Unconfirmed, Malformed, ContextDone}
    ensures IsMutationCommitted(Some(e)) <==> Root(e) == Committed
    ensures !IsMutationOutcomeUncertain(None) && !IsMutationCommitted(None)
  {
  }

  // ----- who may have answered

  /** A daemon that keeps its contract: a 404 only for a route it does not serve, and an error envelope without the
      committed code only when nothing was committed. Whatever else it may answer is not needed for safety. */
  predicate DaemonContract(status: int, body: Body, committed: bool) {
    && (status == 404 ==> !committed)
    && (body.Envelope? && body.error.Some? && body.error.value.code != MUTATION_COMMITTED ==> !committed)
  }

  /** What an intermediary that forwarded the request may put in place of the answer: anything but an error envelope
      that reads as the daemon's own refusal. On a 404 that is one with the daemon's marker or the legacy unknown-route
      sentence for this path; on any other status, every error envelope except the committed code and a project-rebound
      code that lacks the marker or comes under a gateway status. */
  predicate IntermediaryRule(status: int, body: Body, legacy: string) {
    body.Envelope? && body.error.Some? ==>
      var e := body.error.value;
      if status == 404 then !e.daemonRejected && !(e.code == "" && e.message == legacy)
      else || e.code == MUTATION_COMMITTED
           || (e.code == PROJECT_REBOUND && (!e.daemonRejected || GatewayStatus(status)))
  }

  /** What can have happened: `committed` is the truth on the daemon's side. */
  predicate Possible(x: Exchange, legacy: string, localSocket: bool, committed: bool) {
    match x
    case NotBuilt => !committed
    case NoResponse(gotConn) => !gotConn ==> !committed
    case BodyUnreadable(_) => true
    case Response(status, body) =>
      DaemonContract(status, body, committed) || (!localSocket && IntermediaryRule(status, body, legacy))
  }

  /** Outcome safety: whatever was answered, by the daemon or in its place, an error the client does not class as
      uncertain means the mutation did not commit. */
  lemma DefinitiveMeansNotCommitted(x: Exchange, legacy: string, localSocket: bool, wantsData: bool, committed: bool)
    requires Possible(x, legacy, localSocket, committed)
    ensures Definitive(RoundTrip(x, legacy, localSocket, wantsData)) ==> !committed
  {
  }

  /** The rule on intermediaries is exactly what safety needs: a substituted response misleads a remote client if and
      only if it breaks the rule. */
  lemma RuleIsExact(status: int, body: Body, legacy: string, wantsData: bool)
    ensures Definitive(RoundTrip(Response(status, body), legacy, false, wantsData)) <==>
              !IntermediaryRule(status, body, legacy)
  {
  }

  /** In particular the status is not consulted for an uncoded error: a gateway's replay of one reads as a refusal. */
  lemma UncodedReplayMisleads(message: string) returns (body: Body)
    ensures body.Envelope? && body.error.Some? && body.error.value.message == message && body.error.value.code == ""
    ensures forall legacy, wantsData :: Definitive(RoundTrip(Response(502, body), legacy, false, wantsData))
  {
    body := Envelope(Some(EnvelopeError(message, "", false, false)), true, false);
  }

  /** Only a 200 with an error-free, decodable envelope that does not say otherwise is reported as success. */
  lemma SuccessIff(x: Exchange, legacy: string, localSocket: bool, wantsData: bool)
    ensures RoundTrip(x, legacy, localSocket, wantsData).None? <==>
              && x.Response? && x.status == 200 && x.body.Envelope? && x.body.error.None?
              && (wantsData ==> x.body.dataDecodes && !x.body.saysCommitted)
  {
  }
}
