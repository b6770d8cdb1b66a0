# Verified models of agent-factory's token redaction, fleet watch and attach logic

agent-factory runs coding agents in terminal sessions behind a daemon. This project models the parts of it that decide
something from bytes, state or untrusted answers, and proves what those parts are for:

- **Token redaction** (`Bytes`, `EscapeGrammar`, `EscapeTable`, `PercentDecoder`, `KeyMatch`, `RawScan`, `TextRedaction`,
  `QueryRedaction`). Nested percent escapes (section 2.1 of RFC 3986, extended to escapes that spell escapes) have a grammar of
  derivation trees; the right-to-left table, the reducing stack of the decoder and the grammar are proved to agree. On top stands
  the rewrite of every value after `access_token=` (section 2.3 of RFC 6750): no key the output shows, in any spelling, has
  another value than `REDACTED`; nothing else changes; the replaced values cannot influence the output; a second pass changes
  nothing; and the work the scanner counts is linear.
- **The fleet watcher** (`WatchClassify`, `FleetWatcher`, `FleetDiff`, `FleetLoop`). Rows are classified; an edge-triggered
  watcher is proved to report exactly the diff of two consecutive snapshots in a unique order; the polling loop returns the first
  such diff and keeps its deadline.
- **The terminal hand-back** (`TerminalHandback`). Any interleaving of attaches, signal watchers and outside callers, as atomic
  steps over an unbounded sequence of attaches.
- **Fail-closed protocols** (`CredentialPoll`, `MutationOutcome`, `QuitConfirmation`). What a client may conclude from answers it
  does not control, and when unsaved edits may go.
- **Detach-key recognition** (`DetachKey`, `CsiRoundTrip`). CSI parameters (section 5.4 of ECMA-48), modifier bits, and the walk
  back over the reports of one key tap.

Code that loops or updates state is a method or a class proved against a specification function; the properties are then proved of
that function. Byte strings are `seq<byte>`, session fields are Dafny strings, and the daemon, the clock and the terminal are inputs.

Where the code does less than its comments or names suggest, the exact condition is proved, with a concrete input:

- `DiskAgreesIff` and `DiskCanDisagree`: a manual swap at its limit can read differently live and from disk when no durable
  incoming agent is recorded.
- `TwoBindingsIff` and `AlternateKeyMatchesTwo`: one key report matches two detach bindings exactly if it is a kitty report whose
  alternate-key slots name both, and such reports exist.
- `RuleIsExact` and `UncodedReplayMisleads`: the comments on gateway statuses promise more than the code does, since an error
  envelope with no code, or any code but the committed and the rebound one, is taken as a refusal under any status but 404.

Two results are bounds on internal functions, not failures:

- `IdempotentIff` with `MarkerByteTerminatorGrows`: the raw scan is idempotent unless a terminator is a byte of `REDACTED`, and no
  caller passes one (`CallersIdempotent`).
- `BeginSafeIff` with `OverlapLosesOwner` and `OverlapLeavesRaw`: the terminal hand-back is a protocol for one attach in flight at a
  time. Beginning an attach is safe if and only if every earlier one has given the terminal up. Its one caller,
  apiclient/attach.go line 98, serves a full-screen attach.

## Model

| member | source | states |
|---|---|---|
| Bytes.TextConstants | agentproto/auth_uri_inneedle.go:16-38 | the key is "access_token=", the marker "REDACTED", and the named bytes are their characters |
| Bytes.HexValueIff | agentproto/auth_uri_inneedle.go:153-164 | the digits of "0123456789ABCDEF" and "0123456789abcdef" have their place as value, and no other byte has one |
| Bytes.FoldIff | agentproto/auth_uri_inneedle.go:144-151 | folding identifies a byte with its upper-case letter and with nothing else |
| EscapeGrammar.ChainComplete | agentproto/auth_uri_inneedle.go:76-140 | every well-formed nested escape is read back whole, with its byte, whatever follows it: the grammar is prefix-free |
| EscapeGrammar.ChainSound | agentproto/auth_uri_inneedle.go:76-140 | whatever the reader accepts has a derivation tree that spells exactly the consumed bytes and decodes to the value read |
| EscapeGrammar.ChainUnambiguous | agentproto/auth_uri_inneedle.go:84-95 | two derivations that spell a prefix of the same bytes are the same tree |
| EscapeGrammar.ChainLocal | agentproto/auth_uri_inneedle.go:84-95 | a resolved escape depends on its own bytes only |
| EscapeGrammar.ChainInterior | agentproto/auth_uri_inneedle.go:84-95 | every position inside a resolved escape is a hex digit, literal or itself escaped, that ends inside it |
| EscapeTable.TableMatchesGrammar | agentproto/auth_uri_inneedle.go:76-140 | a table entry is set exactly when a derivation starts there, and then holds its end and byte |
| EscapeTable.TableLaminar | agentproto/auth_uri_inneedle.go:84-140 | resolved escapes are at least three bytes, in bounds, never decode to '%', and nest: a '%' inside one is resolved to a hex digit and ends no later |
| EscapeTable.OrdinaryEscapeResolves | agentproto/auth_uri_inneedle.go:76-140 | every byte but '%', written as '%' or "%25" and its two hex digits in either case, resolves to that byte, whatever follows |
| EscapeTable.DigitPays | agentproto/auth_uri_inneedle.go:101-116 | a digit's bytes pay for every counted step spent inside it, with one byte to spare |
| EscapeTable.ChainPays | agentproto/auth_uri_inneedle.go:84-137 | a resolved chain pays for its own loop; an unresolved one only takes bytes no other loop is charged to |
| EscapeTable.StepsLinear | agentproto/auth_uri_inneedle.go:90-140 | resolving all escapes of any input takes at most one counted step per byte |
| EscapeTable.StepsCountPercents | agentproto/auth_uri_inneedle.go:96-140 | and at least one for every '%' |
| EscapeTable.HexDigitAt | agentproto/auth_uri_inneedle.go:101-116 | one digit read through the filled part of the table is the grammar's digit |
| EscapeTable.ResolveChainAt | agentproto/auth_uri_inneedle.go:117-137 | the inner loop computes the grammar's entry for its '%' and counts exactly that chain's steps |
| EscapeTable.ResolvePercentEscapes | agentproto/auth_uri_inneedle.go:96-140 | the right-to-left loop fills the grammar's table at every position, returns null exactly when there is no '%', and takes at most one step per byte |
| PercentDecoder.PercentDecode | internal/redactx/percent.go:18-61 | the reducing stack computes the decoded view, and flags malformed input exactly when a '%' lacks two hex digits |
| PercentDecoder.TableIsStack | agentproto/auth_uri_inneedle.go:84-89 | an escape resolves in the table exactly when a stack started at its '%' collapses to that one byte at that end |
| PercentDecoder.DecodeView | internal/redactx/percent.go:18-61 | the decoded entries tile the raw bytes, hold no further escape, and each is a literal byte, a resolved escape or an open '%' of the grammar |
| PercentDecoder.DecodeIdempotent | internal/redactx/percent.go:18-61 | decoding a decoded view again changes nothing |
| PercentDecoder.PlainDecodes | internal/redactx/percent.go:18-61 | bytes without '%' decode to themselves, but for '+' to a space where asked |
| PercentDecoder.MalformedIff | internal/redactx/percent.go:18-66 | a '%' is malformed exactly when two hex digits do not follow it |
| PercentDecoder.FeedEscape | internal/redactx/percent.go:18-61 | pushing a whole resolved escape onto any stack has the effect of pushing its byte |
| PercentDecoder.FeedShielded | internal/redactx/percent.go:18-61 | bytes below a non-digit, non-'%' top are never touched by what is pushed later |
| KeyMatch.ChainBarrier | agentproto/auth_uri_inneedle.go:76-140 | no escape that starts before a spelled '=' reaches across it or depends on what follows it |
| KeyMatch.MatchBarrier | agentproto/auth_uri_inneedle.go:57-74 | a key that starts no later than a spelled '=' is decided by the bytes up to that '=' |
| KeyMatch.KeyInterior | agentproto/auth_uri_inneedle.go:57-74 | a match begun anywhere inside a key that REDACTED follows can only end where that key ends |
| KeyMatch.NoKeyInRedacted | agentproto/auth_uri_inneedle.go:16-74 | no key starts inside REDACTED, whatever follows |
| KeyMatch.SpellingMatches | agentproto/auth_uri_inneedle.go:50-74 | every spelling of a key, each character in either case or as any nested escape, is matched whole |
| KeyMatch.MatchSpells | agentproto/auth_uri_inneedle.go:50-74 | whatever is matched is such a spelling |
| RawScan.MatchNeedleRaw | agentproto/auth_uri_inneedle.go:57-74 | matches exactly when the bytes at the cursor spell the key through the grammar, gives the end of that spelling, and counts exactly the key characters looked at, at most all of them |
| RawScan.KeyAtIff | agentproto/auth_uri_inneedle.go:50-74 | a key is taken at a position if and only if the bytes there spell "access_token=" |
| RawScan.MatchStepsExact | agentproto/auth_uri_inneedle.go:57-74 | a match takes one step per key character, an attempt at least one |
| RawScan.ScanRawAccessTokenValues | agentproto/auth_uri_inneedle.go:16-48 | the loop computes the specified cut and rewrite, reports found exactly when some position spells a key, returns the input otherwise, and counts exactly the steps of resolving, matching and passing values |
| RawScan.ScanIsLinear | agentproto/auth_uri_inneedle.go:16-48 | those steps are at most 14 per byte for every input and terminator set |
| RawScan.ScanStepsExact | agentproto/auth_uri_inneedle.go:16-48 | and no fewer than one for every byte outside keys and values, one for every value byte and a whole key length for every key |
| RawScan.EscapedEqualsRedacted | agentproto/auth_uri_inneedle.go:16-74 | "access_token%3D" followed by anything becomes "access_token%3DREDACTED" |
| RawScan.SplitProper | agentproto/auth_uri_inneedle.go:16-48 | frugality: the parts of the cut join back to the input, each kept part ends at the first key, each value is free of terminators and ends at one or at the end |
| RawScan.SplitUnique | agentproto/auth_uri_inneedle.go:16-48 | there is only one such cut |
| RawScan.KeyStable | agentproto/auth_uri_inneedle.go:16-48 | locality: replacing what follows a first key changes neither that key nor the absence of earlier ones |
| RawScan.ValuesDoNotMatter | agentproto/auth_uri_inneedle.go:16-48 | inputs that differ only in their terminator-free values are cut at the same keys |
| RawScan.OutputSealed | agentproto/auth_uri_inneedle.go:16-74 | completeness, for every terminator set: any key read at any position of the output, in any mix of spellings, is followed by REDACTED and then a terminator or the end |
| RawScan.IdempotentIff | agentproto/auth_uri_redaction.go:118-151 | a second scan changes nothing if and only if the input has no key or no terminator is a byte of REDACTED |
| RawScan.MarkerByteTerminatorGrows | agentproto/auth_uri_inneedle.go:16-48 | with 'R' as a terminator the scan of "access_token=" grows at each pass |
| RawScan.CallersIdempotent | agentproto/auth_uri_redaction.go:118-151 | for the sets the callers pass ("/;?#", "]", ":" and none) the scan is idempotent on every input |
| RawScan.TerminatorTexts | agentproto/auth.go:96-298 | the terminator sets are "/;?#", "]", ":" and the empty one |
| TextRedaction.IndexFoldASCII | agentproto/auth.go:385-403 | the first case-insensitive occurrence, or -1 exactly when there is none |
| TextRedaction.OccurrenceIff | agentproto/auth.go:385-417 | an occurrence is "access_token=" with each letter in either case, and a value ends at white space, '#' or a quote |
| TextRedaction.ValueEnd | agentproto/auth_uri_redaction.go:167-184 | the value runs to the first value-end byte or to the end |
| TextRedaction.AccessTokenTextValueSpans | agentproto/auth_uri_redaction.go:167-184 | the spans are ordered, disjoint and exactly the values of the unique cut |
| TextRedaction.ReplaceAccessTokenTextSpans | agentproto/auth_uri_redaction.go:186-197 | ordered spans are replaced by REDACTED and every other byte is kept in order |
| TextRedaction.SpansOfCut | agentproto/auth_uri_redaction.go:167-197 | replacing the spans of a cut gives the cut's source with its values redacted |
| TextRedaction.RedactAccessTokenText | agentproto/auth.go:354-360 | the two passes together are the rewrite of the cut |
| TextRedaction.TextRedactionSafe | agentproto/auth.go:354-417 | every case-insensitive key of the output, also one across a splice, is followed by REDACTED and then a value-end byte or the end; a second pass changes nothing |
| QueryRedaction.FoldsToParamAscii | agentproto/auth_uri_redaction.go:40-51 | on ASCII text the parameter test is case-insensitive equality with access_token |
| QueryRedaction.FoldsToParamIff | agentproto/auth_uri_redaction.go:40-51 | the parameter test holds of exactly the spellings of "access_token" in either case, with U+017F for s and U+212A for k |
| QueryRedaction.ParamFieldMarked | agentproto/auth_uri_redaction.go:40-51 | an output field has the parameter as its key exactly when the input field had, and then reads key, '=', REDACTED |
| QueryRedaction.SeparatorIff | agentproto/auth_uri_redaction.go:19-38 | fields are separated by '&' and ';' |
| QueryRedaction.EqualsCheckpoint | agentproto/auth_uri_redaction.go:86-105 | once a spelled '=' is decoded, the view up to it is fixed |
| QueryRedaction.ViewCheckpoint | agentproto/auth_uri_redaction.go:107-116 | cutting the raw bytes at the projected boundary after a decoded '=' cuts the decoded view right after that '=' |
| QueryRedaction.RedactPercentEncodedText | agentproto/auth_uri_redaction.go:91-105 | keeps the raw bytes up to the boundary after the first decoded key and replaces the rest; found exactly when the decoded view has a key |
| QueryRedaction.RedactAccessTokenQueryPair | agentproto/auth_uri_redaction.go:40-84 | computes the pair rewrite, and reports a finding exactly when the key decodes to the parameter, the view has a key, or the decoded pass leaves a raw key |
| QueryRedaction.PairSealed | agentproto/auth_uri_redaction.go:40-84 | for every pair: after any key a raw reader or a full decoder finds in the output comes REDACTED and nothing else |
| QueryRedaction.PairCut | agentproto/auth_uri_redaction.go:40-84 | frugality, exactly: a pair with another key is kept up to the first place at which a raw or a decoding reader has seen a key, and is kept whole, with nothing found, if there is none |
| QueryRedaction.PairValuesDoNotMatter | agentproto/auth_uri_redaction.go:40-84 | any pair that agrees with it up to the cut has the same rewrite: what is replaced cannot influence the output |
| QueryRedaction.PairIdempotent | agentproto/auth_uri_redaction.go:40-84 | rewriting a rewritten pair changes nothing |
| QueryRedaction.RedactAccessTokenRawQuery | agentproto/auth_uri_redaction.go:19-38 | the loop rewrites field by field and reports found exactly when some field has a finding |
| QueryRedaction.QuerySafe | agentproto/auth_uri_redaction.go:19-84 | the output splits into the same fields and separators, field i the rewrite of field i; every field is sealed under both readings; idempotent; unchanged when nothing was found |
| WatchClassify.IdleIff | api/sessions_watch_fleet.go:102-464 | a row is idle if and only if it is settled and either ready without a pending swap, or without liveness and of legacy status ready |
| WatchClassify.UsageLimitedIff | api/sessions_watch_fleet.go:245-411 | usage-limited if and only if the limit belongs to the identity the session runs under, for rows without a swap, with an automatic one and with a manual one |
| WatchClassify.StopReasonIff | api/sessions_watch_fleet.go:102-464 | when killed, lost, dead, archived and unknown are reported, both directions; no row is ever gone |
| WatchClassify.SettledByNumber | api/sessions_watch_fleet.go:404-464 | the reason of a settled row for each wire number of liveness and of legacy status |
| WatchClassify.OperationMeansWorking | api/sessions_watch_fleet.go:375-403 | a row with any operation in flight is working, but for a respawn of a manual swap at its own limit |
| WatchClassify.UnknownLivenessNeverIdle | api/sessions_watch_fleet.go:412-464 | a liveness value without a name is killed, unknown or working |
| WatchClassify.DiskAgrees | api/sessions_watch_fleet.go:375-411 | a manual swap at its limit with its committed agent running reads the same live and from disk: usage-limited exactly when the replacement started and the limit is the incoming identity's |
| WatchClassify.DiskAgreesIff | api/sessions_watch_fleet.go:375-411 | for every manual swap at its limit, exactly when the live and the disk reading agree |
| WatchClassify.DiskCanDisagree | api/sessions_watch_fleet.go:375-411 | without a durable incoming agent the disk reading reports a limit the live one knows is stale |
| FleetWatcher.KeyOfIff | api/sessions_watch_fleet.go:474-481 | two records share a key exactly when they share an id, or have none and share path and title (paths without NUL) |
| FleetWatcher.RowKeyIff | api/sessions_watch_fleet.go:474-481 | two rows are one session exactly when they share an id or, without one, path and title |
| FleetWatcher.Watcher.constructor | api/sessions_watch_fleet.go:505-511 | a new watcher knows no key and is not primed |
| FleetWatcher.Watcher.ObserveRows | api/sessions_watch_fleet.go:518-562 | merges the phases and identities of the snapshot, and emits the reported rows in order |
| FleetWatcher.Watcher.ForgetVanished | api/sessions_watch_fleet.go:564-580 | whatever order the map is visited in, drops exactly the absent keys and emits one gone event for each |
| FleetWatcher.Watcher.Observe | api/sessions_watch_fleet.go:518-598 | the new memory is a function of the old and the snapshot; the events are those of rows and vanished keys, sorted |
| FleetWatcher.SortEvents | api/sessions_watch_fleet.go:582-597 | a sorted permutation by title, id and path |
| FleetWatcher.EventLessIff | api/sessions_watch_fleet.go:588-596 | the order is ascending by title, then id, then path |
| FleetWatcher.StringLessIff | api/sessions_watch_fleet.go:588-596 | strings are ordered at their first difference, a prefix first |
| FleetWatcher.StrictlySortedUnique | api/sessions_watch_fleet.go:582-597 | strictly sorted lists of the same events are the same list |
| FleetDiff.PollIsDiff | api/sessions_watch_fleet.go:518-598 | with distinct keys, a poll moves to the memory of the new snapshot and returns exactly the diff of the two snapshots, strictly ordered |
| FleetDiff.DiffIff | api/sessions_watch_fleet.go:518-598 | an event is in a diff if and only if it carries a current row that is not working, with its own reason, which no earlier row of its key had, or names an earlier row whose key is gone; at the baseline, a row neither working nor archived, if asked for |
| FleetDiff.RunForgets | api/sessions_watch_fleet.go:489-598 | after every run, the memory is that of the last snapshot alone |
| FleetDiff.RunPollIsDiff | api/sessions_watch_fleet.go:489-598 | the n-th poll of every run reports exactly the diff of snapshots n-1 and n: a stop event per newly stopped reason, one gone event per disappearance |
| FleetDiff.OrderIndependent | api/sessions_watch_fleet.go:582-598 | the event list depends neither on map order nor on row order in either snapshot |
| FleetDiff.QuietPolls | api/sessions_watch_fleet.go:518-562 | a repeated snapshot, in any row order, has no events; neither has a baseline nobody asked for |
| FleetLoop.WatchFleet | api/sessions_watch_fleet.go:653-701 | only first-source snapshots are compared; every earlier poll was quiet and answered before the deadline; one interval, or what is left to the deadline, lies between an answer and the next read; the time of return is that of the reads and sleeps made, and a timeout means it is at or past the deadline; at most ceil(timeout/interval)+1 reads |
| FleetLoop.SleepFacts | api/sessions_watch_fleet.go:688-699 | a sleep is exactly one interval, or ends at the deadline when that comes first |
| FleetLoop.TimeFacts | api/sessions_watch_fleet.go:653-701 | while answers come before the deadline, consecutive reads are one such sleep apart, none begins late, and there are at most ceil(timeout/interval) of them |
| FleetLoop.CeilIsLeast | api/sessions_watch_fleet.go:653-701 | the bound is the least number of intervals that cover the timeout |
| FleetLoop.ReportIsFirstDiff | api/sessions_watch_fleet.go:653-701 | with distinct keys a report is the whole, strictly ordered diff of the first pair of consecutive snapshots that differ |
| TerminalHandback.StepKeepsInv | apiclient/attach_terminal.go:76-283 | every atomic step of every actor keeps the invariant tying flags, lock holder, owner pointer and terminal mode |
| TerminalHandback.RunsAreSafe | apiclient/attach_terminal.go:76-283 | over every interleaving of any number of successive attaches: a raw terminal has its attach published as owner, the restored flag tells the mode when the lock is free, and once all are released the terminal is cooked |
| TerminalHandback.BeginSafeIff | apiclient/attach_terminal.go:76-138 | whatever follows a begin is safe if and only if every earlier attach was done |
| TerminalHandback.OverlapLosesOwner | apiclient/attach_terminal.go:123-138 | from every state with an attach still at it, a second begin that fails leads to a raw terminal without an owner |
| TerminalHandback.OverlapLeavesRaw | apiclient/attach_terminal.go:123-283 | two overlapping attaches, nothing failing and both released, leave the terminal raw |
| TerminalHandback.ReleasedAttachIsInert | apiclient/attach_terminal.go:239-283 | in any reachable state a released attach changes neither the terminal nor a newer owner |
| TerminalHandback.RestoreEndsRaw | apiclient/attach_terminal.go:222-237 | in any reachable state the termios is put back only while the terminal is raw |
| TerminalHandback.OwnerCanRestore | apiclient/attach_terminal.go:76-93 | from any state of the invariant with a raw terminal, the owner's lock frees itself in at most two steps of its holder and the restore then leaves the terminal cooked |
| TerminalHandback.Terminal.BeginRaw | apiclient/attach_terminal.go:123-138 | publish, then borrow; a failed makeRaw unpublishes: the named runs of atomic steps from any state, keeping the invariant when earlier attaches are done |
| TerminalHandback.Terminal.Restore | apiclient/attach_terminal.go:222-237 | puts the saved mode back at most once; the last of successive attaches leaves the terminal cooked |
| TerminalHandback.Terminal.Retake | apiclient/attach_terminal.go:247-257 | takes raw mode again exactly when not finished, restored and holding a saved state, and otherwise changes nothing |
| TerminalHandback.Terminal.Release | apiclient/attach_terminal.go:268-283 | the named run of steps, also when called again: the attach is retired and unpublished, and the last of successive ones leaves the terminal cooked |
| TerminalHandback.Terminal.RestoreAttached | apiclient/attach_terminal.go:89-93 | a no-op without an owner or after its restore; with successive attaches the terminal is cooked afterwards whatever it was |
| CredentialPoll.PollCredentialBoundCaller | api/sessions_identity.go:224-279 | at most the attempt budget of lookups; waits through exactly the uncommitted and unregistered answers before the deadline; the verdict on the last answer |
| CredentialPoll.PollIff | api/sessions_identity.go:224-279 | a poll answer by answer: at most ten lookups, each before the last a missing row or one still being created, the last such only when the budget or the deadline is spent, and the result for every kind of last answer |
| CredentialPoll.BoundAnswerFailsClosed | api/sessions_identity.go:224-279 | after any bound answer the poll yields a committed row the last answer carried, or a bound-caller error |
| CredentialPoll.FoundRowIsCommitted | api/sessions_identity.go:224-279 | a row is returned only past creation, and is the one the last answer carried |
| CredentialPoll.UnboundOnlyFirst | api/sessions_identity.go:224-279 | "no bound caller" and an unwrapped error come only from the first answer |
| CredentialPoll.PollDetermined | api/sessions_identity.go:224-279 | the answers determine the result and the number of lookups |
| CredentialPoll.ResolveSelfSession | api/sessions_identity.go:139-173 | a row or poll error is the verdict of that poll; the tmux path is never reached after a bound answer, by a remote target only on a clean "no bound caller", and is reached without a token, on "no bound caller" and on a failed local lookup; a tmux miss is retried only for an af name and to the full budget |
| CredentialPoll.ResolveCredentialSelf | api/sessionsremote.go:188-197 | the committed row or the error is the verdict of the poll on its last answer; the refusal exactly when the first answer names no caller |
| MutationOutcome.DefinitiveMeansNotCommitted | apiclient/client.go:295-395 | for every exchange the daemon or a rule-keeping intermediary can produce, an error not classed as uncertain means the mutation did not commit |
| MutationOutcome.RuleIsExact | apiclient/skew.go:110-134 | a substituted response is read as definitive by a remote client if and only if it breaks the rule on intermediaries |
| MutationOutcome.UncodedReplayMisleads | apiclient/skew.go:110-134 | an uncoded error replayed under a gateway status is read as definitive |
| MutationOutcome.SuccessIff | apiclient/client.go:330-411 | success if and only if a 200 with an error-free envelope that decodes and does not say otherwise |
| MutationOutcome.ErrorIff | apiclient/skew.go:110-134 | if and only if conditions for each error: committed, rebound, version skew, refusal, route not served, malformed, transport and local |
| MutationOutcome.UncertainIff | apiclient/outcome.go:44-59 | the outcome is open exactly for committed, sent transport, unconfirmed, malformed and context errors, under any context |
| QuitConfirmation.Home.constructor | app/content_persistence.go:14-71 | a new model has no confirmation armed |
| QuitConfirmation.Home.HandleQuit | app/content_persistence.go:14-71 | refuses and arms on a new save error, otherwise disarms and quits unless a notice is due |
| QuitConfirmation.Home.Update | app/home_update.go:185-206 | one message: a notice dismissal touches nothing else; any other input leaves the confirmation disarmed unless it was a quit |
| QuitConfirmation.ArmedByRefusal | app/content_persistence.go:73-103 | in every run an armed confirmation answers a quit refused with that text, with only dismissals in between |
| QuitConfirmation.DiscardIsConfirmed | app/content_persistence.go:14-103 | in every run edits are discarded only by a quit that follows a quit refused with the identical error, with only dismissals in between |
| QuitConfirmation.DiscardIff | app/content_persistence.go:14-103 | a failing quit discards if and only if the refusal just before had the same text |
| QuitConfirmation.EffectIff | app/content_persistence.go:14-103 | in every run: an input with the notice up takes it down and does nothing else; when a quit saves, refuses or discards; and the program ends only by a quit that went through with no notice due |
| DetachKey.ParseSubParams | apiclient/detachkey.go:195-219 | the inner loop parses one field's sub-parameters, -1 for an empty one, and fails on anything not a number |
| DetachKey.ParseCsiParams | apiclient/detachkey.go:195-219 | the outer loop parses all fields, and gives nil for an empty or malformed list |
| DetachKey.DigitsWrap | apiclient/detachkey.go:195-219 | the accumulator is the spelled number modulo 2^64, exact below 2^63 |
| DetachKey.WrapMeaning | apiclient/detachkey.go:195-219 | wrapping yields a 64-bit value that differs by a multiple of 2^64 |
| DetachKey.CsiConstants | apiclient/detachkey.go:195-267 | the bytes of a control sequence are ESC, '[', 'u' and '~', and the digits are "0123456789" |
| DetachKey.ModsMatchIff | apiclient/detachkey.go:164-184 | the accepted modifier parameters are exactly 1 + ctrl, plus shift as the rule says, plus lock states where they are masked |
| DetachKey.TrailingDetachKeyLen | apiclient/detachkey.go:298-341 | zero exactly when neither the legacy byte nor a report ends the buffer; otherwise one whole tap: the byte, one report, or the maximal (press or repeat), repeats, release |
| DetachKey.WalkBack | apiclient/detachkey.go:324-338 | walks back over adjacent repeats to the press, and stops only where no earlier half of the tap ends |
| DetachKey.TapUnique | apiclient/detachkey.go:298-341 | at most one length is a whole tap at the end of a buffer, so the result has no freedom: it never takes part of an earlier tap or leaves part of this one |
| DetachKey.Pump | apiclient/attach.go:289-310 | forwarded bytes followed by the swallowed key are the bytes read; it detaches exactly when the last read used ends in a tap, and swallows that tap |
| CsiRoundTrip.CsiParamsRoundTrip | apiclient/detachkey.go:195-219 | every parameter list written out is read back exactly |
| CsiRoundTrip.NonNumericIsNil | apiclient/detachkey.go:195-219 | a list with any byte but digits, ':' and ';' is not read, nor is an empty one |
| CsiRoundTrip.SequenceIff | apiclient/detachkey.go:231-282 | which control sequences, for any parameters and final byte, are reports of a key, and which event they carry |
| CsiRoundTrip.OnlyCsiMatches | apiclient/detachkey.go:231-282 | nothing else is a report |
| CsiRoundTrip.EncodingIff | apiclient/detachkey.go:128-158 | the codes of each control byte: its letter or symbol, and '6' and '-' with shift for ctrl-^ and ctrl-_; none for other bytes |
| CsiRoundTrip.CodeMatchesIff | apiclient/detachkey.go:110-184 | from the control byte: exactly its character with ctrl, with shift where the character needs it, and with any lock states where they are masked |
| CsiRoundTrip.TapSwallowed | apiclient/detachkey.go:298-341 | press, any number of repeats and release of any binding are one tap, whatever was read before |
| CsiRoundTrip.CtrlW | apiclient/detachkey.go:298-341 | the reports of ctrl-w byte for byte, each one tap, as is the legacy byte |
| CsiRoundTrip.CodesNameTheByte | apiclient/detachkey.go:128-158 | the unshifted codes of a binding are characters whose control byte it is |
| CsiRoundTrip.BindingsDisjoint | apiclient/detachkey.go:110-184 | no single code matches two bindings under the same modifiers |
| CsiRoundTrip.KittyReportIff | apiclient/detachkey.go:231-290 | a kitty report matches if and only if one of its key slots holds a code of the key that goes with its modifiers, and carries the event written in it |
| CsiRoundTrip.OtherKeysReportIff | apiclient/detachkey.go:231-290 | a modifyOtherKeys report matches if and only if its code goes with its modifiers, and is a press |
| CsiRoundTrip.BindingRecognised | apiclient/detachkey.go:110-267 | every binding is recognised in both encodings: every code, any key slot, every modifier parameter its shift rule accepts, any event |
| CsiRoundTrip.TwoBindingsIff | apiclient/detachkey.go:231-267 | a report matches two bindings if and only if it is a two-parameter kitty report and two different key slots hold codes of the two under its modifiers |
| CsiRoundTrip.AlternateKeyMatchesTwo | apiclient/detachkey.go:231-267 | such a report: ctrl-a with ctrl-b as its alternate key matches both |

## Left out

- The sweep over the components of a parsed URL (agentproto/auth.go lines 33-313): it rests on Go's URL parser and serializer. The rewrites it calls are modelled for every terminator set.
- Terminators are single bytes; Go's search is by rune, which differs only for terminators outside ASCII, and no caller passes one.
- Human-readable wording: event details, error messages, body snippets and notices.
- The single-session watch loop of api/sessions_watch.go, its classification and the flag validation: the fleet loop holds for every interval and timeout, and its bound is stated for the positive ones.
- The empty source a failed listing returns beside its error: the fleet loop never looks at it.
- WatchFleet: the daemon is a finite list of answers, so a run that uses them all ends as still watching; the clock is read once between the deadline check and the sleep.
- Classification takes the agent a swap's launch command resolves to as a field; the command parser is not part of this model.
- Restoring the termios and writing the neutral modes are taken to succeed, and the begin that is handed a saved state from outside (a test path) is left out.
- The signal loop that decides when to restore and retake is not followed; its calls may come at any moment.
- ResolveSelfSession and the poll take lookups and the deadline as inputs; sleeping is not modelled.
- The rewording of remoteMutationError (api/sessionsremote.go lines 41-48): errors are classified by their root, so it changes no class.
- MutationOutcome takes the outcome of the unknown-field pattern and the legacy unknown-route sentence as inputs.
- QuitConfirmation.Home.HandleQuit: what the save writes is not modelled, its result is an input, and the four notices are one. A save error has a non-empty text, as every error that app/content_persistence.go lines 120-362 returns does; handleQuit by itself would take an empty one for an armed confirmation.
- DetachKey.Pump: reads are sequences of any length, not slices of the reused 32-byte buffer, and the teardown around the pump is left out.
- Frame encoding, broadcast counters, the detach watchdog and the adopted-operation map would only add easy members.
- The WebSocket dial, TLS hints, saved targets, command-line wiring and the pickers of the user interface.
