# Verified models of Xlooop's stores

These modules model the Xlooop data layer where it promises more than one query can show: what holds over
every run of many workers. A SQL statement is one atomic step that reads the state before it; an error inside
a statement changes nothing; tables are maps with the unique keys of their indexes. Stores that write in
place are classes whose methods change the table fields and are proved equal to statement functions; the
theorems are about those functions and about runs of arbitrary steps in any order. A call of several
statements takes, for each gap between two of them, the steps other callers get in there.

- **Key ledger** (`Ledger`, `InviteStore`, `AuthorityStore`, `RetryGuard`, `LedgerRuns`, `InviteTheorems`,
  `AuthorityTheorems`, `GuardTheorems`, `InviteEffects`, `AuthorityEffects`, `GuardEffects`,
  `LedgerDatabase`): one table `idempotency_keys` under three protocols at once. Invitations reserve, deliver
  outside the database, then finalize or fail under a lease; consent and revoke commands write effect and
  claim together; the retry guard reserves, completes and releases.
- **Chat** (`ChatScope`, `ChatStore`, `ChatTheorems`, `ChatEffects`, `ChatDatabase`): threads, idempotent
  exchanges, receipts.
- **Connectors** (`ConnectorStore`, `ConnectorTheorems`, `ConnectorEffects`, `ConnectorDatabase`): grants,
  sources, nonces and the token calls in flight between read and write-back.
- **Readiness** (`ReadinessStore`, `ReadinessTheorems`, `ReadinessEffects`, `ReadinessDatabase`): saves keyed
  through the audit log, beside registrations, attachments and the re-pointing by provisioning.
- **Events** (`Events`, `EventPaging`, `EventLifecycle`, `EventEffects`, `CurrentWork`, `CurrentWorkEffects`):
  paging by cursor, the writers, and the Current Work projection beside the event aggregate.
- **Provisioning** (`Roadmap`, `Charter`): content-addressed revisions and the two-priority charter merge.
- **Argument checker** (`SchemaCheck`, `SchemaStandard`): against its declarative reading and against JSON
  Schema 2020-12.
- **Action ledger** (`ActionLedger`, `ActionTheorems`, `ActionEffects`, `ActionDatabase`): the paid-pilot
  actions.
- `Wrappers`, `Text`, `Counting`: options and results, ASCII text operations, sizes of sets.

The `Theorems` modules hold what every run keeps; the `Effects` modules say when each call works, what it answers and
what it leaves, in terms of rows and columns alone and without the statement functions' own parts.

`dafny verify dfyconfig.toml` checks the project.

## What turned out false, and when it is true

- A failed last-source disconnect can have revoked the grant (`ConnectorTheorems.RefusedButRevoked`); it
  leaves the tables alone exactly under `ConnectorTheorems.LastChangesNothingExactly`.
- A slow token call can put an old refresh token back after a reconnect (`StaleCallReplacesToken`); exactly
  when, `WriteBackReplacesExactly` for one step and `TokenThroughoutExactly` for a run.
- A readiness repeat can fail with an internal error after its row was moved to another workspace
  (`ReadinessTheorems.AttachedElsewhereFails`); it answers the first revision throughout a run exactly while
  no step moves the row (`RepeatsThroughoutExactly`). Where rows and invitations agree only a provisioning run
  of the row's own request does (`AlignedRowLeavesExactly`), and attachments keep the agreement exactly under
  `AttachKeepsAlignedExactly`.
- Paging by id under an order by time can lose or repeat events (`EventPaging.IdsAgainstTimeLoseAnEvent`); the
  pages add up exactly when ids and order agree at every cut (`PagesAreTheListExactly`).
- The argument checker departs from the standard where a schema without `type` asks anything and where a name
  is one that every object inherits (`SchemaStandard.EmptyObjectTellsApart`). Exactly which schemas are
  affected is decided by `CheckMeetsTheStandardExactly`; `UntypedMeetsTheStandardExactly` and
  `InheritedNamesExactly` are its two causes alone.
- The retry guard's reserve is not one-owner across its two queries (`GuardTheorems.TwoOwnersAcrossTheGap`);
  exactly when the read says so, `OwnedByReadExactly`.
- Current Work can hide a waiting item that has no title (`CurrentWork.UntitledEventIsHidden`, exactly under
  `HiddenFocusExactly`).
- A receipt without a provider role cannot be read back: a finalize without one delivers and reports an error,
  and every repeat is refused (`InviteEffects.FinalizeCallAnswers`, `InviteTheorems.ReserveAfterCompletion`).
- A non-revoked grant need not have a live source (`ConnectorTheorems.SecondAccountTakesTheOnlySource`): it
  has one throughout a run exactly while no connect takes a grant's only source (`ServedThroughoutExactly`).
  Every disconnect of such a grant is answered with an error, and the last-source one revokes it nevertheless
  (`OrphanIsRevokedWithAnError`). The route refuses an account switch that it sees
  (src/workers/routes/sources.ts:419-429), so reaching this state takes two callbacks that race past that
  read.

## Assumptions

Statements are atomic (READ COMMITTED re-checks inside one are not modelled; the shared-disconnect count and
the readiness lock rest on this). Digests do not collide on the contents involved. Ids made by a worker are
parameters: where a theorem needs them fresh it says so, and elsewhere a clash is the database's error.
Provider calls, encryption and clocks are parameters. A schema's property names are distinct, as a record's keys are.

## Model

| member | source | states |
|---|---|---|
| LedgerDatabase.Database.InsertPending | src/workers/dal/customer-invite-store.ts:53-76 | The insert adds one pending row for a valid command whose key is free, and otherwise changes nothing |
| LedgerDatabase.Database.Reclaim | src/workers/dal/customer-invite-store.ts:130-142 | The reclaim replaces token and expiry of a pending row whose recorded expiry database time has reached, and nothing else |
| LedgerDatabase.Database.ReserveCustomerInvite | src/workers/dal/customer-invite-store.ts:47-163 | Reserve statement by statement, with any steps of others between two of them: answer and tables are those of the specified protocol, errors included |
| LedgerDatabase.Database.FinalizeStatement | src/workers/dal/customer-invite-store.ts:165-294 | The finalize writes claim, audit row, event and outbox row together, only for the holder of the current token |
| LedgerDatabase.Database.FinalizeCustomerInvite | src/workers/dal/customer-invite-store.ts:165-309 | A finalize that loses reads the stored row back, after whatever others did |
| LedgerDatabase.Database.RecordDeliveryFailure | src/workers/dal/customer-invite-store.ts:311-360 | A failure report expires the lease and records one failure event and audit row, only for the holder of the current token |
| InviteTheorems.CompletesAtMostOnce | src/workers/dal/customer-invite-store.ts:179-291 | Over every run a key completes at most once, and exactly once when it is unfinished before and finished after |
| InviteTheorems.EffectsNumberTheClaims | src/workers/dal/customer-invite-store.ts:179-291 | In every state that meets the invariant completed claims, events, audit rows and outbox rows of each kind are equally many |
| InviteTheorems.ReplacedWorkerIsFenced | src/workers/dal/customer-invite-store.ts:130-142 | After a reclaim the replaced worker changes no table, in any later state, by finalize or by failure report |
| InviteTheorems.LeaseIsExclusive | src/workers/dal/customer-invite-store.ts:126-142 | Until database time reaches the recorded expiry, and unless its holder reports failure, a pending row stays as it is or becomes delivered |
| InviteTheorems.ReclaimExactly | src/workers/dal/customer-invite-store.ts:130-162 | A reclaim succeeds exactly on a pending row whose recorded expiry database time has reached |
| InviteTheorems.ReclaimHandsBackTheFirstCommand | src/workers/dal/customer-invite-store.ts:53-162 | Through any expiries, failures and reclaims the key keeps command id, digest, email and roles of its first reservation, and a reclaim hands them back |
| InviteTheorems.ReserveAfterCompletion | src/workers/dal/customer-invite-store.ts:94-125 | A reserve of a completed key gets the stored receipt marked replayed, or is refused when its digest differs, and changes nothing |
| InviteTheorems.FinalizeAfterCompletion | src/workers/dal/customer-invite-store.ts:295-308 | A finalize that lost changes nothing and gets the same receipt |
| InviteTheorems.WinnerAndRepeatersAgree | src/workers/dal/customer-invite-store.ts:33-45 | The receipt of the winning finalize and that of every later reserve differ in the replayed flag alone |
| InviteEffects.AcceptedCommands | src/workers/dal/customer-invite-store.ts:16-31 | Which commands get past the validator, and which are told that their key is missing |
| InviteEffects.FirstReservation | src/workers/dal/customer-invite-store.ts:53-92 | A valid command with a free slot is answered its own command id, token and terms, nothing to reconcile, and stored as one pending row that waits for it |
| InviteEffects.LaterReservation | src/workers/dal/customer-invite-store.ts:94-162 | What a reserve of a taken slot is told and leaves, by the row as select and reclaim find it: key reused, in progress, the receipt, or the row taken over |
| InviteEffects.AcquiredMeansHolding | src/workers/dal/customer-invite-store.ts:77-162 | Whoever is answered an acquired delivery holds the key under the very ids answered, with its terms, and must reconcile exactly when the slot was taken before |
| InviteEffects.HolderCompletes | src/workers/dal/customer-invite-store.ts:165-293 | What was acquired can be finalized under the ids answered, now and after any steps that neither reclaim the row nor deliver to its slot |
| InviteEffects.FinalizeExactly | src/workers/dal/customer-invite-store.ts:165-291 | Exactly when a finalize writes, and the four rows it then leaves; otherwise nothing changes |
| InviteEffects.FinalizeCallAnswers | src/workers/dal/customer-invite-store.ts:165-309 | What a finalize call answers and leaves, read-back included; without a provider role it delivers and reports an incomplete receipt |
| InviteEffects.FailureExactly | src/workers/dal/customer-invite-store.ts:311-360 | Exactly when a failure report writes, and the lease, error, event and audit row it leaves |
| InviteEffects.FailureFreesTheKey | src/workers/dal/customer-invite-store.ts:320-338 | After a failure report another reserve of the key takes it over at once |
| InviteEffects.ExpiredLeaseIsTaken | src/workers/dal/customer-invite-store.ts:126-162 | Once the clock reaches the expiry another reserve of the key takes it over |
| InviteEffects.ReserveStepsAreCalls | src/workers/dal/customer-invite-store.ts:53-142 | The steps of a run are the calls made without interference |
| LedgerRuns.CompletedIsFinal | src/workers/dal/customer-invite-store.ts:179-215 | A completed row never changes again, whatever any protocol does |
| LedgerRuns.OneActiveConsent | src/workers/dal/customer-authority-store.ts:38-53 | Every state reached from the empty tables has at most one un-revoked consent per workspace |
| LedgerDatabase.Database.AckStatement | src/workers/dal/customer-authority-store.ts:78-251 | The acknowledgement statement writes consent, event, audit row, outbox row and claim together, or nothing, and says why |
| LedgerDatabase.Database.RecordConsentAck | src/workers/dal/customer-authority-store.ts:58-265 | A repeat collides on the claim and is answered from the stored body, read after any steps of others |
| LedgerDatabase.Database.WithdrawStatement | src/workers/dal/customer-authority-store.ts:320-450 | The revoke statement stamps the one active consent and writes event, audit row, outbox row and claim, or nothing |
| LedgerDatabase.Database.RevokeCustomerAuthority | src/workers/dal/customer-authority-store.ts:301-467 | The whole revoke call with its replay path |
| LedgerDatabase.Database.ReadReplay | src/workers/dal/customer-authority-strict.ts:62-85 | The read-back refuses a different digest and an incomplete row, and otherwise rehydrates the receipt |
| LedgerDatabase.Database.RecordOperatorAuthority | src/workers/dal/customer-authority-store.ts:29-56 | The operator approval upserts the one active consent |
| LedgerDatabase.Database.GetAuthorityState | src/workers/dal/customer-authority-store.ts:267-293 | Unlocked means the active consent carries both stamps |
| AuthorityTheorems.StoredClaimsAreComplete | src/workers/dal/customer-authority-store.ts:203-264 | Every stored consent or revoke claim has a status and a body, after every run |
| AuthorityTheorems.AcknowledgeAllOrNothing | src/workers/dal/customer-authority-store.ts:78-264 | An acknowledgement adds exactly one claim, event, audit row and outbox row and the active consent, or leaves all tables as they were |
| AuthorityTheorems.WithdrawAllOrNothing | src/workers/dal/customer-authority-store.ts:320-466 | A revoke does the same and leaves the workspace without an active consent; refused as not found it wrote nothing |
| AuthorityTheorems.RepeatedAcknowledgement | src/workers/dal/customer-authority-strict.ts:62-85 | After any run a repeat changes nothing and gets the first receipt, or a refusal when the digest differs; with colliding fresh ids the raw error |
| AuthorityTheorems.RepeatedWithdrawal | src/workers/dal/customer-authority-strict.ts:62-85 | The same for revoke, even when no active consent is left |
| AuthorityTheorems.UnlockedExactly | src/workers/dal/customer-authority-store.ts:281-292 | From a state without active consent, a workspace is unlocked exactly when its history since the last effective revoke has both an acknowledgement and an approval |
| AuthorityTheorems.HistoryDecides | src/workers/dal/customer-provisioning-store.ts:149-157 | From any state the two stamps are those of the history since the last revoke, over what was there before; a provisioning run counts as an approval |
| AuthorityEffects.AckCommitsExactly | src/workers/dal/customer-authority-store.ts:78-251 | An acknowledgement commits exactly when it is valid, its key unused, its ids free and a consent to end on exists or can be made; else it is a replay or the database's error |
| AuthorityEffects.AckWrites | src/workers/dal/customer-authority-store.ts:100-251 | The consent stamps, claim, event, audit row and outbox row of a committed acknowledgement, column by column |
| AuthorityEffects.AckCallAnswers | src/workers/dal/customer-authority-store.ts:58-265 | What an acknowledgement call answers and leaves, by what is stored |
| AuthorityEffects.WithdrawalCommitsExactly | src/workers/dal/customer-authority-store.ts:320-450 | A revoke commits exactly when it is valid, a consent is active, the ids are free and the key unused; else not found, a replay or the database's error |
| AuthorityEffects.WithdrawalWrites | src/workers/dal/customer-authority-store.ts:341-450 | What a committed revoke stamps and writes, column by column |
| AuthorityEffects.WithdrawalCallAnswers | src/workers/dal/customer-authority-store.ts:301-467 | What a revoke call answers and leaves, by what is stored |
| AuthorityEffects.ApprovalExactly | src/workers/dal/customer-authority-store.ts:29-56 | When an approval takes effect and what it stamps |
| AuthorityEffects.ApprovalThenAckUnlocks | src/workers/dal/customer-authority-store.ts:100-135 | An approval and then a valid fresh acknowledgement unlock the workspace |
| AuthorityEffects.AckThenApprovalUnlocks | src/workers/dal/customer-authority-store.ts:38-53 | And in the other order |
| AuthorityEffects.StateByRows | src/workers/dal/customer-authority-store.ts:281-292 | The flags read off the un-revoked consent rows |
| AuthorityEffects.RefusalsInOrder | src/workers/dal/customer-authority-strict.ts:27-34 | Which acknowledgements are refused before any statement, and with which error |
| AuthorityEffects.AuthorityStepsAreCalls | src/workers/dal/customer-authority-store.ts:29-467 | The steps of a run are the calls made without interference |
| LedgerDatabase.Database.ReserveIdempotencyKey | src/workers/dal/idempotency-store.ts:27-58 | The guard reserve with any steps between its insert and its read: owned, in progress or replay |
| LedgerDatabase.Database.CompleteIdempotencyKey | src/workers/dal/idempotency-store.ts:72-94 | A completion writes status and body on the open reservation alone |
| LedgerDatabase.Database.ReleaseIdempotencyKey | src/workers/dal/idempotency-store.ts:97-110 | A release deletes the open reservation alone |
| GuardTheorems.RecordedResponseIsReplayed | src/workers/dal/idempotency-store.ts:37-58 | A recorded response never changes or disappears and is what every later reserve replays |
| GuardTheorems.OwnedTwiceNeedsRelease | src/workers/dal/idempotency-store.ts:102-107 | Two inserts that both win one key have a release of it between them: at most one open reservation |
| GuardTheorems.OwnedByReadExactly | src/workers/dal/idempotency-store.ts:47-56 | A reserve that lost its insert, with any steps before its read, is told "owned" exactly when one of them released the open reservation and no later one claimed the key again |
| GuardTheorems.TwoOwnersAcrossTheGap | src/workers/dal/idempotency-store.ts:47-56 | Why reserve must be one step: a release in its gap gives two owners |
| GuardTheorems.NamespacesApart | src/workers/dal/idempotency-store.ts:37-43 | Guard steps and strict steps never touch each other's rows |
| GuardTheorems.GuardSeesOnlyGuardSteps | src/workers/dal/idempotency-store.ts:37-107 | The guard's view after any run is that of the run with all strict steps left out |
| GuardEffects.ReserveAnswersExactly | src/workers/dal/idempotency-store.ts:27-58 | Owned with one open row for a free key, in progress while its row is open, the recorded response afterwards; a blank name is owned without a row |
| GuardEffects.CompletionExactly | src/workers/dal/idempotency-store.ts:72-94 | A completion writes status and body on the open row alone |
| GuardEffects.ReleaseExactly | src/workers/dal/idempotency-store.ts:97-110 | A release deletes the open row alone |
| GuardEffects.GuardStepsAreCalls | src/workers/dal/idempotency-store.ts:27-110 | The steps of a run are the calls made without interference |
| ChatScope.ScopeKeyInjective | src/workers/dal/chat-store.ts:93-98 | Two scopes share a key exactly when their three normalized ids agree |
| ChatDatabase.Database.AppendStatement | src/workers/dal/chat-store.ts:155-355 | The append statement in place: thread, audit rows and messages, or no row answered, or the error of a repeated key |
| ChatDatabase.Database.AppendChatExchange | src/workers/dal/chat-store.ts:119-377 | The whole call: blank messages dropped, one retry with fresh receipts, then not found or conflict |
| ChatDatabase.Database.AppendEntry | src/workers/dal/chat-store.ts:284-351 | One message is inserted with its audit id, or the stored one is recognised |
| ChatDatabase.Database.CreateChatThread | src/workers/dal/chat-thread-store.ts:67-116 | Creation adds one thread with its audit row, or nothing |
| ChatDatabase.Database.UpdateChatThread | src/workers/dal/chat-thread-store.ts:118-185 | Rename, archive and restore touch only the caller's own thread in the exact scope |
| ChatTheorems.EntriesAndAuditsStayUnique | src/workers/dal/chat-store.ts:333-351 | After every run messages are unique per thread, interaction and type, answer audits are unique, and every workspace answer carries an audit id |
| ChatTheorems.AppendAllOrNothing | src/workers/dal/chat-store.ts:203-207 | An append answers every message or writes nothing at all |
| ChatTheorems.RepeatChangesNothing | src/workers/dal/chat-store.ts:155-355 | A successful exchange sent again after any run leaves all tables alone and answers the same messages while the thread is active, and is refused once archived |
| ChatTheorems.ChangedContentIsRefused | src/workers/dal/chat-store.ts:183-207 | An identity answered once refuses different content in every later state |
| ChatDatabase.SuccessfulCallRepeats | src/workers/dal/chat-store.ts:357-377 | The same for the whole call: it answers all messages in a thread of the caller's own, and calling again changes nothing |
| ChatDatabase.FailedCallWritesNothing | src/workers/dal/chat-store.ts:357-372 | A call that fails after its one retry has written nothing |
| ChatTheorems.MessagesStayWithTheirAppender | src/workers/dal/chat-store.ts:164-174 | Every message sits in a thread of the very user and raw scope that appended it, which was not archived then |
| ChatTheorems.CollidingOwnerIsRefused | src/workers/dal/chat-store.ts:101-103 | Owners or raw scopes that collide on one thread id: the second is refused for good |
| ChatTheorems.PunctuationCollides | src/workers/dal/chat-store.ts:94-103 | User ids that differ in punctuation only share the default thread id |
| ChatTheorems.TitleChangesExplained | src/workers/dal/chat-store.ts:250-264 | A title changes only by its owner's rename, or by an append while it is default |
| ChatTheorems.TitleStaysUntilRenamed | src/workers/dal/chat-thread-store.ts:137-156 | A title that is not default survives every run without a rename |
| ChatEffects.AcceptedExactly | src/workers/dal/chat-store.ts:155-355 | A statement succeeds exactly when its thread is the caller's own in the raw scope and active, or absent and not asked for by id, its keys differ and every message agrees with what is stored under its key; else which error |
| ChatEffects.AcceptedLeaves | src/workers/dal/chat-store.ts:210-351 | Every message answered in order, the new ones as sent with receipt and audit row, audit rows for answers only, everything else as it was |
| ChatEffects.CallAnswers | src/workers/dal/chat-store.ts:119-377 | What the call makes of its arguments, when it is refused, and which of its two statements decides |
| ChatEffects.FirstExchangeMakesTheThread | src/workers/dal/chat-store.ts:210-249 | A first exchange in a scope makes the default thread, the caller's own and active, with its messages |
| ChatEffects.AbsentThreadIsNotFound | src/workers/dal/chat-store.ts:357-372 | Naming a thread that is not there is answered not found and writes nothing |
| ChatEffects.BlankMessagesAreDropped | src/workers/dal/chat-store.ts:127-129 | Blank messages are dropped and the others kept in order |
| ChatEffects.CreationExactly | src/workers/dal/chat-thread-store.ts:67-116 | When a thread is created, and its row and audit row |
| ChatEffects.ChangeExactly | src/workers/dal/chat-thread-store.ts:118-185 | When rename, archive and restore reach a thread and what each does to it |
| ChatEffects.ArchiveClosesAndRestoreOpens | src/workers/dal/chat-thread-store.ts:137-156 | An archived thread refuses exchanges, a restored one takes them |
| ChatEffects.NormExactly | src/workers/dal/chat-store.ts:93-93 | Normalizing keeps small letters and digits of the lowered id |
| ChatEffects.DefaultThreadIdExactly | src/workers/dal/chat-store.ts:96-103 | The default thread id, from user and scope |
| ChatEffects.ChatStepsAreCalls | src/workers/dal/chat-store.ts:119-377 | The steps of a run are the calls' statements |
| ConnectorDatabase.Database.ClaimStateNonce | src/workers/dal/connector-oauth-store.ts:99-115 | The claim takes an unexpired, unconsumed nonce of exactly this caller |
| ConnectorDatabase.Database.ConnectConnectorSource | src/workers/dal/connector-oauth-store.ts:117-217 | Connect upserts grant and source under their identities and writes one audit row, or nothing |
| ConnectorDatabase.Database.UpdateGrantTokens | src/workers/dal/connector-oauth-store.ts:242-264 | Tokens are stored only on an active or refresh-required grant |
| ConnectorDatabase.Database.MarkGrantRefreshError | src/workers/dal/connector-oauth-store.ts:266-280 | A refresh error never touches a revoked grant |
| ConnectorDatabase.Database.CountActiveSources | src/workers/dal/connector-oauth-store.ts:282-297 | The count is the number of live sources on the grant |
| ConnectorDatabase.Database.DisconnectSharedSource | src/workers/dal/connector-oauth-store.ts:312-361 | The shared disconnect ends one of several live sources |
| ConnectorDatabase.Database.DisconnectLastSource | src/workers/dal/connector-oauth-store.ts:363-427 | The last-source disconnect revokes the grant and ends all its sources, whether or not the target is among them |
| ConnectorDatabase.Database.GetAccessToken | src/workers/dal/connector-oauth-adapter.ts:39-104 | Read, refresh and write back with any steps in between: answer and tables of the specified call |
| ConnectorTheorems.LiveSourcesHaveLiveGrants | src/workers/dal/connector-oauth-store.ts:129-202 | In every reachable state each live source points to a non-revoked grant of its own workspace and user, and exactly the revoked grants hold no credential |
| ConnectorTheorems.RevokedUntilConnect | src/workers/dal/connector-oauth-store.ts:247-279 | A revoked grant stays as it is, without credential and live sources, through every run without a connect of its identity |
| ConnectorTheorems.SharedLeavesOne | src/workers/dal/connector-oauth-store.ts:312-333 | A shared disconnect takes exactly one live source and leaves at least one; refused it changes nothing |
| ConnectorTheorems.LastOneStays | src/workers/dal/connector-oauth-store.ts:313-330 | Of two shared disconnects on two live sources only the first succeeds |
| ConnectorTheorems.LastEndsExactlyTheGrant | src/workers/dal/connector-oauth-store.ts:364-386 | A revocation ends exactly the live sources of its grant and leaves every other grant alone |
| ConnectorTheorems.LastChangesNothingExactly | src/workers/dal/connector-oauth-store.ts:363-419 | The last-source disconnect changes nothing exactly when the grant is not the caller's own live one; it is refused in more cases |
| ConnectorTheorems.RefusedButRevoked | src/workers/dal/connector-oauth-store.ts:363-419 | The input that shows a refused call that did revoke |
| ConnectorTheorems.ConnectKeepsServedExactly | src/workers/dal/connector-oauth-store.ts:165-180 | A connect leaves every non-revoked grant with a live source exactly when it does not move away another grant's only one |
| ConnectorTheorems.OtherStepsKeepServed | src/workers/dal/connector-oauth-store.ts:312-386 | No disconnect, token or nonce step leaves a non-revoked grant without a live source |
| ConnectorTheorems.ServedThroughoutExactly | src/workers/dal/connector-oauth-store.ts:129-202 | Throughout a run every non-revoked grant has a live source exactly while no connect takes a grant's only one |
| ConnectorTheorems.SecondAccountTakesTheOnlySource | src/workers/dal/connector-oauth-store.ts:165-180 | The shortest run that does: one source connected to one account and then to another |
| ConnectorTheorems.OrphanIsRevokedWithAnError | src/workers/dal/connector-oauth-store.ts:363-419 | A grant left without source keeps its credential; every disconnect of it is answered with an error, the shared one changes nothing, the last-source one revokes it all the same |
| ConnectorTheorems.RefreshTokenIsTheConnected | src/workers/dal/connector-oauth-adapter.ts:50-95 | From one connect to the next a grant keeps that connect's refresh token until revoked, if no older call is in flight |
| ConnectorTheorems.WriteBackReplacesExactly | src/workers/dal/connector-oauth-store.ts:247-262 | A write-back replaces the stored refresh token exactly when an older call meets an active or refresh-required grant |
| ConnectorTheorems.TokenThroughoutExactly | src/workers/dal/connector-oauth-adapter.ts:50-95 | With any calls in flight a grant keeps its connect's refresh token, until revoked, in every state of a run exactly while no older call's write-back meets it active or refresh-required |
| ConnectorTheorems.StaleCallReplacesToken | src/workers/dal/connector-oauth-adapter.ts:72-84 | A call that read before disconnect and reconnect writes the old refresh token over the new one |
| ConnectorDatabase.CallKeepsRefreshToken | src/workers/dal/connector-oauth-adapter.ts:72-84 | A token call answers with the grant's own refresh token, which is also what is stored, unless it was connected again meanwhile |
| ConnectorDatabase.FailedRefreshIsVisible | src/workers/dal/connector-oauth-adapter.ts:86-94 | After a failed refresh the grant is revoked, or refresh-required with its error |
| ConnectorTheorems.AtMostOneClaim | src/workers/dal/connector-oauth-store.ts:103-114 | Over every run a nonce is claimed at most once |
| ConnectorTheorems.NonceClaimedOnce | src/workers/dal/connector-oauth-store.ts:103-114 | A consumed nonce can never be claimed again |
| ConnectorEffects.NonceClaimExactly | src/workers/dal/connector-oauth-store.ts:99-115 | A nonce is claimed exactly by its own caller, unconsumed and before its expiry |
| ConnectorEffects.NonceRegistration | src/workers/dal/connector-oauth-store.ts:82-97 | Registering stores an unconsumed nonce under an unused hash |
| ConnectorEffects.ConnectExactly | src/workers/dal/connector-oauth-store.ts:117-217 | When a connect works, and the grant, source and audit row it ends on |
| ConnectorEffects.TokenUpdateExactly | src/workers/dal/connector-oauth-store.ts:242-264 | When tokens are stored, and what the grant then is |
| ConnectorEffects.RefreshErrorExactly | src/workers/dal/connector-oauth-store.ts:266-280 | When a refresh error is noted, and what the grant then is |
| ConnectorEffects.TokenCallExactly | src/workers/dal/connector-oauth-adapter.ts:39-104 | What a token call answers and leaves: tokens due (forced, unreadable expiry, or at most a minute ahead) as the provider gave them and stored so, others as stored, and each error |
| ConnectorEffects.InFlightExactly | src/workers/dal/connector-oauth-adapter.ts:50-95 | What a call in flight remembers, writes back and leaves in error |
| ConnectorEffects.SharedExactly | src/workers/dal/connector-oauth-store.ts:312-361 | Exactly when the shared disconnect works, and what it writes |
| ConnectorEffects.LastExactly | src/workers/dal/connector-oauth-store.ts:363-427 | What the last-source disconnect answers and writes, the target there or not |
| ConnectorEffects.ConnectorStepsAreStatements | src/workers/dal/connector-oauth-store.ts:117-427 | The steps of a run are the statements |
| ReadinessDatabase.Database.SaveWorkspaceReadiness | src/workers/dal/customer-readiness-store.ts:86-277 | The save in place: newest row and request picked, request, row, link and audit receipt written together, or the recorded answer |
| ReadinessDatabase.Database.CreateReadinessAssessment | src/workers/dal/customer-readiness-store.ts:23-74 | Registration upserts one row per request, keeps old optional answers where it brings none, leaves the workspace alone, and links and stamps the request |
| ReadinessDatabase.Database.RepointByProvisioning | src/workers/dal/customer-provisioning-store.ts:181-196 | A provisioning run points its access request and that request's row to the new workspace |
| ReadinessDatabase.Database.AttachReadinessByEmail | src/workers/dal/customer-readiness-store.ts:337-351 | Stamps a workspace on this email's rows that have none |
| ReadinessTheorems.OneReceiptPerClientRequest | src/workers/dal/customer-readiness-store.ts:108-120 | Over every run at most one audit receipt per workspace, user and client request, naming a stored row |
| ReadinessTheorems.RunKeepsOneRow | src/workers/dal/customer-readiness-store.ts:121-177 | Saves and registrations never give a workspace with at most one row a second |
| ReadinessTheorems.RunKeepsReceipts | src/workers/dal/customer-readiness-store.ts:226-239 | No writer, in any run, alters or removes a receipt |
| ReadinessTheorems.RepeatExactly | src/workers/dal/customer-readiness-store.ts:251-276 | After any run of saves, registrations, attachments and provisioning a repeat writes nothing and gets the first revision, or a conflict for other answers, exactly while the row is the workspace's own |
| ReadinessTheorems.RowLeavesItsWorkspaceExactly | src/workers/dal/customer-readiness-store.ts:178-212 | In every state a step takes a row from its workspace exactly when it is a provisioning run of the row's own request elsewhere, or a writing save of another workspace that ends on the row |
| ReadinessTheorems.AlignedRowLeavesExactly | src/workers/dal/customer-readiness-store.ts:178-225 | Where rows and invitations agree only the provisioning run does |
| ReadinessTheorems.RepeatsThroughoutExactly | src/workers/dal/customer-readiness-store.ts:105-276 | A repeat gets the first revision in every state of a run, of any writers, exactly while no step of the run moves the row |
| ReadinessTheorems.RepeatReturnsTheFirstRevision | src/workers/dal/customer-readiness-store.ts:105-276 | Where rows and invitations agree, a repeat returns the first revision after any run whose attachments keep the agreement and that does not re-point the row's request |
| ReadinessTheorems.AttachKeepsAlignedExactly | src/workers/dal/customer-readiness-store.ts:337-351 | Attaching keeps that agreement exactly when every stamped row's request allows it |
| ReadinessTheorems.MovedRowBreaksTheRepeat | src/workers/dal/customer-readiness-store.ts:178-212 | A row moved by a save elsewhere makes every repeat fail |
| ReadinessTheorems.AttachedElsewhereFails | src/workers/dal/customer-readiness-store.ts:251-272 | The shortest run that shows it |
| ReadinessEffects.SaveExactly | src/workers/dal/customer-readiness-store.ts:105-276 | When a save writes, and the row, request and receipt it leaves: the row named by the answer holds all answers of the save, and nothing else changed |
| ReadinessEffects.SavedAnswersStay | src/workers/dal/customer-readiness-store.ts:178-208 | Until another writer touches it the row holds the answers of the save that ended on it |
| ReadinessEffects.PicksExactly | src/workers/dal/customer-readiness-store.ts:121-152 | Which row and which request the statement may pick |
| ReadinessEffects.RegistrationExactly | src/workers/dal/customer-readiness-store.ts:33-71 | When a registration writes, and the row and request it leaves |
| ReadinessEffects.RepointingExactly | src/workers/dal/customer-readiness-store.ts:337-351 | Attaching and provisioning, row by row |
| ReadinessEffects.ReadinessStepsAreStatements | src/workers/dal/customer-readiness-store.ts:23-351 | The steps of a run are the statements |
| EventPaging.OrderedIsTheList | src/workers/dal/event-store.ts:140-142 | The list holds exactly the matching events, newest first, each once |
| EventPaging.CursorCutsTheList | src/workers/dal/event-store.ts:123-123 | Reading with a cursor is cutting the list read without one |
| EventPaging.PagesAreTheListExactly | src/workers/dal/event-store.ts:87-154 | Reading all pages gives the filtered events in order exactly when at every cut ids and order agree |
| EventPaging.PagesAreTheFilteredEvents | src/workers/dal/event-store.ts:87-154 | Where ids follow time, for any limit of at least one, the pages are exactly the filtered events in order, each once |
| EventPaging.SmallestPageNeedsTheOrder | src/workers/dal/event-store.ts:140-142 | With page size one the pages add up exactly when ids follow time |
| EventPaging.IdsAgainstTimeLoseAnEvent | src/workers/dal/event-store.ts:140-147 | Two events whose ids run against time, read one at a time: the older is lost |
| EventPaging.FollowTerminates | src/workers/dal/event-store.ts:144-147 | Following the cursor ends after at most one page per event, whatever the ids |
| EventEffects.RolesSee | src/workers/dal/visibility.ts:20-38 | What each role may see |
| EventEffects.PageExactly | src/workers/dal/event-store.ts:87-154 | One page: the newest asked events below the cursor, how many, whether there are more and the next cursor; principals hidden from viewers and clients |
| EventEffects.BadLimitFails | src/workers/dal/event-store.ts:90-147 | Which limits below one fail |
| EventEffects.WritersExactly | src/workers/dal/event-store.ts:244-442 | When insert, status change and archive work and what they leave |
| EventEffects.RestoreExactly | src/workers/dal/event-store.ts:449-507 | When a restore works, and the event and reply it leaves |
| EventEffects.PurgeExactly | src/workers/dal/event-store.ts:542-553 | The purge takes exactly the product's own events archived longer ago than the retention |
| EventLifecycle.Store.UpdateEventStatus | src/workers/dal/event-store.ts:405-424 | A status change with an expected status is a claim on it; omitted columns stay |
| EventLifecycle.Store.UpsertEvent | src/workers/dal/event-store.ts:244-328 | The upsert looks the id up in its workspace and then inserts, with any steps of other writers in between: created, already there, or failed |
| EventLifecycle.UpsertFailsExactly | src/workers/dal/event-store.ts:249-300 | It fails exactly when the id is stored by the time of the insert, which for a free id takes a writer in between, and it changes no stored event |
| EventLifecycle.UpsertRepeats | src/workers/dal/event-store.ts:249-256 | Once created or found there, the same upsert is answered already there for as long as the event is stored |
| EventLifecycle.Store.ArchiveEvent | src/workers/dal/event-store.ts:432-442 | Archiving marks an event of this workspace that is not archived, and nothing else |
| EventLifecycle.Store.RestoreEvent | src/workers/dal/event-store.ts:449-507 | A restore clears the archive mark and adds its receipt event, or does nothing |
| EventLifecycle.Store.PurgeArchived | src/workers/dal/event-store.ts:542-553 | The purge removes exactly the expired archived product events |
| EventLifecycle.OneClaimPerQueueing | src/workers/dal/event-store.ts:331-336 | At most one claim wins per time an event is put into the claimed state |
| EventLifecycle.ContentIsAppendOnly | src/workers/dal/event-store.ts:338-341 | No writer changes the content of a stored event, and events of other tools are never deleted |
| EventLifecycle.RestoreUndoesArchive | src/workers/dal/event-store.ts:432-507 | Restoring undoes archiving and adds one reply |
| CurrentWork.CountsPartition | src/workers/dal/current-work-store.ts:108-116 | Needs-you, blocked, done and the rest share out the total |
| CurrentWork.TotalCountsEachOnce | src/workers/dal/current-work-store.ts:103-107 | The total is one per visible event and one per packet no visible event stands for |
| CurrentWork.EveryPacketCountsOnce | src/workers/dal/current-work-store.ts:87-101 | Every non-archived packet in scope counts once, as itself or through a visible event |
| CurrentWork.OnlyPacketsInScope | src/workers/dal/current-work-store.ts:84-101 | Every packet item is a non-archived packet in scope that no visible event stands for |
| CurrentWork.NoPacketsMeansEventCounts | src/workers/dal/event-store.ts:174-193 | Without packets all four counts are those of the event aggregate |
| CurrentWork.FocusExactly | src/workers/dal/current-work-store.ts:117-123 | With titles, the focus is missing exactly when needs-you and blocked are zero, and otherwise first in the stated order |
| CurrentWork.HiddenFocusExactly | src/workers/dal/current-work-store.ts:135-145 | A waiting item can be hidden exactly when a first one has no title |
| CurrentWork.UntitledEventIsHidden | src/workers/dal/current-work-store.ts:135-145 | One event in review with an empty summary: it is counted and no focus is shown |
| CurrentWork.ProjectionExists | src/workers/dal/current-work-store.ts:108-132 | The query has an answer in every state |
| CurrentWorkEffects.CountsExactly | src/workers/dal/current-work-store.ts:54-116 | The counts by event status and by packet lifecycle, each event and each packet of its own once |
| CurrentWorkEffects.StatesExactly | src/workers/dal/current-work-store.ts:60-86 | Which state an event and a packet stand in |
| CurrentWorkEffects.FocusComesFirst | src/workers/dal/current-work-store.ts:117-123 | Something for review before anything blocked, then the latest, then the last in id |
| SchemaCheck.CheckExactly | packages/xlooop-mcp-server/src/validate.ts:31-85 | The checker finds nothing exactly when the value conforms to the declarative reading, for every nested value and schema |
| SchemaCheck.CheckReports | packages/xlooop-mcp-server/src/validate.ts:31-85 | A reported path leads to a sub-value that breaks its sub-schema for the reported reason |
| SchemaCheck.UnknownComesFirst | packages/xlooop-mcp-server/src/validate.ts:46-56 | Of an object the first undeclared field is reported |
| SchemaCheck.MissingComesNext | packages/xlooop-mcp-server/src/validate.ts:57-63 | And only without one the first missing name |
| SchemaCheck.KindsExactly | packages/xlooop-mcp-server/src/validate.ts:24-29 | Which values each type takes |
| SchemaCheck.LookupExactly | packages/xlooop-mcp-server/src/validate.ts:57-68 | A lookup finds the first own field |
| SchemaCheck.InheritedLookup | packages/xlooop-mcp-server/src/validate.ts:57-68 | And else what every object inherits |
| SchemaStandard.CheckMeetsTheStandardExactly | packages/xlooop-mcp-server/src/validate.ts:31-85 | For every schema, decided on the schema alone: the checker agrees with JSON Schema 2020-12 on all JSON values exactly when neither accepts more than the other |
| SchemaStandard.AcceptsMoreExactly | packages/xlooop-mcp-server/src/validate.ts:31-85 | A schema has a JSON value that one reading accepts and the other refuses exactly when the decision procedure says so |
| SchemaStandard.SatisfiableExactly | packages/xlooop-mcp-server/src/validate.ts:31-85 | Whether any JSON value is accepted is decided on the schema, for both readings |
| SchemaStandard.PlainMeetsTheStandard | packages/xlooop-mcp-server/src/validate.ts:31-85 | A schema that asks nothing where it has no type, and names nothing that every object inherits, meets the standard |
| SchemaStandard.UntypedMeetsTheStandardExactly | packages/xlooop-mcp-server/src/validate.ts:33-44 | A schema without type meets the standard on all JSON values exactly when it asks nothing |
| SchemaStandard.InheritedNamesExactly | packages/xlooop-mcp-server/src/validate.ts:57-68 | An object schema whose properties meet the standard and that some conforming object owning the names concerned satisfies: it meets the standard exactly when each inherited name is required if and only if it is declared with a schema its inherited value does not satisfy |
| SchemaStandard.EmptyObjectTellsApart | packages/xlooop-mcp-server/src/validate.ts:57-68 | The empty object shows both departures, for every inherited name, the prototype's included |
| Roadmap.Events.ProvisionRoadmap | src/workers/dal/customer-provisioning-store.ts:224-253 | The loop over the steps, one insert each, in one transaction |
| Roadmap.SlotsHoldWhatWasProvisioned | src/workers/dal/customer-provisioning-store.ts:229-253 | Over any provisioning runs a slot's events hold exactly the distinct contents provisioned there |
| Roadmap.OneEventPerContent | src/workers/dal/customer-provisioning-store.ts:70-75 | One event per content: equal contents mean the same id |
| Roadmap.EveryContentHasItsEvent | src/workers/dal/customer-provisioning-store.ts:229-253 | Every content provisioned for a slot has an event there |
| Roadmap.StoredEventsAreNeverAltered | src/workers/dal/customer-provisioning-store.ts:229-253 | No run alters a stored event |
| Roadmap.RerunChangesNothing | src/workers/dal/customer-provisioning-store.ts:103-109 | Provisioning the last plan again changes nothing |
| Roadmap.BaseIdInjective | src/workers/dal/customer-provisioning-store.ts:106-106 | Two steps share a base id only when slug and position agree |
| Roadmap.ProvisionedEventsCarryThePlan | src/workers/dal/customer-provisioning-store.ts:229-253 | Every event added is in a slot of its plan, with the plan's workspace and project |
| Roadmap.AcceptedExactly | src/workers/dal/customer-provisioning-store.ts:86-95 | Which plans are taken |
| Roadmap.SlotNames | src/workers/dal/customer-provisioning-store.ts:70-75 | The ids of a first, a twelfth and a revised step |
| Charter.Charters.UpsertCharter | src/workers/dal/charter-store.ts:63-103 | An edit replaces what it gives, keeps the rest, and writes one audit row |
| Charter.Charters.SeedCharter | src/workers/dal/customer-provisioning-store.ts:261-279 | A seed fills only what is missing |
| Charter.CharterKeepsTwoPriorities | src/workers/dal/charter-store.ts:82-91 | Over any mix of seeds and edits each text is the last edit's, or else the first seed's |
| ActionDatabase.Ledger.ProposeAction | functions/_lib/paid-pilot-authority.js:75-93 | A proposal of an allowed kind is appended, any other is denied |
| ActionDatabase.Ledger.ApproveAction | functions/_lib/paid-pilot-authority.js:95-113 | An approval passes the policy or is denied |
| ActionDatabase.Ledger.ExecuteAction | functions/_lib/paid-pilot-authority.js:115-145 | Policy, key, earlier execution, approval and references are checked in that order |
| ActionDatabase.Ledger.RollbackOf | functions/_lib/paid-pilot-authority.js:147-172 | A rollback appends a copy under the rollback kind, for the caller's own tenant |
| ActionTheorems.PolicyPassesExactly | functions/_lib/paid-pilot-authority.js:298-318 | The policy passes exactly the known kinds for which the caller holds an active entitlement naming operator mode and the kind, and for which an active policy exists whose permission the caller holds; it asks for an approval exactly when both the call and the policy do |
| ActionTheorems.DisabledKindStaysRefused | functions/_lib/paid-pilot-authority.js:307-311 | A kind whose policy is disabled is refused to everyone in every later state until a policy is set again |
| ActionTheorems.ExecuteGoesThroughExactly | functions/_lib/paid-pilot-authority.js:115-141 | An execution goes through exactly when the policy passes it, it has a key, and either the key was executed before or approval and references are there and the id is free |
| ActionTheorems.ExecutedRowsAreUnique | functions/_lib/paid-pilot-authority.js:360-395 | In every run an executed row is the only row of its tenant, kind and key, and apply rows carry verifier and rollback references |
| ActionTheorems.RunGrows | functions/_lib/paid-pilot-authority.js:360-389 | No action row and no audit row is ever altered or removed |
| ActionTheorems.ExecutedRowsPassedThePolicy | functions/_lib/paid-pilot-authority.js:298-318 | Each executed row of a run was let through by the policy of its moment |
| ActionTheorems.ReplayIsAnExecution | functions/_lib/paid-pilot-authority.js:391-395 | A replay is an executed row of the caller's tenant, kind and key, never a denied or rollback row |
| ActionTheorems.ExecutedOnceForAll | functions/_lib/paid-pilot-authority.js:120-121 | After an execution every allowed later call under its key gets that row and writes nothing |
| ActionTheorems.RollbackExactly | functions/_lib/paid-pilot-authority.js:152-170 | An own action can be rolled back exactly when it has no key or was not rolled back before |
| ActionTheorems.RolledBackOnce | functions/_lib/paid-pilot-authority.js:152-170 | A second rollback of an executed action fails in every later state |
| ActionTheorems.RollbackKeepsTheReplay | functions/_lib/paid-pilot-authority.js:120-121 | After a rollback the key still replays the execution |
| ActionEffects.ProposeExactly | functions/_lib/paid-pilot-authority.js:75-93 | When a proposal goes through, and the columns of its row |
| ActionEffects.ApproveExactly | functions/_lib/paid-pilot-authority.js:95-113 | When an approval goes through, and the columns of its row |
| ActionEffects.FirstExecution | functions/_lib/paid-pilot-authority.js:115-145 | When a first execution goes through, and the columns of its row |
| ActionEffects.StoppedExecution | functions/_lib/paid-pilot-authority.js:116-119 | An execution the policy stops, or without a key, is denied with that reason |
| ActionEffects.RepeatedExecution | functions/_lib/paid-pilot-authority.js:120-121 | A repeated one gets the earlier row and writes nothing |
| ActionEffects.DenyExactly | functions/_lib/paid-pilot-authority.js:345-358 | The denied row and the audit row of a refusal |
| ActionEffects.RollbackWrites | functions/_lib/paid-pilot-authority.js:147-172 | What a rollback copies and changes |
| ActionEffects.ReasonsInOrder | functions/_lib/paid-pilot-authority.js:298-318 | The reasons for refusal, in the order they are looked for |
| Text.TrimExactly | src/workers/dal/customer-invite-store.ts:52-52 | Trimming cuts white space from both ends and nothing else |
| Text.LowerExactly | src/workers/dal/customer-invite-store.ts:52-52 | Lower-casing turns ASCII capitals into small letters, place by place |

## Left out

- Timestamps that only order or decorate: chat `updated_at` and `last_message_at`, `created_at`; the order of an append's answer (here the order sent, there creation time and id).
- Unicode: trimming and lower-casing are ASCII; chat bodies are cut by characters, not UTF-16 units.
- Consent columns that are only carried along: scopes, metadata, IP address, user agent; foreign keys to users.
- Serial ids that a failed insert burns; ids here advance only on success.
- The swallowed errors of the retry guard (it lets the request through when its table cannot be reached).
- Other writers of operation_events, plan entities, members, users and projects during provisioning; the seeded objective.
- ConnectorDatabase.Database.GetAccessToken: whether an envelope opens is a parameter, so the binding of ciphertext to its grant id is not modelled.
- EventLifecycle.Store.RestoreEvent: the receipt event's wording and lineage columns are fixed or dropped.
- Legacy identity-backed sources and the Clerk path of the disconnect route; the route's choice between shared and last.
- EventPaging.PagesAreTheListExactly: ids are numbers standing for places in the database's collation, and the table does not change between pages, because the cursor promises nothing on a changing one.
- listEventsForOperatorRow, listEventsForProjectScopeRow and the archived list: the same filters again, or pattern matching.
- SchemaCheck.CheckReports: the path is a list of steps, not the message text; NaN and infinities are not values.
- Access requests are given: creating them and changing their status is not modelled.
- Redaction of texts in the action ledger (texts arrive redacted), its write-back receipts, principals read from the identity tables, and two executions racing between lookup and insert.
- ActionTheorems.ExecutedRowsAreUnique: calls run one after another, as the source's unique triple would refuse the loser of a race.
- Chat history, thread list and receipt reads: plain filters and orders.
- Truncation of the revision digest to eight bytes: collisions are excluded by assumption.
- Cron loops, telemetry, adapters that only delegate, network and platform code.
