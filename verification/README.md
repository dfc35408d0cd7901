# Metro verification models

Dafny models of the parts of Metro whose correctness does not follow from reading one function:
protocols that many processes or handlers run at once, stores whose guarantees join distant
functions, calendar arithmetic, and codecs, parsers and orders that must agree with a standard or
with themselves. Each module models one component and proves what the component is for, over every
input, every run or every interleaving. `dafny verify dfyconfig.toml` checks the whole project.

| module | component |
|---|---|
| `ImportedRefresh`, `NativeRefresh`, `ModelRefresh` | refreshing OAuth grants that many processes share behind a row lock |
| `AutomationTypes`, `AutomationStore` | the durable automation queue: idempotent submits, status tokens, receipts, pruning |
| `AgentAuth` | the replay cache of signed agent requests and its counters |
| `InstanceClaims` | the claim sets and jobs that keep resizes, disk grows and deletions of one server apart |
| `GmailAccount` | disconnecting a Gmail account while tokens and requests are under way |
| `ChannelScan` | the scan of a Discord bot's channels under a budget |
| `CallLog` | the batching log of model calls |
| `IsoWeek` | ISO week labels |
| `ConnectorKeys` | the keys of assigned connectors |
| `Version` | version precedence and the tag that is taken |
| `RootRelease` | installing a release for root, by calls that may overlap and stop |
| `Digest` | canonical JSON |
| `Mime`, with `Utf8` and `Base64` | encoded words and wrapped bodies |
| `LineParsers` | server-sent events and train lines, fed in chunks |
| `BranchChannel` | branch names as channel keys and as paths |
| `Search` | the names suggested for a misspelt tool |
| `Options`, `Sets`, `Text`, `Sorting` | what the others share |

How the models are built:

- A protocol or a store is a state, a step function that is one locked edit, transaction or stretch
  of code between two awaits, and runs of such steps. An invariant is kept by every step, and the
  theorems speak about all runs. Where the source updates an object in place, a class has its fields
  and methods, and each method's new state is the step function of the old one.
- What a component asks of the outside is a parameter of a step or of a method: answers of token
  endpoints and of AWS, clock readings, fresh ids and seals, and crashes as steps of their own.
- Where the code departs from its own description in some cases, the exact cases are proved. Week
  labels are wrong exactly for dates that touch the years 0 to 99, which `Date.UTC` reads as 1900 to
  1999. `previousWeek` names the week before exactly where that week lies in the years 100 to 9999;
  outside 0 to 9999 the ten characters it keeps of a date no longer hold the day. Feeding
  `drainLines` in two chunks does what feeding it at once does exactly under `ChunkingHarmless`:
  with a newline in the buffer, when its unfinished line and the chunk together are not dropped;
  without one, when the buffer is within the limit, or was blank before a newline of the chunk, or
  the chunk has no newline and is empty or beyond the limit itself. A branch survives its path
  exactly when it is well-formed. A proof can be accepted again exactly when `accept` reads its
  clock after the proof's window while `proofOf` had read it inside. The comparison of versions is
  an order exactly among texts that all parse, or whose versions all say the same. A release goes
  back exactly when a lower one is moved in whose call had found nothing installed, or had looked
  before another was moved in; only one of the two triggers takes a lock, so calls can
  overlap. A forced model refresh is sent within a minute of another exactly where no stamp holds it
  back: a sign-in replaced the other's stamp by one already a minute old, or the other brought no
  token and so left no stamp.
- A receipt recorded under an earlier token blocks the same outcome for a later token of the same
  request; `FinishSucceedsExactlyWhen` states this as the code has it.
- The call log's bound of 10 000 gathered rows is never reached, because a batch leaves at 100.

Assumed: SHA-256 and the request uuid made from it are injective; `newId()` and every seal are
fresh; row locks and SQLite transactions are serialised and atomic; a promise chain runs in order.

## Model

| member | source | states |
|---|---|---|
| `ImportedRefresh.ConnectorRow.RefreshImported` | packages/connectors/src/imported-refresh.ts:35-49 | one whole run, field by field: with nobody in between it sends exactly for an `owned` grant with a refresh token and a resource that is forced with its own revision, or unforced and expired; it sends only what it claimed and nobody replaced, ends `owned`, `signin` or `uncertain` by the answer with the tokens that answer leaves, and leaves another writer's row alone |
| `ImportedRefresh.ClaimsExactlyWhen` | packages/connectors/src/imported-refresh.ts:14-42 | a claim changes the row exactly for an owned grant that can be presented and is forced with its revision, or unforced and expired; the row then is that grant as `refreshing` under the new attempt and seal |
| `ImportedRefresh.SendsExactlyWhen` | packages/connectors/src/imported-refresh.ts:43-46 | a claimed run sends exactly when its attempt is still the stored one, and then the stored token |
| `ImportedRefresh.CommitsSpelled` | packages/connectors/src/imported-refresh.ts:20-33 | each answer leaves exactly its state and tokens: the new access token with the rotated or held refresh token, or the held ones as `signin` or `uncertain` |
| `ImportedRefresh.RunsGoOn` | packages/connectors/src/imported-refresh.ts:35-49 | after any run every step can come that the lock, the order of the program and fresh ids leave open, a crash at any time |
| `ImportedRefresh.AtMostOneSendPerGeneration` | packages/connectors/src/imported-refresh.ts:14-49 | in every interleaving with crashes anywhere, each saved `owned` state's token is sent at most once, each attempt sends at most once, and both of any two requests present exactly their generations' tokens |
| `ImportedRefresh.EachRequestPresentsItsGeneration` | packages/connectors/src/imported-refresh.ts:20-33 | every request of every run presents exactly the token its generation stored |
| `ImportedRefresh.TokenReuseNeedsStoredReuse` | packages/connectors/src/imported-refresh.ts:14-49 | a token is presented twice exactly when two saved generations held the same token |
| `ImportedRefresh.CommitReplacesOnlyItsClaim` | packages/connectors/src/imported-refresh.ts:44-48 | a run that sent can always commit, and replaces exactly the row its own claim saved, never what another writer stored since |
| `ImportedRefresh.AbandonedAttemptIsNeverResumed` | packages/connectors/src/imported-refresh.ts:35-49 | after a crash between claim and commit, no later refresh sends or changes the row; only another writer frees it |
| `ImportedRefresh.RunKeepsInv` | packages/connectors/src/imported-refresh.ts:14-49 | the invariant behind these: attempt ids unique, the lock held exactly by the sender, claims intact, requests in the order of generations, owned rows unsent |
| `ImportedRefresh.StepKeepsRequests` | packages/connectors/src/imported-refresh.ts:44-48 | every step keeps requests, generations and attempts in agreement |
| `ImportedRefresh.StepKeepsPending` | packages/connectors/src/imported-refresh.ts:37-42 | every step keeps an owned row, and a claim that has not sent, unsent |
| `NativeRefresh.ConnectorStore.Refresh` | packages/connectors/src/refresh.ts:34-69 | the locked edit, field by field: a token is sent exactly for a permitted native grant with a resource, a refresh token and the forced revision or, unforced, a passed expiry; a grant stores the new access token with the rotated or held refresh token under the new seal, a dead grant leaves no tokens and signed out, a failure the row and the `failed` entry |
| `NativeRefresh.ConnectorStore.CatalogueRefresh` | packages/connectors/src/catalogue-auth.ts:46-82 | the same for the native edit of a catalogue load, whose failure leaves everything as it was |
| `NativeRefresh.AtMostOneCommitPerRevision` | packages/connectors/src/refresh.ts:34-69 | among any deliveries, catalogue loads and other writers, at most one refresh saves anything for each revision, so at most one of those forced with one revision |
| `NativeRefresh.SpentRevisionIsInert` | packages/connectors/src/refresh.ts:34-43 | a refresh of either kind forced with a spent revision sends, saves and reports nothing |
| `NativeRefresh.OnlyTheNewestIsPresented` | packages/connectors/src/catalogue-auth.ts:46-82 | over any run of deliveries, catalogue loads and other writers, what a refresh of either kind presents is the newest refresh token issued, and none is between a dead grant and another writer's |
| `NativeRefresh.NextRefreshPresentsTheNewest` | packages/connectors/src/refresh.ts:58-69 | of two refreshes in a row the second presents the rotated token or the same one, nothing after a dead grant, and unforced only once the granted token has expired |
| `NativeRefresh.RunKeepsSpent` | packages/connectors/src/refresh.ts:34-69 | over any run replaced revisions stay behind and commits are only added |
| `NativeRefresh.EditsGoOn` | packages/connectors/src/catalogue-auth.ts:46-82 | after any run any refresh with a fresh seal can come, and any writer that keeps the sealed row or reseals it |
| `NativeRefresh.OneProtocolPerRow` | packages/connectors/src/refresh.ts:76-89 | the imported and the native phase of one delivery or catalogue load never both act on a row, so both present a token only when another writer stores a native grant between them |
| `ModelRefresh.RevisionNamesTheCredential` | packages/connectors/src/db/models.ts:69-79 | over any refreshes, sign-ins, patches and key edits the revision never falls, and while it stands the credential does |
| `ModelRefresh.RefreshSpelled` | packages/connectors/src/model-refresh.ts:35-70 | a refresh sends exactly for a live Codex credential that is forced with its revision and not stamped within 60 seconds, or unforced and within 5 minutes of expiry; a token, a dead grant and a failure each leave exactly their credential and revision |
| `ModelRefresh.OtherEditsSpelled` | apps/api/src/models/codex-save.ts:29-46 | what a sign-in, a patch and a key edit leave stored |
| `ModelRefresh.SignedOutUntilSignIn` | apps/api/src/models/codex-save.ts:41-46 | a signed-out Codex credential stays and presents nothing until a sign-in, and exactly a sign-in ends that |
| `ModelRefresh.ForcedRevisionCommitsOnce` | packages/connectors/src/model-refresh.ts:53-70 | once an edit forced with a revision changed the row, no edit forced with it sends again, whatever sign-ins, patches and refreshes come between |
| `ModelRefresh.ForcedWithinTheGapExactlyWhen` | packages/connectors/src/model-refresh.ts:41-70 | within a minute of any refresh that was sent, another is sent by force if and only if it names the current revision of a live connection and no stamp holds it back: the last credential saved since is a sign-in that read its clock a minute before, or the first refresh brought no token and the stamps before it are old and untouched |
| `ModelRefresh.ForcedRequestsKeepTheGap` | packages/connectors/src/model-refresh.ts:41-70 | so, where no sign-in waits a minute for its lock, forced requests stay a minute away from a refresh that brought a token; after one that brought none only old, untouched stamps let one through |
| `ModelRefresh.GapFails` | apps/api/src/models/codex-save.ts:29-46 | the run in which the gap fails: a refresh, a sign-in stamped before it, and a forced request 59 seconds after the refresh |
| `ModelRefresh.GapFailsAfterAFailure` | packages/connectors/src/model-refresh.ts:66-69 | the other run in which it fails: a refresh that failed leaves no stamp, and the same token goes out by force a second later |
| `ModelRefresh.OnlyTheNewestIsPresented` | packages/connectors/src/model-refresh.ts:53-70 | over any run of edits what is presented is the newest refresh token issued by a sign-in or a refresh, and nothing between a dead grant and the next sign-in |
| `ModelRefresh.Flights.Request` | packages/connectors/src/model-refresh.ts:72-81 | a request joins the running flight of its connection or starts the only one |
| `ModelRefresh.Flights.Settle` | packages/connectors/src/model-refresh.ts:76-78 | the delete by name always removes the settled flight itself and no other |
| `AutomationStore.Store.Submit` | packages/core/src/automation-store.ts:97-112 | over tables that read, the answer and the tables in every case: the window of 7 days back and 5 minutes ahead at both clock readings, the forms of routine and prompt, the held request or `conflict`, 512 requests at most, and otherwise the stored request with the given routine, slot and prompt, its digest and the second reading; each error in its order |
| `AutomationStore.ProposeSpelled` | packages/core/src/automation-types.ts:96-106 | what a submit proposes, and its errors in their order, with every bound written out |
| `AutomationStore.SubmitSpelled` | packages/core/src/automation-store.ts:100-112 | answer and tables of the transaction of a submit in every case |
| `AutomationTypes.JsonLengthIs` | packages/core/src/automation-types.ts:80-82 | the length the prompt limit looks at is that of the UTF-8 bytes of the JSON text |
| `AutomationStore.Store.SaveStatus` | packages/core/src/automation-store.ts:127-134 | the status of a known request becomes exactly the given one, all else stays; a time out of range and an unknown request are refused |
| `AutomationStore.Store.Finish` | packages/core/src/automation-store.ts:136-153 | over tables that validate, answer and tables in every case: token checks outside and inside the transaction, whatever other processes stored in between, the first error, the new receipt, and the first receipt standing |
| `AutomationStore.CheckSpelled` | packages/core/src/automation-store.ts:136-140 | the answer of the check outside the transaction, in every case |
| `AutomationStore.FinishSpelled` | packages/core/src/automation-store.ts:141-153 | answer and tables of the transaction of a finish in every case |
| `AutomationStore.Store.DeleteRequest` | packages/core/src/automation-files.ts:10-26 | one delete takes the request's status and receipts along and nothing else |
| `AutomationStore.Store.DeleteAll` | packages/core/src/automation-store.ts:167-167 | the delete loop removes exactly the expired requests with their rows, in any order |
| `AutomationStore.Store.Prune` | packages/core/src/automation-store.ts:159-170 | an unsafe cutoff, tables that do not read and a corrupt store change nothing and answer their errors; otherwise exactly the expired requests go and their number is answered |
| `AutomationStore.AcceptedExactlyOnce` | packages/core/src/automation-store.ts:97-170 | over any run under a non-decreasing clock no (routine, slot) is inserted twice, however pruned between, and all accepted submits for it answer the identical request |
| `AutomationStore.PrunedIsRefused` | packages/core/src/automation-types.ts:84-105 | what pruning deleted is refused for ever by the slot window |
| `AutomationStore.RepeatedSubmitAnswersHeld` | packages/core/src/automation-store.ts:97-112 | in every reachable store a repeat inside the written-out window answers the held request unchanged, or `conflict` for another prompt |
| `AutomationStore.NewSubmitIsAccepted` | packages/core/src/automation-store.ts:97-112 | in every reachable store a new request inside the written-out window is stored with the given routine, slot and prompt, its digest and the clock reading, unless 512 are held; the same submit repeated in the window answers that row |
| `AutomationStore.ReachableStoreValidates` | packages/core/src/automation-store.ts:31-72 | every reachable store passes `validate` and all read limits; each row carries its own key, the digest of its prompt and times in range, with no orphan row and at most two receipts for each request |
| `AutomationStore.FinishSucceedsExactlyWhen` | packages/core/src/automation-store.ts:136-153 | whatever transactions run between its check and its own, a finish succeeds exactly when the token is the status token at both and no receipt of the outcome stands under another; the receipt carries that token, and a repeat returns the first one |
| `AutomationStore.ReceiptsNeverChange` | packages/core/src/automation-store.ts:136-153 | over a whole run, every receipt handed out for one request and outcome is the same |
| `AutomationStore.PruneTakesExactlyTheExpired` | packages/core/src/automation-store.ts:74-80 | a request goes exactly when its status is terminal and slot and update are older than the retention; the others keep every row |
| `AutomationStore.SoundValidates` | packages/core/src/automation-files.ts:9-28 | the schema's keys and cascades alone bound the three tables |
| `AutomationStore.SubmitCases` | packages/core/src/automation-store.ts:100-110 | a submit changes the tables only to insert one well-formed request with a current slot |
| `AutomationStore.TransactionsGoOn` | packages/core/src/automation-store.ts:97-170 | after any run every transaction can come under a clock that does not go back |
| `AgentAuth.Auth.Bump` | packages/connectors/src/agent-auth.ts:76-80 | a counter moves by the given amount and is removed at zero |
| `AgentAuth.Auth.Prune` | packages/connectors/src/agent-auth.ts:82-92 | the throttled loop forgets exactly the nonces past their time and keeps every counter in agreement |
| `AgentAuth.Auth.Remember` | packages/connectors/src/agent-auth.ts:60-70 | deciding by counters is deciding by the nonces that stand: the proof is accepted exactly when its name is absent and the numbers with its key, with its owner and in all are below their limits, each refusal has its own exact condition in the order of the code, and an acceptance adds exactly this nonce until its time plus five minutes; the counters stay in agreement |
| `AgentAuth.RemembersExactly` | packages/connectors/src/agent-auth.ts:60-70 | the same about the specification: each verdict has its exact condition over the standing nonces |
| `AgentAuth.ForgetKeepsAgreement` | packages/connectors/src/agent-auth.ts:86-91 | forgetting a nonce with its two bumps keeps each counter equal to its number of nonces and absent exactly at zero |
| `AgentAuth.RememberKeepsAgreement` | packages/connectors/src/agent-auth.ts:67-69 | so does remembering one |
| `AgentAuth.NonceNameInjective` | packages/connectors/src/agent-auth.ts:62-62 | the joined name stands for one key and nonce |
| `AgentAuth.NoProofTwiceInItsWindow` | packages/connectors/src/agent-auth.ts:47-70 | under a non-decreasing clock no proof is accepted twice inside its window, though pruning forgets; where `accept` reads the instant `proofOf` read, never |
| `AgentAuth.AcceptedAgainExactlyPastTheWindow` | packages/connectors/src/agent-auth.ts:47-92 | a checked proof can be accepted again if and only if `accept` reads its clock past the proof's window |
| `AgentAuth.ServiceGoesOn` | packages/http/src/agent-signature.ts:89-89 | after any run every checked proof within five minutes of the clock is served |
| `AgentAuth.LimitsAlwaysHold` | packages/connectors/src/agent-auth.ts:64-66 | in every reachable state the total, key and owner limits hold |
| `AgentAuth.ServeKeepsGuarded` | packages/http/src/agent-signature.ts:89-89 | every step keeps an accepted proof remembered or outside the skew |
| `InstanceClaims.Api.TryResize` | apps/api/src/size.ts:132-140 | a resize claims exactly when neither claim set names the instance and no job kept for it runs; the claim and the suspended handler are then the only change |
| `InstanceClaims.Api.SettleResize` | apps/api/src/size.ts:116-149 | the claim and the handler go, in the stretch that stores the running job when the request is allowed, and alone when it is refused |
| `InstanceClaims.Api.TryGrow` | apps/api/src/storage.ts:158-167 | a grow claims exactly when neither claim set names the instance and no job kept for it runs; the claim and the suspended handler are then the only change |
| `InstanceClaims.Api.Follow` | apps/api/src/storage.ts:143-172 | the job is stored while the claim is still held |
| `InstanceClaims.Api.LeaveGrow` | apps/api/src/storage.ts:168-176 | the claim goes from either await |
| `InstanceClaims.Api.TryDelete` | apps/api/src/deletion.ts:91-115 | a deletion starts exactly when nothing holds the instance and no deletion of the same server runs |
| `InstanceClaims.Api.LeaveDelete` | apps/api/src/deletion.ts:104-106 | its claim goes at the end |
| `InstanceClaims.HoldersExclude` | apps/api/src/size.ts:116-149 | in every interleaving no two resizes, no two grows and no resize with a grow hold one instance, suspended handlers and running jobs alike |
| `InstanceClaims.DeletionsNeverOverlap` | apps/api/src/deletion.ts:91-107 | two deletions of one server never overlap |
| `InstanceClaims.HeldInstanceAdmitsNoStart` | apps/api/src/server.ts:98-99 | the checks are exact: no resize, grow or deletion starts while a resize or grow holds the instance; otherwise a resize and a grow start, and a deletion does unless one of the server already runs |
| `InstanceClaims.HeldUntilTheWorkEnds` | apps/api/src/size.ts:40-43 | no gap: a resize's instance is free again only by its refusal or the end of its job |
| `InstanceClaims.GrowHeldUntilTheWorkEnds` | apps/api/src/storage.ts:61-64 | the same for a grow, whose handler stays on beside its job |
| `InstanceClaims.FreedExactlyWhen` | apps/api/src/size.ts:141-149 | in every reachable state a held instance is freed exactly by the refusal of its resize or grow, by the showing of a grow whose job has ended, or by the end of its job with no grow still to be shown |
| `InstanceClaims.DeletionFreedExactlyWhen` | apps/api/src/deletion.ts:91-107 | a deletion can be started again exactly once its handler has ended, and until then there is such a handler |
| `InstanceClaims.RunsGoOn` | apps/api/src/size.ts:116-149 | after any run handlers start at any time and go on from where they are suspended, and a running job may end |
| `InstanceClaims.ChecksSeeEveryHolder` | apps/api/src/storage.ts:61-64 | `resizing` and `growing` hold exactly when some handler or job holds the instance |
| `GmailAccount.Account.StartToken` | packages/gmail/src/accounts.ts:83-91 | a token is refreshed exactly while the account is open and its binding checks out, and is pending from then on |
| `GmailAccount.Account.EndToken` | packages/gmail/src/accounts.ts:92-98 | the token is handed over exactly if it came and the account is still open and bound; pending or not, the handler goes |
| `GmailAccount.Account.StartDisconnect` | packages/gmail/src/accounts.ts:101-107 | the four ways a disconnect begins, by id, earlier revocation and one under way |
| `GmailAccount.Account.EndRevoke` | packages/gmail/src/accounts.ts:108-113 | success revokes for good, failure opens the account again |
| `GmailAccount.RevocationSeesNoRefresh` | packages/gmail/src/accounts.ts:101-114 | in every interleaving, while a revocation is out no refresh is in flight that could save another token, and none can start |
| `GmailAccount.DisconnectsExclude` | packages/gmail/src/accounts.ts:101-114 | disconnects never overlap, at most one revocation ever succeeds, and the account is closing exactly while one is under way or after it |
| `GmailAccount.NothingIsHandedAfterRevocation` | packages/gmail/src/accounts.ts:83-121 | from a successful revocation on, no token and no response is handed out again, whatever was under way |
| `GmailAccount.ClosedWhileDisconnecting` | packages/gmail/src/accounts.ts:105-113 | while a disconnect is under way nothing is handed out, and exactly its failure opens the account |
| `GmailAccount.HandsExactlyWhen` | packages/gmail/src/accounts.ts:88-121 | in every run something is handed out exactly by a refresh or a request that succeeded on a valid binding while no disconnect is under way and none has succeeded |
| `GmailAccount.OtherStepsSpelled` | packages/gmail/src/accounts.ts:107-121 | what a request's start and end, a settled refresh and the sending of a revocation change |
| `GmailAccount.RunsGoOn` | packages/gmail/src/accounts.ts:88-121 | after any run handlers start at any time and go on from where they stand |
| `ChannelScan.Snapshot.CanFetch` | packages/discord-bot/src/channels.ts:61-68 | a charge is taken exactly within 100 requests and 30 seconds, and a refusal is always announced |
| `ChannelScan.Snapshot.Collect` | packages/discord-bot/src/channels.ts:70-79 | offers join in order up to the scan limit, whose passing is announced |
| `ChannelScan.Snapshot.Add` | packages/discord-bot/src/channels.ts:81-93 | the directory after one more offer |
| `ChannelScan.EntriesAreFirst` | packages/discord-bot/src/channels.ts:81-93 | the directory holds one entry for each line, and exactly the entries of the first offers that have one |
| `ChannelScan.ListedSpelled` | packages/discord-bot/src/channels.ts:27-43 | which channels the directory holds and as what: kind by type, nothing archived, direct and group channels among the direct ones, otherwise what the bot may view, a private thread only when joined or managed |
| `ChannelScan.CollectGuild` | packages/discord-bot/src/channels.ts:109-112 | every call of a guild is charged first, a stop is announced, and an error is thrown exactly when the last call failed, with its kind |
| `ChannelScan.CollectThreads` | packages/discord-bot/src/channels.ts:111-118 | refused threads are omitted and told of; any other error for threads is thrown |
| `ChannelScan.VisitGuild` | packages/discord-bot/src/channels.ts:121-129 | opens exactly this guild; a refused one is omitted and told of, and any other error is thrown |
| `ChannelScan.VisitPage` | packages/discord-bot/src/channels.ts:139-144 | the loop over one page opens each guild not visited before exactly once |
| `ChannelScan.AskPage` | packages/discord-bot/src/channels.ts:135-137 | one charged call for the page after the last guild seen |
| `ChannelScan.CollectGuilds` | packages/discord-bot/src/channels.ts:131-152 | ends for every source, opens no guild twice, asks for a page only after a full one that advanced, and unless a reason says so reached a short page with every guild of every page opened |
| `ChannelScan.Load` | packages/discord-bot/src/channels.ts:154-173 | for every source: at most 100 requests, each charged before it leaves and nothing else charged, all in time; at most 34 pages, each after a full page that advanced; no guild twice; the first 5000 channels' entries; each announcement exactly when its calls were refused or its limit was passed; and an error thrown exactly when some call failed otherwise |
| `ChannelScan.TellsExactly` | packages/discord-bot/src/channels.ts:154-173 | of threads, guilds and pages exactly the refusals are announced, a refused page by whether others came before it |
| `ChannelScan.PagesBounded` | packages/discord-bot/src/channels.ts:133-151 | pages must advance and a guild costs two, so a hundred requests see at most 34 pages |
| `CallLog.Log.Add` | apps/gateway/src/recorder.ts:21-31 | a row joins, and at a hundred they leave |
| `CallLog.Log.Flush` | apps/gateway/src/recorder.ts:33-40 | what has gathered joins the end of the chain |
| `CallLog.Log.EndWrite` | apps/gateway/src/recorder.ts:47-60 | how each end of a write changes the flag and what it logs |
| `CallLog.RunsGoOn` | apps/gateway/src/recorder.ts:21-60 | after any run rows come and flushes happen at any time, and one write ends before the next starts |
| `CallLog.EveryRowIsWrittenOnceInOrder` | apps/gateway/src/recorder.ts:21-40 | over any run the batches of the chain and the gathering rows are exactly the rows added, in order; batches have 1 to 100 rows, nothing is dropped, and gathering rows have a timer |
| `CallLog.DrainWaitsForEverythingBefore` | apps/gateway/src/recorder.ts:42-45 | when the chain of a drain has ended, every row added before it was written |
| `CallLog.OutagesAreAnnouncedOnce` | apps/gateway/src/recorder.ts:50-55 | the loss of the table and its return are logged in turn, once each |
| `IsoWeek.IsoWeekLabel` | packages/cli/src/memory.ts:97-103 | the label computed in place, which is the calendar's outside the years 0 to 99 |
| `IsoWeek.ComputedExactlyInPlainYears` | packages/cli/src/memory.ts:97-103 | the computed year and week are those of section 2.2.10 of ISO 8601:2004 if and only if neither the date nor its Thursday lies in the years 0 to 99 |
| `IsoWeek.SameLabelExactlyInOneWeek` | packages/cli/src/memory.ts:97-103 | any two dates have one label exactly when the dates the code makes of them share a Monday-to-Sunday week, so outside the years 0 to 99 exactly when they themselves do; where the label is the calendar's its week is 1 to 53 |
| `IsoWeek.WeekFiftyThree` | packages/cli/src/memory.ts:97-103 | week 53 exists exactly in years starting on Thursday and leap years starting on Wednesday, and no week 54 |
| `IsoWeek.IsoWeekUnique` | packages/cli/src/memory.ts:97-103 | the calendar's definition gives a day one year and week |
| `IsoWeek.LabelInjective` | packages/cli/src/memory.ts:102-102 | a label names one year and week, whatever was computed |
| `IsoWeek.MovedExactlyWhen` | packages/cli/src/memory.ts:98-98 | `Date.UTC` moves exactly the dates of the years 0 to 99 |
| `IsoWeek.MidnightSpelled` | packages/cli/src/memory.ts:98-98 | it makes the date of the same month and day, in 1900 to 1999 for the years 0 to 99 |
| `IsoWeek.PreviousWeek` | packages/cli/src/memory.ts:105-108 | the texts it returns name the Monday and the Sunday of the week before, and its label is the calendar's, if and only if that week lies in the years 100 to 9999 |
| `IsoWeek.PreviousWeekExactlyWhen` | packages/cli/src/memory.ts:105-107 | when the Monday it computes is that of the week before, and when its label is the calendar's |
| `IsoWeek.TextNamesExactlyWhen` | packages/cli/src/memory.ts:95-95 | `dayOf` names its day and no other if and only if its year is one of 0 to 9999; for others the day is cut off |
| `IsoWeek.DayFromIs` | packages/cli/src/memory.ts:95-95 | year, month and day are those of their day number |
| `IsoWeek.CalendarAnchors` | packages/cli/src/memory.ts:97-102 | day 0 is Thursday, 1 January 1970; years have 365 or, when leap, 366 days, and weekdays follow one another |
| `IsoWeek.MonthsSpelled` | packages/cli/src/memory.ts:95-95 | the twelve months have their lengths, February 29 days in leap years |
| `IsoWeek.DayTextSpelled` | packages/cli/src/memory.ts:95-95 | the ten characters of a date in the years 0 to 9999, digit by digit |
| `IsoWeek.FarDayTextSpelled` | packages/cli/src/memory.ts:95-95 | for years before 0 or after 9999: a sign, six digits and the month |
| `IsoWeek.LabelSpelled` | packages/cli/src/memory.ts:102-102 | the label is the year, `-W` and two digits of the week |
| `IsoWeek.PreviousWeekIsTheWeekBefore` | packages/cli/src/memory.ts:105-107 | where Monday and label are right, the seven days from it are exactly the week before the one holding `now`, and the label is each day's |
| `ConnectorKeys.Assign` | packages/connectors/src/connector-keys.ts:23-46 | the loops and the search, which end, compute the specified keys |
| `ConnectorKeys.SlugIsKey` | packages/connectors/src/connector-keys.ts:9-19 | a slug is at most 63 lower-case letters, digits and inner dashes |
| `ConnectorKeys.SlugJoinsTheWords` | packages/connectors/src/connector-keys.ts:9-19 | the slug is the words of the name, its longest runs of letters and digits, joined by single dashes, cut after 63 characters and before a dash that would stand last; without words it is `connector` |
| `ConnectorKeys.WordsIn` | packages/connectors/src/connector-keys.ts:14-14 | every name is such words with gaps between them |
| `ConnectorKeys.SuffixedSpelled` | packages/connectors/src/connector-keys.ts:21-21 | a suffixed slug fits in 63 characters by cutting the slug, never the number |
| `ConnectorKeys.SlugIsStable` | packages/connectors/src/connector-keys.ts:9-19 | a slug is its own slug |
| `ConnectorKeys.SuffixInjective` | packages/connectors/src/connector-keys.ts:21-21 | suffixed names with different numbers differ, however the slugs are cut |
| `ConnectorKeys.SearchShrinks` | packages/connectors/src/connector-keys.ts:41-41 | each step of the search leaves one used name behind for good |
| `ConnectorKeys.SearchStops` | packages/connectors/src/connector-keys.ts:40-41 | the search stops within the number of used and reserved keys |
| `ConnectorKeys.FreeFrom` | packages/connectors/src/connector-keys.ts:40-41 | it finds the first free suffix |
| `ConnectorKeys.KeysAreDistinctAndWellFormed` | packages/connectors/src/connector-keys.ts:23-46 | every row has a key of the right form and no two rows share one |
| `ConnectorKeys.LowestIdKeepsTheSlug` | packages/connectors/src/connector-keys.ts:29-44 | the lowest id of each slug keeps it bare; every other row gets its slug with a suffix that is no row's slug |
| `ConnectorKeys.OrderOfRowsIsIrrelevant` | packages/connectors/src/connector-keys.ts:24-24 | the keys do not depend on the order of the rows |
| `Version.ScansExactly` | packages/cli/src/version.ts:14-15 | reading captures exactly the ways a text matches the expression, and there is at most one |
| `Version.ParsesExactly` | packages/cli/src/version.ts:13-24 | a text parses exactly when, trimmed, it is written as the expression says, and to what the captures say |
| `Version.VersionReadsBack` | packages/cli/src/version.ts:13-24 | every version reads back from its text |
| `Version.ComparePartIs` | packages/cli/src/version.ts:28-37 | the comparison of two identifiers is their order in section 11 of Semantic Versioning 2.0.0 |
| `Version.ComparePre` | packages/cli/src/version.ts:39-48 | the loop over identifiers is the order of prereleases |
| `Version.CompareVersions` | packages/cli/src/version.ts:50-60 | the comparison is precedence as section 11 defines it, and 0 when either text is no version |
| `Version.PrecedenceSpelled` | packages/cli/src/version.ts:28-60 | precedence with every comparison written out: major, minor, patch, then a prerelease below its release, then the first identifier that differs or the shorter list |
| `Version.IdentifierSpelled` | packages/cli/src/version.ts:28-37 | numbers by value and below words, words by their first difference |
| `Version.VersionsOrdered` | packages/cli/src/version.ts:28-60 | precedence is a strict total order on what versions say |
| `Version.CompareIsATotalPreorder` | packages/cli/src/version.ts:50-60 | on versions the sign is antisymmetric and the comparison transitive, and 0 exactly for versions that say the same |
| `Version.TransitiveExactlyWhen` | packages/cli/src/version.ts:50-53 | among any texts it is transitive exactly when all are versions or all versions among them say the same |
| `Version.TransitivityFails` | packages/cli/src/version.ts:50-53 | 2.0.0, a text that is no version, and 1.0.0 show it fail |
| `Version.LessIsPrecedes` | packages/cli/src/version.ts:36-36 | comparing strings is comparing them at their first difference |
| `Version.NewestOf` | packages/cli/src/version.ts:72-79 | the first tag that no readable tag exceeds, and nothing exactly when no tag is readable |
| `RootRelease.ReleasesAreVersions` | packages/cli/src/root-release.ts:9-33 | whatever has a release's form is a version |
| `RootRelease.IsVersionExactlyWhen` | packages/cli/src/root-release.ts:9-33 | a text is a release exactly when it is three numbers of 1 to 9 digits and at most five words of 1 to 20 letters and digits |
| `RootRelease.Directories.Begin` | packages/cli/src/root-release.ts:83-95 | what a call answers before its first await, and when it goes on |
| `RootRelease.Directories.Stage` | packages/cli/src/root-release-io.ts:114-128 | unpacking replaces whatever was in the staging directory |
| `RootRelease.Directories.Away` | packages/cli/src/root-release-io.ts:143-147 | the first rename of a swap leaves nothing installed |
| `RootRelease.Directories.In` | packages/cli/src/root-release-io.ts:143-149 | the second moves in what is staged, and fails when nothing is or a release is in place |
| `RootRelease.Directories.Install` | packages/cli/src/root-release.ts:83-102 | what a call no other disturbs answers and leaves installed, by the versions, the trigger and how far its work got |
| `RootRelease.OneCallLowersExactlyWhen` | packages/cli/src/root-release.ts:83-102 | one undisturbed call takes what is installed below a version if and only if it finds nothing installed and swaps a lower one in |
| `RootRelease.GoesBackExactlyWhen` | packages/cli/src/root-release.ts:83-102 | in every interleaving of calls that may stop anywhere, the release goes back if and only if a package lower than one installed before is moved in whose call found nothing installed, or looked before another was moved in |
| `RootRelease.MissingOnlyBetweenRenames` | packages/cli/src/root-release-io.ts:143-149 | an installed release is missing only while a call is between its two renames, or after one ended there |
| `RootRelease.NeverLowered` | packages/cli/src/root-release.ts:83-102 | so calls that do not overlap and are not stopped between their renames never take the release back |
| `RootRelease.OverlapGoesBack` | packages/cli/src/root-release.ts:85-99 | the overlap that does: two calls look at one release, the higher is moved in first and the lower after it |
| `RootRelease.AfterAnInterruptionAnyGoesIn` | packages/cli/src/root-release-io.ts:143-149 | after a call stopped between its renames any release at all goes in, however old |
| `RootRelease.RunsGoOn` | packages/cli/src/root-release.ts:83-102 | after any run calls begin at any time, go on from where they are, and may stop anywhere |
| `Digest.CanonicalDecides` | apps/mcp/src/digest.ts:6-10 | canonical values are equal exactly when the values are equal up to the order of members |
| `Digest.PrintUnique` | apps/mcp/src/digest.ts:12-12 | a printed text comes from one value only |
| `Digest.SameTextExactlyWhenSame` | apps/mcp/src/digest.ts:6-12 | two values have one canonical text exactly when they are equal up to the order of members at every depth |
| `Digest.CanonicalIsStable` | apps/mcp/src/digest.ts:6-12 | canonicalising puts members in order at every depth, changes nothing else, and doing it twice changes nothing |
| `Digest.InsertCommutes` | apps/mcp/src/digest.ts:9-9 | sorting forgets the order members came in |
| `Digest.BeforeSpelled` | apps/mcp/src/digest.ts:9-9 | members whose names are array indices come first and by number, the others by their names |
| `Digest.EscapeSpelled` | apps/mcp/src/digest.ts:12-12 | which characters stand for themselves in a printed string, and how each other is escaped |
| `Digest.SimpleValues` | apps/mcp/src/digest.ts:6-8 | which values the theorems take: null, booleans, strings and numbers as JavaScript prints them |
| `Mime.Utf8Chunks` | packages/gmail/src/mime.ts:24-32 | the loop computes the chunks of the value |
| `Mime.ChunksCutTheValue` | packages/gmail/src/mime.ts:24-32 | the chunks concatenate to the value, split no character, fit 45 bytes and are closed only when the next character does not fit |
| `Mime.WordFits` | packages/gmail/src/mime.ts:34-35 | an encoded word is at most 75 characters (section 2 of RFC 2047) |
| `Mime.EncodedWordReadsBack` | packages/gmail/src/mime.ts:34-35 | a value that needs encoding reads back from its folded words, and each word reads on its own (sections 5 and 6.2 of RFC 2047) |
| `Mime.SentRawOrEncoded` | packages/gmail/src/mime.ts:20-35 | printable ASCII goes out as it is; anything else starts and ends as encoded words of UTF-8 in base64 and reads back |
| `Mime.BodyReadsBack` | packages/gmail/src/mime.ts:37-37 | a wrapped body decodes to its bytes once line breaks are dropped |
| `Mime.LinesAreFull` | packages/gmail/src/mime.ts:37-37 | a break stands after every 76 characters and at the end, and nowhere else |
| `Base64.RoundTrip` | packages/gmail/src/mime.ts:34-37 | base64 as section 4 of RFC 4648 has it decodes to the bytes |
| `Base64.ReadsExactly` | packages/gmail/src/mime.ts:34-37 | a text is read as bytes exactly when it is their base64, so no other padding and no stray bits are read |
| `Base64.EncodeSpelled` | packages/gmail/src/mime.ts:34-37 | three bytes are one number of 24 bits, written as four digits of the table of section 4 of RFC 4648 |
| `Base64.PaddingSpelled` | packages/gmail/src/mime.ts:34-37 | missing bytes are zeros whose digits are `=` |
| `Utf8.RoundTrip` | packages/gmail/src/mime.ts:28-35 | UTF-8 decodes to the text |
| `Utf8.ReadsExactly` | apps/bundler/src/branchChannel.ts:4-4 | bytes are read as a text exactly when they are its UTF-8, so nothing overlong, cut or surrogate is read |
| `Utf8.Injective` | apps/bundler/src/branchChannel.ts:4-4 | no two texts have the same bytes |
| `LineParsers.SseDataLines` | packages/cli/src/tail.ts:10-24 | the loop computes the data events of the finished lines and keeps the unfinished one |
| `LineParsers.EventSpelled` | packages/cli/src/tail.ts:17-21 | a line without its last `\r` carries an event exactly when it starts with `data:`, and the event is the rest without one blank |
| `LineParsers.EventsIgnoreChunking` | packages/cli/src/tail.ts:69-89 | however a stream is cut into chunks, its events and its unfinished line are those of the whole |
| `LineParsers.DrainLines` | packages/core/src/protocol.ts:105-125 | the loop hands on the trimmed, non-blank lines in order and keeps the unfinished one, or drops it beyond 4 MiB |
| `LineParsers.KeptBetweenBlanks` | packages/core/src/protocol.ts:117-120 | a line between white space is handed on without it, and not at all when nothing is left |
| `Text.SpaceSpelled` | packages/core/src/protocol.ts:117-117 | what `trim` takes away, code by code |
| `LineParsers.DrainingIgnoresChunkingExactlyWhen` | packages/core/src/protocol.ts:105-125 | two feeds do what one does exactly when no unfinished line passed its limit or the dropped one could not be missed |
| `LineParsers.LinesIgnoreChunking` | packages/core/src/protocol.ts:105-125 | while no unfinished line passes its limit, any chunking hands on the lines of the whole |
| `LineParsers.RemainderIsBounded` | packages/core/src/protocol.ts:105-125 | for every input what is kept has no newline and is no longer than the larger of the limit and the last chunk |
| `LineParsers.CutConcat` | packages/cli/src/tail.ts:14-15 | cutting a longer text goes on from the unfinished line of its front |
| `LineParsers.CutJoins` | packages/cli/src/tail.ts:14-15 | the lines and the rest joined by newlines are the text again, and none holds a newline |
| `BranchChannel.KeyReadsBack` | apps/bundler/src/branchChannel.ts:3-8 | the escape code has a decoder and emits only letters, digits, dot, dash and underscore |
| `BranchChannel.KeySpelled` | apps/bundler/src/branchChannel.ts:1-8 | letters, digits, dot and dash stand for themselves, any other byte is an underscore and two lower-case hex digits |
| `BranchChannel.ChannelKeyIsInjective` | apps/bundler/src/branchChannel.ts:3-8 | a channel key names one branch |
| `BranchChannel.PathReadsBackExactlyWhenOk` | apps/bundler/src/branchChannel.ts:10-23 | a branch comes back from its own path exactly when it is not empty, no slash stands at an end or beside another, and no part starts with a dot |
| `BranchChannel.UriSpelled` | apps/bundler/src/branchChannel.ts:21-23 | which characters of a part stay as they are, and which are escaped |
| `BranchChannel.EscapesSpelled` | apps/bundler/src/branchChannel.ts:21-23 | each byte of an escaped character is `%` and two upper-case hex digits |
| `Search.Similarity` | apps/mcp/src/search.ts:82-95 | the splice loop computes the size of the multiset intersection of the bigrams, doubled, over their number |
| `Search.BigramsSpelled` | apps/mcp/src/search.ts:77-80 | the pairs of neighbouring characters in lower case, in order |
| `Search.ScoreSpelled` | apps/mcp/src/search.ts:82-95 | the score by what the two names share, and for names without pairs by equality |
| `Search.ScoreIsASimilarity` | apps/mcp/src/search.ts:82-95 | the score is symmetric, from 0 to 1, 1 for names equal up to case and exactly for equal bigrams, positive exactly when a bigram is shared |
| `Search.ClosestAreTheBest` | apps/mcp/src/search.ts:97-104 | the suggestions are given names with a positive score; of any two the earlier has the higher score, or the same score and the lower name; a name is left out only when `max` names are there that all have a higher score, or the same score and a lower name |
| `Search.BetterSpelled` | apps/mcp/src/search.ts:101-101 | a higher score, or the same score and a lower name |
| `Search.ClosestIgnoreOrder` | apps/mcp/src/search.ts:97-104 | they depend on which names are given, not on their order or repetition |
| `Search.TakeOne` | apps/mcp/src/search.ts:88-93 | taking a shared bigram out of the pool takes one from what is common |

## Left out

- Characters are Unicode scalar values where JavaScript has UTF-16 units: lone surrogates, and lengths and slices that would cut a pair, are not modelled.
- Cryptography and seals: signatures, HMACs, hashes and sealing are taken as injective or fresh; checking a signature, and refusing a browser, is not modelled.
- The database: locks and transactions are atomic and serialised; file checks, recovery and the drizzle stores are not modelled.
- HTTP routing, AWS, Discord, Gmail, WorkOS and MCP clients: their answers are arbitrary values.
- Other writers of a connector row never store a `refreshing` grant; only a claim does.
- The policy gate of the two imported phases: a gate that closes between them is a run that ends there.
- Removing a model connection ends its runs; what a later connection of the same label does is a new run.
- The 45 second deadline of `refreshConnector` is one of the failures of a token request.
- The `detail` texts a refresh writes, beyond sign-in and refresh times.
- Automation uuids that are malformed, slots that are not integers, unknown fields and the `detail` of a status are refused before the model begins; `quick_check` is not modelled.
- A resize or grow may start while a deletion runs: the code does not check it.
- Week labels and day texts outside the range JavaScript dates have, and the time of day.
- `ConnectorKeys` takes names after NFKD, removal of combining marks and lower-casing.
- ConnectorKeys.KeysAreDistinctAndWellFormed: asks for at most 2^32 - 1 rows, the longest array JavaScript has, because a suffix must leave room for its digits.
- `Digest` takes numbers by the text JavaScript prints for them; `undefined`, functions, infinities and the two zeros are not values of the model. `previewOf` and `argsDigest` cut and hash the text and are not modelled.
- `toLowerCase` in `Search` is modelled for ASCII, and scores are real numbers; `select` and `rank` are a filter and a sort and are not modelled.
- Version numbers are natural numbers, where JavaScript rounds them above 2^53; leading zeros are accepted as the code accepts them.
- `installRelease` takes the checks of a tarball as one outcome, and unpacking as one step, so files of two unpackings at the same instant never mix; `setup` and `publishedVersion` are not modelled.
- Values in ASCII that look like encoded words are left as they are by the code, so reading them back is not claimed; assembling a message (`buildMime`) and file headers are not modelled.
- The decoding of a byte stream into text before `sseDataLines`, its timers and reconnects; `parseTrainLine`, `sendCall` and `failAllPending`.
- `ChannelScan` takes iterables as finite sequences; one that never ends behaves as a sequence longer than the scan limit. Cursors and filters of the channel directory are not modelled.
- The token keeper and the managed binding of a Gmail account are arbitrary: a refresh settles at some time, and the binding check may fail at any time.
- `CallLog` takes the timer as a step that may happen while it is set; the log lines of other failures are not modelled.
- Editing model routes (`model-route.ts`) filters and truncates lists and would add only easy members.
- `settleWorkstreams` and `digest` of the memory routine read and write files.
