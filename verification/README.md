# Verified models of the sales automation

This project models, in Dafny 4.11, the parts of the WhatsApp sales automation that
are hard to get right by reading: a reply protocol between processes that may die at
any moment, scans of listings that move, a registry of claims, two publication
transactions, and the code that flattens, compares, escapes, parses, renders and
pages data. `dafny verify dfyconfig.toml` checks all of it.

Each module follows one component.

| module | component |
|---|---|
| `Messages`, `HistoryReader` | messages of a conversation; the paged reader of a history |
| `CanonicalSnapshot` | the facts about a conversation since an anchor |
| `ReplyAuthorization`, `ReplyDecision` | whether a part of a reply may go out; what each verdict means in the history |
| `ReplyProtocol`, `ReplySteps`, `ReplyOrder`, `ReplyProgress`, `ReplyFailures` | workers, lock, journals, POSTs and history as a state machine; the steps that lead to a POST; the order in which parts arrive; that they can; what may fail |
| `MovingListing`, `ConversationScan`, `ScanOrder`, `ConversationListers` | the listing while it moves; its scan; when the order cuts it; the monitor of stalled conversations and the reader of recent ones |
| `ClaimPaths`, `ClaimRegistry`, `AgentWorkspace` | scopes of claims; the registry over every run; its operations as methods of an object |
| `ChangedPaths` | git's NUL-separated output |
| `VersionedTables`, `InstanceTables`, `InboxPublication`, `PublicationMeaning` | tables published in versions; the database and its constraints; the publication of an inbox; what it does to each row |
| `OfferAddition`, `OfferTransaction`, `OfferMeaning` | the check before offers are added and the steps that add them; the whole transaction; what it does to each row |
| `ConfigFlattening`, `VariableFile` | configuration routes and their differences; the file of variables |
| `JsonDiff`, `JsonMeaning`, `CopyBlock` | the difference of two JSON documents with its pointers, and what a change says of both; values as a COPY block |
| `ApprovedTemplates`, `TemplateMeaning` | acceptance, rendering and parameters of an approved template; when each succeeds |
| `CampaignEntry`, `CampaignMeaning` | the entry to a campaign: its question, its caches and the table of answers; which labels it puts and why |
| `HistoryPaging` | keyset pages of the merged history of a lead |
| `Wrappers`, `Sets`, `Positions`, `Text` | options and results, finite sets, places in a sequence, Python's string operations |

Code that changes objects, files or tables in place is modelled by classes whose methods
are proved against specification functions; code made of expressions by functions; every
loop of the source that updates variables by a method with a loop. What the world answers
(git, the disk, the network, a clock, a database that fails) is a parameter, and `ghost`
parameters say what a server that behaves would serve: the contracts hold of every answer,
and say more when the server behaves.

A specification function computes what a method must leave; what it means is stated beside it
without its name, over the rows, messages, files or steps themselves. The modules whose names
end in `Meaning`, `ReplyDecision` and `ReplySteps` hold these statements.

## What was found

Places where the code does not do what its documentation or a natural reading says. Each
is stated as a lemma with the exact condition under which the property holds.

- A canonical snapshot without an anchor id reports the boundary as found although the
  first messages after the instant were dropped, unless the limit is a multiple of the page
  size 20 or one less. The callers use 100, which is safe (`NoAnchorSnapshotIsFaithful`).
- A listing that moves can cut a scan. The documentation says that a new conversation enters at
  the front and only repeats one already seen, but when two come to the front between two
  requests a page can begin with a conversation newer than the last one of the page before, and
  the scan fails with `conversation_order_unexpected`. On a wholesome listing it fails with the
  order exactly then, and never when at most one comes to the front at a time (`ScanListing`,
  `OneAtATimeIsInOrder`, `TwoAtOnceJump`).
- The scope check of `preflight` looks for overlap, so a changed path *above* a scope is
  accepted as inside it (`InScopeMeans`, `APathAboveTheScopeIsAccepted`).
- Publishing back to the first inbox restores the bindings, but it also moves pilot scopes that
  ran with the second inbox from the start, and gives every moved scope the standard channel
  (`PublishingBackOnThePilot`, with a first table in `TheScopeIsTakenAlong`).
- A configuration section expected empty is reported once Hermes writes its state in it, and
  state kept as a list of tables is not ignored (`StateInAnEmptySectionIsReported`,
  `StateInAListIsReported`).
- A change from nothing and a change from null are the same record of a JSON difference
  (`MissingLooksLikeNull`).
- A template body with `{{01}}` is accepted from the catalog, and then no values render it
  (`RenderFindsItsKeys`, `ZerosBeforeANumeralDoNotRender`).
- The caches of answers can disagree with the database. The function of migration
  `20261103001500` keeps the first answer and `settle` does not look at its outcome, so two turns
  that were both waiting can leave a remembered answer that is not the stored one; a database
  that kept the last one would disagree after a failure reported over a stored answer, or after
  another process records one. Over a run the caches agree throughout exactly when each event
  agrees where it happens; with the database as it is, exactly when every settling whose
  recording is reported carries the answer first recorded for its pair; and always when nobody
  changes an answer (`SettleKeeps`, `RunAgrees`, `KeepingTheFirstAgrees`, `OneAnswerEachAgrees`,
  `TwoPendingAnswersCanDisagree`, `AnotherProcessCanDisagree`).
- A variable whose desired value has spaces at its ends is never settled: each merge reports it
  as changed (`Merge`, its last clause).
- Paging by key loses a moment when two of them share a key (`PagesAreExact`).

## Model

| member | source | states |
|---|---|---|
| `HistoryReader.GetConversationMessages` | src/bridge/chatwoot.py:1899-1968 | Whatever the server answers, it returns messages in id order or an error; over a history that grows at its end while it is read, the result is that of the first snapshot: the last `limit` messages and the required ones present, or the error of a history beyond reach |
| `HistoryReader.Collect` | src/bridge/chatwoot.py:1918-1957 | The paging loop stops at the beginning of the history, with enough, or after 100 pages, holding exactly the end of the history it reached |
| `HistoryReader.TakePage` | src/bridge/chatwoot.py:1919-1957 | One turn: the next slice is added, or the loop stops for one of its reasons; a malformed page or a cursor that does not advance is a protocol error that a real history never causes |
| `HistoryReader.Choose` | src/bridge/chatwoot.py:1966-1968 | From the collected map: the last `limit` ids and the required ones found, in order |
| `HistoryReader.SelectKeeps` | src/bridge/chatwoot.py:1966-1968 | A message is selected exactly when it is among the last `limit` or required |
| `HistoryReader.SelectOfTail` | src/bridge/chatwoot.py:1950-1968 | Selecting from the end of the history that was read is selecting from the whole of it |
| `HistoryReader.VerdictIsRead` | src/bridge/chatwoot.py:1958-1968 | The checks after the loop give exactly the result stated for the whole history |
| `HistoryReader.BeforeIsAPrefix` | src/bridge/chatwoot.py:1919-1921 | The cursor of an id cuts the history exactly at the message with that id |
| `CanonicalSnapshot.GetCanonicalMessages` | src/bridge/chatwoot.py:721-795 | The walk backwards over the pages, over a server that may grow meanwhile, equals its definition on the first snapshot |
| `CanonicalSnapshot.AddMissing` | src/bridge/chatwoot.py:755-772 | The pass over a page keeps the message that an id had already, or else the first of the page with it |
| `CanonicalSnapshot.Examine` | src/bridge/chatwoot.py:635-719 | Inbound, human activity, refusal and checkpoint each said of the messages read, which one makes each true; and the refusal of a malformed message |
| `CanonicalSnapshot.Snapshot` | src/bridge/chatwoot.py:560-719 | Reader and examination together, with the limit it admits; each flag said of the history itself |
| `CanonicalSnapshot.AnchoredSnapshotIsFaithful` | src/bridge/chatwoot.py:655-719 | For every limit: an anchor id is reported found exactly when it is among the last `limit` messages, and then there is inbound, or human activity, exactly when the history has such a message after it, and the refusal is that of the contents of exactly those of the contact, in order |
| `CanonicalSnapshot.TheReadStopsAtItsAnchor` | src/bridge/chatwoot.py:741-795 | With an anchor id among the messages that the limit reaches, no page is read beyond its own, and the read fails exactly when a message on the pages read has no time |
| `CanonicalSnapshot.NoAnchorSnapshotIsFaithful` | src/bridge/chatwoot.py:721-795 | Without an anchor id nothing after the instant is missed, in every history, exactly for limits that are a multiple of the page size or one less |
| `CanonicalSnapshot.NoAnchorFactsAreOfTheHistory` | src/bridge/chatwoot.py:560-719 | With a safe limit and the boundary reported, each flag says of the messages after the instant, in the whole history, what it says with an anchor |
| `CanonicalSnapshot.BoundaryMeans` | src/bridge/chatwoot.py:741-795 | Without an anchor id the boundary is reported exactly when the history begins within the pages that the limit asks for, or they reach back to the instant |
| `CanonicalSnapshot.SafeLimitsSee` | src/bridge/chatwoot.py:741-795 | With a safe limit a reported boundary means that every message after the instant was looked at |
| `CanonicalSnapshot.UnsafeLimitsMiss` | src/bridge/chatwoot.py:741-795 | With any other limit there is a conversation whose first message is dropped although the boundary is reported |
| `ReplyAuthorization.Authorize` | src/bridge/chatwoot.py:1167-1337 | The reply is judged by its messages exactly when nobody is assigned, the bot is not paused, the person is the one expected and, where an inbox is expected, it is that one, open, with a contact that can be answered and is not blocked; otherwise the verdict names the first of these that fails |
| `ReplyAuthorization.DecideByScanning` | src/bridge/chatwoot.py:1232-1337 | The loops over the messages decide as the rules on each message say |
| `ReplyAuthorization.ProceedMeansMayGoOut` | src/bridge/chatwoot.py:1232-1337 | The reply proceeds exactly when the trigger is a message of the contact, nobody posted this part, and what is public after the trigger is exactly the earlier parts in order with their texts |
| `ReplyDecision.ProceedSaysWhatIsThere` | src/bridge/chatwoot.py:1232-1337 | A reply that proceeds: its trigger is there and of the contact, no message carries its part, and all that is public after the trigger are the earlier parts, each once, word for word, in order, of our bot |
| `ReplyDecision.WhatIsThereProceeds` | src/bridge/chatwoot.py:1232-1337 | The other way round: whenever that is what is there, it proceeds |
| `ReplyDecision.AlreadyThere` | src/bridge/chatwoot.py:1244-1283 | A part that is there already is a duplicate with its id, when the first message with its hash is that part word for word; otherwise an error |
| `ReplyDecision.TheFirstThatMatters` | src/bridge/chatwoot.py:1286-1337 | Otherwise the first message after the trigger that matters says why; without one, an earlier part is missing or out of its place |
| `ReplyDecision.WithoutItsTrigger` | src/bridge/chatwoot.py:1232-1283 | Without the trigger, or with one that is not a message of the contact, nothing goes out |
| `ReplyDecision.ALaterMessageStops` | src/bridge/chatwoot.py:1286-1337 | A public message of anybody else after the trigger stops the reply |
| `ReplyAuthorization.ReadForReply` | src/bridge/chatwoot.py:1232-1240 | The read of the reply misses nothing after the trigger, and fails only when the trigger is beyond reach |
| `ReplyProtocol.ReplyDirectory.ClaimReplyDelivery` | src/bridge/chatwoot.py:921-995 | The exclusive journal file: the claim is won once for a hash, and not by a part when the whole reply's journal exists |
| `ReplyProtocol.AClaimIsWonOnce` | src/bridge/chatwoot.py:951-995 | After a claim is won, every later claim of the same hash is lost, whatever else the directory holds |
| `ReplyProtocol.ClaimIsTwoSteps` | src/bridge/chatwoot.py:929-995 | The two steps of the state machine, the check of the whole reply's journal and the exclusive creation, make the claim when taken together |
| `ReplyProtocol.AtMostOnePostPerHash` | src/bridge/chatwoot.py:1006-1130 | In every run of workers, crashes and late POSTs, no reply hash is posted twice, and none whose journal existed before is posted |
| `ReplyProtocol.NoPartAfterWholeReply` | src/bridge/chatwoot.py:921-953 | Once a journal named by the batch hash exists, no part of a reply of several parts is posted for the batch |
| `ReplyProtocol.EveryPostWasCleared` | src/bridge/chatwoot.py:1062-1130 | Before every POST the worker had read the history, which may have grown since: the trigger was there, nobody had posted this part, and after the trigger the earlier parts, in order, were all that was public |
| `ReplySteps.EveryPostTookItsSteps` | src/bridge/chatwoot.py:1054-1130 | In every run, a worker that posts has taken since its start exactly these steps, in this order: the lock, two reads that cleared the reply and, when it has to ask, the consent of the authorizer and one more such read, the check for a whole reply, the journal |
| `ReplySteps.WhoGaveUpPostsNothing` | src/bridge/chatwoot.py:1064-1098 | A worker that gave up, refused by the authorizer or for any other reason, posts nothing unless it is started again |
| `ReplyFailures.AWorkerMayDie` | src/bridge/chatwoot.py:863-896 | Wherever a worker dies, the next one can take the lock, and what was claimed or issued stays |
| `ReplyFailures.APostMayBeLostOrLate` | src/bridge/chatwoot.py:1120-1130 | A POST may be lost or arrive at any later time; a run may go on with either |
| `ReplyFailures.AWordOfThePersonStopsTheRest` | src/bridge/chatwoot.py:1286-1337 | The person may write at any time, and then the next read of any worker ends it without a POST |
| `ReplyOrder.PartsArriveInOrder` | src/bridge/chatwoot.py:1006-1165 | In every interleaving the server shows parts 1 to m of the manifest, in order, each once and with its text |
| `ReplyOrder.LandingIsNext` | src/bridge/chatwoot.py:1120-1130 | A POST of the batch that is in flight is always of the part that comes next on the server |
| `ReplyProtocol.StepKeepsInv` | src/bridge/chatwoot.py:797-896 | Every step of every worker, and of everybody else, keeps the invariant of the protocol |
| `ReplyProtocol.RunKeepsInv` | src/bridge/chatwoot.py:797-896 | So does every run; histories, journals and issued POSTs only grow |
| `ReplyProtocol.KeepsOncePerHash` | src/bridge/chatwoot.py:1092-1130 | Who is about to post holds a hash nobody has posted: the lock and the journal together exclude a second POST |
| `ReplyProtocol.KeepsNoWholeReply` | src/bridge/chatwoot.py:929-953 | Between the check for a whole reply and the creation of the journal no whole reply can be claimed, because of the lock |
| `ReplyProtocol.KeepsLocked` | src/bridge/chatwoot.py:863-896 | A worker past the lock owns it, until it ends or dies |
| `ReplyProtocol.SameHashSameBatch` | src/bridge/reply_splitter.py:33-46 | Equal reply hashes are of the same batch, and of the same part when there are several |
| `ReplyProgress.ALoneWorkerDelivers` | src/bridge/chatwoot.py:1006-1165 | A worker that nothing stops, with or without an authorizer to ask, posts its reply, word for word, as soon as the history clears it, and leaves nothing else behind than its journal |
| `ReplyProgress.TheReplyCanArrive` | src/bridge/chatwoot.py:797-1165 | A reply that nobody touches can arrive whole, one worker after the other |
| `ReplyProgress.TheNextPartIsCleared` | src/bridge/chatwoot.py:1286-1337 | With the earlier parts posted, and only them after the trigger, the next part is cleared |
| `ConversationScan.ScanListing` | src/bridge/chatwoot.py:306-400 | On a listing that moves only to its front: a scan that returns inspected nothing twice and left out no conversation that did not move and is not older than the cut; on a still listing it inspects exactly the recent ones, in order, and gives up exactly when they do not fit in its pages; on a wholesome listing that moves it fails short of its pages exactly when one of them begins with a conversation newer than the last of the page before |
| `ConversationScan.TakePage` | src/bridge/chatwoot.py:314-398 | One page: refused for one of its reasons, the end of the scan, or the state from which the next request goes on |
| `ConversationScan.ScanPage` | src/bridge/chatwoot.py:333-394 | The pass over the items of a page: which were inspected, where it stopped and why |
| `ConversationScan.ReadPage` | src/bridge/chatwoot.py:315-398 | One request and its turn: on a wholesome listing it fails exactly when its page begins with a conversation newer than the last of the page before |
| `ScanOrder.OneAtATimeIsInOrder` | src/bridge/chatwoot.py:283-289 | When at most one conversation comes to the front between two requests no page begins with a newer one, so the order never cuts the scan |
| `ScanOrder.TwoAtOnceJump` | src/bridge/chatwoot.py:287-289 | Concrete listings where two conversations come to the front at once and the second page begins with a newer one |
| `MovingListing.OneMovePushesOne` | src/bridge/chatwoot.py:283-289 | When at most one conversation comes to the front no position gets a conversation newer than the position before it had |
| `MovingListing.PositionOnlyGrows` | src/bridge/chatwoot.py:283-289 | A conversation that does not move is never pushed towards the front by others moving, whatever the page size |
| `ConversationScan.CutCompletes` | src/bridge/chatwoot.py:359-361 | Stopping at a conversation older than the cut leaves nothing out |
| `ConversationScan.EndCompletes` | src/bridge/chatwoot.py:330-332 | Nor does stopping at an empty page |
| `ConversationScan.CountCompletes` | src/bridge/chatwoot.py:395-397 | Nor does stopping when as many conversations were listed as the server counts |
| `ConversationListers.StalledCandidate` | src/bridge/chatwoot.py:432-558 | A conversation is a candidate exactly when nobody attends it and its last public message that is not an activity is of the person, within the window, and accepted |
| `ConversationListers.ListStalledConversations` | src/bridge/chatwoot.py:262-400 | On a still listing whose activity is at most an hour behind the messages, the candidates are, in the order of the listing, of exactly the conversations with no assignee and no pause whose last public message is of the person, within the window and accepted; on a wholesome listing that moves it fails for its order only when several conversations come to the front between two requests |
| `ConversationListers.CandidatesAreStalled` | src/bridge/chatwoot.py:432-558 | Which conversations are candidates and what each candidate says, over their details and messages |
| `ConversationListers.CutLosesNothing` | src/bridge/chatwoot.py:50-54 | No conversation below the cut is a candidate, so the early cut gives the same candidates as the full scan |
| `ConversationListers.ListRecentConversations` | src/bridge/chatwoot.py:2927-3057 | Over several states: each conversation at most once, and every recent one that did not move during the scan of its state |
| `ClaimPaths.OverlapMeansSharedFile` | scripts/agent_workspace.py:186-190 | Two scopes overlap exactly when some file is at or below both |
| `ClaimPaths.NormalizeKeepsTheScope` | scripts/agent_workspace.py:175-183 | The stored form of a scope covers the same files as the value given, and never leaves the repository |
| `ClaimPaths.NormalizeMeans` | scripts/agent_workspace.py:175-183 | Which paths are refused: the empty, the absolute, those of a drive and those that go up |
| `ClaimPaths.PartsOfAsPosix` | scripts/agent_workspace.py:183 | A stored path is given back by its parts |
| `ClaimRegistry.ExclusiveClaimsShareNothing` | scripts/agent_workspace.py:367-397 | Two reserving claims of an exclusive registry share no branch, worktree, resource or file |
| `ClaimRegistry.CreatesKeepsExclusive` | scripts/agent_workspace.py:414-598 | A new claim keeps the registry exclusive, even when its write is cut short |
| `ClaimRegistry.ReplacesKeepsExclusive` | scripts/agent_workspace.py:763-898 | So does a claim that is written again |
| `ClaimRegistry.NotWiderIsFree` | scripts/agent_workspace.py:779-787 | A pause, which does not check again, needs no check: the claim reserved the same before |
| `ClaimRegistry.EveryRunIsExclusive` | scripts/agent_workspace.py:414-929 | In every registry reachable by any operations, with failed writes anywhere, reserving claims are exclusive |
| `ClaimRegistry.EveryRunContinues` | scripts/agent_workspace.py:219-224 | A task id, once in the registry, stays with its branch, worktree and base, and its scope never shrinks |
| `ClaimRegistry.TerminalForEver` | scripts/agent_workspace.py:763-779 | A merged or abandoned claim never reserves again and its task id is never given away |
| `ClaimRegistry.ATaskKeepsItsClaim` | scripts/agent_workspace.py:219-224 | Between any two moments of a run a task id keeps its branch, worktree and base, and its resources and paths are still there |
| `ClaimRegistry.MergedWasReviewed` | scripts/agent_workspace.py:763-861 | In every run a merged claim was under review until one step merged it, with the commit reviewed |
| `ClaimRegistry.AnUnreadableEntryStopsTheRegistry` | scripts/agent_workspace.py:270-301 | After a write cut short nothing changes the registry any more |
| `AgentWorkspace.Workspace.LoadClaims` | scripts/agent_workspace.py:270-280 | All the claims, or an error when one file does not read back |
| `AgentWorkspace.Workspace.AssertUniqueClaim` | scripts/agent_workspace.py:367-397 | Accepts exactly when no reserving claim of another task stands in the way |
| `AgentWorkspace.Workspace.CreateClaim` | scripts/agent_workspace.py:285-297 | The exclusive creation, with every way in which the disk may fail |
| `AgentWorkspace.Workspace.Start` | scripts/agent_workspace.py:414-535 | When a start succeeds; then the claim it stores covers exactly the files at or below the paths asked for, all of them, holds exactly the resources asked for that are not blank, and shares none of it; anything else leaves the registry as it was or is a failed write |
| `AgentWorkspace.Workspace.Adopt` | scripts/agent_workspace.py:537-598 | The same for an adoption |
| `AgentWorkspace.Workspace.Transition` | scripts/agent_workspace.py:763-861 | A transition is a step of the registry; when it succeeds, which states it goes between, the claim that is stored, the same in all but its state and what it records of git, and what git and the other claims must show for it |
| `AgentWorkspace.Workspace.Extend` | scripts/agent_workspace.py:863-898 | An extension succeeds exactly when the wider claim is free; then it covers exactly what it covered and the paths asked for, all of them, and differs in nothing else |
| `AgentWorkspace.ScopesCoverWhatWasAsked` | scripts/agent_workspace.py:428 | The scopes that are kept cover a file exactly when it is at or below one of the paths asked for |
| `AgentWorkspace.TaskIdMeans` | scripts/agent_workspace.py:32 | Which task ids are accepted, character by character |
| `AgentWorkspace.VersionMeans` | scripts/agent_workspace.py:677-690 | Which paths are migrations, and of which version |
| `AgentWorkspace.Workspace.Cleanup` | scripts/agent_workspace.py:900-929 | Only a terminal claim with its clean worktree is cleaned up |
| `AgentWorkspace.Workspace.Preflight` | scripts/agent_workspace.py:694-716 | Passes with the claim of the worktree, when no two active claims changed the same file or migration version and the changes overlap the scope |
| `AgentWorkspace.Workspace.ChangesDoNotOverlap` | scripts/agent_workspace.py:667-692 | Accepts exactly when the changes of any two active claims are apart |
| `AgentWorkspace.Workspace.ClaimForWorktree` | scripts/agent_workspace.py:600-610 | The active claim of a worktree and branch, or none |
| `AgentWorkspace.PairsApart` | scripts/agent_workspace.py:667-692 | The loop over the pairs of active claims finds a clash exactly when there is one |
| `AgentWorkspace.ScopesClash` | scripts/agent_workspace.py:391-397 | The nested loops find an overlap exactly when two scopes overlap |
| `AgentWorkspace.InScopeMeans` | scripts/agent_workspace.py:706-714 | The scope check lets through the files at or below a scope and the paths above one, and no others |
| `AgentWorkspace.APathAboveTheScopeIsAccepted` | scripts/agent_workspace.py:706-714 | A concrete path outside the scope that is accepted |
| `AgentWorkspace.PassedMeansNobodyElseChanged` | scripts/agent_workspace.py:667-676 | Where preflight passed, no other active claim changed the same file, nor a migration of the same version |
| `ChangedPaths.CollectCommitted` | scripts/agent_workspace.py:633-645 | The loop over the fields, for any output; an index beyond them is told apart |
| `ChangedPaths.CollectStatus` | scripts/agent_workspace.py:646-664 | The same for the porcelain records |
| `ChangedPaths.ReadPorcelainNeverFails` | scripts/agent_workspace.py:652-664 | The second loop never indexes beyond its fields and collects no empty path, whatever git prints |
| `ChangedPaths.ReadNameStatusUndoesPrint` | scripts/agent_workspace.py:633-645 | For any list of records, two paths for renames and copies, exactly the printed paths are collected and every field is consumed |
| `ChangedPaths.ReadPorcelainUndoesPrint` | scripts/agent_workspace.py:646-664 | The same for the porcelain format |
| `ChangedPaths.ChangedPathsOf` | scripts/agent_workspace.py:612-665 | Together: exactly the paths git printed |
| `VersionedTables.NextVersion` | scripts/publish_inbox_binding_version.py:310-311 | The number after the greatest version of a name |
| `VersionedTables.CopyNext` | scripts/publish_inbox_binding_version.py:336-351 | A loop that inserts next versions: new rows as edited, old rows untouched, no number used twice or skipped |
| `InstanceTables.Database.InsertBinding` | supabase/migrations/20260901000100_commercial_ally_portability.sql:5-33 | The insert, refused exactly by the primary key or the index of active bindings |
| `InstanceTables.Database.SetStatus` | supabase/migrations/20260901000100_commercial_ally_portability.sql:31-33 | The update, refused exactly by the same index |
| `InstanceTables.Database.Activate` | supabase/migrations/20260810000100_lancemos_pilot_boundary.sql:333-432 | A control moves to a published version, inactive and one generation later, exactly from inactive or paused with the expected generation |
| `InstanceTables.Database.InsertIntent` | supabase/migrations/20260820000100_hotmart_purchase_intent_correlation.sql:35-37 | One active intent for each product and offer |
| `InstanceTables.Database.InsertOffer` | supabase/migrations/20260914000100_johanna_checkout_issuance_v2.sql:27-29 | The unique key of the catalog |
| `InstanceTables.Database.AppendOffers` | supabase/migrations/20261028000300_pilot_scope_offer_append_v1.sql:66-82 | The trigger admits only offers after the ones there are, none repeated |
| `InboxPublication.Publish` | scripts/publish_inbox_binding_version.py:236-498 | When a publication goes through (exactly when its guards, scopes and controls allow it), what it leaves, that a refusal leaves the tables as they were, that neither the index of active bindings nor the final verification ever refuses it, and that the constraints hold afterwards |
| `PublicationMeaning.MayPublishMeans` | scripts/publish_inbox_binding_version.py:264-297 | A publication goes through exactly when there is an active binding, all are of one account and one inbox, other than the new one, with a published scope there and no discount policy, and no pilot scope on that inbox is active |
| `PublicationMeaning.WhichBindingsMove` | scripts/publish_inbox_binding_version.py:353-359 | The active bindings of the tenant, and no other |
| `PublicationMeaning.WhichScopesMove` | scripts/publish_inbox_binding_version.py:299-309 | The inbound scopes that these name |
| `PublicationMeaning.WhichPilotsMove` | scripts/publish_inbox_binding_version.py:396-403 | The versions of the pilot that ran on the inbox left |
| `PublicationMeaning.TheCatalogIsCopied` | scripts/publish_inbox_binding_version.py:320-334 | For each scope that moved, the rows added are, in their order, the active rows of the tenant at the old version, equal to them in all but the scope and the approver; for no other scope is a row added |
| `PublicationMeaning.TheBindingsMove` | scripts/publish_inbox_binding_version.py:353-394 | Each active binding is retired and has, at a version its product never had, a copy on the new inbox over the new version of its scope, and its purchase policy goes along; every other row is as it was |
| `PublicationMeaning.TheScopesMove` | scripts/publish_inbox_binding_version.py:299-319 | Each inbound scope that moved has a new version, the same but for the inbox and the approver |
| `PublicationMeaning.ThePilotsMove` | scripts/publish_inbox_binding_version.py:396-422 | Each pilot scope that ran on the inbox left runs a new version, on the new inbox and its channel, inactive and one generation later; the others run what they ran |
| `PublicationMeaning.AHandoffFollows` | scripts/publish_inbox_binding_version.py:336-440 | A handoff policy stays, and follows with a new version each of the scopes it names that moved, inbound or of the pilot |
| `PublicationMeaning.ANewHandoffFollows` | scripts/publish_inbox_binding_version.py:336-440 | Every policy that was not there is such a version |
| `PublicationMeaning.NothingElseIsAdded` | scripts/publish_inbox_binding_version.py:299-422 | A binding, inbound scope or pilot version that was not there is the new one of something that moved |
| `PublicationMeaning.NoOtherPurchaseIsAdded` | scripts/publish_inbox_binding_version.py:377-394 | So is a purchase policy |
| `PublicationMeaning.TheVerificationSays` | scripts/publish_inbox_binding_version.py:441-463 | What the verification at the end of the transaction asks of the rows |
| `InboxPublication.Guards` | scripts/publish_inbox_binding_version.py:264-297 | The checks before anything is written |
| `InboxPublication.MoveScopes` | scripts/publish_inbox_binding_version.py:299-334 | Every inbound scope named by an active binding gets its next version with the new inbox, and its active offers; no other row changes |
| `InboxPublication.MoveBindings` | scripts/publish_inbox_binding_version.py:353-394 | Every active binding is retired and replaced by its next version; the purchase policy goes along; fails exactly when a scope is missing |
| `InboxPublication.ReplaceBinding` | scripts/publish_inbox_binding_version.py:362-376 | The three statements are never refused: after each one at most one binding of a product is active |
| `InboxPublication.MovePilots` | scripts/publish_inbox_binding_version.py:396-422 | Every pilot scope whose control runs the old inbox gets its next version, with its control on it, inactive |
| `InboxPublication.MoveHandoffs` | scripts/publish_inbox_binding_version.py:336-351 | The active handoff policies of the moved scopes get their next version, old ones untouched |
| `InboxPublication.VerificationHolds` | scripts/publish_inbox_binding_version.py:441-463 | The verification at the end of the transaction holds of everything the transaction leaves |
| `InboxPublication.EveryProductIsRebound` | scripts/publish_inbox_binding_version.py:353-394 | Every product that had an active binding has exactly one, at a fresh version, with the new inbox and a published scope of that inbox; everything else it says is unchanged |
| `InboxPublication.WhatWasPublishedStays` | scripts/publish_inbox_binding_version.py:36-39 | No inbound scope, purchase policy or catalog row that was there changes |
| `InboxPublication.WhatRanStays` | scripts/publish_inbox_binding_version.py:36-39 | No pilot scope or handoff policy that was there changes |
| `InboxPublication.OnlyTheReplacedChange` | scripts/publish_inbox_binding_version.py:36-39 | Of the bindings only the replaced ones change, to retired; of the controls only the moved ones, to inactive |
| `InboxPublication.PublishingBackRestoresTheBindings` | scripts/publish_inbox_binding_version.py:38-39 | Publishing back to the first inbox gives the first active bindings again, up to versions and the approver of their scope |
| `InboxPublication.PublishingBackOnThePilot` | scripts/publish_inbox_binding_version.py:396-422 | When a pilot scope gets back the inbox and channel it had, exactly |
| `InboxPublication.TheScopeIsTakenAlong` | scripts/publish_inbox_binding_version.py:396-422 | Concrete tables on which a publication goes through and publishing back moves a pilot scope that was on the second inbox from the start |
| `InboxPublication.ReturnsFrom` | scripts/publish_inbox_binding_version.py:264-279 | The one inbox a second publication finds the bindings on is the inbox the first one went to |
| `OfferAddition.CurrentMeansOnlyRequestedMissing` | scripts/add_instance_offers.py:587-610 | The check passes exactly when the row is the manifest without some of the offers asked for, and differs in nothing else |
| `OfferMeaning.WhenTheRowIsCurrent` | scripts/add_instance_offers.py:587-610 | A row passes exactly when it is valid and has the codes and landings of the manifest, in their order, but for the codes asked for that it lacks, and is otherwise equal |
| `OfferTransaction.Apply` | scripts/add_instance_offers.py:258-454 | The transaction goes through exactly when no item is refused where its turn comes, and fails with the reason of the first that is, changing nothing; one that goes through leaves everything settled and adds exactly what the plan asks: the rows of the plan get the new lists, each scope of the pilot its old list and then the offers it lacked of all those the plan asks of it, in its order and each once, and nothing else changes but intents and catalog rows that are asked for; its report is that of the items |
| `OfferMeaning.WhenAnItemGoesThrough` | scripts/add_instance_offers.py:282-440 | An item goes through exactly when its binding is active with the new lists or the old ones, the default offer has its intent and its catalog row, no intent asked for is taken, and each scope of the product has room |
| `OfferMeaning.TheRowsAreRelisted` | scripts/add_instance_offers.py:283-312 | The rows of the plan have the new lists and are otherwise as they were; so are all other rows and tables |
| `OfferMeaning.AnIntentIsAdded` | scripts/add_instance_offers.py:314-344 | No intent goes; each that comes is of an offer asked for that had none, active, of the product, funnel and link of its binding, with the lookback of the default offer |
| `OfferMeaning.EveryOfferHasItsIntent` | scripts/add_instance_offers.py:314-344 | Afterwards every offer asked for has one |
| `OfferMeaning.ARowIsAdded` | scripts/add_instance_offers.py:346-379 | No catalog row goes; each that comes is the default row of the product but for the offer and the landing asked for it, its approver and its version, the next one, and is not the default |
| `OfferMeaning.EveryOfferHasItsRow` | scripts/add_instance_offers.py:346-379 | Afterwards every offer asked for has an active row |
| `OfferMeaning.AScopeGains` | scripts/add_instance_offers.py:381-413 | A pilot scope keeps its list and gets at its end, in the order of the plan and each once, the offers asked for its product that it did not have; nothing else of it changes |
| `OfferMeaning.TheReportSays` | scripts/add_instance_offers.py:282-454 | The report lists exactly the bindings, intents, catalog rows and scopes that changed |
| `OfferTransaction.PlanGains` | scripts/add_instance_offers.py:381-413 | Over a whole plan each scope of the pilot ends with its old list, then the offers it lacked of those that the items asked of it, in the order of the plan, each once |
| `OfferTransaction.GainedMeans` | scripts/add_instance_offers.py:388-402 | What a scope gains is exactly what was asked for and it did not have, after its old list, and no offer is repeated unless one was before |
| `OfferTransaction.PlanRelists` | scripts/add_instance_offers.py:283-312 | The rows of the plan have the new lists and differ in nothing else; the other rows are as they were |
| `OfferTransaction.ExactlyTheRequestedIntents` | scripts/add_instance_offers.py:314-344 | Over a whole plan an offer of a product gets an intent exactly when an item asks for it and it had none |
| `OfferTransaction.AddedIntentsDiffer` | scripts/add_instance_offers.py:332-344 | No offer gets two intents, whichever items ask for it |
| `OfferTransaction.AddedIntentIsAsked` | scripts/add_instance_offers.py:314-344 | Each intent that an item adds is of its product, for an offer it asks for that had none, with the lookback of the default offer |
| `OfferTransaction.ExactlyTheRequestedOffers` | scripts/add_instance_offers.py:346-379 | Over a whole plan an offer gets a catalog row exactly when an item of that product asks for it and it had no active one |
| `OfferTransaction.AddedOffersDiffer` | scripts/add_instance_offers.py:354-379 | No offer of a product gets two catalog rows |
| `OfferTransaction.AddedOfferIsAsked` | scripts/add_instance_offers.py:346-379 | Each catalog row that an item adds is a copy of the default row of its product for an offer it asks for, at the next version of it, and the first active one |
| `OfferTransaction.AfterAllIsSettled` | scripts/add_instance_offers.py:282-440 | A plan that is not refused leaves every one of its items settled, not only the last |
| `OfferTransaction.AllSettledIsDone` | scripts/add_instance_offers.py:282-440 | Where every item is settled no item is refused, no table changes and the report is empty |
| `OfferTransaction.ApplyTwice` | scripts/add_instance_offers.py:258-454 | A second run changes no table and reports four empty lists |
| `OfferTransaction.ApplyItem` | scripts/add_instance_offers.py:282-440 | One binding: when it is refused and why, and otherwise the tables and the report it leaves; the verification at its end fails only when the codes were the new ones with other landings |
| `OfferTransaction.UpdateBinding` | scripts/add_instance_offers.py:283-312 | The row takes the new lists exactly when it is active and has the old ones or the new codes |
| `OfferAddition.AddIntents` | scripts/add_instance_offers.py:314-344 | Exactly the offers without an active intent get one, with the lookback of the default; refused exactly when one is taken or the default has none |
| `OfferAddition.AddCatalog` | scripts/add_instance_offers.py:346-379 | Exactly the offers without an active row get one, copied from the default and not default, at a free version |
| `OfferAddition.AddToPilots` | scripts/add_instance_offers.py:381-413 | Each scope keeps its list and gains, in order, the offers it lacked; refused exactly when the trigger does not admit it |
| `OfferAddition.WhenAppendable` | supabase/migrations/20261028000300_pilot_scope_offer_append_v1.sql:66-82 | When the trigger admits the offers a scope lacks, exactly |
| `OfferTransaction.OthersStaySettled` | scripts/add_instance_offers.py:282-440 | What is added for one binding unsettles no other |
| `OfferTransaction.SettledIsVerified` | scripts/add_instance_offers.py:415-439 | What the steps leave passes the verification at the end |
| `OfferTransaction.TheManifestResolves` | scripts/add_instance_offers.py:613-633 | When the check passed and the transaction succeeded, the row is the new manifest |
| `ConfigFlattening.FlattenIsInjective` | scripts/hermes_instancia.py:603-616 | Two configurations flatten to the same map exactly when they are equal, for keys that are not empty and have no "." and "[" |
| `ConfigFlattening.EveryRouteIsAPath` | scripts/hermes_instancia.py:603-616 | Every route of the map is the route of a path of the tree with that value |
| `ConfigFlattening.EveryPathIsARoute` | scripts/hermes_instancia.py:603-616 | Every path of the tree with a value is a route of the map with it; no later entry overwrites it |
| `ConfigFlattening.TailIsInjective` | scripts/hermes_instancia.py:603-616 | Two paths with the same route are the same path |
| `ConfigFlattening.ADotInAKeyIsAmbiguous` | scripts/hermes_instancia.py:603-616 | With a "." in a key two different configurations flatten to the same map |
| `ConfigFlattening.AnEmptyKeyIsAmbiguous` | scripts/hermes_instancia.py:603-616 | So they do with an empty key at the root |
| `ConfigFlattening.NoDifferencesMeansAgreement` | scripts/hermes_instancia.py:625-633 | No difference is reported exactly when the live configuration has every expected value and besides only state under `onboarding.seen` |
| `ConfigFlattening.WithoutStateNoDifferencesMeansEqual` | scripts/hermes_instancia.py:625-633 | Without such state, exactly when the two are equal |
| `ConfigFlattening.IgnoredIsRuntimeState` | scripts/hermes_instancia.py:619-630 | A route is left out exactly when its path is the state or goes on from it with a key |
| `ConfigFlattening.StateInAnEmptySectionIsReported` | scripts/hermes_instancia.py:619-633 | An expected empty section with state in it is reported |
| `ConfigFlattening.StateInAListIsReported` | scripts/hermes_instancia.py:619-633 | State in a list of tables is reported |
| `VariableFile.ReadVariables` | scripts/hermes_instancia.py:636-644 | The mapping that the lines of a file assign |
| `VariableFile.AssignmentMeans` | scripts/hermes_instancia.py:638-643 | A line assigns exactly when it has an "=" and is no comment, and then what is left of its first "=" names what is right of it, both trimmed |
| `VariableFile.TheLastLineStands` | scripts/hermes_instancia.py:636-644 | What is read for a key is what the last line that assigns it says, and no other key is read |
| `VariableFile.ABreakEndsItsLine` | scripts/hermes_instancia.py:638 | Each of the line breaks of Python ends its line, a carriage return together with its line feed |
| `VariableFile.Merge` | scripts/hermes_instancia.py:647-670 | The merged text reads as the old mapping overridden by the desired one; every other line stays, each desired key has exactly one line, where its first line was or at the end in the order of the keys; and merging again changes nothing exactly when the desired values are trimmed |
| `VariableFile.Rewrite` | scripts/hermes_instancia.py:656-666 | The loop over the lines: each is kept, replaced in its place when it is the first of its key, or dropped |
| `VariableFile.SplitOfPrinted` | scripts/hermes_instancia.py:670 | Splitting the merged text gives back its lines |
| `VariableFile.NewLineAssigns` | scripts/hermes_instancia.py:659-663 | A new line is read back as its key and its trimmed value |
| `VariableFile.AssignedKeyIsValid` | scripts/hermes_instancia.py:659-663 | The other way round: a key that a line gives back is trimmed, without "=" and no comment, which is what `Merge` asks of the desired keys |
| `JsonDiff.Walk` | scripts/flow_change_operator.py:556-573 | The recursive walk adds exactly the differences below a path, in its order |
| `JsonDiff.Diff` | scripts/flow_change_operator.py:556-576 | The changes reported, with their pointers, without those of the whole state and version |
| `JsonDiff.ReportedMeansDiffers` | scripts/flow_change_operator.py:559-573 | A difference is found exactly where the documents are reached together and differ, with what each has there |
| `JsonMeaning.AChangeSaysWhatEachHas` | scripts/flow_change_operator.py:556-576 | A change that is reported: its pointer evaluates to the old value in the first document and to the new one in the second, null where it evaluates to nothing; the two are not equal; and it is not the state or the version as a whole |
| `JsonMeaning.PointerEvaluates` | scripts/flow_change_operator.py:552-553 | A pointer, read as RFC 6901 says, evaluates to what the document has at the end of its path |
| `JsonDiff.PathsAreDistinct` | scripts/flow_change_operator.py:559-573 | No path is found twice |
| `JsonDiff.PointersAreApart` | scripts/flow_change_operator.py:552-573 | Pointers are pairwise different and none is the beginning of another |
| `JsonDiff.ReportIsApart` | scripts/flow_change_operator.py:556-576 | The pointers of the list that is reported are pairwise different, and none followed by a slash begins another |
| `JsonDiff.PointersTellPaths` | scripts/flow_change_operator.py:552-553 | Below the same documents, a pointer followed by a slash begins another only when its path does |
| `JsonDiff.EscapeIsEach` | scripts/flow_change_operator.py:552-553 | The two replacements of a segment are one character by character |
| `JsonDiff.UnescapeUndoes` | scripts/flow_change_operator.py:552-553 | A segment is read back as section 4 of RFC 6901 says |
| `JsonDiff.NoDifferencesMeansSame` | scripts/flow_change_operator.py:559-573 | Nothing is found exactly between documents that are the same up to the order of members |
| `JsonMeaning.NoDifferencesMeansEqual` | scripts/flow_change_operator.py:559-573 | No difference is found exactly between documents that are equal: member by member whatever their order, item by item |
| `JsonDiff.NothingReportedMeans` | scripts/flow_change_operator.py:556-576 | Nothing is reported exactly when they are the same but for a state or a version of two objects that differ as a whole |
| `JsonDiff.UnreportedPlacesAgree` | scripts/flow_change_operator.py:559-573 | At every place not at or under a path found the documents agree |
| `JsonDiff.MissingLooksLikeNull` | scripts/flow_change_operator.py:571-573 | A missing value and a null one make the same change |
| `CopyBlock.ArgsBlock` | scripts/flow_change_operator.py:386-399 | The block, refused exactly when a key is not 1 to 32 small letters and underscores |
| `CopyBlock.EscapeIsEach` | scripts/flow_change_operator.py:382-383 | The four chained replacements are one character by character |
| `CopyBlock.ReadUndoesPrint` | scripts/flow_change_operator.py:386-399 | Reading the block as the server does gives back exactly the values and leaves the script after it: no value ends the block |
| `CopyBlock.TextIsNotNull` | scripts/flow_change_operator.py:391-397 | No text is printed as NULL |
| `ApprovedTemplates.ParseApprovedTemplate` | src/bridge/approved_templates.py:215-418 | A template is accepted exactly when one of that name and language is in the catalog and may be sent as asked, and is what the catalog has |
| `TemplateMeaning.WhenTheCallIsInOrder` | src/bridge/approved_templates.py:270-295 | Which calls are in order: a name, a parameter at least, categories without a blank one, and a declared URL of the right form that does not ask for plain buttons |
| `TemplateMeaning.WhatIsAccepted` | src/bridge/approved_templates.py:302-407 | A template is accepted exactly when it is the one of its name and language, approved, of a category accepted, with a body that has exactly the placeholders, and components that the send can carry |
| `TemplateMeaning.WhatIsKept` | src/bridge/approved_templates.py:409-418 | What is accepted keeps name and language trimmed, category and body of the catalog, parameters, button and media of the request |
| `TemplateMeaning.ComponentsMayBeCarried` | src/bridge/approved_templates.py:351-407 | Which components can be carried, each and all together: buttons once when one is declared, media once when it is |
| `TemplateMeaning.WhenItRenders` | src/bridge/approved_templates.py:191-212 | A text is rendered exactly when the values are those of the keys 1 to n, each may fill its place, every placeholder is one of the keys, and the text fits |
| `TemplateMeaning.WhenItIsReady` | src/bridge/approved_templates.py:160-189 | The parameters are ready exactly when the text is rendered and a suffix comes exactly with a declared button, of 1 to 2000 characters without spaces |
| `ApprovedTemplates.CheckComponents` | src/bridge/approved_templates.py:349-405 | The loop accepts exactly the components the send can carry, with the declared button and media once each |
| `ApprovedTemplates.CheckBody` | src/bridge/approved_templates.py:331-347 | The body holds exactly the placeholders 1 to n |
| `ApprovedTemplates.PiecesPartition` | src/bridge/approved_templates.py:33 | Taking a text apart into literals and placeholders loses nothing |
| `ApprovedTemplates.ValuesStayVerbatim` | src/bridge/approved_templates.py:191-212 | One pass: a value goes in as it is, placeholders in it included, after any text at all, which is filled on its own |
| `ApprovedTemplates.PiecesOfConcatenation` | src/bridge/approved_templates.py:33 | A text is taken apart on its own when a placeholder follows it, even when it ends with braces |
| `ApprovedTemplates.LiteralTextStays` | src/bridge/approved_templates.py:191-212 | A text without placeholders is rendered as it is |
| `ApprovedTemplates.RenderFindsItsKeys` | src/bridge/approved_templates.py:191-212 | An accepted body renders with the expected values exactly when its numerals are canonical, and then uses every value |
| `ApprovedTemplates.ZerosBeforeANumeralDoNotRender` | src/bridge/approved_templates.py:191-212 | The body "{{01}}" fits one parameter, and no value of the one key that is expected renders it |
| `ApprovedTemplates.SendCarriesWhatTheCatalogHas` | src/bridge/approved_templates.py:160-189 | The send carries a button exactly when one was declared and the catalog opens with it, a header exactly when the catalog has the declared media, and a text within the limit |
| `CampaignEntry.CheckConfig` | src/bridge/campaign_inbound_entry.py:227-240 | The constructor accepts exactly a configuration with segments, macros, a database for its questions, and questions apart |
| `CampaignEntry.QuestionsApartMeansOneAtATime` | src/bridge/campaign_inbound_entry.py:90-99 | Questions apart means one question at any instant, and for segments that last the two are the same |
| `CampaignEntry.OpenedByThePerson` | src/bridge/campaign_inbound_entry.py:182-209 | The first message that counts after the last reset is of the person |
| `CampaignMeaning.WhoOpened` | src/bridge/campaign_inbound_entry.py:182-209 | Which message opened a conversation, over its messages |
| `CampaignEntry.Entry.TurnOf` | src/bridge/campaign_inbound_entry.py:260-390 | A turn, with failures of the database and of the macros anywhere, as its definition says; it carries a question only for a pair the database has no answer of |
| `CampaignMeaning.WhatATurnAdds` | src/bridge/campaign_inbound_entry.py:297-390 | The labels of a turn are exactly those put before that the webhook does not bring yet, those of the active segments named in the first message when it is of this turn, and that of the question when its known answer is yes and its macro does not fail |
| `CampaignMeaning.WhenATurnAsks` | src/bridge/campaign_inbound_entry.py:355-390 | A turn carries the question exactly when the conversation may be asked and it is known that it did not answer |
| `CampaignMeaning.WhatATurnEnters` | src/bridge/campaign_inbound_entry.py:330-390 | A turn enters a label in its own conversation only, by a keyword or a known yes |
| `CampaignMeaning.WhatASettlingLeaves` | src/bridge/campaign_inbound_entry.py:418-458 | A settling enters a label only for a yes whose macro did not fail, stores the answer unless the recording failed before or the database keeps another, and remembers it when the recording did not fail |
| `CampaignMeaning.EveryLabelHasAReason` | src/bridge/campaign_inbound_entry.py:297-458 | Over every run: a label that is remembered and was not at the start was named in the first message, or answered with yes |
| `CampaignEntry.Entry.SettleAnswer` | src/bridge/campaign_inbound_entry.py:418-458 | The settling of an answer, with every way in which its recording may end, and the macro that fails before the label is remembered |
| `CampaignEntry.Entry.EnterLabel` | src/bridge/campaign_inbound_entry.py:460-466 | The eviction loop keeps the newest conversations within the limit |
| `CampaignEntry.Entry.RememberAnswer` | src/bridge/campaign_inbound_entry.py:468-472 | The same for the answers |
| `CampaignMeaning.WhatIsKept` | src/bridge/campaign_inbound_entry.py:460-472 | What is set goes last, and before it are the newest of the others, all of them as long as they fit |
| `CampaignEntry.Entry.ReadAnswer` | src/bridge/campaign_inbound_entry.py:392-416 | What is known of an answer: from the memory, from the database, or that it cannot be read |
| `CampaignEntry.Entry.LabelByKeyword` | src/bridge/campaign_inbound_entry.py:330-354 | The loop over the segments named in the first message |
| `CampaignEntry.AnswerTable.RecordAnswer` | supabase/migrations/20261103001500_segment_entry_answers_v1.sql:70-115 | The database keeps the first answer (or the last, as a policy), and may fail after it stored it |
| `CampaignEntry.TurnKeeps` | src/bridge/campaign_inbound_entry.py:297-390 | A turn keeps the caches within their size and of stored pairs, and in agreement when they were; it asks only when the database was read and had no answer |
| `CampaignEntry.SettleKeeps` | src/bridge/campaign_inbound_entry.py:418-458 | The settling leaves the caches in agreement with the database exactly when the database kept the answer that is remembered |
| `CampaignEntry.NeverAskedAgain` | src/bridge/campaign_inbound_entry.py:297-458 | Once an answer is stored, in every run with failures and other processes anywhere, no later turn carries the question |
| `CampaignEntry.NextAgrees` | src/bridge/campaign_inbound_entry.py:297-472 | When one event of any kind leaves the caches in agreement with the database, exactly |
| `CampaignEntry.RunAgrees` | src/bridge/campaign_inbound_entry.py:297-472 | Over every run of turns, settlings and records of others, with evictions and failures anywhere, the caches agree with the database throughout exactly when each event agrees where it happens |
| `CampaignEntry.KeepingTheFirstAgrees` | src/bridge/campaign_inbound_entry.py:297-472 | With the database as it is, on the events alone: the caches agree throughout a run exactly when every settling whose recording is reported carries the answer first recorded for its pair, by whoever |
| `CampaignEntry.OneAnswerEachAgrees` | src/bridge/campaign_inbound_entry.py:392-472 | Where nobody changes an answer the caches agree throughout, whatever the database keeps, whatever fails and whoever else records |
| `CampaignEntry.KeepingTheLastAgrees` | src/bridge/campaign_inbound_entry.py:418-472 | With a database that keeps the last answer, one process whose recordings do not fail after they stored is always in agreement |
| `CampaignEntry.TwoPendingAnswersCanDisagree` | src/bridge/campaign_inbound_entry.py:418-458 | A concrete run of two turns that both carry the question and two settlings, which leaves a remembered answer other than the stored one |
| `CampaignEntry.AnotherProcessCanDisagree` | src/bridge/campaign_inbound_entry.py:392-416 | With a database that keeps the last answer, one record of another process is enough to disagree |
| `HistoryPaging.PagesAreExact` | src/bridge/automation_expert_read.py:1590-1594 | Following the cursors returns every moment once in order, for every limit, exactly when no two keys are equal |
| `HistoryPaging.PagesAreFull` | src/bridge/automation_expert_read.py:1590-1594 | No page has more moments than the limit, and one with a cursor has as many, the last of which the cursor names |
| `HistoryPaging.ThePagesAreInTime` | src/bridge/automation_expert_read.py:1590-1594 | Over all the pages each moment stands once, in the order of the times themselves, and those of one time in the order of their other fields |
| `HistoryPaging.PagesEnd` | src/bridge/automation_expert_read.py:1590-1594 | Each page leaves fewer moments ahead, so the cursors end |
| `HistoryPaging.SortKeeps` | src/bridge/automation_expert_read.py:1590 | The sorted history has every moment, in the order of the keys |
| `HistoryPaging.AfterKey` | src/bridge/automation_expert_read.py:1591-1592 | What is after the key of a moment is what is behind it |
| `HistoryPaging.IsoKeepsOrder` | src/bridge/automation_expert_read.py:1107-1117 | The text order of times in UTC is the order of the times, with and without a fraction |
| `HistoryPaging.CursorDecodes` | src/bridge/automation_expert_read.py:1407-1430 | The cursor of a moment decodes to its key exactly when its time parses, its table and kind are known ones, and its evidence id has at most 64 characters; never to another key |

## Left out

- HTTP, git, docker, psql and the terminal: what they answer is a parameter, or a server with a stated behaviour.
- `HistoryReader.GetConversationMessages`: an id that is not an integer is a rejected response, not a message.
- `ReplyOrder.PartsArriveInOrder`: assumes that hashes tell batches and parts apart (they are modelled as the texts that are hashed), that the server numbers messages in increasing order, and that nobody else posts with our bot's reply hash.
- `ReplyProtocol.EveryPostWasCleared`: says what the last read showed; between that read and the POST a person may write, and the code does not close that window. Each read is one step because the reader returns one snapshot of a growing history, which is proved.
- The templates of `send_agent_bot_reply`, its decision markers and the check of the POST's answer.
- `ConversationListers.ListStalledConversations`: the details and messages of a conversation are a function of its id, so the candidates are computed after the scan instead of during it.
- `ConversationListers.ListRecentConversations`: returns the ids; the record made of each one is left out.
- `ConversationScan.ScanListing`: assumes that no conversation leaves the listing while it is scanned.
- `AgentWorkspace.Workspace.Start`: the worktree that git created before a failed write, and its rollback, are not part of the registry; worktrees are resolved paths and symbolic links do not change.
- `AgentWorkspace.Workspace.Preflight`: the digits of a migration version are the ASCII ones.
- The order in which `_assert_unique_claim` looks at the claims, which decides only which conflict is named; times, and the evidence gate of documents.
- `ClaimPaths.NormalizeKeepsTheScope`: scopes and changed files are relative paths; a path that begins with a slash is only refused.
- `InboxPublication.Publish`: timestamps, generated ids and the constraints that could only add a refusal; the plan it prints beyond what moved; the foreign keys taken as given are those in the invariant of the tables.
- `OfferTransaction.Apply`: the lookback and the default row are the first that match, as the unique indexes make them; timestamps and ids; the constraints of the catalog and of the intents that could only add a refusal.
- `OfferTransaction.TheManifestResolves`: the conversion of a database row to a configuration is the identity on the fields that are modelled.
- `ConfigFlattening.FlattenIsInjective`: keys are texts, and scalars are taken up to Python's equality.
- `VariableFile.Merge`: desired keys are those that a line can give back (`AssignedKeyIsValid`), and values are of one line, as its callers' are; the list of changed names is a set.
- `JsonDiff.Diff`: numbers are the texts they are printed as.
- `CopyBlock.ArgsBlock`: values are texts; the JSON text of a dictionary or a list is taken as given.
- `ApprovedTemplates.ParseApprovedTemplate`: which of the reasons of a refusal is named; the shape of the media link; digits are the ASCII ones.
- `CampaignEntry.Entry.TurnOf`: the normalization of texts and the search of a keyword are a parameter; the macros' effect in Chatwoot is left out; a turn and a settling are each one step, although they wait for the network inside.
- `HistoryPaging.CursorDecodes`: JSON and base64 are taken as inverse, and only the length of their text is computed, for texts without escapes.
- `HistoryPaging.IsoKeepsOrder`: the order of times is that of their calendar fields.
- `_esperar_gateway`, `verificar_duenio`, `renderizar_config`, the coupon windows, `looks_like_identifier`, `_native_flow_counts_request` and `check_inbox`: one-function checks that would only add easy members.
- Readiness verifiers, dashboards, schema comparison, the history generator and the copilot installer.
