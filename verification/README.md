# fusion-guard in Dafny

fusion-guard is a local authorization daemon. It keeps an append-only audit log in an HMAC chain, hides
sensitive text behind placeholders it can take back, lets a tenant confirm a blocked action once, and decides
by rules that live both in memory and on disk. This project models those parts and proves what they promise.

The modules follow the program:

- `Bytes`, `Payload`: byte strings and the hashed encoding of an event.
- `Chain`, `ChainProofs`: one pass of the verification scan, what its report means, and what it binds.
- `DeadLetter`, `AuditStore`, `AuditRuns`: the dead-letter file, the table with archives and checkpoint, and
  every run of them. `Tampering` says which altered rows and lines are reported, and for how long. `Writers` takes the same table down to single statements of two connections, and `Spools`
  the dead-letter file to single reads and writes of many threads.
- `Keys`: the key-version table with its anchors. `LowRisk`: the queue of low-risk events. `Pages`: listing.
- `Verdicts`, `Actions`: the confirm store. `Tokens`: the token store.
- `Spans`, `Concealment`: choosing spans, rewriting text, and what the result still tells. `Placeholders`, `Reveal`:
  the way back. `Checksums`: validators.
- `Rules`: the rule engine and its copy on disk. `Federation`: segments of other nodes' chains.
  `Scanners`: the quote-aware shell scanners.

Objects the program updates in place are classes (`Store`, `KeyTable`, `LowRiskWriter`, `ActionStore`,
`TokenStore`, `AuditEngine`). Their methods are proved equal to functions on values, and the theorems are
about runs of those functions, so they hold for every sequence of calls. HMAC, key derivation, SHA-256,
AES-GCM, regular expressions, clocks and random ids are parameters: functions known only by what is required
of them where they are used. Nothing is assumed about hashes being injective; where a result depends on that,
it says "or here is the collision".

Where the code is narrower than its comments, the model follows the code:

- An absent approver and an empty one are the same hashed field, and a field length is taken modulo 2^32, so
  two different events with a field of 4 GiB can hash the same (`Payload.PayloadIdentifiesFields`,
  `Payload.TruncatedLengthsCollide`). A request over the socket is at most 1 MiB (crates/fg-ipc/src/lib.rs:27),
  so only callers in the same process can reach such a length.
- Rotation selects rows, deletes them and writes the checkpoint in separate steps, and a verification writes back
  the archived hash it read at its start. The chain is one chain exactly when no transaction that read the tail
  in a stale state commits (`Writers.ChainForksExactlyOnStaleReads`). That never happens in an orderly schedule
  (`Writers.TwoWritersNeverFork`), and each of the three ways to be disorderly has a run that forks:
  `Writers.TornRotationForks`, `Writers.OvertakenVerifyForks`, `Writers.OverlappingRotationsFork`.
- Nothing locks the dead-letter file. It stays sound exactly as long as every append finds the hash its thread had
  read still last (`Spools.FileIsSoundExactly`); two threads that read together break it for good
  (`Spools.RacingSpoolsBreakTheFile`). A reimport empties the file it read before: an event appended in between is
  lost (`Spools.LateSpoolIsLost`), and none is lost exactly when that never happens (`Spools.NothingLostExactly`).
- A verification of one tenant moves the checkpoint past other tenants' rows, so that the next global one sees a
  break only if the last row has no hash at all (`AuditRuns.NextGlobalVerify`, `AuditRuns.ScopedVerifyPassesOver`).
- Reported tampering stays reported (`Tampering.TamperingStaysReported`), with one exception: an archive rotation puts
  the anchor on the first row it leaves, so neither the archived rows nor that one are judged again
  (`Tampering.RotationPassesOver`). It takes as many of the first rows as there are rows past the cutoff; these are
  the same rows when timestamps do not go back (`AuditRuns.RotationTakesTheOld`).
- A reimport that is refused halfway keeps what it took and leaves the file, so the next try is refused at once
  (`AuditRuns.ReimportOutcome`).
- Placeholders of the kind `ipv4` are not recognised, because the expression allows no digit in a kind, so they
  stay in place: a text comes back exactly when all kinds in it are recognised (`Reveal.RedactThenReveal`,
  `Reveal.Ipv4StaysHidden`).
- A reveal that cannot read a token cuts eight characters from its id, and so stops on a shorter id, which the
  expression does accept (`Reveal.RevealCompletesExactly`, `Reveal.ShortIdStopsReveal`).
- Adding a rule whose name exists, renaming onto an existing name, a failed update, a failed undo, and a write
  whose row is changed but not recorded leave disk and memory different (`Rules.RunStaysInSyncExactly` says exactly
  when they agree, `Rules.HalfRemoveLosesARule` is the shortest case). A failed epoch write leaves
  the epoch in memory ahead of the one on disk (`Rules.EpochCountsSuccesses`). An emptied rule set comes back as
  the default one, which changes the decision exactly on what its pattern matches
  (`Rules.ReseededDecidesOtherwiseExactly`).
- Among hits of one action and risk the stages rank Regex, Ast, Semantic, while the comment above the ranking puts
  Semantic before Ast (`Rules.VerdictByName`, crates/fg-rules/src/lib.rs:348-360).
- The order of tied hits does not change the decision but does change the reason
  (`Rules.DecisionIgnoresOrder`, `Rules.ReasonFollowsOrder`).
- The `{` and `[` arms of the feature scan look from the command's second character, not from where the bracket
  stands (`Scanners.HasBraceGroup`).

## Model

| member | source | states |
|---|---|---|
| Payload.PayloadBytes | crates/fg-store/src/lib.rs:289-314 | the loop builds the length-prefixed encoding of the eleven fields |
| Payload.DecodeInvertsEncode | crates/fg-store/src/lib.rs:289-314 | decoding the payload gives the fields back, whenever each is shorter than 2^32 bytes |
| Payload.PayloadReads | crates/fg-store/src/lib.rs:289-314 | a reader of the payload finds the eleven fields in the documented order, an absent approver as the empty string and the seatbelt as the digit one or zero |
| Payload.PayloadIdentifiesFields | crates/fg-store/src/lib.rs:289-314 | two events have the same payload if and only if they agree in all eleven hashed fields, approver up to absent or empty |
| Payload.TruncatedLengthsCollide | crates/fg-store/src/lib.rs:307-312 | without the length bound: for every event and every positive multiple of 2^32, that many zero bytes as requester with an empty action, and the other way round, have the same payload and are different events |
| Chain.CheckRow | crates/fg-store/src/lib.rs:1313-1364 | one row of the scan: unhashed, detached, intact, key lost or altered, in that order |
| Chain.FirstBreak | crates/fg-store/src/lib.rs:1300-1312 | the reported position is in scope, broken, and the least such |
| Chain.ScanRows | crates/fg-store/src/lib.rs:1285-1364 | the loop reports the tallies, the tampered flag and the least break of the findings, each row held against the hash of the last hashed row before it; it hands back the hash for the checkpoint |
| Chain.FindingsAt | crates/fg-store/src/lib.rs:1313-1364 | the finding at each position, from the row and the hash expected there |
| Chain.ExpectedIsLastHashed | crates/fg-store/src/lib.rs:1313-1364 | the hash expected is that of the last hashed row, however many unhashed rows follow it, or the starting hash when there is none |
| ChainProofs.FindingsConcat | crates/fg-store/src/lib.rs:1211-1284 | a scan of two stretches is the scan of the first followed by the scan of the second from the hash it ends in |
| ChainProofs.IncrementalMatchesFull | crates/fg-store/src/lib.rs:1211-1364 | behind a clean prefix, for arbitrary rows after it, the partial scan reports what the full scan reports, with links and first position shifted by the prefix |
| ChainProofs.CleanReport | crates/fg-store/src/lib.rs:1365-1403 | a scan with no break reports zero everywhere and vouches for every row in scope |
| ChainProofs.AllVerifiedMeansIntact | crates/fg-store/src/lib.rs:1300-1364 | as many verified links as rows if and only if every row is intact |
| ChainProofs.TailHashBindsHistory | crates/fg-store/src/lib.rs:1313-1364 | two tables that a global scan verifies completely and that end in the same hash agree in length, key versions and all hashed fields, or a MAC collision or a MAC equal to genesis is exhibited |
| ChainProofs.IntactTailBinds | crates/fg-store/src/lib.rs:2286-2297 | the same by descent from the tail, naming the two messages that collide |
| ChainProofs.OtherMasterSeesKeyLoss | crates/fg-store/src/lib.rs:2313-2335 | with intact links and anchors of another master, every mismatch counts as key loss and nothing as tampering |
| ChainProofs.MintingMasterSeesTampering | crates/fg-store/src/lib.rs:1340-1358 | when the stored anchors, where there are any, are the master's own, no row counts as key loss, and tampering is reported exactly when a link is broken |
| ChainProofs.TallyPartition | crates/fg-store/src/lib.rs:1300-1364 | each row in scope is verified or broken, never both or neither |
| DeadLetter.CheckLine | crates/fg-store/src/lib.rs:1640-1725 | one line of the file: its finding and the hash the next line must name |
| DeadLetter.ExpectedIsLastRead | crates/fg-store/src/lib.rs:1640-1725 | past lines that are not JSON, have no hash, or are linked without an event, the hash expected is that of the last other line, sound or not |
| DeadLetter.VerifyDeadLetter | crates/fg-store/src/lib.rs:1618-1741 | the report counts each kind of finding, flags tampering for all but key loss and missing hashes, and gives the least break |
| DeadLetter.PreCheck | crates/fg-store/src/lib.rs:1747-1835 | the signature pass accepts if and only if every line is sound after the one before it |
| DeadLetter.PreCheckMatchesVerify | crates/fg-store/src/lib.rs:1747-1835 | it accepts exactly the files for which verified links equal total lines |
| DeadLetter.SpoolKeepsSound | crates/fg-store/src/lib.rs:2683-2742 | one spool, undisturbed between its read and its append, leaves a sound file sound |
| Spools.EveryLineIsAccountedFor | crates/fg-store/src/lib.rs:1747-1870 | over every run of overlapping spools and reimports, each event appended to the file is in exactly one of the table, the part of the file the table does not have, and what was emptied out unread |
| Spools.NothingLostExactly | crates/fg-store/src/lib.rs:1748-1862 | no event is lost if and only if no reimport empties the file after something was appended to what it read |
| Spools.FileIsSoundExactly | crates/fg-store/src/lib.rs:2691-2742 | the file checks line for line if and only if, since it was last emptied, every append found the hash its thread had read still last |
| Spools.UndisturbedSpoolsStaySound | crates/fg-store/src/lib.rs:2683-2742 | spools that are not overtaken between read and append keep the file sound, whatever reimports do |
| Spools.RacingSpoolsBreakTheFile | crates/fg-store/src/lib.rs:2691-2742 | two threads that read an empty file and both append leave one that does not check and whose reimport is refused |
| Spools.LateSpoolIsLost | crates/fg-store/src/lib.rs:1748-1862 | an event spooled between a reimport's read and its emptying of the file is in no table and no file |
| Spools.TakeKeeps | crates/fg-store/src/lib.rs:1834-1860 | a reimport that inserts anything holds the front of the file, none of which was in the table |
| Spools.ClearKeeps | crates/fg-store/src/lib.rs:1860-1864 | a reimport that empties the file has inserted exactly the front of it |
| AuditStore.Store.constructor | crates/fg-store/src/lib.rs:318-440 | opens a database as it was left; a new one is empty, at key version one, with no checkpoint |
| AuditStore.Store.InsertAuditEvent | crates/fg-store/src/lib.rs:2174-2283 | the row carries the event, the given key version, the table's last hash, or the archive's when the table is empty, and the MAC of both under that version's key; a repeated id is refused |
| AuditStore.Store.RotateOldRows | crates/fg-store/src/lib.rs:980-1142 | the oldest rows move to an archive and the checkpoint names the first row left and the last one archived; if the archive cannot be opened nothing changes |
| AuditStore.Store.VerifyChain | crates/fg-store/src/lib.rs:1209-1403 | the report is that of a scan from the anchor; a scan without tampering moves the checkpoint to the last row read, and one with tampering leaves it (`Tampering.VerifyingAgainReportsTheSame`) |
| AuditStore.Store.SpoolDeadLetter | crates/fg-store/src/lib.rs:2683-2742 | called alone: one line is appended with the event, the given key version and its MAC, linked to the last line's hash, or none when the file cannot be opened |
| AuditStore.Store.ReimportDeadLetter | crates/fg-store/src/lib.rs:1747-1870 | called alone: nothing changes unless all lines check; then events go in one by one and the file is emptied when all went in |
| AuditStore.FindId | crates/fg-store/src/lib.rs:2609-2620 | finds the row with an id, or shows there is none |
| AuditStore.ScanPlan | crates/fg-store/src/lib.rs:1211-1284 | an incremental scan starts after a row with the id and the non-empty hash of the checkpoint; any other starts at the first row, after genesis or the archived hash |
| AuditRuns.ChainedIntact | crates/fg-store/src/lib.rs:1313-1364 | rows linked one to the next scan without a break |
| AuditRuns.InsertKeeps | crates/fg-store/src/lib.rs:2174-2283 | an insert keeps the store invariant and adds exactly its event to the history |
| AuditRuns.RotateKeeps | crates/fg-store/src/lib.rs:980-1142 | a rotation keeps the invariant and leaves the history, archives then table, as it was, even when it empties the table |
| AuditRuns.AgedCountIsSize | crates/fg-store/src/lib.rs:993-997 | as many rows are taken as there are rows older than the cutoff |
| AuditRuns.RotationTakesTheOld | crates/fg-store/src/lib.rs:993-1019 | when some row is old, that many rows are taken, and exactly the old ones if timestamps do not go back; when none is, an oversized file gives up its first 50000 rows at most, any other none |
| AuditRuns.VerifyKeeps | crates/fg-store/src/lib.rs:1365-1403 | a verification keeps the invariant and the history |
| AuditRuns.VerifyIsClean | crates/fg-store/src/lib.rs:1209-1403 | under the invariant a verification of any scope has no break and vouches for all it read |
| AuditRuns.RunKeepsOneChain | crates/fg-store/src/lib.rs:980-1142 | in every run of appends, confirms, spools, reimports, key rotations, archive rotations and verifies, archives followed by live rows are the committed events in order and one chain from genesis |
| AuditRuns.EveryVerifyIsClean | crates/fg-store/src/lib.rs:1209-1403 | every verification in every such run, of any scope, reports no break, no tampering, no key loss and the right total |
| AuditRuns.ReimportOutcome | crates/fg-store/src/lib.rs:1747-1870 | a reimport with nothing spooled meanwhile succeeds if and only if every line checks, no two ids are equal and none is in the table; then all events are appended in file order and the file is emptied; a bad line changes nothing; a refused id leaves the events before it and the file, and the next try is refused without change |
| AuditRuns.ImportSucceedsExactly | crates/fg-store/src/lib.rs:1834-1860 | the insert loop goes through if and only if every line has an event with a new id, and then the table has exactly the old ids and theirs |
| AuditRuns.ImportedUnderCurrentKey | crates/fg-store/src/lib.rs:1834-1860 | an import only appends, and every row it adds is written under the current key version, whatever version its line had |
| AuditRuns.IncrementalExactly | crates/fg-store/src/lib.rs:1215-1262 | a scan is incremental if and only if the checkpoint names a row of the table by id and hash |
| AuditRuns.NextGlobalVerify | crates/fg-store/src/lib.rs:1365-1381 | after a verification of any scope that read rows and reported no tampering, the next global one sees a break if and only if the last row has no hash, and otherwise reports a clean chain |
| AuditRuns.ScopedVerifyPassesOver | crates/fg-store/src/lib.rs:1313-1381 | a table whose first row, of another tenant, is detached: tampered for a global scan, clean for the other tenant, and clean for the global scan after that one |
| AuditRuns.IncrementalVerifyAgrees | crates/fg-store/src/lib.rs:1209-1364 | with nothing archived and a clean prefix, verifying from the checkpoint agrees with verifying everything on totals, tampering, breaks, unhashed and key-loss counts for arbitrary later rows; links and first position differ by the prefix |
| Tampering.TamperingExactly | crates/fg-store/src/lib.rs:1313-1364 | a verification reports tampering if and only if it reads a row of its tenant that is unhashed, names the wrong predecessor, or fails its MAC with no foreign anchor for its version; and unhashed rows if and only if it reads one of its tenant |
| Tampering.LineTamperingExactly | crates/fg-store/src/lib.rs:1618-1741 | the file check reports tampering if and only if some line is not JSON, or has a hash and names the wrong predecessor, has no event, or fails its MAC with no foreign anchor |
| Tampering.TamperingStaysReported | crates/fg-store/src/lib.rs:1365-1381 | once a verification has reported tampering, every later one of that scope does, first broken at the same row, through any verifications of that scope or of all tenants, appends, confirms, spools, reimports and key rotations, and the whole report is the same while no row is added; the checkpoint does not move; excluded is only a new row with the very id and hash the checkpoint looks for in vain |
| Tampering.NewAnchorPassesOver | crates/fg-store/src/lib.rs:1215-1262 | if such a row is added, the scan starts behind it and judges none of the rows that were there before |
| Tampering.VerifyingAgainReportsTheSame | crates/fg-store/src/lib.rs:1365-1381 | any number of verifications of that scope or of all tenants after a report of tampering change nothing and give the same report |
| Tampering.RotationPassesOver | crates/fg-store/src/lib.rs:1076-1124 | after an archive rotation the next verification judges exactly the rows behind the first one left, from that one's hash, and none when all rows were taken |
| Writers.CommitLinks | crates/fg-store/src/lib.rs:2174-2229 | a commit leaves one chain if and only if there was one and the state is not stale |
| Writers.ChainForksExactlyOnStaleReads | crates/fg-store/src/lib.rs:2174-2283 | in every interleaving of two connections, rotations, verifications and crashes, the rows form one chain if and only if no transaction whose tail read was taken in a stale state is committed |
| Writers.TwoWritersNeverFork | crates/fg-store/src/action_store.rs:122-230 | every schedule that keeps a rotation's delete and checkpoint write together, and deletes no rows during a verification that writes or between another rotation's selection and delete, leaves one chain, whatever the interleaving, aborts and crashes |
| Writers.TornRotationForks | crates/fg-store/src/lib.rs:1076-1124 | a run in which an insert between a rotation's delete and its checkpoint write forks the chain |
| Writers.OvertakenVerifyForks | crates/fg-store/src/lib.rs:1366-1381 | a run in which a verification writes back the checkpoint it read before a complete rotation, and the next insert forks the chain |
| Writers.OverlappingRotationsFork | crates/fg-store/src/lib.rs:1007-1124 | a run in which the later of two overlapping rotations writes an earlier hash, and the next insert forks the chain |
| Keys.KeyTable.constructor | crates/fg-store/src/token_store.rs:72-117 | opening seeds version one, fills in missing anchors only, and continues from the highest version |
| Keys.KeyTable.RotateKey | crates/fg-store/src/token_store.rs:248-268 | rotation adds the next version with its anchor |
| Keys.MaxOf | crates/fg-store/src/token_store.rs:336-344 | the current version is in the table and no version is higher |
| Keys.AnchorsNeverChange | crates/fg-store/src/token_store.rs:359-383 | in every run of opens, with any masters, and rotations, an anchor once set stays as it is |
| Keys.OneMasterMints | crates/fg-store/src/token_store.rs:348-383 | a store only ever opened with one master has that master's anchor at every version |
| Keys.LostMasterIsKeyLoss | crates/fg-store/src/lib.rs:1340-1358 | rows chained under the original master, scanned after opening with one that has other anchors: no tampering, every mismatch key loss, verified plus lost is everything in scope |
| Keys.KeptMasterSeesTampering | crates/fg-store/src/lib.rs:2313-2335 | under the original master, for arbitrary rows and versions, there is no key loss, and tampering exactly when something is broken |
| LowRisk.LowRiskWriter.Submit | crates/fg-store/src/lib.rs:711-740 | an event joins the queue, or the dead-letter file when the queue is full |
| LowRisk.LowRiskWriter.Collect | crates/fg-store/src/lib.rs:444-462 | a batch takes the first hundred events of the queue, or all when there are fewer, and loses none |
| LowRisk.LowRiskWriter.Flush | crates/fg-store/src/lib.rs:462-476 | the events that could be inserted go to the table and the others to the dead-letter file, each in batch order |
| LowRisk.FlushSorts | crates/fg-store/src/lib.rs:462-476 | the same after any number of events of the batch |
| LowRisk.EveryEventIsAccountedFor | crates/fg-store/src/lib.rs:444-476 | over every run each submitted event is in exactly one of queue, batch, chain and dead-letter file, the queue holds at most 8192 and a batch at most 100 |
| LowRisk.ChainKeepsSubmissionOrder | crates/fg-store/src/lib.rs:711-740 | the chain has its events in submission order |
| Pages.ListPage | crates/fg-store/src/lib.rs:897-926 | one page: at most the limit, whether there is more, and the cursor of the last row |
| Pages.PageShape | crates/fg-store/src/lib.rs:897-926 | a page has the first rows found up to the limit, says there is more exactly when more were found, and its cursor is the last row's timestamp and id around 0x1f |
| Pages.MatchesExactly | crates/fg-store/src/lib.rs:808-840 | a row matches when tenant and type are as asked, its timestamp is between the bounds, both included, and its level is at or above the one asked for; a row without a level is below every one |
| Pages.OrderedIsSorted | crates/fg-store/src/lib.rs:808-892 | the listing has the table's rows, strictly descending by timestamp and id |
| Pages.CursorRoundTrip | crates/fg-ipc/src/lib.rs:877-889 | decoding an encoded cursor gives the row's key back |
| Pages.KeptFromCursor | crates/fg-store/src/lib.rs:841-849 | asking from the key of any row found gives exactly the rows after it |
| Pages.NextPageContinues | crates/fg-store/src/lib.rs:897-926 | the next request finds what this page left over, whatever arrived above the cursor |
| Pages.FollowingCursorIsComplete | crates/fg-store/src/lib.rs:897-926 | following the cursor to the end visits every matching row once, in order, while rows arrive above the cursor |
| Pages.FollowingCursorEnds | crates/fg-store/src/lib.rs:897-926 | as long as every page has a next cursor, the pages so far times the limit is less than what the first request found, so following the cursor ends |
| Pages.FoundIsMatching | crates/fg-store/src/lib.rs:808-892 | what is visited is each row of the table that matches, as often as it is there, and nothing else |
| Pages.ReceivedIsReadable | crates/fg-store/src/lib.rs:808-926 | what a client receives is each matching row whose verdict can be read, as often as it is in the table, and nothing else |
| Actions.ActionStore.constructor | crates/fg-store/src/action_store.rs:43-65 | a new store has no pending action |
| Actions.ActionStore.PutAction | crates/fg-store/src/action_store.rs:67-93 | a verdict with an id replaces any row of that id; one without changes nothing |
| Actions.ActionStore.ConfirmAtomic | crates/fg-store/src/action_store.rs:101-241 | the checks in order, then audit row and consumed flag together or not at all; what the row says is `Actions.EveryRowHasItsPut` |
| Actions.ActionStore.EvictExpired | crates/fg-store/src/action_store.rs:243-254 | exactly the rows past their time go, the others stay as they are, and the number gone is returned |
| Actions.ConfirmSucceedsExactly | crates/fg-store/src/action_store.rs:146-190 | in every run with a clock that does not go back, a confirmation succeeds if and only if its transaction commits and a ledger that never forgets has the action open for this tenant |
| Actions.EvictionIsInvisible | crates/fg-store/src/action_store.rs:243-254 | runs that differ only in evictions have the same confirm rows and the same next outcome |
| Actions.ConfirmedAtMostOncePerPut | crates/fg-store/src/action_store.rs:177-180 | an id has at most as many confirm rows as puts; put once, it has one exactly when its stored flag says consumed and, evicted or not, exactly when the ledger's flag does, whatever crashes, evictions and refusals happened |
| Actions.ConfirmedWasPut | crates/fg-store/src/action_store.rs:146-190 | a success means the last put was by this tenant, at most thirty seconds ago and below L4, even if risk columns were rewritten |
| Actions.PutCanBeConfirmed | crates/fg-store/src/action_store.rs:67-241 | an action below L4 can be confirmed by its tenant for thirty seconds after its put, whatever happened before and whatever else is put, refused, confirmed or evicted in between, and the verdict given is the stored one, decided |
| Actions.ReplayIsRefused | crates/fg-store/src/action_store.rs:177-180 | after a confirmation every further one by the tenant is told the action is used up, expired or not, and changes nothing |
| Actions.OtherTenantsLearnNothing | crates/fg-store/src/action_store.rs:164-190 | what a request from another tenant is told does not depend on whether the action is used up, when it was put or what time it is, and it changes nothing |
| Actions.EveryRowWasAllowed | crates/fg-store/src/action_store.rs:204-230 | every confirm row was written by a step whose checks passed, and the rows before it were there then |
| Actions.EveryRowHasItsPut | crates/fg-store/src/action_store.rs:192-223 | every confirm row tells the tenant, trigger and risk of the last put of its id, and from the request that confirmed it who decided, what was decided and in the right words; the caller was given the very verdict in the row |
| Tokens.TokenStore.constructor | crates/fg-store/src/token_store.rs:72-117 | opens a table as it was left, at the highest key version on record |
| Tokens.TokenStore.PutTenant | crates/fg-store/src/token_store.rs:124-154 | the text is stored sealed under the current version, bound to the tenant |
| Tokens.TokenStore.GetTenant | crates/fg-store/src/token_store.rs:162-209 | a wrong tenant finds nothing, an expired token is dropped unless in flight, otherwise it is opened with its own version's key |
| Tokens.TokenStore.SetInFlight | crates/fg-store/src/token_store.rs:211-218 | only the flag of that token changes |
| Tokens.TokenStore.EvictExpired | crates/fg-store/src/token_store.rs:220-231 | exactly the expired tokens not in flight go, the others stay as they are, and the number gone is returned |
| Tokens.TokenStore.RotateKey | crates/fg-store/src/token_store.rs:248-272 | only the version changes, by one |
| Tokens.ReadRevealsLastPut | crates/fg-store/src/token_store.rs:162-209 | in every run a read reveals a text if and only if it was put last under that id by that tenant within three hundred seconds |
| Tokens.OthersSeeNothing | crates/fg-store/src/token_store.rs:162-209 | to any other tenant a token looks as if it were not there, expired or not, and asking changes nothing |
| Tokens.EvictionIsInvisible | crates/fg-store/src/token_store.rs:220-231 | runs with the same puts reveal the same, however they evict, read, flag and rotate keys |
| Spans.CollectSpans | crates/fg-redact/src/lib.rs:310-356 | the nested loops compute the first-come choice among the validated candidates in priority order |
| Spans.HasSensitive | crates/fg-redact/src/lib.rs:470-491 | true if and only if the choice is not empty |
| Spans.CandidatesAreFaithful | crates/fg-redact/src/lib.rs:319-342 | a candidate is a non-empty piece of the text that a selected pattern found and its validator accepted |
| Spans.OnlyTheGroupIsHidden | crates/fg-redact/src/lib.rs:319-342 | where the expression has a non-empty group only the group is hidden, otherwise the whole match |
| Spans.CaptureIsCandidate | crates/fg-redact/src/lib.rs:316-342 | every such capture is a candidate, ranked by its pattern |
| Spans.AcceptedIsCandidate | crates/fg-redact/src/lib.rs:343-352 | an accepted span is a candidate, and the spans before it are the choice among the candidates before it |
| Spans.AcceptedAreDisjoint | crates/fg-redact/src/lib.rs:343-347 | accepted spans do not overlap |
| Spans.LeftOutOverlapsEarlier | crates/fg-redact/src/lib.rs:343-347 | a candidate left out overlaps a span accepted before its turn |
| Spans.AcceptedLineUp | crates/fg-redact/src/lib.rs:369-371 | sorting the accepted spans lines them up one after the other and loses none |
| Spans.ReplaceBackToFront | crates/fg-redact/src/lib.rs:372-378 | replacing in place from the last span to the first gives the forward splice |
| Spans.SpliceOfOwnText | crates/fg-redact/src/lib.rs:372-378 | splicing each span's own text back gives the text, so all the rest is kept in order |
| Spans.RedactCounted | crates/fg-redact/src/lib.rs:409-423 | the text with its label in place of every chosen span, and how many there were; what the labels are and tell is in `Concealment` |
| Spans.RedactIrreversible | crates/fg-redact/src/lib.rs:425-438 | the text with a label for every chosen span that keeps the last four characters of a longer value |
| Concealment.LabelAt | crates/fg-redact/src/lib.rs:375 | each label is the literal `[REDACTED:kind]` |
| Concealment.Last4LabelAt | crates/fg-redact/src/lib.rs:434 | each irreversible label is the literal `[REDACTED:kind#last4]` |
| Concealment.Last4Keeps | crates/fg-redact/src/lib.rs:274-282 | a value of at most four characters is shown whole, of a longer one exactly the last four |
| Concealment.SpliceIsWoven | crates/fg-redact/src/lib.rs:372-378 | the redacted text is the pieces outside the spans with the labels between them |
| Concealment.RedactedTellsNothing | crates/fg-redact/src/lib.rs:409-423 | two texts that agree outside their chosen spans, with spans of the same kinds in the same order, have the same redacted text, whatever was hidden and however long |
| Concealment.OnlyLast4Tells | crates/fg-redact/src/lib.rs:425-438 | irreversibly redacted, they have the same text as soon as the hidden values share their last four characters |
| Placeholders.ParseExactly | crates/fg-redact/src/lib.rs:493-500 | the expression matches at a place if and only if a well-formed placeholder of recognised kind stands there |
| Placeholders.ExtractFindsMarks | crates/fg-redact/src/lib.rs:493-507 | in a redacted text that had no placeholder before, extraction finds exactly the marks of recognised kinds, in order |
| Placeholders.NoPlaceholderAtPlain | crates/fg-redact/src/lib.rs:493-507 | no placeholder starts at a character that was in the text before |
| Placeholders.OnlyOwnPlaceholderAtMark | crates/fg-redact/src/lib.rs:493-507 | where a placeholder stands, no other one starts |
| Placeholders.ReplaceUnmasks | crates/fg-audit-engine/src/lib.rs:251-266 | replacing a placeholder everywhere restores the marks that show it and touches nothing else |
| Placeholders.ReplaceRestores | crates/fg-audit-engine/src/lib.rs:251-266 | the same in the middle of a reveal, with other marks restored already |
| Placeholders.RecoveredIsOriginal | crates/fg-audit-engine/src/lib.rs:242-275 | with recognised kinds only, restoring all marks gives the original text |
| Placeholders.RecoveredIsOriginalExactly | crates/fg-redact/src/lib.rs:493-500 | if what unrecognised kinds hide is shorter than their placeholders, the original comes back if and only if every kind is recognised |
| Placeholders.Ipv4IsNotRecognised | crates/fg-redact/src/lib.rs:497 | the expression does not recognise `ipv4`, and an address is shorter than its placeholder |
| Reveal.MaskReads | crates/fg-redact/src/lib.rs:440-467 | the redacted text is the splice of placeholders, and the text behind it is the content |
| Reveal.RedactReversible | crates/fg-redact/src/lib.rs:440-467 | the chosen spans stand behind placeholders, and each match carries its token and its text |
| Reveal.RedactTenant | crates/fg-audit-engine/src/lib.rs:196-228 | after an eviction: the reversible text with its first token id and the originals put in text order, passing over failed puts; or the irreversible text, with nothing stored |
| Reveal.RevealTenant | crates/fg-audit-engine/src/lib.rs:242-275 | the loop over extracted placeholders: flag, read, replace or fall back, unflag, on the token store and the text |
| Reveal.RevealReleases | crates/fg-audit-engine/src/lib.rs:251-272 | a reveal that gets through leaves no token in flight |
| Reveal.LabelsRead | crates/fg-audit-engine/src/lib.rs:257-264 | a placeholder is the literal `[REDACTED:kind#id]`, and the label for a lost original is `[REDACTED:unrecoverable#` with the first eight characters of the id |
| Reveal.RevealFollowsPuts | crates/fg-audit-engine/src/lib.rs:242-275 | whatever ran before, the outcome of a reveal is decided by what was put last under each id |
| Reveal.RevealCompletesExactly | crates/fg-audit-engine/src/lib.rs:257-264 | after any run, revealing a content has a result if and only if every id the content yields is at least eight long or was put last by this tenant recently enough |
| Reveal.ShortIdStopsReveal | crates/fg-audit-engine/src/lib.rs:257-264 | a content with the id `tok_0`, which nobody put, stops the reveal |
| Reveal.RevealRecovers | crates/fg-audit-engine/src/lib.rs:242-275 | with all originals on hand a reveal leaves only marks of unrecognised kinds |
| Reveal.StoredIsRun | crates/fg-audit-engine/src/lib.rs:203-209 | what a redaction stores is what its put steps store in a run |
| Reveal.RedactThenReveal | crates/fg-audit-engine/src/lib.rs:196-275 | redact, any run that does not put the same ids, reveal as the same tenant in time: the text comes back but for spans of unrecognised kinds; where these are shorter than their placeholders, the exact content comes back if and only if there are none |
| Reveal.RecoveredIsContentExactly | crates/fg-redact/src/lib.rs:440-507 | the same if-and-only-if on the redacted text itself |
| Reveal.Ipv4StaysHidden | crates/fg-redact/src/lib.rs:497 | with one span of kind `ipv4` the revealed text is not the content |
| Reveal.RedactUseReveal | crates/fg-audit-engine/src/lib.rs:196-275 | the methods one after the other, with any use of the token store in between: the same outcome |
| Checksums.ValidLuhn | crates/fg-redact/src/lib.rs:513-541 | accepts 13 to 19 digits not flanked by digits whose Luhn sum, by digit sums of doubled digits, is a multiple of ten |
| Checksums.LuhnAcceptsExactly | crates/fg-redact/src/lib.rs:513-541 | accepted exactly when it stands alone, has 13 to 19 digits, and the sum by position is a multiple of ten, a digit at an odd distance from the right end doubled less nine if over nine, the others plain |
| Checksums.LuhnSeesOneDigit | crates/fg-redact/src/lib.rs:531-540 | changing one digit changes the sum modulo ten, at any length |
| Checksums.LuhnSeesSwaps | crates/fg-redact/src/lib.rs:531-540 | exchanging neighbours leaves the sum modulo ten if and only if they are equal or 0 and 9, at any length |
| Checksums.LuhnRefusesOneMisread | crates/fg-redact/src/lib.rs:513-541 | an accepted number with one digit misread is refused |
| Checksums.LuhnRefusesSwap | crates/fg-redact/src/lib.rs:513-541 | an accepted number with two different neighbours exchanged is accepted only for 0 and 9 |
| Checksums.ValidIdCard | crates/fg-redact/src/lib.rs:552-583 | accepts seventeen digits and a check character, not flanked by digits, satisfying the MOD 11-2 congruence of ISO 7064 |
| Checksums.TableIsCongruence | crates/fg-redact/src/lib.rs:565-582 | the table lookup is the congruence, for every sum |
| Checksums.WeightIsPower | crates/fg-redact/src/lib.rs:552-583 | the weight at each place is the power of two that MOD 11-2 gives it, modulo eleven |
| Checksums.CongruentExactly | crates/fg-redact/src/lib.rs:552-583 | the weighted sum is one modulo eleven if and only if the running value of ISO 7064, doubled and added to character by character, is |
| Checksums.IdRefusesOneMisread | crates/fg-redact/src/lib.rs:552-583 | an accepted number with one value changed is refused |
| Checksums.IdRefusesSwap | crates/fg-redact/src/lib.rs:552-583 | an accepted number with two neighbours of different value exchanged is refused |
| Rules.AuditEngine.Open | crates/fg-audit-engine/src/lib.rs:48-85 | starts from the stored rules or seeds the default, and refuses if and only if a pattern does not compile |
| Rules.AuditEngine.Add | crates/fg-audit-engine/src/lib.rs:391-418 | disk, then memory, then epoch; a save that fails ends the call whatever it left, a failure in memory takes the disk row away, a failed epoch takes both away, and each write can take effect and still report failure |
| Rules.AuditEngine.Update | crates/fg-audit-engine/src/lib.rs:420-457 | the new row is saved, the old name deleted, memory updated, the epoch written, each of which can fail before or after taking effect; a failure in memory deletes a new name but restores nothing |
| Rules.AuditEngine.Remove | crates/fg-audit-engine/src/lib.rs:459-482 | the row goes from disk, then from memory, then the epoch is written; a delete that reports failure ends the call, with the row gone or not |
| Rules.AuditEngine.DropRule | crates/fg-rules/src/lib.rs:127-138 | the first rule of that name and its compiled pattern go, and the epoch rises |
| Rules.AuditEngine.Evaluate | crates/fg-rules/src/lib.rs:141-159 | one hit for each regex rule whose own compiled pattern matches, in rule order |
| Rules.HitsConcat | crates/fg-rules/src/lib.rs:141-159 | hits come in rule order: those of a list of rules are those of its front followed by those of the rest |
| Rules.AddKeepsSyncExactly | crates/fg-audit-engine/src/lib.rs:396-418 | however each write ends, an add leaves disk and memory in agreement if and only if nothing was saved, or the name is new and the add went through or was undone, or the same rule was there and stayed |
| Rules.UpdateKeepsSyncExactly | crates/fg-audit-engine/src/lib.rs:420-457 | however each write ends, an update does if and only if its guard on names, pattern and writes holds |
| Rules.GuardsWithoutFailures | crates/fg-audit-engine/src/lib.rs:402-446 | when all writes succeed the guards are: a new name for an add; for an update of a rule that is there, a pattern that compiles and the same or a new name; none for a remove |
| Rules.RemoveKeepsSyncExactly | crates/fg-audit-engine/src/lib.rs:459-482 | however each write ends, a remove does unless the rule is in memory and its row was deleted without being recorded |
| Rules.HalfRemoveLosesARule | crates/fg-store/src/lib.rs:1915-1924 | one agreeing rule whose delete commits and is not recorded: the call fails, memory keeps the rule and disk has lost it |
| Rules.RunStaysInSyncExactly | crates/fg-audit-engine/src/lib.rs:391-482 | disk and memory agree throughout a run if and only if each call meets its guard |
| Rules.EpochCountsSuccesses | crates/fg-rules/src/lib.rs:99-137 | in every run memory is never behind the disk and rises at least once per success; when every epoch write succeeds both are the starting epoch plus the number of successful calls |
| Rules.OpStaysAligned | crates/fg-rules/src/lib.rs:99-137 | rules and compiled patterns stay side by side through every call |
| Rules.KeyDecides | crates/fg-rules/src/lib.rs:353-370 | the key orders by severity, then risk, then stage, and determines all three |
| Rules.Top | crates/fg-rules/src/lib.rs:361-370 | the chosen hit has the greatest key and is the last that has it |
| Rules.VerdictIsTheWorst | crates/fg-rules/src/lib.rs:361-391 | no hit is more severe than the verdict, nor riskier among the equally severe; approval and seatbelt follow from it |
| Rules.VerdictByName | crates/fg-rules/src/lib.rs:353-406 | Block if some hit blocks, else Redact if some redacts, else Preview if some previews, else Allow; then the highest of L4 to L1 among the hits with that action, then Regex before Ast before Semantic among those with that risk; without hits Allow, L1, no approval, no seatbelt |
| Rules.MoreHitsNeverSofter | crates/fg-rules/src/lib.rs:166-222 | hits of further stages never make the verdict milder |
| Rules.DecisionIgnoresOrder | crates/fg-rules/src/lib.rs:361-391 | hit lists with the same hits give the same action, risk, stage, approval and seatbelt |
| Rules.OneReasonIgnoresOrder | crates/fg-rules/src/lib.rs:361-391 | when the top hits agree on the reason, so does every order |
| Rules.ReasonFollowsOrder | crates/fg-rules/src/lib.rs:361-391 | when they do not, some order gives another reason |
| Rules.RestartDecidesTheSame | crates/fg-audit-engine/src/lib.rs:48-85 | restarting from an agreeing, non-empty store, in any listing order, goes on from the epoch on disk and decides the same on every content |
| Rules.EmptyStoreReseeds | crates/fg-audit-engine/src/lib.rs:61-74 | an emptied rule set restarts as the default rule at epoch one |
| Rules.ReseededDecidesOtherwiseExactly | crates/fg-audit-engine/src/lib.rs:61-74 | after that restart the decision differs if and only if the default pattern matches, whatever the other stages add |
| Federation.VerifyChainSegment | crates/fg-cluster/src/verify.rs:48-122 | the report counts the three judgements and gives the least broken position |
| Federation.BrokenExactly | crates/fg-cluster/src/verify.rs:61-110 | a record is a baseline exactly when it lacks a chain field, and broken exactly when its MAC is empty or fails over the record without it, or it names a hash other than the SHA-256 of the whole record before it, where that one was verified |
| Federation.ReportIsConsistent | crates/fg-cluster/src/verify.rs:112-121 | the counts make up the total; tampered if and only if a link is broken if and only if a position is given |
| Federation.CleanExactly | crates/fg-cluster/src/verify.rs:61-110 | a segment passes if and only if every record fits behind its neighbour alone |
| Federation.SliceIsClean | crates/fg-cluster/src/verify.rs:81-110 | every contiguous slice of an honest chain passes |
| Federation.RemovalShows | crates/fg-cluster/src/verify.rs:81-110 | an interior record taken out of an honest chain is reported at that place first, unless two different records have the same hash |
| Federation.ForgeryShows | crates/fg-cluster/src/verify.rs:70-82 | in an honest chain with one record replaced by one whose MAC fails, that place is the first broken one |
| Federation.ReplacementShows | crates/fg-cluster/src/verify.rs:61-110 | with one record replaced by another that is properly signed, nothing before it breaks, its place breaks exactly when it names a wrong hash, and otherwise the next record breaks exactly when the two have different hashes |
| Scanners.SplitChain | crates/fg-rules/src/tokenizer.rs:641-689 | the segments of the cuts, an empty last one dropped |
| Scanners.BreaksExactly | crates/fg-rules/src/tokenizer.rs:641-689 | unquoted text is cut at a semicolon, a newline, a carriage return, a pipe, a doubled pipe and a doubled ampersand and at nothing else, a doubled sign counting as one separator |
| Scanners.QuotedIsOnePiece | crates/fg-rules/src/tokenizer.rs:641-689 | a text in single or double quotes is one piece, whatever separators and other quotes are in it, and ends outside quotes |
| Scanners.CutsRejoin | crates/fg-rules/src/tokenizer.rs:641-689 | putting the separators back gives the command |
| Scanners.SegmentsAreTheRest | crates/fg-rules/src/tokenizer.rs:641-689 | the segments one after the other are the command without its unquoted separators |
| Scanners.EveryPieceIsWhole | crates/fg-rules/src/tokenizer.rs:641-689 | every cut is at a separator outside quotes, and no piece has one left |
| Scanners.CheckUnmodeled | crates/fg-rules/src/tokenizer.rs:160-238 | refuses if and only if some feature stands outside quotes, and names the first that does |
| Scanners.FeatureIsNamed | crates/fg-rules/src/tokenizer.rs:160-238 | each of the ten features is found at a place if and only if its text stands there, brackets and braces on their further condition |
| Scanners.BraceGroupExactly | crates/fg-rules/src/tokenizer.rs:160-238 | braces count if and only if, after the command's first character, a comma or two dots stand before the first closing brace |
| Scanners.GuardedPieceByPiece | crates/fg-rules/src/tokenizer.rs:641-689 | a command has all expansion characters quoted if and only if each of its pieces, read on its own, has |
| Scanners.AcceptedSegmentsAreGuarded | crates/fg-rules/src/tokenizer.rs:118-155 | in an accepted command each `*`, `?` and `~` of a segment is inside that segment's own quotes |

## Left out

- Real cryptography, key loading from Keychain or environment, file permissions, SQLite pragmas and VACUUM: foreign calls. Row numbers are taken as stable, although the table reuses them once it is empty and VACUUM may renumber them, either of which can happen between a rotation's selection and its delete.
- Sockets, timeouts, semaphores and peer credentials of the IPC layer; only the cursor decoding is modelled.
- Regular expression engines, `shell_words`, and the tree-sitter stage of `fg-rules`: arbitrary functions here.
- Files written in part: an archive or a dead-letter line that is cut off in the middle.
- Pruning of expired archives, the size query behind an oversized database, and the archive file format.
- The TCC and rule-mutation chains, which repeat the audit chain's scan on smaller rows.
- Category inference, the category-hint floor and the redaction step of an evaluation: small finite tables.
- Detection of deleted tail rows, which a hash chain alone cannot give.
- The AWS-secret, phone and address validators, and the trimming and per-segment checks of the tokenizer.
- Byte offsets: text in the redaction modules is a sequence of characters, so offsets count characters.
- AuditRuns.RunKeepsOneChain: takes a rotation, and a verification with its checkpoint write, as one step each; `Writers` takes both apart.
- AuditRuns.IncrementalVerifyAgrees: asks that nothing was archived, since a full scan from genesis cannot follow archived rows.
- Writers.TwoWritersNeverFork: takes checkpoint writes as successful once they are made; a failed one acts like a torn rotation.
- Tokens.TokenStore.RotateKey: the key-version row and its anchor are in `Keys`.
- Reveal.RedactThenReveal: asks for content without placeholders of its own and for distinct token ids, as random ids give.
- LowRisk.EveryEventIsAccountedFor: takes writes to the dead-letter file as successful, and an event as spooled once it is appended; `Spools` says what becomes of it then.
- Spools.NothingLostExactly: reimported rows are taken to stay in the table while their lines are in the file, so that rotating them out does not let the same lines in again.
- Actions.ActionStore.ConfirmAtomic: the commit is all or nothing across the audit and the action database, although in WAL mode SQLite does not promise that for two files when the host stops during it.
- Rules.AuditEngine.Open: takes the writes that seed the default rule as successful; if one fails the daemon does not start.
- Writers.ChainForksExactlyOnStaleReads: stable row numbers, as above.
- Federation.SliceIsClean: honest chains have no baseline records in them.
- Scanners.CheckUnmodeled: commands are ASCII, so the slice from the second character is always well-formed.
