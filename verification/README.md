# Maru: a verified model of its announcement, accreditation, sharding and release-tag logic

Maru is a Django application for running conventions. This project states, in Dafny, four of its
parts and proves what they promise over all inputs and all interleavings.

* **Announcements** (`Announcements*.dfy`, `AnnouncementLedger.dfy`). One edition's command machine:
  settings, stop and resume, drafts in review rounds, decisions by a separate person, publication
  reports and their corrections, optimistic versions, retry receipts. `Announcements.Step` gives one
  command as a function of the state; `AnnouncementLedger.Ledger` is the store that mutates its rows
  in place inside a transaction and rolls back on a refusal, proved to do exactly `Step`. The
  invariant is kept by every step, and the theorems speak about every reachable state or about any
  further calls after a state.
* **Accreditation** (`Accreditation*.dfy`). Credentials issued, replaced and revoked, signed offline
  manifests, and check-ins relayed later by offline devices, interleaved arbitrarily with
  registration changes made elsewhere. `AccreditationDesk.Desk` is the store; `Accreditation.Step`
  the protocol.
* **Test shards** (`Greedy.dfy`, `CappedGreedy.dfy`, `TightCases.dfy`, `TestShards.dfy`,
  `TestPolicy.dfy`, `TestPolicyTight.dfy`, `TestBudget.dfy`, `PostgresPool.dfy`). Longest-first placement with and without a cap on historical groups, its
  distance from every other assignment, the search for a shard count within the runtime target, and
  the bounded worker pool that executes a plan.
* **Release tags** (`ReleaseTag.dfy`). The CalVer printer of the release job and the independent tag
  parser of the release consumer.

`AnnouncementRecords.dfy` proves that the receipts account for the whole state; `AnnouncementEffects.dfy`
and `AccreditationEffects.dfy` say exactly when each command is accepted, what it changes, and what a
refusal means. `Foundations.dfy` holds text order, sorting and totals. `dafny verify dfyconfig.toml` checks all of it.

## How the source is read

* `transaction.atomic` and row locks: one command is one step, all or nothing. `uuid4` and primary
  keys: a row is named by its position in an append-only table, so new names are fresh; a new review
  round is named after the revision that opens it. Digests and HMACs are injective: what was digested
  is kept instead.
* The clock, the authorization verdict (before and after a write), readiness, the size verdict over
  the complete evidence, signatures and the edition's profile are inputs of a step. The size verdict
  can only refuse.
* The announcement control row is created lazily with sequence 0, settings version 0, not stopped;
  the model starts with those values. Text arrives normalized; the structural parts of the input
  contracts (counts, uniqueness, version ranges, required reasons) are modelled and refuse.
* Registrations change elsewhere by environment steps. They are assumed never to leave the checked-in
  state, as the cancellation code refuses to (`src/maru/registration/finance.py:367-375`), and to enter it only by the
  staff check-in, which writes its own record.
* A test file's path is its POSIX text (`scripts/run_ci_test_shard.py:55-56`); distinct paths are taken
  to have distinct texts, so files of equal weight never tie. A relative and an absolute spelling of one
  file are two paths, to the code as to the model.
* Group durations are reals, file weights integers. `round(x, 3)` is rounding half to even.

Where text and code differ the code is followed.

`budget_partition` says it chooses the smallest partition; it starts at `min(8, number of groups)`
shards and takes the first count whose own greedy partition fits. Two groups of a second each are
split although one shard would do (`TestBudget.TwoSecondsAreSplit`). The answer is the smallest if and
only if no count from the number of historical groups up to the starting count fits
(`TestBudget.AnswerIsSmallestExactly`); that is so for more work than seven shards can hold or eight
historical groups (`TestBudget.LargeScopeGetsTheSmallest`), and fails for every scope of at least two
groups that fits into one shard (`TestBudget.SmallScopeIsSplitAnyway`).

It also says each shard is below the one-hour target. A prediction is rounded before it is compared, so
a shard can exceed the target by up to half a millisecond: of nine groups of 1000.0001 seconds two share
a shard that does (`TestBudget.NineOverrun`). For durations in whole multiples of 1/k second the hour is
always kept if and only if k is below 3000 (`TestBudget.HourIsKeptExactly`); the timing script records
milliseconds (`TestBudget.WholeMillisMeetTarget`).

Printer and parser of release tags agree on the Python version exactly for years from 1000 on
(`ReleaseTag.TagRoundTrip`): below that one pads the year and the other does not.

## Model

| member | source | states |
|---|---|---|
| AnnouncementTheorems.ApproverIsNoAuthorOfTheRound | src/maru/announcements/commands.py:500-519 | In every reachable state, whoever approved a revision wrote no revision of its round, and the approved revision is the last of that round, within one announcement. |
| AnnouncementTheorems.RoundsAreIntervals | src/maru/announcements/commands.py:131-136 | A round is a contiguous interval of an announcement's revisions; only its last revision can be approved. |
| AnnouncementTheorems.RoundsOpenOnlyAfterApproval | docs/modules/announcements.md:39-41 | After the first revision, a revision opens a new round if and only if the one before it was approved; numbers step by one along the lineage. |
| AnnouncementTheorems.RoundIsWhatWasEditedSinceApproval | docs/modules/announcements.md:39-41 | The round under review is exactly the set of revisions newer than the last approved one. |
| AnnouncementTheorems.IndependenceIsFromEveryEditor | src/maru/announcements/commands.py:506-511 | A reviewer is refused for lack of independence if and only if they wrote some revision since the last approval. |
| AnnouncementTheorems.DecisionsAreAcceptedExactly | src/maru/announcements/commands.py:500-519 | A fresh admitted decision is accepted if and only if work is open under unexpired newest settings, the seen version and revision are current and in review, the reviewer edited nothing since the last approval, and no bound is reached. |
| AnnouncementTheorems.EffectsNeedTheirConditions | src/maru/announcements/commands.py:60-75 | No state changes without both authorizations, readiness and an edition open for writes; new work also needs an edition not stopped, unexpired newest settings and the settings version seen. |
| AnnouncementTheorems.ReportsAreAcceptedExactly | src/maru/announcements/commands.py:613-628 | A fresh report is accepted if and only if the copy is of an approved revision of the announcement and has no report, within bounds; stopping, expired rules and cancellation do not matter. |
| AnnouncementTheorems.CorrectionsAreAcceptedExactly | src/maru/announcements/commands.py:706-729 | A fresh correction is accepted if and only if it names the last report of its chain, within bounds. |
| AnnouncementTheorems.DatabaseConstraintsHold | src/maru/announcements/models.py:138-390 | The uniqueness, one-to-one and check constraints declared on settings revisions, announcements, revisions, variants, reviews, reports and receipts hold in every reachable state by the commands alone. |
| AnnouncementTheorems.ExactRetryReturnsTheOriginal | src/maru/announcements/command_support.py:183-195 | After any intervening commands, an admitted exact retry of an answered command returns the original receipt, object and version, marked replayed, and changes nothing. |
| AnnouncementTheorems.ChangedIntentIsRefused | src/maru/announcements/command_support.py:189-194 | A different intent under a used retry key is refused without effect forever after, as a retry conflict when admitted. |
| AnnouncementTheorems.RetriesHaveNoEffect | src/maru/announcements/command_support.py:167-195 | Deleting from any sequence of calls those whose actor and key already had a receipt leaves the final state unchanged. |
| AnnouncementTheorems.EvidenceIsAppendOnly | src/maru/announcements/models.py:96-113 | No sequence of calls changes or removes a recorded settings revision, revision, variant, review, report, receipt or event. |
| AnnouncementTheorems.LifecycleOfItem | src/maru/announcements/commands.py:382-391 | Uncancelled, an announcement is approved if and only if its current revision is the approved one; otherwise the current revision builds on the approved one; a draft's revision has no review, so the review guard of a review request never fires. |
| AnnouncementTheorems.ReviewedAtMostOnce | src/maru/announcements/models.py:278-283 | No revision is decided twice, without relying on the database constraint. |
| AnnouncementTheorems.ApprovedOnlyGrows | src/maru/announcements/commands.py:515-519 | Along any calls an approved announcement stays approved and its approved revision number never falls. |
| AnnouncementTheorems.CancelledTakesOnlyReports | src/maru/announcements/commands.py:779-786 | After cancellation no calls change an announcement's status, current or approved revision, add a revision or a review to it; only its version moves, with reports. |
| AnnouncementTheorems.NoLostUpdates | src/maru/announcements/commands.py:78-101 | Two accepted commands on the same announcement, or on the settings, never observed the same version; later ones observed higher versions. |
| AnnouncementTheorems.AccountsBalance | src/maru/announcements/command_support.py:209-261 | Sequence, receipts and events number each other 1, 2, 3, ...; settings and item versions are the number of their receipts; history, revision, text, report and 63-bit bounds hold. |
| AnnouncementTheorems.ReportsFormOneChain | src/maru/announcements/commands.py:706-729 | The reports of a variant form one linear chain: the first replaces nothing, each later one replaces its predecessor, exactly the last is unreplaced. |
| AnnouncementTheorems.ReportsAreOfApprovedCopies | src/maru/announcements/commands.py:549-561 | Every report is of a copy of an approved revision, and a correction never crosses variants. |
| AnnouncementTheorems.LinklessChannelKeepsItsName | src/maru/announcements/commands.py:198-213 | A channel code once listed without a link has the same name in every later settings revision that lists it. |
| AnnouncementTheorems.LinklessChannelNamesLaterVariants | src/maru/announcements/commands.py:150-162 | Every variant written for that code from then on carries that name. |
| AnnouncementTheorems.DraftIsKeptAsWritten | src/maru/announcements/commands.py:137-165 | An accepted draft, with all its copies in order, reads back exactly as submitted, now and after any calls. |
| AnnouncementRecords.EveryRowHasItsReceipt | src/maru/announcements/command_support.py:211-232 | In every reachable state each settings revision, revision, review and report says exactly what the command under its receipt asked for, by that receipt's actor and at its time; no receipt accounts for two rows of a table. |
| AnnouncementRecords.EveryReceiptHasItsRow | src/maru/announcements/command_support.py:218-232 | Every receipt names a recorded row of the kind its command asks for. |
| AnnouncementRecords.ReceiptsReplayToTheState | src/maru/announcements/commands.py:382-391 | Status, approved revision and the stop flag are exactly what replaying the receipts' commands gives. |
| AnnouncementRecords.ApprovalWasAskedFor | src/maru/announcements/commands.py:512-518 | An approved revision has a receipt of a decision to approve that very revision. |
| AnnouncementEffects.InputsAreAdmittedExactly | src/maru/announcements/inputs.py:47-278 | The structural input contracts of all nine commands, field by field. |
| AnnouncementEffects.SettingsAreAcceptedExactly | src/maru/announcements/commands.py:194-236 | New settings are accepted if and only if the version seen is current, the review date is not past, and no link-less channel ever listed comes back under another name, within bounds. |
| AnnouncementEffects.StopsAreAcceptedExactly | src/maru/announcements/commands.py:281-291 | A stop or resume is accepted if and only if it changes the flag at the version seen; a resume also needs settings in force. |
| AnnouncementEffects.CreationsAreAcceptedExactly | src/maru/announcements/commands.py:327-336 | A new announcement is accepted if and only if work is open under the settings version seen and its text is publishable and within bounds. |
| AnnouncementEffects.RevisionsAreAcceptedExactly | src/maru/announcements/commands.py:382-391 | A revision is accepted if and only if work is open under both versions seen, the announcement is not cancelled and has fewer than 256 revisions, and its text is publishable and within bounds. |
| AnnouncementEffects.ReviewRequestsAreAcceptedExactly | src/maru/announcements/commands.py:429-442 | A review is opened if and only if work is open and the announcement is a draft at the version seen. |
| AnnouncementEffects.CancellationsAreAcceptedExactly | src/maru/announcements/commands.py:779-786 | A cancellation is accepted if and only if the announcement is not cancelled at the version seen, stopped or not. |
| AnnouncementEffects.AcceptedIsReceipted | src/maru/announcements/command_support.py:211-261 | A fresh accepted command leaves one receipt of exactly this call, one event naming its operation, both numbered next, and answers with that receipt. |
| AnnouncementEffects.NothingElseChanges | src/maru/announcements/commands.py:60-120 | An accepted command adds rows to its own tables only and moves only the announcement it addresses, by one version. |
| AnnouncementEffects.DecisionsTakeEffect | src/maru/announcements/commands.py:512-519 | An accepted decision is recorded with its reviewer, revision, verdict and note, for good; the announcement becomes approved, with that revision, if and only if the verdict is approve, and otherwise keeps its approved revision. |
| AnnouncementEffects.ReportsTakeEffect | src/maru/announcements/commands.py:613-628 | An accepted report opens the chain of its copy and keeps its link, time and reporter for good. |
| AnnouncementEffects.CorrectionsTakeEffect | src/maru/announcements/commands.py:706-729 | An accepted correction or withdrawal is appended to the chain behind the report it names, with its withdrawal flag, link, time, reason and actor, for good. |
| AnnouncementEffects.RefusalsAreTrue | src/maru/announcements/commands.py:60-120 | Every refusal of every command names something that is so: a stale version is stale, a limit is reached, a reviewer is an editor. |
| AnnouncementInvariants.WriteIsLegal | src/maru/announcements/commands.py:60-786 | The guards of all nine commands let through only legal changes: unstale settings, next number and round of the lineage, unreviewed separate reviewer, unreplaced report, all bounds. |
| AnnouncementInvariants.ApplyKeepsSeparated | src/maru/announcements/commands.py:506-511 | One change keeps the separation of author and approver, both when a review is added and when a revision is. |
| AnnouncementInvariants.ApplyKeepsRoundsClosed | src/maru/announcements/commands.py:131-136 | One change keeps every approved revision the last of its round. |
| AnnouncementInvariants.ApplyKeepsDecided | src/maru/announcements/commands.py:503-518 | One change keeps status, approved revision and decisions in agreement and every revision decided at most once. |
| AnnouncementInvariants.ApplyKeepsChains | src/maru/announcements/commands.py:709-727 | One change keeps the chains of reports, because only the latest report of a variant is unreplaced. |
| AnnouncementInvariants.ApplyKeepsBounds | src/maru/announcements/commands.py:112-120 | One change keeps the revision, text and report bounds. |
| AnnouncementRuns.CommitKeepsAccounts | src/maru/announcements/command_support.py:212-232 | Committing keeps receipts, events and versions in step, one receipt per actor and key. |
| AnnouncementRuns.StepKeepsInv | src/maru/announcements/command_support.py:158-261 | Every command, accepted, replayed or refused, keeps the whole invariant. |
| AnnouncementRuns.RunKeepsInv | src/maru/announcements/command_support.py:158-265 | So does every sequence of commands. |
| AnnouncementLedger.Ledger.Execute | src/maru/announcements/command_support.py:158-281 | The command on the store: the new rows and the answer are exactly those of the step, and the store stays reachable, so every theorem applies to it. |
| AnnouncementLedger.Ledger.Transact | src/maru/announcements/command_support.py:172-261 | Write, sequence, second authorization, receipt, size bound and event, or everything restored. |
| AnnouncementLedger.Ledger.Settle | src/maru/announcements/command_support.py:211-261 | After the write: sequence, second authorization, receipt, size bound and event committed together, or the state before the write. |
| AnnouncementLedger.Ledger.SaveRevision | src/maru/announcements/commands.py:104-165 | Writing a revision in place: number, round, base, snapshot and copies as specified, or a refusal that left the rows alone. |
| AnnouncementLedger.Ledger.SaveCopies | src/maru/announcements/commands.py:150-162 | The loop appends one variant per copy, with the channel's name and link. |
| AnnouncementLedger.Ledger.RenamesRetained | src/maru/announcements/commands.py:198-213 | The loop over retained settings finds a renamed link-less channel if and only if there is one. |
| AnnouncementLedger.Ledger.RequireSettings | src/maru/announcements/commands.py:66-75 | The settings that new work needs, or the refusal of the first missing condition. |
| AnnouncementLedger.Ledger.LockItem | src/maru/announcements/commands.py:78-94 | The refusal of a missing announcement or a stale version. |
| AnnouncementLedger.Ledger.RetainedBytes | src/maru/announcements/commands.py:113-118 | The sum of the text of an announcement's revisions. |
| AnnouncementLedger.Ledger.Authored | src/maru/announcements/commands.py:506-510 | Found if and only if the actor wrote a revision of the round. |
| AnnouncementLedger.Ledger.CountReports | src/maru/announcements/commands.py:564-571 | The number of reports over all variants of an announcement. |
| AnnouncementLedger.Ledger.EarlierReceipt | src/maru/announcements/command_support.py:183-188 | The first receipt of the actor under the key, or none. |
| AnnouncementLedger.Ledger.WriteSettings | src/maru/announcements/commands.py:194-236 | Settings update in place, in agreement with its specification. |
| AnnouncementLedger.Ledger.WriteStopped | src/maru/announcements/commands.py:281-291 | Stop and resume in place; a resume with stale settings is refused after the flag was written. |
| AnnouncementLedger.Ledger.WriteCreate | src/maru/announcements/commands.py:327-336 | Creation in place, in agreement with its specification. |
| AnnouncementLedger.Ledger.WriteRevise | src/maru/announcements/commands.py:382-391 | Revision in place; the version limit is checked after the rows are written. |
| AnnouncementLedger.Ledger.WriteRequestReview | src/maru/announcements/commands.py:429-442 | Review request in place, in agreement with its specification. |
| AnnouncementLedger.Ledger.WriteDecision | src/maru/announcements/commands.py:500-519 | Decision in place, in agreement with its specification. |
| AnnouncementLedger.Ledger.KeepReport | src/maru/announcements/commands.py:564-571 | The report limit, the row and the version, as reports and corrections share them. |
| AnnouncementLedger.Ledger.WriteReport | src/maru/announcements/commands.py:613-628 | Publication report in place, in agreement with its specification. |
| AnnouncementLedger.Ledger.WriteCorrection | src/maru/announcements/commands.py:706-729 | Report correction or withdrawal in place, in agreement with its specification. |
| AnnouncementLedger.Ledger.WriteCancel | src/maru/announcements/commands.py:779-786 | Cancellation in place, in agreement with its specification. |
| AccreditationTheorems.AppliedCitesLiveManifest | src/maru/accreditation/services.py:583-621 | Every applied check-in cites a manifest generated earlier that listed that very credential, happened within the manifest's twelve hours, and the credential was issued in every state from the generation to the application. |
| AccreditationTheorems.WithdrawnIsNeverApplied | src/maru/accreditation/services.py:612-614 | A credential once revoked or replaced is never applied later, whatever the manifest and the interleaving. |
| AccreditationTheorems.ArrivesAtMostOnce | src/maru/accreditation/services.py:615-636 | Each registration has at most one applied operation, across all devices. |
| AccreditationTheorems.LaterOperationsAreDuplicates | src/maru/accreditation/services.py:615-617 | After an arrival, every recordable operation with a still issued, listed credential of that registration and a valid manifest is recorded as a duplicate and changes only the device log. |
| AccreditationTheorems.ArrivalsAreConserved | src/maru/accreditation/services.py:637-675 | Applied operations, offline check-in records and verification events are equally many; the one-record constraint is never hit. |
| AccreditationTheorems.VerdictsAreExact | src/maru/accreditation/services.py:598-675 | For a listed credential the outcome is applied if and only if it is issued and its registration confirmed, duplicate if and only if issued and already arrived; rejected if and only if no manifest covers the time or no credential has the token. |
| AccreditationTheorems.IssueYieldsTheOneCredential | src/maru/accreditation/services.py:195-271 | In every reachable state an issue succeeds if and only if actor, reason, registration and an unused token and id admit it; the new credential is then numbered one after all the registration ever had, is its only issued one, replaces an issued predecessor and leaves all other credentials alone. |
| AccreditationTheorems.NextManifestListsTheSuccessor | src/maru/accreditation/services.py:439-451 | A manifest generated after an issue lists the new credential and none of the registration's earlier ones. |
| AccreditationTheorems.CredentialHistory | src/maru/accreditation/services.py:225-271 | Per registration the issue sequences are exactly 1..n; replaced credentials equal reprint events, revoked ones revocation events. |
| AccreditationTheorems.IssuedIsHighest | src/maru/accreditation/models.py:48-62 | An issued credential is the only issued one of its registration and has the highest sequence. |
| AccreditationTheorems.RecordsOnlyGrow | src/maru/accreditation/models.py:102-126 | A withdrawn credential never changes again, identities never change, arrivals stay, and manifests, operations, events and records are only appended. |
| AccreditationTheorems.ManifestListsExactlyTheIssued | src/maru/accreditation/services.py:439-451 | A manifest lists a digest if and only if it belongs to a credential then issued to a confirmed or checked-in registration. |
| AccreditationTheorems.DeviceLogIsGapFree | src/maru/accreditation/services.py:578-582 | A device's operations carry exactly the sequences 1..last, strictly increasing, under distinct operation ids. |
| AccreditationTheorems.ResubmissionReturnsStored | src/maru/accreditation/services.py:557-562 | While device and profile are admitted, resubmitting a recorded id returns the stored operation unchanged after any interleaving. |
| AccreditationEffects.RecordsExactlyTheRecordable | src/maru/accreditation/services.py:536-582 | An operation is recorded if and only if the profile is admitted, the device enabled and not revoked, the id new, the signature genuine and the sequence next; otherwise nothing changes. |
| AccreditationEffects.OperationIsTheSubmission | src/maru/accreditation/services.py:676-692 | The recorded operation has the submission's device, id, sequences and times, and the credential of its token if there is one; only this device's sequence moves. |
| AccreditationEffects.CodesAreExact | src/maru/accreditation/services.py:583-621 | Each of the seven result codes is recorded exactly when its condition on manifest, listing, credential and registration holds, with the outcome that belongs to it. |
| AccreditationEffects.ArrivalsAreRecorded | src/maru/accreditation/services.py:622-675 | An applied check-in records the arrival of its registration at the submitted time, one check-in and one verification; any other outcome only moves the device log. |
| AccreditationEffects.RevokesExactly | src/maru/accreditation/services.py:329-372 | A revocation succeeds if and only if allowed, reasoned and of a credential; an issued one is withdrawn with time, actor and reason under one event, and nothing else changes. |
| AccreditationEffects.RevokedIsNeverApplied | src/maru/accreditation/services.py:348-360 | After a successful revocation no run ever adds an applied check-in with that credential. |
| AccreditationEffects.RevokedIsNeverListed | src/maru/accreditation/services.py:439-451 | Nor does any manifest generated after it list that credential. |
| AccreditationEffects.IssueRecords | src/maru/accreditation/services.py:231-261 | An accepted issue records holder, caption, public id, token, time and issuer, and publishes a reprint exactly when a credential was still issued. |
| AccreditationEffects.SnapshotsExactly | src/maru/accreditation/services.py:419-488 | A snapshot is taken if and only if allowed and configured; it adds one manifest, numbered next, valid twelve hours, ordered by public id, with each issued admissible credential as often as it is issued. |
| AccreditationEffects.StaffCheckInsExactly | src/maru/registration/services.py:4302-4336 | The staff console admits exactly a confirmed registration and records one arrival. |
| AccreditationEffects.RefusalsAreTrue | src/maru/accreditation/services.py:536-582 | Every refusal names something that is so and changes nothing. |
| AccreditationInvariants.IssueKeepsInv | src/maru/accreditation/services.py:195-271 | Issuing or replacing keeps the invariant, including the balance of reprints and replacements. |
| AccreditationInvariants.RevokeKeepsInv | src/maru/accreditation/services.py:342-372 | Revoking keeps the invariant; a credential no longer issued is left as it is. |
| AccreditationInvariants.SnapshotKeepsInv | src/maru/accreditation/services.py:432-474 | Manifest sequences stay 1, 2, 3, ... |
| AccreditationInvariants.RecordKeepsInv | src/maru/accreditation/services.py:598-692 | Recording an operation of any outcome keeps the invariant. |
| AccreditationInvariants.StepKeepsInv | src/maru/accreditation/services.py:491-502 | Every command and every environment step keeps the invariant. |
| AccreditationDesk.Desk.IssueCredential | src/maru/accreditation/services.py:182-290 | The command on the store does exactly the issue step, restoring the replaced credential when the successor breaks a uniqueness constraint. |
| AccreditationDesk.Desk.RevokeCredential | src/maru/accreditation/services.py:329-386 | The command on the store does exactly the revoke step. |
| AccreditationDesk.Desk.GenerateManifest | src/maru/accreditation/services.py:419-488 | The command on the store does exactly the snapshot step; the new manifest's sequence is their number. |
| AccreditationDesk.Desk.ReconcileCheckIn | src/maru/accreditation/services.py:536-692 | The command on the store does exactly the reconcile step, answers and refusals included. |
| AccreditationDesk.Desk.StaffCheckIn | src/maru/registration/services.py:4307-4336 | The staff check-in on the store does exactly the environment's step. |
| AccreditationDesk.Desk.RecordVerdict | src/maru/accreditation/services.py:583-692 | The chain of verdicts, the arrival it may cause and the record it leaves. |
| TestShards.ShardsAreNearOptimal | scripts/run_ci_test_shard.py:194-246 | If any assignment of the same files to m shards stays within t, every returned shard weighs G with 3·m·G <= (4·m-1)·t. |
| TestShards.BoundIsAttained | scripts/run_ci_test_shard.py:232-238 | For every m, Graham's 2m+1 files on m shards reach that bound with equality: 4m-1 against an assignment of 3m to each. |
| TestShards.ShardSpread | scripts/run_ci_test_shard.py:232-238 | Any two shards differ by at most the heaviest file. |
| TestShards.ShardsPartitionTheFiles | scripts/run_ci_test_shard.py:225-246 | Every file is in exactly one shard. |
| TestShards.ShardsAreNonemptyAndOrdered | scripts/run_ci_test_shard.py:240-246 | Every shard is nonempty and lists its paths in order. |
| TestShards.ShardsIgnoreOrder | scripts/run_ci_test_shard.py:227-230 | Any permutation of the same weighted files gives identical shards. |
| TextOrder.TextLeqMeans | scripts/run_ci_test_shard.py:55-56 | Names are ordered by code point at their first difference, a prefix first. |
| TestShards.ValidateShardInputs | scripts/run_ci_test_shard.py:184-191 | Admits exactly 1 <= index <= count <= number of files. |
| TestShards.PartitionTestFiles | scripts/run_ci_test_shard.py:216-246 | The method returns exactly those shards, and refuses exactly invalid counts and duplicate paths. |
| TestShards.FillBuckets | scripts/run_ci_test_shard.py:225-238 | The loop over mutable buckets and weights computes the longest-first placement. |
| TestShards.LightestBucket | scripts/run_ci_test_shard.py:233-236 | The index of least weight, lowest first. |
| LongestFirst.LongestFirstPrefix | scripts/run_ci_test_shard.py:232-238 | The bound at every moment of the placement, for any positive real weights in descending order. |
| LongestFirst.RoomForLargeItem | scripts/run_ci_test_shard.py:233-238 | When the item placed exceeds a third of t, the lightest bucket has room for it under t. |
| CappedPlacement.CappedPrefix | scripts/ci_test_policy.py:401-414 | At most one historical item per bucket: at every moment each load is within max(3/2, 5/3 - 2/(3m)) of any assignment of the same items, one that ignores the cap included. |
| CappedPlacement.LaterItemIsSmall | scripts/ci_test_policy.py:404-411 | An item that finds no empty bucket weighs at most half of what any assignment must put in some bucket. |
| CappedPlacement.CappedSpread | scripts/ci_test_policy.py:404-414 | Under any cap no load exceeds another by more than the heaviest item, once more for each historical item it holds. |
| LongestFirst.Spread | scripts/run_ci_test_shard.py:233-238 | No two loads ever differ by more than the heaviest item. |
| Greedy.PlaceNeverStuck | scripts/ci_test_policy.py:404-411 | Some bucket is eligible for every item when the historical capacity covers the input. |
| Greedy.PlaceWithinLimit | scripts/ci_test_policy.py:404-414 | No bucket exceeds the cap on historical items. |
| Greedy.PlaceLeavesNoneEmpty | scripts/ci_test_policy.py:386-391 | With at least as many items as buckets, no bucket stays empty. |
| TestPolicy.PartitionNeverStuck | scripts/ci_test_policy.py:386-411 | A partition is returned if and only if count, keys, capacity and durations are admissible; the choice of a shard never fails. |
| TestPolicy.PartitionKeepsEveryGroup | scripts/ci_test_policy.py:398-417 | The disjoint union of the shards is the input. |
| TestPolicy.PartitionShape | scripts/ci_test_policy.py:404-417 | Every shard is nonempty, ordered by key and within the cap. |
| TestPolicy.PartitionIgnoresOrder | scripts/ci_test_policy.py:401-417 | Any permutation of the groups gives the same shards or the same refusal. |
| TestPolicy.RefusalsAreTrue | scripts/ci_test_policy.py:386-403 | Duplicate keys or an impossible count are refused as such exactly; a capacity or duration is refused only when it is wrong. |
| TestPolicy.UncappedIsNearOptimal | scripts/ci_test_policy.py:401-414 | Without a cap, 3·m·G <= (4·m-1)·t for every shard weight G against every assignment within t. |
| TestPolicy.CappedIsNearOptimal | scripts/ci_test_policy.py:401-414 | With at most one historical group per shard, 2·G <= 3·t or 3·m·G <= (5·m-2)·t against every assignment within t. |
| TestPolicy.PartitionSpread | scripts/ci_test_policy.py:404-414 | Any two shards differ by at most the heaviest group without a cap, twice that with a cap of one, cap + 1 times that in general. |
| TightPolicies.CapIsFelt | scripts/ci_test_policy.py:404-411 | Five equal groups on three shards reach twice the heaviest group and 3/2 of another assignment, so the uncapped bounds fail under a cap. |
| TightPolicies.CapBoundIsAttained | scripts/ci_test_policy.py:404-414 | For every even m >= 4, 2m+2 groups on m shards reach the capped factor with equality: 5m-2 against an assignment of 3m to each. |
| TightCases.PairsFillEvenly | scripts/ci_test_policy.py:401-414 | Descending items whose k-th from the front and from the back have one sum fill all buckets to exactly that sum, however ties fall. |
| TestPolicy.PartitionGroups | scripts/ci_test_policy.py:386-417 | The method with its loop returns exactly that partition or refusal. |
| TestPolicy.FillShards | scripts/ci_test_policy.py:398-414 | The loop over mutable buckets, costs and counts computes the capped placement, or stops at a nonpositive duration. |
| TestBudget.BudgetIsComplete | scripts/ci_test_budget.py:47-70 | For up to 128 groups that pass the checks, the last count of the range fits. |
| TestBudget.BudgetAnswerMeans | scripts/ci_test_budget.py:47-73 | So such a selection is always answered; an answer has between min(8, number of groups) and 128 shards, keeps every group once, at most one historical group per nonempty shard, and the target to half a millisecond. |
| TestBudget.RefusalsAreTrue | scripts/ci_test_budget.py:47-73 | An empty scope is refused as such exactly; oversized keys are exactly those of groups over 2000 seconds; capacity is lacking only for over 128 groups when no count from eight to 128 fits. |
| TestBudget.AnswerIsSmallestExactly | scripts/ci_test_budget.py:30-70 | An answer is the smallest partition that fits if and only if no count from the number of historical groups up to min(8, number of groups) fits. |
| TestBudget.SmallScopeIsSplitAnyway | scripts/ci_test_budget.py:58-65 | Two or more groups that fit into one shard are answered with min(8, number of groups) shards. |
| TestBudget.TwoSecondsAreSplit | scripts/ci_test_budget.py:58-65 | Two groups of one second get two shards while one fits. |
| TestBudget.LargeScopeGetsTheSmallest | scripts/ci_test_budget.py:58-70 | With more work than seven shards hold, or eight historical groups, the answer is the smallest. |
| TestBudget.AnswerNeedsNoMore | scripts/ci_test_budget.py:65-70 | If any assignment of the groups to a count in the range keeps every shard within 1200 seconds of work, the search succeeds with at most that many shards. |
| TestBudget.HourIsKeptExactly | scripts/ci_test_budget.py:69-91 | For every k, no selection timed in whole multiples of 1/k second is ever answered with a shard over the target if and only if k < 3000. |
| TestBudget.NineOverrun | scripts/ci_test_budget.py:69-91 | Nine groups of which two together are over the target by at most half a millisecond are answered with eight shards, the first of them over it. |
| TestBudget.WholeMillisMeetTarget | scripts/update_ci_group_timings.py:288-288 | With durations in whole milliseconds every shard of every answer is within the target. |
| TestBudget.BudgetIgnoresOrder | scripts/ci_test_budget.py:65-70 | Two orderings of the same selection get the same shards. |
| TestBudget.PredictionMeetsTarget | scripts/ci_test_budget.py:89-91 | The rounded prediction meets the target if and only if the exact one is at most half a millisecond over it. |
| TestBudget.RoundsToNearest | scripts/ci_test_budget.py:89-91 | Rounding is to the nearest millisecond, to the even one of two. |
| TestBudget.BudgetPartition | scripts/ci_test_budget.py:47-73 | The method answers with the first count in its range that fits and refuses exactly when a check fails or none fits. |
| TestBudget.SearchCounts | scripts/ci_test_budget.py:58-73 | The search loop finds the first fitting count or proves there is none. |
| PostgresPool.PoolIsSafe | scripts/run_postgres_pool.py:239-268 | In every execution the started shards are a prefix split disjointly into active and finished, at most `workers` are active, results are of different shards, and until a stop the pool is kept full. |
| PostgresPool.NothingStartsAfterStop | scripts/run_postgres_pool.py:251-268 | After a failed result, a raising worker or an observed cancellation no further shard starts. |
| PostgresPool.PoolTerminates | scripts/run_postgres_pool.py:250-268 | When every round completes something the loop ends within a bound that each collected future lowers. |
| PostgresPool.ExitZeroCertifiesThePlan | scripts/run_postgres_pool.py:281-286 | Exit code 0 means every planned shard has exactly one result, a success with its container removed and headroom kept with the cleanup. |
| PostgresPool.StopsExactly | scripts/run_postgres_pool.py:251-265 | The pool is stopped if and only if a worker raised, a result is not a success, or a round that was run saw the cancel file; it has raised only if a worker did. |
| PostgresPool.CleanPlanExitsZero | scripts/run_postgres_pool.py:250-286 | With no cancellation, clean attempts and productive rounds the whole plan is run and the exit code is 0. |
| PostgresPool.ExitZeroExactly | scripts/run_postgres_pool.py:281-286 | Exit code 0 is exactly: no worker raised and every planned shard has a success. |
| PostgresPool.OutcomeIsExact | scripts/run_postgres_pool.py:111-200 | Which attempts raise, which succeed, and what the result reports, in terms of container name, test result, measured seconds and cleanup. |
| PostgresPool.OutcomeIsGenuine | scripts/run_postgres_pool.py:176-196 | A successful shard removed its container, returned 0 and kept headroom to the end. |
| PostgresPool.RunShard | scripts/run_postgres_pool.py:111-200 | The result built through try, except and finally is a success exactly for a clean attempt. |
| PostgresPool.Dispatcher.CollectOne | scripts/run_postgres_pool.py:254-268 | One completed future in place: its result is kept, then the pool refilled unless stopped. |
| PostgresPool.Dispatcher.Dispatch | scripts/run_postgres_pool.py:250-286 | The loop over rounds in place, and the exit code. |
| ReleaseTag.TagRoundTrip | scripts/release_metadata.py:131-156 | Parsing a printed tag recovers version, pull request, channel, candidate, prerelease flag, image tag and title; the Python version if and only if the year is at least 1000. |
| ReleaseTag.ReleasesAreNamedExactly | scripts/release_metadata.py:123-156 | A release is named, with its commit, if and only if the pull request is positive, the commit a full hash, the merge time readable and the candidate number fits the channel; a refusal names what is wrong. |
| ReleaseTag.TagsPrintedAreTagsAdmitted | scripts/release_metadata.py:123-156 | A tag is printed for some release if and only if the consumer admits it and its year is not 0000. |
| ReleaseTag.TagsAreInjective | scripts/release_metadata.py:140-143 | Distinct releases never share a tag. |
| ReleaseTag.AdmittedTagIsPrinted | scripts/verify_release_consumer.py:40-45 | Every tag the consumer admits is the print of its own numbers. |
| ReleaseTag.MatchIsExact | scripts/verify_release_consumer.py:315-319 | The tag matcher accepts exactly the spellings of fitting groups and reads them back, so the pattern is unambiguous. |
| Numerals.ValueOfDecimal | scripts/verify_release_consumer.py:331-333 | Reading a printed number gives it back. |
| Numerals.DecimalOfValue | scripts/verify_release_consumer.py:331-334 | Printing the value of a numeral without leading zero gives it back. |

## Left out

- Several editions and organizations: each store models one edition; every query of the commands is confined to it.
- Announcement queries, exports, forms, text normalization, URL and language syntax, and audit rows.
- The SQL size bound over the complete evidence: an input that can only refuse.
- Authorization policy, adoption profiles and signature checking: verdicts given to a step.
- Credentials revoked as a consequence of an identity restriction, in another module.
- Widths of positive integer columns in accreditation: sequences are unbounded.
- `select_groups`, timing maps, file discovery and the source fingerprint: single-pass checks and lookups around the scheduler.
- Non-finite durations: reals have none; a duration that is not positive is refused as in the code.
- Docker, subprocesses and the clock in the pool: given per shard as an attempt.
- PostgresPool.PoolTerminates: rounds in which nothing completes are not bounded, because the code waits for its workers.
- Repository, commit, image and directory checks of the release consumer, and ISO timestamp parsing.
