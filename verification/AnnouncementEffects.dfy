/** Exactly when each command is accepted, exactly what it changes, and what a refusal says. */
module AnnouncementEffects {
  import opened Wrappers
  import opened Sorting
  import opened Announcements
  import opened AnnouncementInvariants
  import opened AnnouncementRuns
  import opened AnnouncementTheorems
  import opened AnnouncementRecords

  /** Admitted, and not a retry. */
  ghost predicate Fresh(s: State, req: Request, env: Env) {
    Admissible(req, env) && FindReceipt(s.receipts, req.actor, req.key).None?
  }

  // ---- What may be submitted.

  ghost predicate SettingsMayBe(x: SettingsInput) {
    && 1 <= |x.channels| <= 16 && (forall i, j | 0 <= i < j < |x.channels| :: x.channels[i].code != x.channels[j].code)
    && x.policyName != "" && x.recordOwner != "" && (x.policyUrl == "" ==> x.policyDescription != "")
  }

  ghost predicate DraftMayBe(x: DraftInput) {
    && 1 <= |x.copies| <= 32 && x.headline != "" && x.body != "" && x.bytes > 0
    && (forall i | 0 <= i < |x.copies| :: x.copies[i].headline != "" && x.copies[i].body != "")
    && forall i, j | 0 <= i < j < |x.copies| ::
         x.copies[i].channelCode != x.copies[j].channelCode || x.copies[i].language != x.copies[j].language
  }

  /** The closed input contracts, field by field. */
  lemma InputsAreAdmittedExactly(c: Command, now: int)
    ensures WellFormed(c, now) <==>
              && (c.UpdateSettings? ==> SettingsMayBe(c.settings) && 0 <= c.expected)
              && (c.Create? || c.Revise? ==> DraftMayBe(c.draft) && 1 <= c.expectedSettings < 0x7FFF_FFFF_FFFF_FFFF)
              && (!c.Create? ==> c.expected < 0x7FFF_FFFF_FFFF_FFFF && (c.UpdateSettings? || 1 <= c.expected))
              && (c.SetStopped? || c.Revise? || c.CorrectPublication? || c.Cancel? ==> c.reason != "")
              && (c.Decide? && c.decision == RequestChanges ==> c.note != "")
              && (c.RecordPublication? || c.CorrectPublication? ==> c.publishedAt.Some? ==> c.publishedAt.value <= now)
              && (c.CorrectPublication? && c.withdrawn ==> c.url == "" && c.publishedAt.None?)
  {
    if c.UpdateSettings? {
      assert |Codes(c.settings.channels)| == |c.settings.channels|;
      forall i | 0 <= i < |c.settings.channels| ensures Codes(c.settings.channels)[i] == c.settings.channels[i].code {}
    } else if c.Create? || c.Revise? {
      forall i | 0 <= i < |c.draft.copies|
        ensures Selections(c.draft.copies)[i] == (c.draft.copies[i].channelCode, c.draft.copies[i].language)
      {
      }
    }
  }

  // ---- When commands are accepted.

  /** Work on new content: the edition is open and not stopped, under newest settings still
      within their review date. */
  ghost predicate MayWork(s: State, env: Env) {
    env.acceptsWrites && !s.control.stopped && InForce(s, env)
  }

  ghost predicate InForce(s: State, env: Env) {
    s.settings != [] && s.settings[|s.settings| - 1].input.reviewOn >= env.today
  }

  /** The version seen is current, and it and the sequence can advance. */
  ghost predicate MayMove(s: State, env: Env, i: Id, expected: int) {
    && i < |s.items| && s.items[i].version == expected && s.items[i].version < 4096 && MayCommit(s, env) && env.evidenceFits
  }

  ghost predicate MayCommit(s: State, env: Env) {
    s.control.sequence < 0x7FFF_FFFF_FFFF_FFFE && env.stillAdmitted
  }

  /** No link-less channel comes back under another name. */
  ghost predicate KeepsName(earlier: seq<Channel>, channels: seq<Channel>) {
    forall c, d | c in earlier && d in channels && c.code == d.code && c.url == "" :: c.name == d.name
  }

  ghost predicate KeepsNames(rows: seq<SettingsRow>, channels: seq<Channel>) {
    forall i | 0 <= i < |rows| :: KeepsName(rows[i].input.channels, channels)
  }

  lemma RenamesAreNotKept(rows: seq<SettingsRow>, channels: seq<Channel>)
    requires forall i | 0 <= i < |rows| :: Distinct(Codes(rows[i].input.channels))
    ensures RenamesAny(rows, channels) <==> !KeepsNames(rows, channels)
  {
    forall i | 0 <= i < |rows| ensures RenamesLinkless(rows[i].input.channels, channels) <==> !KeepsName(rows[i].input.channels, channels) {
      RenameIsNotKept(rows[i].input.channels, channels);
    }
  }

  lemma RenameIsNotKept(earlier: seq<Channel>, channels: seq<Channel>)
    requires Distinct(Codes(earlier))
    ensures RenamesLinkless(earlier, channels) <==> !KeepsName(earlier, channels)
  {
    if !KeepsName(earlier, channels) {
      var c, d :| c in earlier && d in channels && c.code == d.code && c.url == "" && c.name != d.name;
      LookupUnique(earlier, c);
    }
  }

  /** New settings are accepted exactly from whoever saw the current version, with a review
      date not past, and when they rename no link-less channel. */
  lemma SettingsAreAcceptedExactly(s: State, req: Request, env: Env, x: SettingsInput, expected: int)
    requires Reachable(s) && req.intent.command == UpdateSettings(x, expected) && Fresh(s, req, env)
    ensures Step(s, req, env).1.Ok? <==>
              && env.acceptsWrites && s.control.settingsVersion == expected && x.reviewOn >= env.today
              && KeepsNames(s.settings, x.channels) && MayCommit(s, env)
  {
    CodesAreDistinct(s);
    RenamesAreNotKept(s.settings, x.channels);
    SettingsAnswers(s, req, env, x, expected);
  }

  lemma CodesAreDistinct(s: State)
    requires Reachable(s)
    ensures forall i | 0 <= i < |s.settings| :: Distinct(Codes(s.settings[i].input.channels))
  {
    ReachableIsValid(s);
  }

  lemma SettingsAnswers(s: State, req: Request, env: Env, x: SettingsInput, expected: int)
    requires req.intent.command == UpdateSettings(x, expected) && Fresh(s, req, env)
    ensures Step(s, req, env).1.Ok? <==>
              && env.acceptsWrites && s.control.settingsVersion == expected && x.reviewOn >= env.today
              && !RenamesAny(s.settings, x.channels) && MayCommit(s, env)
  {
  }

  /** A stop is accepted whenever the edition is not stopped yet and the version is current; a
      resume also needs settings in force. */
  lemma StopsAreAcceptedExactly(s: State, req: Request, env: Env, stopped: bool, expected: int, reason: string)
    requires Reachable(s) && req.intent.command == SetStopped(stopped, expected, reason) && Fresh(s, req, env)
    ensures Step(s, req, env).1.Ok? <==>
              && env.acceptsWrites && s.control.settingsVersion == expected && s.control.stopped != stopped
              && (stopped || InForce(s, env)) && MayCommit(s, env)
  {
    CurrentIsNewest(s);
  }

  /** The draft is in the edition's languages and for channels of the newest settings. */
  ghost predicate Publishable(s: State, env: Env, draft: DraftInput)
    requires s.settings != []
  {
    && draft.language in env.languages
    && forall c | c in draft.copies ::
         c.language in env.languages && ListsCode(s.settings[|s.settings| - 1].input.channels, c.channelCode)
  }

  predicate ListsCode(channels: seq<Channel>, code: string) {
    exists d | d in channels :: d.code == code
  }

  lemma SelectableIsPublishable(s: State, env: Env, draft: DraftInput)
    requires s.settings != []
    ensures Selectable(draft, s.settings[|s.settings| - 1].input.channels, env.languages) <==> Publishable(s, env, draft)
  {
    var channels := s.settings[|s.settings| - 1].input.channels;
    forall c | c in draft.copies ensures Lookup(channels, c.channelCode).Some? <==> ListsCode(channels, c.channelCode) {
      var found := Lookup(channels, c.channelCode);
    }
  }

  lemma {:induction false} NoTextYet(revisions: seq<Revision>, i: Id)
    requires forall r | 0 <= r < |revisions| :: revisions[r].item != i
    ensures TextBytes(revisions, i) == 0
  {
    if revisions != [] { NoTextYet(revisions[..|revisions| - 1], i); }
  }

  /** A new announcement is accepted exactly when work is open under the settings version seen
      and its text is publishable and within the bound. */
  lemma CreationsAreAcceptedExactly(s: State, req: Request, env: Env, draft: DraftInput, expected: int)
    requires Reachable(s) && req.intent.command == Create(draft, expected) && Fresh(s, req, env)
    ensures Step(s, req, env).1.Ok? <==>
              && MayWork(s, env) && s.control.settingsVersion == expected && Publishable(s, env, draft)
              && draft.bytes <= 8388608 && MayCommit(s, env) && env.evidenceFits
  {
    CurrentIsNewest(s);
    ReachableIsValid(s);
    NoTextYet(s.revisions, |s.items|);
    if s.settings != [] {
      SelectableIsPublishable(s, env, draft);
    }
    CreateAnswers(s, req, env, draft, expected);
  }

  lemma CreateAnswers(s: State, req: Request, env: Env, draft: DraftInput, expected: int)
    requires s.control.currentSettings == (if s.settings == [] then None else Some(|s.settings| - 1))
    requires req.intent.command == Create(draft, expected) && Fresh(s, req, env) && TextBytes(s.revisions, |s.items|) == 0
    ensures Step(s, req, env).1.Ok? <==>
              && MayWork(s, env) && s.control.settingsVersion == expected
              && Selectable(draft, s.settings[|s.settings| - 1].input.channels, env.languages)
              && draft.bytes <= MAX_STORED_TEXT_BYTES && MayCommit(s, env) && env.evidenceFits
  {
  }

  // Counting revisions.

  function RevisionCount(revisions: seq<Revision>, i: Id): nat {
    if revisions == [] then 0
    else RevisionCount(revisions[..|revisions| - 1], i) + if revisions[|revisions| - 1].item == i then 1 else 0
  }

  lemma {:induction false} CountUnchanged(revisions: seq<Revision>, i: Id, from: nat, to: nat)
    requires from <= to <= |revisions| && forall r | from <= r < to :: revisions[r].item != i
    ensures RevisionCount(revisions[..to], i) == RevisionCount(revisions[..from], i)
  {
    if from < to {
      assert revisions[..to][..to - 1] == revisions[..to - 1];
      CountUnchanged(revisions, i, from, to - 1);
    }
  }

  lemma {:induction false} NumberCounts(revisions: seq<Revision>, r: Id)
    requires Lineage(revisions) && r < |revisions|
    ensures RevisionCount(revisions[..r + 1], revisions[r].item) == revisions[r].number
    decreases r
  {
    var i := revisions[r].item;
    assert Continues(revisions, r);
    assert revisions[..r + 1][..r] == revisions[..r];
    match revisions[r].previous
    case None =>
      CountUnchanged(revisions, i, 0, r);
    case Some(p) =>
      CountUnchanged(revisions, i, p + 1, r);
      NumberCounts(revisions, p);
  }

  /** An announcement's newest revision is numbered by how many it has. */
  lemma NewestNumberIsCount(revisions: seq<Revision>, i: Id, c: Id)
    requires Lineage(revisions) && Newest(revisions, i, c)
    ensures revisions[c].number == RevisionCount(revisions, i)
  {
    NumberCounts(revisions, c);
    CountUnchanged(revisions, i, c + 1, |revisions|);
    assert revisions[..|revisions|] == revisions;
  }

  /** Room for one more revision with this text. */
  ghost predicate HasRoom(s: State, i: Id, draft: DraftInput) {
    RevisionCount(s.revisions, i) < 256 && TextBytes(s.revisions, i) + draft.bytes <= 8388608
  }

  /** A revision is accepted exactly when work is open under the settings version seen, the
      announcement is not cancelled, has room for it, and its text is publishable. */
  lemma RevisionsAreAcceptedExactly(s: State, req: Request, env: Env, i: Id, draft: DraftInput, expected: int, expectedSettings: int, reason: string)
    requires Reachable(s) && req.intent.command == Revise(i, draft, expected, expectedSettings, reason) && Fresh(s, req, env)
    ensures Step(s, req, env).1.Ok? <==>
              && MayWork(s, env) && s.control.settingsVersion == expectedSettings && MayMove(s, env, i, expected)
              && s.items[i].status != Cancelled && HasRoom(s, i, draft) && Publishable(s, env, draft)
  {
    CurrentIsNewest(s);
    if i < |s.items| {
      CurrentCounts(s, i);
    }
    if s.settings != [] {
      SelectableIsPublishable(s, env, draft);
    }
    ReviseAnswers(s, req, env, i, draft, expected, expectedSettings, reason);
  }

  lemma CurrentCounts(s: State, i: Id)
    requires Reachable(s) && i < |s.items|
    ensures s.items[i].current.Some? && s.items[i].current.value < |s.revisions|
    ensures s.revisions[s.items[i].current.value].number == RevisionCount(s.revisions, i)
  {
    ReachableIsValid(s);
    NewestNumberIsCount(s.revisions, i, s.items[i].current.value);
  }

  lemma ReviseAnswers(s: State, req: Request, env: Env, i: Id, draft: DraftInput, expected: int, expectedSettings: int, reason: string)
    requires s.control.currentSettings == (if s.settings == [] then None else Some(|s.settings| - 1))
    requires i < |s.items| ==> s.items[i].current.Some? && s.items[i].current.value < |s.revisions|
    requires req.intent.command == Revise(i, draft, expected, expectedSettings, reason) && Fresh(s, req, env)
    ensures Step(s, req, env).1.Ok? <==>
              && MayWork(s, env) && s.control.settingsVersion == expectedSettings && MayMove(s, env, i, expected)
              && s.items[i].status != Cancelled
              && s.revisions[s.items[i].current.value].number < MAX_REVISIONS
              && TextBytes(s.revisions, i) + draft.bytes <= MAX_STORED_TEXT_BYTES
              && Selectable(draft, s.settings[|s.settings| - 1].input.channels, env.languages)
  {
  }

  /** A review is opened exactly for a draft. */
  lemma ReviewRequestsAreAcceptedExactly(s: State, req: Request, env: Env, i: Id, expected: int)
    requires Reachable(s) && req.intent.command == RequestReview(i, expected) && Fresh(s, req, env)
    ensures Step(s, req, env).1.Ok? <==> MayWork(s, env) && MayMove(s, env, i, expected) && s.items[i].status == Draft
  {
    CurrentIsNewest(s);
    if i < |s.items| && s.items[i].status != Cancelled {
      LifecycleOfItem(s, i);
    }
    RequestAnswers(s, req, env, i, expected);
  }

  lemma RequestAnswers(s: State, req: Request, env: Env, i: Id, expected: int)
    requires s.control.currentSettings == (if s.settings == [] then None else Some(|s.settings| - 1))
    requires i < |s.items| && s.items[i].status == Draft ==> s.items[i].current.Some? && !Reviewed(s.reviews, s.items[i].current.value)
    requires req.intent.command == RequestReview(i, expected) && Fresh(s, req, env)
    ensures Step(s, req, env).1.Ok? <==> MayWork(s, env) && MayMove(s, env, i, expected) && s.items[i].status == Draft
  {
  }

  /** A cancellation is accepted exactly for an announcement not cancelled yet, stopped or not. */
  lemma CancellationsAreAcceptedExactly(s: State, req: Request, env: Env, i: Id, expected: int, reason: string)
    requires req.intent.command == Cancel(i, expected, reason) && Fresh(s, req, env)
    ensures Step(s, req, env).1.Ok? <==> env.acceptsWrites && MayMove(s, env, i, expected) && s.items[i].status != Cancelled
  {
  }

  // ---- What an accepted command changes.

  /** A fresh accepted command commits a change that does what it asks for. */
  lemma FreshDoes(s: State, req: Request, env: Env) returns (x: Change)
    requires Fresh(s, req, env) && Step(s, req, env).1.Ok?
    ensures Does(s, EvidenceFor(s, req, env), req.intent.command, x) && Step(s, req, env).0 == Commit(s, x, req, env.now)
    ensures Write(s, EvidenceFor(s, req, env), env, req.intent.command) == Ok(x)
  {
    FreshCommit(s, req, env);
    x := Attempt(s, req, env).value;
    WriteDoes(s, EvidenceOf(s, req, env), env, req.intent.command);
  }

  function EvidenceFor(s: State, req: Request, env: Env): Evidence {
    Evidence(req.actor, env.now, |s.receipts|)
  }

  /** The operation an event names, in the terms of the command behind it. */
  predicate NamesOperation(op: Operation, c: Command) {
    match op
    case OpSettings => c.UpdateSettings?
    case OpStop => c.SetStopped? && c.stopped
    case OpResume => c.SetStopped? && !c.stopped
    case OpCreate => c.Create?
    case OpRevise => c.Revise?
    case OpRequestReview => c.RequestReview?
    case OpApprove => c.Decide? && c.decision == Approve
    case OpChangesRequested => c.Decide? && c.decision == RequestChanges
    case OpRecord => c.RecordPublication?
    case OpCorrect => c.CorrectPublication? && !c.withdrawn
    case OpWithdraw => c.CorrectPublication? && c.withdrawn
    case OpCancel => c.Cancel?
  }

  /** A fresh accepted command leaves one receipt of exactly this call and one event of its
      operation, numbered next; the reply is that receipt. */
  lemma AcceptedIsReceipted(s: State, req: Request, env: Env)
    requires Reachable(s) && Fresh(s, req, env) && Step(s, req, env).1.Ok?
    ensures var t, n := Step(s, req, env).0, |s.receipts|;
            && |t.receipts| == n + 1 && t.receipts[..n] == s.receipts && |t.events| == n + 1 && t.events[..n] == s.events
            && t.receipts[n].actor == req.actor && t.receipts[n].key == req.key && t.receipts[n].intent == req.intent
            && t.receipts[n].at == env.now && t.receipts[n].sequence == n + 1 == t.control.sequence
            && t.events[n].version == n + 1 && NamesOperation(t.events[n].operation, req.intent.command)
            && Step(s, req, env).1.value == ReplyOf(t.receipts, n, false)
  {
    var x := FreshDoes(s, req, env);
    SequenceCounts(s);
    OperationIsNamed(req.intent.command);
  }

  lemma SequenceCounts(s: State)
    requires Reachable(s)
    ensures s.control.sequence == |s.receipts| == |s.events|
  {
    ReachableIsValid(s);
  }

  lemma OperationIsNamed(c: Command)
    ensures NamesOperation(OperationOf(c), c)
  {
  }

  /** How many rows each table gains. */
  predicate Grew(s: State, t: State, c: Command) {
    && |t.settings| == |s.settings| + (if c.UpdateSettings? then 1 else 0)
    && |t.items| == |s.items| + (if c.Create? then 1 else 0)
    && |t.revisions| == |s.revisions| + (if c.Create? || c.Revise? then 1 else 0)
    && |t.variants| == |s.variants| + (if c.Create? || c.Revise? then |c.draft.copies| else 0)
    && |t.reviews| == |s.reviews| + (if c.Decide? then 1 else 0)
    && |t.reports| == |s.reports| + (if c.RecordPublication? || c.CorrectPublication? then 1 else 0)
  }

  /** Only the rows a command is about change: its own table gains one row, only the announcement
      addressed moves, by one version, and only settings commands move the control record. */
  lemma NothingElseChanges(s: State, req: Request, env: Env)
    requires Fresh(s, req, env) && Step(s, req, env).1.Ok?
    ensures var t, c := Step(s, req, env).0, req.intent.command;
            && Grew(s, t, c)
            && (forall j | 0 <= j < |s.items| && TargetOf(c) != Some(j) :: t.items[j] == s.items[j])
            && (TargetOf(c).Some? ==> TargetOf(c).value < |s.items| && t.items[TargetOf(c).value].version == s.items[TargetOf(c).value].version + 1)
            && (c.UpdateSettings? || c.SetStopped? || t.control == s.control.(sequence := t.control.sequence))
            && (c.UpdateSettings? ==> t.control.stopped == s.control.stopped)
            && (c.SetStopped? ==> t.control.currentSettings == s.control.currentSettings)
  {
    var x := FreshDoes(s, req, env);
    if req.intent.command.Create? || req.intent.command.Revise? {
      WriteHoldsDraft(s, EvidenceFor(s, req, env), env, req.intent.command);
    }
    CommitGrows(s, x, req, env.now);
  }

  lemma CommitGrows(s: State, x: Change, req: Request, at: int)
    requires Does(s, Evidence(req.actor, at, |s.receipts|), req.intent.command, x)
    requires x.NewRevision? ==> |x.copies| == |req.intent.command.draft.copies|
    ensures var t, c := Commit(s, x, req, at), req.intent.command;
            && Grew(s, t, c)
            && (forall j | 0 <= j < |s.items| && TargetOf(c) != Some(j) :: t.items[j] == s.items[j])
            && (TargetOf(c).Some? ==> TargetOf(c).value < |s.items| && t.items[TargetOf(c).value].version == s.items[TargetOf(c).value].version + 1)
            && (c.UpdateSettings? || c.SetStopped? || t.control == s.control.(sequence := t.control.sequence))
            && (c.UpdateSettings? ==> t.control.stopped == s.control.stopped)
            && (c.SetStopped? ==> t.control.currentSettings == s.control.currentSettings)
  {
  }

  /** A refusal changes nothing, and neither does a retry. */
  lemma RefusalsChangeNothing(s: State, req: Request, env: Env)
    ensures Step(s, req, env).1.Err? || Step(s, req, env).1.value.replayed ==> Step(s, req, env).0 == s
  {
  }

  /** An accepted decision is recorded as it was made, for good: an approval approves its
      revision, a request for changes leaves the approved revision alone. */
  lemma DecisionsTakeEffect(s: State, req: Request, env: Env, i: Id, revision: Id, expected: int, decision: Decision, note: string, calls: seq<Call>)
    requires Fresh(s, req, env) && req.intent.command == Decide(i, revision, expected, decision, note) && Step(s, req, env).1.Ok?
    ensures var t := Step(s, req, env).0; var u, k := Run(t, calls), |s.reviews|;
            && i < |s.items| && i < |t.items| && |t.reviews| == k + 1 <= |u.reviews|
            && u.reviews[k] == Review(EvidenceFor(s, req, env), revision, decision, note)
            && t.items[i].current == s.items[i].current
            && (t.items[i].status == Approved <==> decision == Approve)
            && (t.items[i].status == ChangesRequested <==> decision == RequestChanges)
            && t.items[i].approved == if decision == Approve then Some(revision) else s.items[i].approved
  {
    var x := FreshDoes(s, req, env);
    EvidenceIsAppendOnly(Step(s, req, env).0, calls);
  }

  lemma ChainAppended(reports: seq<Report>, p: Report, variant: Id)
    ensures ChainOf(reports + [p], variant) == if p.variant == variant then ChainOf(reports, variant) + [|reports|] else ChainOf(reports, variant)
  {
    assert (reports + [p])[..|reports|] == reports;
  }

  /** The row an accepted report or correction adds, and that it stays. */
  lemma ReportIsAdded(s: State, req: Request, env: Env, calls: seq<Call>) returns (row: Report)
    requires Fresh(s, req, env) && Step(s, req, env).1.Ok?
    requires req.intent.command.RecordPublication? || req.intent.command.CorrectPublication?
    ensures Does(s, EvidenceFor(s, req, env), req.intent.command, NewReport(req.intent.command.item, row))
    ensures Step(s, req, env).0.reports == s.reports + [row]
    ensures |s.reports| < |Run(Step(s, req, env).0, calls).reports| && Run(Step(s, req, env).0, calls).reports[|s.reports|] == row
  {
    var x := FreshDoes(s, req, env);
    row := x.report;
    var t := Step(s, req, env).0;
    assert t.reports == s.reports + [row];
    EvidenceIsAppendOnly(t, calls);
    assert t.reports[|s.reports|] == row;
  }

  /** An accepted first report opens the chain of its copy, and stays as it was made. */
  lemma ReportsTakeEffect(s: State, req: Request, env: Env, i: Id, variant: Id, expected: int, url: string, at: Option<int>, calls: seq<Call>)
    requires Fresh(s, req, env) && req.intent.command == RecordPublication(i, variant, expected, url, at) && Step(s, req, env).1.Ok?
    ensures var t := Step(s, req, env).0; var u, p := Run(t, calls), |s.reports|;
            && |t.reports| == p + 1 <= |u.reports| && ChainOf(t.reports, variant) == [p]
            && u.reports[p] == Report(EvidenceFor(s, req, env), variant, None, false, url, at, "")
  {
    ReportsAreAcceptedExactly(s, req, env, i, variant, expected, url, at);
    var row := ReportIsAdded(s, req, env, calls);
    ChainAppended(s.reports, row, variant);
  }

  /** An accepted correction or withdrawal ends the chain of its copy, replacing the report it
      names, and stays as it was made. */
  lemma CorrectionsTakeEffect(s: State, req: Request, env: Env, i: Id, report: Id, expected: int, withdrawn: bool, reason: string, url: string, at: Option<int>, calls: seq<Call>)
    requires Reachable(s) && Fresh(s, req, env) && Step(s, req, env).1.Ok?
    requires req.intent.command == CorrectPublication(i, report, expected, withdrawn, reason, url, at)
    ensures report < |s.reports|
    ensures var t := Step(s, req, env).0; var u, p, variant := Run(t, calls), |s.reports|, s.reports[report].variant;
            && |t.reports| == p + 1 <= |u.reports| && EndsWith(ChainOf(s.reports, variant), report)
            && ChainOf(t.reports, variant) == ChainOf(s.reports, variant) + [p]
            && u.reports[p] == Report(EvidenceFor(s, req, env), variant, Some(report), withdrawn, url, at, reason)
  {
    CorrectionNamesTip(s, req, env, i, report, expected, withdrawn, reason, url, at);
    var row := ReportIsAdded(s, req, env, calls);
    ChainAppended(s.reports, row, s.reports[report].variant);
  }

  predicate EndsWith(chain: seq<Id>, last: Id) {
    chain != [] && chain[|chain| - 1] == last
  }

  lemma CorrectionNamesTip(s: State, req: Request, env: Env, i: Id, report: Id, expected: int, withdrawn: bool, reason: string, url: string, at: Option<int>)
    requires Reachable(s) && Fresh(s, req, env) && Step(s, req, env).1.Ok?
    requires req.intent.command == CorrectPublication(i, report, expected, withdrawn, reason, url, at)
    ensures report < |s.reports| && EndsWith(ChainOf(s.reports, s.reports[report].variant), report)
  {
    CorrectionsAreAcceptedExactly(s, req, env, i, report, expected, withdrawn, reason, url, at);
  }

  // ---- What a refusal says.

  /** The announcement a command addresses exists at the version seen. */
  ghost predicate Found(s: State, c: Command) {
    TargetOf(c).Some? ==> TargetOf(c).value < |s.items|
  }

  /** What each refusal of the system itself means. */
  ghost predicate RefusalMeans(s: State, req: Request, env: Env, f: Error) {
    var c := req.intent.command;
    match f
    case Denied =>
      !env.admitted || !env.stillAdmitted || (c.Decide? && c.item < |s.items| && IsEditor(s, c.item, req.actor))
    case NotReady => !env.ready
    case Unavailable =>
      || !Found(s, c)
      || (c.RecordPublication? && (ItemOfVariant(s, c.variant) != Some(c.item) || !Endorsed(s.reviews, s.variants[c.variant].revision)))
    case VersionConflict =>
      || ((c.UpdateSettings? || c.SetStopped?) && s.control.settingsVersion != c.expected)
      || ((c.Create? || c.Revise?) && s.control.settingsVersion != c.expectedSettings)
      || (TargetOf(c).Some? && Found(s, c) && s.items[c.item].version != c.expected)
    case RetryConflict =>
      exists k :: 0 <= k < |s.receipts| && s.receipts[k].actor == req.actor && s.receipts[k].key == req.key && s.receipts[k].intent != req.intent
    case StateConflict =>
      || !env.acceptsWrites || (NewWork(c) && s.control.stopped) || (c.SetStopped? && s.control.stopped == c.stopped)
      || ((c.Revise? || c.Cancel?) && Found(s, c) && s.items[c.item].status == Cancelled)
      || (c.RequestReview? && Found(s, c) && s.items[c.item].status != Draft)
      || (c.Decide? && Found(s, c) && !(s.items[c.item].status == InReview && s.items[c.item].current == Some(c.revision)))
      || (c.RecordPublication? && ChainOf(s.reports, c.variant) != [])
      || (c.CorrectPublication? && !IsTipOf(s, c.item, c.report))
    case SettingsRequired => (NewWork(c) || (c.SetStopped? && !c.stopped)) && !InForce(s, env)
    case LimitReached =>
      || s.control.sequence >= MAX_SEQUENCE || ((TargetOf(c).Some? || c.Create?) && !env.evidenceFits)
      || (TargetOf(c).Some? && Found(s, c) && s.items[c.item].version >= MAX_HISTORY)
      || (c.Create? && c.draft.bytes > MAX_STORED_TEXT_BYTES) || (c.Revise? && !HasRoom(s, c.item, c.draft))
      || ((c.RecordPublication? || c.CorrectPublication?) && ReportCount(s, c.item, |s.reports|) >= MAX_REPORTS)
    case Invalid =>
      || !WellFormed(c, env.now)
      || (c.UpdateSettings? && (!KeepsNames(s.settings, c.settings.channels) || c.settings.reviewOn < env.today))
      || ((c.Create? || c.Revise?) && s.settings != [] && !Publishable(s, env, c.draft))
  }

  /** The report is the last of a chain of this announcement. */
  ghost predicate IsTipOf(s: State, i: Id, report: Id) {
    && report < |s.reports| && ItemOfVariant(s, s.reports[report].variant) == Some(i)
    && var chain := ChainOf(s.reports, s.reports[report].variant); chain != [] && chain[|chain| - 1] == report
  }

  /** The links between guards as coded and as stated, for one command. */
  ghost predicate GuardsAgree(s: State, c: Command, actor: Id) {
    && s.control.currentSettings == (if s.settings == [] then None else Some(|s.settings| - 1))
    && (c.UpdateSettings? ==> (RenamesAny(s.settings, c.settings.channels) <==> !KeepsNames(s.settings, c.settings.channels)))
    && (c.Create? ==> TextBytes(s.revisions, |s.items|) == 0)
    && (TargetOf(c).Some? && Found(s, c) ==> Current(s, c.item))
    && (c.RequestReview? && Found(s, c) && s.items[c.item].status == Draft ==> !Reviewed(s.reviews, s.items[c.item].current.value))
    && (c.Decide? && Found(s, c) && s.items[c.item].status == InReview ==>
          (WroteIn(s.revisions, c.item, s.revisions[s.items[c.item].current.value].round, actor) <==> IsEditor(s, c.item, actor)))
    && (c.RecordPublication? ==> (HasReport(s.reports, c.variant) <==> ChainOf(s.reports, c.variant) != []))
    && (c.CorrectPublication? ==>
          (IsTipOf(s, c.item, c.report) <==>
             c.report < |s.reports| && ItemOfVariant(s, s.reports[c.report].variant) == Some(c.item) && !Replaced(s.reports, c.report)))
  }

  ghost predicate Current(s: State, i: Id)
    requires i < |s.items|
  {
    && s.items[i].current.Some? && s.items[i].current.value < |s.revisions|
    && s.revisions[s.items[i].current.value].number == RevisionCount(s.revisions, i)
  }

  lemma GuardsDoAgree(s: State, c: Command, actor: Id)
    requires Reachable(s)
    ensures GuardsAgree(s, c, actor)
  {
    CurrentIsNewest(s);
    CodesAreDistinct(s);
    NoTextOfNext(s);
    ReportsAreChained(s);
    if TargetOf(c).Some? && Found(s, c) {
      CurrentCounts(s, c.item);
      if s.items[c.item].status != Cancelled { LifecycleOfItem(s, c.item); }
      if s.items[c.item].status == InReview { IndependenceIsFromEveryEditor(s, c.item, actor); }
    }
    match c
    case UpdateSettings(x, _) => RenamesAreNotKept(s.settings, x.channels);
    case RecordPublication(_, variant, _, _, _) => EmptyChain(s.reports, variant);
    case CorrectPublication(_, report, _, _, _, _, _) => if report < |s.reports| { UnreplacedIsTip(s.reports, report); }
    case _ =>
  }

  lemma NoTextOfNext(s: State)
    requires Reachable(s)
    ensures TextBytes(s.revisions, |s.items|) == 0
  {
    ReachableIsValid(s);
    NoTextYet(s.revisions, |s.items|);
  }

  /** A refusal by a write's guards is true. */
  lemma WriteRefusalIsTrue(s: State, req: Request, env: Env, f: Error)
    requires GuardsAgree(s, req.intent.command, req.actor)
    requires Write(s, EvidenceOf(s, req, env), env, req.intent.command) == Err(f)
    ensures RefusalMeans(s, req, env, f)
  {
    match req.intent.command
    case Create(_, _) => ContentRefusalIsTrue(s, req, env, f);
    case Revise(_, _, _, _, _) => ContentRefusalIsTrue(s, req, env, f);
    case RecordPublication(_, _, _, _, _) => ReportRefusalIsTrue(s, req, env, f);
    case CorrectPublication(_, _, _, _, _, _, _) => ReportRefusalIsTrue(s, req, env, f);
    case _ => OtherRefusalIsTrue(s, req, env, f);
  }

  lemma ContentRefusalIsTrue(s: State, req: Request, env: Env, f: Error)
    requires req.intent.command.Create? || req.intent.command.Revise?
    requires GuardsAgree(s, req.intent.command, req.actor)
    requires Write(s, EvidenceOf(s, req, env), env, req.intent.command) == Err(f)
    ensures RefusalMeans(s, req, env, f)
  {
    if s.settings != [] {
      SelectableIsPublishable(s, env, req.intent.command.draft);
    }
  }

  lemma ReportRefusalIsTrue(s: State, req: Request, env: Env, f: Error)
    requires req.intent.command.RecordPublication? || req.intent.command.CorrectPublication?
    requires GuardsAgree(s, req.intent.command, req.actor)
    requires Write(s, EvidenceOf(s, req, env), env, req.intent.command) == Err(f)
    ensures RefusalMeans(s, req, env, f)
  {
  }

  lemma OtherRefusalIsTrue(s: State, req: Request, env: Env, f: Error)
    requires var c := req.intent.command; c.UpdateSettings? || c.SetStopped? || c.RequestReview? || c.Decide? || c.Cancel?
    requires GuardsAgree(s, req.intent.command, req.actor)
    requires Write(s, EvidenceOf(s, req, env), env, req.intent.command) == Err(f)
    ensures RefusalMeans(s, req, env, f)
  {
  }

  /** Every refusal names something that is so: whatever is refused as stale is stale, as over a
      limit is over it, and so on for all nine commands. */
  lemma RefusalsAreTrue(s: State, req: Request, env: Env)
    requires Reachable(s) && Step(s, req, env).1.Err?
    ensures RefusalMeans(s, req, env, Step(s, req, env).1.error)
  {
    GuardsDoAgree(s, req.intent.command, req.actor);
    var w := Write(s, EvidenceOf(s, req, env), env, req.intent.command);
    if w.Err? {
      WriteRefusalIsTrue(s, req, env, w.error);
    } else {
      WriteDoes(s, EvidenceOf(s, req, env), env, req.intent.command);
    }
  }
}
