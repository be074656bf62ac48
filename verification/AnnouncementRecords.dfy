/** The receipts account for the whole state: every recorded row says what the command under
    its receipt asked for, every receipt has its row, and what is updated in place is what
    replaying the receipts' commands gives. */
module AnnouncementRecords {
  import opened Wrappers
  import opened Announcements
  import opened AnnouncementInvariants
  import opened AnnouncementRuns
  import opened AnnouncementTheorems

  // ---- Rows and the commands that asked for them.

  /** The evidence is of this receipt, whose object is this row. */
  ghost predicate Names(receipts: seq<Receipt>, e: Evidence, subject: ObjectRef) {
    && e.receipt < |receipts| && receipts[e.receipt].subject == subject
    && receipts[e.receipt].actor == e.actor && receipts[e.receipt].at == e.at
  }

  ghost predicate SettingsTold(row: SettingsRow, i: Id, receipts: seq<Receipt>) {
    && Names(receipts, row.evidence, SettingsRef(i))
    && receipts[row.evidence.receipt].intent.command == UpdateSettings(row.input, row.number - 1)
  }

  predicate SameText(row: Revision, draft: DraftInput) {
    row.headline == draft.headline && row.body == draft.body && row.language == draft.language && row.bytes == draft.bytes
  }

  ghost predicate RevisionTold(row: Revision, r: Id, receipts: seq<Receipt>) {
    && Names(receipts, row.evidence, if row.number == 1 then ItemRef(row.item) else RevisionRef(r))
    && var receipt := receipts[row.evidence.receipt];
       && receipt.item == Some(row.item)
       && (if row.number == 1 then receipt.intent.command.Create?
           else receipt.intent.command.Revise? && receipt.intent.command.item == row.item)
       && SameText(row, receipt.intent.command.draft)
  }

  ghost predicate ReviewTold(row: Review, k: Id, receipts: seq<Receipt>) {
    && Names(receipts, row.evidence, ReviewRef(k))
    && var c := receipts[row.evidence.receipt].intent.command;
       c.Decide? && c.revision == row.revision && c.decision == row.decision && c.note == row.note
  }

  ghost predicate ReportTold(row: Report, p: Id, receipts: seq<Receipt>) {
    && Names(receipts, row.evidence, ReportRef(p))
    && var c := receipts[row.evidence.receipt].intent.command;
       if row.supersedes.None?
       then c.RecordPublication? && c.variant == row.variant && c.url == row.url && c.publishedAt == row.publishedAt && !row.withdrawn
       else && c.CorrectPublication? && c.report == row.supersedes.value && c.withdrawn == row.withdrawn
            && c.reason == row.reason && c.url == row.url && c.publishedAt == row.publishedAt
  }

  ghost predicate RowsTold(s: State) {
    && (forall i | 0 <= i < |s.settings| :: SettingsTold(s.settings[i], i, s.receipts))
    && (forall r | 0 <= r < |s.revisions| :: RevisionTold(s.revisions[r], r, s.receipts))
    && (forall v | 0 <= v < |s.variants| && s.variants[v].revision < |s.revisions| ::
          s.variants[v].evidence == s.revisions[s.variants[v].revision].evidence)
    && (forall k | 0 <= k < |s.reviews| :: ReviewTold(s.reviews[k], k, s.receipts))
    && (forall p | 0 <= p < |s.reports| :: ReportTold(s.reports[p], p, s.receipts))
  }

  /** Some revision of the announcement was written under receipt `k`. */
  ghost predicate WroteUnder(revisions: seq<Revision>, i: Id, k: Id) {
    exists r :: 0 <= r < |revisions| && revisions[r].item == i && revisions[r].evidence.receipt == k
  }

  /** The row a receipt answers with, of the kind its command asks for. */
  ghost predicate ReceiptTold(s: State, k: Id)
    requires k < |s.receipts|
  {
    var subject, item := s.receipts[k].subject, s.receipts[k].item;
    match s.receipts[k].intent.command
    case UpdateSettings(_, _) =>
      subject.SettingsRef? && subject.id < |s.settings| && s.settings[subject.id].evidence.receipt == k
    case SetStopped(_, _, _) => subject == ControlRef
    case Create(_, _) => item.Some? && subject == ItemRef(item.value) && WroteUnder(s.revisions, item.value, k)
    case Revise(_, _, _, _, _) =>
      subject.RevisionRef? && subject.id < |s.revisions| && s.revisions[subject.id].evidence.receipt == k
    case RequestReview(i, _) => subject.RevisionRef? && subject.id < |s.revisions| && s.revisions[subject.id].item == i
    case Decide(_, _, _, _, _) => subject.ReviewRef? && subject.id < |s.reviews| && s.reviews[subject.id].evidence.receipt == k
    case RecordPublication(_, _, _, _, _) =>
      subject.ReportRef? && subject.id < |s.reports| && s.reports[subject.id].evidence.receipt == k
    case CorrectPublication(_, _, _, _, _, _, _) =>
      subject.ReportRef? && subject.id < |s.reports| && s.reports[subject.id].evidence.receipt == k
    case Cancel(i, _, _) => subject == ItemRef(i)
  }

  ghost predicate ReceiptsTold(s: State) {
    forall k | 0 <= k < |s.receipts| :: ReceiptTold(s, k)
  }

  // ---- Replaying the receipts.

  /** The status an announcement has by its receipts. */
  function StatusTold(receipts: seq<Receipt>, i: Id): Status {
    if receipts == [] then Draft
    else
      var n := |receipts| - 1;
      var before := StatusTold(receipts[..n], i);
      if receipts[n].item != Some(i) then before
      else
        match receipts[n].intent.command
        case Create(_, _) => Draft
        case Revise(_, _, _, _, _) => Draft
        case RequestReview(_, _) => InReview
        case Decide(_, _, _, decision, _) => if decision == Approve then Approved else ChangesRequested
        case Cancel(_, _, _) => Cancelled
        case _ => before
  }

  /** The revision last approved by a decision among the receipts. */
  function ApprovedTold(receipts: seq<Receipt>, i: Id): Option<Id> {
    if receipts == [] then None
    else
      var n := |receipts| - 1;
      var c := receipts[n].intent.command;
      if receipts[n].item == Some(i) && c.Decide? && c.decision == Approve then Some(c.revision)
      else ApprovedTold(receipts[..n], i)
  }

  /** Whether the last stop or resume among the receipts was a stop. */
  function StoppedTold(receipts: seq<Receipt>): bool {
    if receipts == [] then false
    else
      var n := |receipts| - 1;
      var c := receipts[n].intent.command;
      if c.SetStopped? then c.stopped else StoppedTold(receipts[..n])
  }

  ghost predicate FieldsTold(control: Control, items: seq<Item>, receipts: seq<Receipt>) {
    && control.stopped == StoppedTold(receipts)
    && forall i | 0 <= i < |items| ::
         items[i].status == StatusTold(receipts, i) && items[i].approved == ApprovedTold(receipts, i)
  }

  // ---- A command does what it says.

  ghost predicate TextOf(s: State, e: Evidence, x: Change, draft: DraftInput) {
    && x.NewRevision? && x.revision.item == x.item && x.revision.evidence == e && SameText(x.revision, draft)
    && forall k | 0 <= k < |x.copies| :: x.copies[k].evidence == e && x.copies[k].revision == |s.revisions|
  }

  /** The change a command asks for. */
  ghost predicate Does(s: State, e: Evidence, c: Command, x: Change) {
    match c
    case UpdateSettings(input, expected) =>
      x.NewSettings? && x.settings.evidence == e && x.settings.input == input && x.settings.number == expected + 1
    case SetStopped(stopped, _, _) => x == NewStop(stopped)
    case Create(draft, _) => TextOf(s, e, x, draft) && x.item == |s.items|
    case Revise(i, draft, _, _, _) => TextOf(s, e, x, draft) && x.item == i < |s.items|
    case RequestReview(i, _) =>
      i < |s.items| && s.items[i].current.Some? && x == NewStatus(i, InReview, RevisionRef(s.items[i].current.value))
    case Decide(i, revision, _, decision, note) => i < |s.items| && x == NewReview(i, Review(e, revision, decision, note))
    case RecordPublication(i, variant, _, url, at) =>
      i < |s.items| && x == NewReport(i, Report(e, variant, None, false, url, at, ""))
    case CorrectPublication(i, report, _, withdrawn, reason, url, at) =>
      && i < |s.items| && report < |s.reports|
      && x == NewReport(i, Report(e, s.reports[report].variant, Some(report), withdrawn, url, at, reason))
    case Cancel(i, _, _) => i < |s.items| && x == NewStatus(i, Cancelled, ItemRef(i))
  }

  lemma WriteDoes(s: State, e: Evidence, env: Env, c: Command)
    requires Write(s, e, env, c).Ok?
    ensures Does(s, e, c, Write(s, e, env, c).value)
  {
    if c.Create? || c.Revise? {
      WriteHoldsDraft(s, e, env, c);
    }
  }

  // ---- Commits keep the accounts.

  lemma CommitTellsSettings(s: State, x: Change, req: Request, at: int, e: Evidence)
    requires forall i | 0 <= i < |s.settings| :: SettingsTold(s.settings[i], i, s.receipts)
    requires Does(s, e, req.intent.command, x) && e == Evidence(req.actor, at, |s.receipts|)
    ensures var t := Commit(s, x, req, at); forall i | 0 <= i < |t.settings| :: SettingsTold(t.settings[i], i, t.receipts)
  {
  }

  lemma CommitTellsRevisions(s: State, x: Change, req: Request, at: int, e: Evidence)
    requires forall r | 0 <= r < |s.revisions| :: RevisionTold(s.revisions[r], r, s.receipts)
    requires Does(s, e, req.intent.command, x) && e == Evidence(req.actor, at, |s.receipts|)
    requires x.NewRevision? ==> (x.revision.number == 1 <==> x.item == |s.items|)
    ensures var t := Commit(s, x, req, at); forall r | 0 <= r < |t.revisions| :: RevisionTold(t.revisions[r], r, t.receipts)
  {
  }

  lemma CommitTellsVariants(s: State, x: Change, req: Request, at: int, e: Evidence)
    requires forall v | 0 <= v < |s.variants| && s.variants[v].revision < |s.revisions| ::
               s.variants[v].evidence == s.revisions[s.variants[v].revision].evidence
    requires forall v | 0 <= v < |s.variants| :: s.variants[v].revision < |s.revisions|
    requires Does(s, e, req.intent.command, x)
    ensures var t := Commit(s, x, req, at);
            forall v | 0 <= v < |t.variants| && t.variants[v].revision < |t.revisions| ::
              t.variants[v].evidence == t.revisions[t.variants[v].revision].evidence
  {
  }

  lemma CommitTellsReviews(s: State, x: Change, req: Request, at: int, e: Evidence)
    requires forall k | 0 <= k < |s.reviews| :: ReviewTold(s.reviews[k], k, s.receipts)
    requires Does(s, e, req.intent.command, x) && e == Evidence(req.actor, at, |s.receipts|)
    ensures var t := Commit(s, x, req, at); forall k | 0 <= k < |t.reviews| :: ReviewTold(t.reviews[k], k, t.receipts)
  {
  }

  lemma CommitTellsReports(s: State, x: Change, req: Request, at: int, e: Evidence)
    requires forall p | 0 <= p < |s.reports| :: ReportTold(s.reports[p], p, s.receipts)
    requires Does(s, e, req.intent.command, x) && e == Evidence(req.actor, at, |s.receipts|)
    ensures var t := Commit(s, x, req, at); forall p | 0 <= p < |t.reports| :: ReportTold(t.reports[p], p, t.receipts)
  {
  }

  lemma EarlierReceiptTold(s: State, x: Change, req: Request, at: int, k: Id)
    requires k < |s.receipts| && ReceiptTold(s, k)
    ensures ReceiptTold(Commit(s, x, req, at), k)
  {
    var t := Commit(s, x, req, at);
    if s.receipts[k].intent.command.Create? {
      var r :| 0 <= r < |s.revisions| && s.revisions[r].item == s.receipts[k].item.value && s.revisions[r].evidence.receipt == k;
      assert t.revisions[r] == s.revisions[r];
    }
  }

  lemma NewReceiptTold(s: State, x: Change, req: Request, at: int, e: Evidence)
    requires LinkedState(s) && Does(s, e, req.intent.command, x) && e == Evidence(req.actor, at, |s.receipts|)
    ensures ReceiptTold(Commit(s, x, req, at), |s.receipts|)
  {
    var t := Commit(s, x, req, at);
    if x.NewRevision? {
      assert t.revisions[|s.revisions|] == x.revision;
    }
  }

  lemma {:induction false} NothingApprovedYet(receipts: seq<Receipt>, i: Id)
    requires forall k | 0 <= k < |receipts| :: receipts[k].item != Some(i)
    ensures ApprovedTold(receipts, i) == None
  {
    if receipts != [] { NothingApprovedYet(receipts[..|receipts| - 1], i); }
  }

  lemma ReplayOne(receipts: seq<Receipt>, r: Receipt, i: Id)
    ensures (receipts + [r])[..|receipts|] == receipts
    ensures r.item != Some(i) ==>
              StatusTold(receipts + [r], i) == StatusTold(receipts, i) && ApprovedTold(receipts + [r], i) == ApprovedTold(receipts, i)
  {
  }

  lemma CommitTellsItem(s: State, x: Change, req: Request, at: int, e: Evidence, i: Id)
    requires FieldsTold(s.control, s.items, s.receipts) && Does(s, e, req.intent.command, x)
    requires forall k | 0 <= k < |s.receipts| && s.receipts[k].item.Some? :: s.receipts[k].item.value < |s.items|
    requires i < |Commit(s, x, req, at).items|
    ensures var t := Commit(s, x, req, at);
            t.items[i].status == StatusTold(t.receipts, i) && t.items[i].approved == ApprovedTold(t.receipts, i)
  {
    var t := Commit(s, x, req, at);
    ReplayOne(s.receipts, t.receipts[|s.receipts|], i);
    if ItemOf(x) != Some(i) {
      assert t.items[i] == s.items[i];
    } else if i == |s.items| {
      NothingApprovedYet(s.receipts, i);
    }
  }

  lemma CommitTellsStopped(s: State, x: Change, req: Request, at: int, e: Evidence)
    requires s.control.stopped == StoppedTold(s.receipts) && Does(s, e, req.intent.command, x)
    ensures var t := Commit(s, x, req, at); t.control.stopped == StoppedTold(t.receipts)
  {
    ReplayOne(s.receipts, Commit(s, x, req, at).receipts[|s.receipts|], 0);
  }

  lemma CommitTellsFields(s: State, x: Change, req: Request, at: int, e: Evidence)
    requires FieldsTold(s.control, s.items, s.receipts) && Does(s, e, req.intent.command, x)
    requires forall k | 0 <= k < |s.receipts| && s.receipts[k].item.Some? :: s.receipts[k].item.value < |s.items|
    ensures var t := Commit(s, x, req, at); FieldsTold(t.control, t.items, t.receipts)
  {
    var t := Commit(s, x, req, at);
    CommitTellsStopped(s, x, req, at, e);
    forall i | 0 <= i < |t.items|
      ensures t.items[i].status == StatusTold(t.receipts, i) && t.items[i].approved == ApprovedTold(t.receipts, i)
    {
      CommitTellsItem(s, x, req, at, e, i);
    }
  }

  ghost predicate Told(s: State) {
    RowsTold(s) && ReceiptsTold(s) && FieldsTold(s.control, s.items, s.receipts)
  }

  lemma CommitTellsRows(s: State, x: Change, req: Request, at: int, e: Evidence)
    requires RowsTold(s) && LinkedState(s) && Does(s, e, req.intent.command, x) && e == Evidence(req.actor, at, |s.receipts|)
    requires x.NewRevision? ==> (x.revision.number == 1 <==> x.item == |s.items|)
    ensures RowsTold(Commit(s, x, req, at))
  {
    CommitTellsSettings(s, x, req, at, e);
    CommitTellsRevisions(s, x, req, at, e);
    CommitTellsVariants(s, x, req, at, e);
    CommitTellsReviews(s, x, req, at, e);
    CommitTellsReports(s, x, req, at, e);
  }

  lemma CommitTellsReceipts(s: State, x: Change, req: Request, at: int, e: Evidence)
    requires ReceiptsTold(s) && LinkedState(s) && Does(s, e, req.intent.command, x) && e == Evidence(req.actor, at, |s.receipts|)
    ensures ReceiptsTold(Commit(s, x, req, at))
  {
    var t := Commit(s, x, req, at);
    forall k | 0 <= k < |t.receipts| ensures ReceiptTold(t, k) {
      if k < |s.receipts| {
        EarlierReceiptTold(s, x, req, at, k);
      } else {
        NewReceiptTold(s, x, req, at, e);
      }
    }
  }

  /** A first revision has number one, a later one a higher number. */
  lemma NumberTellsFirst(s: State, e: Evidence, x: Change)
    requires Bounded(s) && Legal(s, e, x) && x.NewRevision?
    ensures x.revision.number == 1 <==> x.item == |s.items|
  {
  }

  lemma StepTells(s: State, req: Request, env: Env)
    requires Inv(s) && Told(s)
    ensures Told(Step(s, req, env).0)
  {
    var step := StepCase(s, req, env);
    if step.Some? {
      CommitTells(s, step.value, req, env);
    }
  }

  /** The parts of the invariant the accounts rest on. */
  lemma AccountsRestOn(s: State)
    requires Inv(s)
    ensures LinkedState(s) && Bounded(s)
    ensures forall k | 0 <= k < |s.receipts| && s.receipts[k].item.Some? :: s.receipts[k].item.value < |s.items|
  {
  }

  lemma CommitTells(s: State, x: Change, req: Request, env: Env)
    requires Inv(s) && Told(s)
    requires Attempt(s, req, env) == Ok(x) && Legal(s, EvidenceOf(s, req, env), x)
    ensures Told(Commit(s, x, req, env.now))
  {
    var e := EvidenceOf(s, req, env);
    AccountsRestOn(s);
    WriteDoes(s, e, env, req.intent.command);
    if x.NewRevision? {
      NumberTellsFirst(s, e, x);
    }
    CommitTellsRows(s, x, req, env.now, e);
    CommitTellsReceipts(s, x, req, env.now, e);
    CommitTellsFields(s, x, req, env.now, e);
  }

  lemma {:induction false} RunTells(s: State, calls: seq<Call>)
    requires Inv(s) && Told(s)
    ensures Told(Run(s, calls))
  {
    if calls != [] {
      var n := |calls| - 1;
      RunTells(s, calls[..n]);
      RunKeepsInv(s, calls[..n]);
      StepTells(Run(s, calls[..n]), calls[n].request, calls[n].env);
    }
  }

  lemma BlankIsTold(s: State)
    requires s.settings == [] && s.items == [] && s.revisions == [] && s.variants == [] && s.reviews == [] && s.reports == []
    requires s.receipts == [] && !s.control.stopped
    ensures Told(s)
  {
  }

  lemma ReachableIsTold(s: State)
    requires Reachable(s)
    ensures Told(s)
  {
    var calls: seq<Call> :| s == Run(Empty, calls);
    EmptyIsValid();
    BlankIsTold(Empty);
    RunTells(Empty, calls);
  }

  // ---- What the accounts are good for.

  /** Every recorded row is what some receipt's command asked for, under that receipt's actor
      and time; no two rows of a table share a receipt. */
  lemma EveryRowHasItsReceipt(s: State)
    requires Reachable(s)
    ensures RowsTold(s)
    ensures forall i, j | 0 <= i < j < |s.settings| :: s.settings[i].evidence.receipt != s.settings[j].evidence.receipt
    ensures forall i, j | 0 <= i < j < |s.revisions| :: s.revisions[i].evidence.receipt != s.revisions[j].evidence.receipt
    ensures forall i, j | 0 <= i < j < |s.reviews| :: s.reviews[i].evidence.receipt != s.reviews[j].evidence.receipt
    ensures forall i, j | 0 <= i < j < |s.reports| :: s.reports[i].evidence.receipt != s.reports[j].evidence.receipt
  {
    ReachableIsTold(s);
    ReachableIsValid(s);
    forall i, j | 0 <= i < j < |s.revisions| ensures s.revisions[i].evidence.receipt != s.revisions[j].evidence.receipt {
      OneRevisionPerReceipt(s.revisions, s.receipts, i, j);
    }
  }

  lemma OneRevisionPerReceipt(revisions: seq<Revision>, receipts: seq<Receipt>, i: Id, j: Id)
    requires Lineage(revisions) && i < j < |revisions|
    requires RevisionTold(revisions[i], i, receipts) && RevisionTold(revisions[j], j, receipts)
    ensures revisions[i].evidence.receipt != revisions[j].evidence.receipt
  {
    if revisions[i].evidence.receipt == revisions[j].evidence.receipt {
      assert Continues(revisions, j);
      if revisions[j].number == 1 && revisions[i].number == 1 {
        assert revisions[i].item == revisions[j].item;
        NumbersGrow(revisions, i, j);
      }
    }
  }

  /** Every receipt has the row its command asks for. */
  lemma EveryReceiptHasItsRow(s: State, k: Id)
    requires Reachable(s) && k < |s.receipts|
    ensures ReceiptTold(s, k)
  {
    ReachableIsTold(s);
  }

  /** Status, approval and the stop flag are what replaying the receipts gives. */
  lemma ReceiptsReplayToTheState(s: State)
    requires Reachable(s)
    ensures s.control.stopped == StoppedTold(s.receipts)
    ensures forall i | 0 <= i < |s.items| ::
              s.items[i].status == StatusTold(s.receipts, i) && s.items[i].approved == ApprovedTold(s.receipts, i)
  {
    ReachableIsTold(s);
  }

  /** The receipt of an approval of revision `r` of announcement `i`. */
  ghost predicate Approval(receipt: Receipt, i: Id, r: Id) {
    && receipt.item == Some(i) && receipt.intent.command.Decide?
    && receipt.intent.command.revision == r && receipt.intent.command.decision == Approve
  }

  /** Nothing counts as approved that nobody asked to approve. */
  lemma ApprovalWasAskedFor(s: State, i: Id) returns (k: Id)
    requires Reachable(s) && i < |s.items| && s.items[i].approved.Some?
    ensures k < |s.receipts| && Approval(s.receipts[k], i, s.items[i].approved.value)
  {
    ReachableIsTold(s);
    k := LastApproval(s.receipts, i);
  }

  lemma {:induction false} LastApproval(receipts: seq<Receipt>, i: Id) returns (k: Id)
    requires ApprovedTold(receipts, i).Some?
    ensures k < |receipts| && Approval(receipts[k], i, ApprovedTold(receipts, i).value)
  {
    var n := |receipts| - 1;
    if ApprovedTold(receipts, i) == ApprovedTold(receipts[..n], i) && ApprovedTold(receipts[..n], i).Some? {
      k := LastApproval(receipts[..n], i);
    } else {
      k := n;
    }
  }
}
