/** The promises of the announcement workflow, over every run of any commands. */
module AnnouncementTheorems {
  import opened Wrappers
  import opened Sorting
  import opened Announcements
  import opened AnnouncementInvariants
  import opened AnnouncementRuns

  ghost predicate Reachable(s: State) { exists calls: seq<Call> :: s == Run(Empty, calls) }

  lemma ReachableIsValid(s: State)
    requires Reachable(s)
    ensures Inv(s)
  {
    var calls: seq<Call> :| s == Run(Empty, calls);
    EmptyIsValid();
    RunKeepsInv(Empty, calls);
  }

  lemma {:induction false} RunReachable(s: State, calls: seq<Call>)
    requires Reachable(s)
    ensures Reachable(Run(s, calls))
  {
    var before: seq<Call> :| s == Run(Empty, before);
    RunConcat(Empty, before, calls);
  }

  lemma StepIsReachable(s: State, req: Request, env: Env)
    requires Reachable(s)
    ensures Reachable(Step(s, req, env).0)
  {
    RunReachable(s, [Call(req, env)]);
    assert Run(s, [Call(req, env)]) == Step(Run(s, []), req, env).0;
  }

  lemma {:induction false} RunConcat(s: State, a: seq<Call>, b: seq<Call>)
    ensures Run(s, a + b) == Run(Run(s, a), b)
  {
    if b == [] {
      assert a + b == a;
    } else {
      assert (a + b)[..|a + b| - 1] == a + b[..|b| - 1];
      RunConcat(s, a, b[..|b| - 1]);
    }
  }

  // ---- Separation of author and approver.

  /** Whoever approved a revision wrote no revision of its round, before or after. */
  lemma ApproverIsNoAuthorOfTheRound(s: State, k: Id, r: Id)
    requires Reachable(s) && k < |s.reviews| && s.reviews[k].decision == Approve && r < |s.revisions|
    ensures s.reviews[k].revision < |s.revisions|
    ensures s.revisions[r].round == s.revisions[s.reviews[k].revision].round ==>
              && s.revisions[r].evidence.actor != s.reviews[k].evidence.actor
              && r <= s.reviews[k].revision
              && s.revisions[r].item == s.revisions[s.reviews[k].revision].item
  {
    ReachableIsValid(s);
  }

  /** A round is a contiguous interval of its announcement's revisions, and only its last
      revision can be approved. */
  lemma RoundsAreIntervals(s: State, a: Id, b: Id, c: Id)
    requires Reachable(s) && a <= b <= c < |s.revisions|
    requires s.revisions[a].round == s.revisions[c].round && s.revisions[b].item == s.revisions[a].item
    ensures s.revisions[b].round == s.revisions[a].round
    ensures b < c ==> !Endorsed(s.reviews, b)
  {
    ReachableIsValid(s);
    WithinRound(s.revisions, s.reviews, a, b, c);
  }

  lemma WithinRound(revisions: seq<Revision>, reviews: seq<Review>, a: Id, b: Id, c: Id)
    requires RoundsContiguous(revisions) && RoundsClosed(revisions, reviews) && a <= b <= c < |revisions|
    requires revisions[a].round == revisions[c].round && revisions[b].item == revisions[a].item
    ensures revisions[b].round == revisions[a].round
    ensures b < c ==> !Endorsed(reviews, b)
  {
  }

  /** After the first revision of an announcement, a revision opens a new round exactly when
      the one before it was approved; otherwise it stays in that round. */
  lemma RoundsOpenOnlyAfterApproval(s: State, r: Id)
    requires Reachable(s) && r < |s.revisions| && s.revisions[r].number > 1
    ensures s.revisions[r].previous.Some? && s.revisions[r].previous.value < r
    ensures var p := s.revisions[r].previous.value;
            && s.revisions[p].item == s.revisions[r].item && s.revisions[p].number + 1 == s.revisions[r].number
            && (Endorsed(s.reviews, p) <==> s.revisions[r].round != s.revisions[p].round)
  {
    ReachableIsValid(s);
    OpensAfterApproval(s.revisions, s.reviews, r);
  }

  lemma OpensAfterApproval(revisions: seq<Revision>, reviews: seq<Review>, r: Id)
    requires Lineage(revisions) && RoundsNamed(revisions) && RoundsOpened(revisions, reviews)
    requires r < |revisions| && revisions[r].number > 1
    ensures revisions[r].previous.Some? && revisions[r].previous.value < r
    ensures var p := revisions[r].previous.value;
            && revisions[p].item == revisions[r].item && revisions[p].number + 1 == revisions[r].number
            && (Endorsed(reviews, p) <==> revisions[r].round != revisions[p].round)
  {
    assert Continues(revisions, r);
  }

  /** The revisions of an announcement newer than its approved one, if it has one. */
  ghost predicate EditedSinceApproval(s: State, i: Id, r: Id)
    requires i < |s.items|
  {
    r < |s.revisions| && s.revisions[r].item == i && (s.items[i].approved.Some? ==> r > s.items[i].approved.value)
  }

  /** This actor wrote one of them. */
  ghost predicate IsEditor(s: State, i: Id, actor: Id)
    requires i < |s.items|
  {
    exists r: Id :: EditedSinceApproval(s, i, r) && s.revisions[r].evidence.actor == actor
  }

  /** The round under review is exactly what was edited since the last approval. */
  lemma RoundIsWhatWasEditedSinceApproval(s: State, i: Id, r: Id)
    requires Reachable(s) && i < |s.items| && s.items[i].current != s.items[i].approved
    requires r < |s.revisions| && s.revisions[r].item == i
    ensures s.items[i].current.Some? && s.items[i].current.value < |s.revisions|
    ensures EditedSinceApproval(s, i, r) <==> s.revisions[r].round == s.revisions[s.items[i].current.value].round
  {
    ReachableIsValid(s);
    var c := s.items[i].current.value;
    assert Newest(s.revisions, i, c);
    SinceApproval(s.revisions, s.reviews, s.items, i, c, r);
  }

  lemma {:induction false} SameRoundDown(revisions: seq<Revision>, reviews: seq<Review>, r: Id, q: Id)
    requires Lineage(revisions) && RoundsOpened(revisions, reviews) && r <= q < |revisions| && revisions[r].item == revisions[q].item
    requires forall p | r <= p < q && revisions[p].item == revisions[r].item :: !Endorsed(reviews, p)
    ensures revisions[r].round == revisions[q].round
    decreases q
  {
    if r < q {
      assert Continues(revisions, q);
      SameRoundDown(revisions, reviews, r, revisions[q].previous.value);
    }
  }

  lemma UpToApproval(revisions: seq<Revision>, reviews: seq<Review>, a: Id, c: Id, r: Id)
    requires RoundsContiguous(revisions) && RoundsClosed(revisions, reviews) && r <= a < c < |revisions|
    requires revisions[a].item == revisions[r].item && Endorsed(reviews, a)
    ensures revisions[r].round != revisions[c].round
  {
    var k :| 0 <= k < |reviews| && reviews[k].revision == a && reviews[k].decision == Approve;
    assert revisions[c].round != revisions[reviews[k].revision].round;
  }

  lemma NoneEndorsedSince(items: seq<Item>, revisions: seq<Revision>, reviews: seq<Review>, i: Id, p: Id)
    requires LatestApproved(items, revisions, reviews) && i < |items| && p < |revisions| && revisions[p].item == i
    requires items[i].approved.Some? ==> p > items[i].approved.value
    ensures !Endorsed(reviews, p)
  {
  }

  lemma SinceApproval(revisions: seq<Revision>, reviews: seq<Review>, items: seq<Item>, i: Id, c: Id, r: Id)
    requires Lineage(revisions) && RoundsOpened(revisions, reviews) && RoundsContiguous(revisions) && RoundsClosed(revisions, reviews)
    requires LatestApproved(items, revisions, reviews) && i < |items| && Newest(revisions, i, c)
    requires r < |revisions| && revisions[r].item == i
    requires items[i].approved.Some? ==>
               items[i].approved.value < c && revisions[items[i].approved.value].item == i && Endorsed(reviews, items[i].approved.value)
    ensures (items[i].approved.Some? ==> r > items[i].approved.value) <==> revisions[r].round == revisions[c].round
  {
    if items[i].approved.Some? && r <= items[i].approved.value {
      UpToApproval(revisions, reviews, items[i].approved.value, c, r);
    } else {
      forall p | r <= p < c && revisions[p].item == i ensures !Endorsed(reviews, p) {
        NoneEndorsedSince(items, revisions, reviews, i, p);
      }
      SameRoundDown(revisions, reviews, r, c);
    }
  }

  /** A decision is refused for lack of independence exactly to those who wrote any revision
      since the last approval. */
  lemma IndependenceIsFromEveryEditor(s: State, i: Id, actor: Id)
    requires Reachable(s) && i < |s.items| && s.items[i].status == InReview
    ensures s.items[i].current.Some? && s.items[i].current.value < |s.revisions|
    ensures WroteIn(s.revisions, i, s.revisions[s.items[i].current.value].round, actor) <==> IsEditor(s, i, actor)
  {
    LifecycleOfItem(s, i);
    forall r | 0 <= r < |s.revisions| && s.revisions[r].item == i
      ensures EditedSinceApproval(s, i, r) <==> s.revisions[r].round == s.revisions[s.items[i].current.value].round
    {
      RoundIsWhatWasEditedSinceApproval(s, i, r);
    }
    if WroteIn(s.revisions, i, s.revisions[s.items[i].current.value].round, actor) {
      var r :| 0 <= r < |s.revisions| && s.revisions[r].item == i && s.revisions[r].round == s.revisions[s.items[i].current.value].round
               && s.revisions[r].evidence.actor == actor;
      assert EditedSinceApproval(s, i, r);
      assert IsEditor(s, i, actor);
    }
  }

  // ---- When commands take effect.

  /** New content and decisions about it. */
  predicate NewWork(c: Command) { c.Create? || c.Revise? || c.RequestReview? || c.Decide? }

  /** Nothing changes without admission before and after the write, readiness, an edition
      that accepts writes and evidence within its bound; new work also needs an edition that
      is not stopped, unexpired newest settings and, for text, the settings version seen. */
  lemma EffectsNeedTheirConditions(s: State, req: Request, env: Env)
    requires Reachable(s) && Step(s, req, env).0 != s
    ensures env.admitted && env.ready && env.stillAdmitted && env.acceptsWrites && WellFormed(req.intent.command, env.now)
    ensures TargetOf(req.intent.command).Some? || req.intent.command.Create? ==> env.evidenceFits
    ensures NewWork(req.intent.command) ==>
              !s.control.stopped && s.settings != [] && s.settings[|s.settings| - 1].input.reviewOn >= env.today
    ensures req.intent.command.Create? || req.intent.command.Revise? ==> req.intent.command.expectedSettings == s.control.settingsVersion
    ensures req.intent.command.SetStopped? && !req.intent.command.stopped ==>
              s.settings != [] && s.settings[|s.settings| - 1].input.reviewOn >= env.today
  {
    CurrentIsNewest(s);
    WriteConditions(s, EvidenceOf(s, req, env), env, req.intent.command);
  }

  lemma CurrentIsNewest(s: State)
    requires Reachable(s)
    ensures s.control.currentSettings == (if s.settings == [] then None else Some(|s.settings| - 1))
  {
    ReachableIsValid(s);
  }

  lemma WriteConditions(s: State, e: Evidence, env: Env, c: Command)
    requires s.control.currentSettings == (if s.settings == [] then None else Some(|s.settings| - 1))
    ensures Write(s, e, env, c).Ok? ==>
              && env.acceptsWrites && (TargetOf(c).Some? || c.Create? ==> ItemOf(Write(s, e, env, c).value).Some?)
              && (NewWork(c) ==> !s.control.stopped)
              && (NewWork(c) || (c.SetStopped? && !c.stopped) ==>
                    s.settings != [] && s.settings[|s.settings| - 1].input.reviewOn >= env.today)
              && (c.Create? || c.Revise? ==> c.expectedSettings == s.control.settingsVersion)
  {
  }

  /** A fresh decision is accepted exactly when work is open under unexpired settings, the
      caller saw the current version, the revision is the one under review, the reviewer is
      independent, and no bound is reached. */
  lemma DecisionsAreAcceptedExactly(s: State, req: Request, env: Env, i: Id, revision: Id, expected: int, decision: Decision, note: string)
    requires Reachable(s) && req.intent.command == Decide(i, revision, expected, decision, note)
    requires Admissible(req, env) && FindReceipt(s.receipts, req.actor, req.key).None?
    ensures Step(s, req, env).1.Ok? <==>
              && env.acceptsWrites && !s.control.stopped && s.settings != [] && s.settings[|s.settings| - 1].input.reviewOn >= env.today
              && i < |s.items| && s.items[i].version == expected && s.items[i].status == InReview && s.items[i].current == Some(revision)
              && !IsEditor(s, i, req.actor)
              && s.items[i].version < MAX_HISTORY && s.control.sequence < MAX_SEQUENCE && env.stillAdmitted && env.evidenceFits
  {
    CurrentIsNewest(s);
    if i < |s.items| && s.items[i].status == InReview {
      IndependenceIsFromEveryEditor(s, i, req.actor);
    }
    DecideAnswers(s, req, env, i, revision, expected, decision, note);
  }

  lemma DecideAnswers(s: State, req: Request, env: Env, i: Id, revision: Id, expected: int, decision: Decision, note: string)
    requires s.control.currentSettings == (if s.settings == [] then None else Some(|s.settings| - 1))
    requires req.intent.command == Decide(i, revision, expected, decision, note)
    requires Admissible(req, env) && FindReceipt(s.receipts, req.actor, req.key).None?
    requires i < |s.items| && s.items[i].status == InReview && s.items[i].current.Some? ==> s.items[i].current.value < |s.revisions|
    ensures Step(s, req, env).1.Ok? <==>
              && env.acceptsWrites && !s.control.stopped && s.settings != [] && s.settings[|s.settings| - 1].input.reviewOn >= env.today
              && i < |s.items| && s.items[i].version == expected && s.items[i].status == InReview && s.items[i].current == Some(revision)
              && !WroteIn(s.revisions, i, s.revisions[revision].round, req.actor)
              && s.items[i].version < MAX_HISTORY && s.control.sequence < MAX_SEQUENCE && env.stillAdmitted && env.evidenceFits
  {
  }

  /** Revisions continue one another: unique numbers per announcement, and no revision has two
      successors. */
  ghost predicate RevisionRowsUnique(revisions: seq<Revision>) {
    forall a, b | 0 <= a < b < |revisions| ::
      && (revisions[a].item == revisions[b].item ==> revisions[a].number < revisions[b].number)
      && (revisions[a].previous == revisions[b].previous ==> revisions[a].previous.None? && revisions[a].item != revisions[b].item)
  }

  /** A variant has one initial report, and no report is superseded twice. */
  ghost predicate ReportRowsUnique(reports: seq<Report>) {
    forall p, q | 0 <= p < q < |reports| && reports[p].supersedes == reports[q].supersedes ::
      reports[p].supersedes.None? && reports[p].variant != reports[q].variant
  }

  /** Receipts are unique by sequence, and by announcement and resulting version. */
  ghost predicate ReceiptRowsUnique(receipts: seq<Receipt>) {
    && (forall k | 0 <= k < |receipts| :: receipts[k].sequence > 0 && receipts[k].version > 0)
    && forall j, k | 0 <= j < k < |receipts| ::
         && receipts[j].sequence != receipts[k].sequence
         && (receipts[j].item.Some? && receipts[j].item == receipts[k].item ==> receipts[j].version != receipts[k].version)
  }

  /** The constraints the database declares on settings, announcements, revisions, variants,
      reviews, reports and receipts hold in every reachable state, so none of them is what
      refuses a command. */
  lemma DatabaseConstraintsHold(s: State)
    requires Reachable(s)
    ensures Shapes(s) && KeysUnique(s.receipts) && DecidedOnce(s.reviews)
    ensures forall i | 0 <= i < |s.items| :: s.items[i].version > 0
    ensures RevisionRowsUnique(s.revisions) && ReportRowsUnique(s.reports) && ReceiptRowsUnique(s.receipts)
  {
    ReachableIsValid(s);
    RevisionRows(s.revisions);
    ReportRows(s.reports);
    ReceiptRows(s.control, s.items, s.receipts, s.events);
  }

  lemma ReportRows(reports: seq<Report>)
    requires Chains(reports)
    ensures ReportRowsUnique(reports)
  {
    forall p, q | 0 <= p < q < |reports| && reports[p].supersedes == reports[q].supersedes
      ensures reports[p].supersedes.None? && reports[p].variant != reports[q].variant
    {
      assert Chained(reports, p) && Chained(reports, q);
    }
  }

  lemma ReceiptRows(control: Control, items: seq<Item>, receipts: seq<Receipt>, events: seq<Event>)
    requires Sequenced(control, receipts, events) && Counted(control, items, receipts)
    ensures ReceiptRowsUnique(receipts)
  {
    forall j, k | 0 <= j < k < |receipts| && receipts[j].item == receipts[k].item
      ensures receipts[j].version != receipts[k].version
    {
      CountGrows(receipts, j, k);
    }
    forall k | 0 <= k < |receipts| ensures receipts[k].version > 0 {
      assert receipts[..k + 1][k] == receipts[k];
    }
  }

  lemma RevisionRows(revisions: seq<Revision>)
    requires Lineage(revisions)
    ensures RevisionRowsUnique(revisions)
  {
    forall a, b | 0 <= a < b < |revisions|
      ensures revisions[a].item == revisions[b].item ==> revisions[a].number < revisions[b].number
      ensures revisions[a].previous == revisions[b].previous ==> revisions[a].previous.None? && revisions[a].item != revisions[b].item
    {
      assert Continues(revisions, a) && Continues(revisions, b);
      if revisions[a].item == revisions[b].item {
        NumbersGrow(revisions, a, b);
      }
    }
  }

  // ---- Exactly-once commands.

  lemma CommitExtends(s: State, x: Change, req: Request, at: int)
    ensures var t := Commit(s, x, req, at);
            && s.settings <= t.settings && s.revisions <= t.revisions && s.variants <= t.variants && s.reviews <= t.reviews
            && s.reports <= t.reports && s.receipts <= t.receipts && s.events <= t.events && |s.items| <= |t.items|
  {
  }

  lemma StepExtends(s: State, req: Request, env: Env)
    ensures var t := Step(s, req, env).0;
            && s.settings <= t.settings && s.revisions <= t.revisions && s.variants <= t.variants && s.reviews <= t.reviews
            && s.reports <= t.reports && s.receipts <= t.receipts && s.events <= t.events && |s.items| <= |t.items|
  {
    if Step(s, req, env).0 != s {
      CommitExtends(s, Attempt(s, req, env).value, req, env.now);
    }
  }

  /** Evidence is append-only: no run changes or removes a recorded row. */
  lemma {:induction false} EvidenceIsAppendOnly(s: State, calls: seq<Call>)
    ensures var t := Run(s, calls);
            && s.settings <= t.settings && s.revisions <= t.revisions && s.variants <= t.variants && s.reviews <= t.reviews
            && s.reports <= t.reports && s.receipts <= t.receipts && s.events <= t.events && |s.items| <= |t.items|
  {
    if calls != [] {
      EvidenceIsAppendOnly(s, calls[..|calls| - 1]);
      var last := calls[|calls| - 1];
      StepExtends(Run(s, calls[..|calls| - 1]), last.request, last.env);
    }
  }

  lemma FindReceiptStays(receipts: seq<Receipt>, more: seq<Receipt>, actor: Id, key: Id)
    requires receipts <= more && FindReceipt(receipts, actor, key).Some?
    ensures FindReceipt(more, actor, key) == FindReceipt(receipts, actor, key)
  {
    var k := FindReceipt(receipts, actor, key).value;
    var j := FindReceipt(more, actor, key);
    assert more[k] == receipts[k];
    assert j.Some? && j.value <= k;
    assert more[j.value] == receipts[j.value];
  }

  /** Any answer, once given, is given again to the exact retry after any intervening
      commands, and the retry changes nothing. */
  lemma ExactRetryReturnsTheOriginal(s: State, req: Request, env: Env, calls: seq<Call>, later: Env)
    requires Step(s, req, env).1.Ok? && Admissible(req, later)
    ensures var t := Run(Step(s, req, env).0, calls);
            Step(t, req, later) == (t, Ok(Step(s, req, env).1.value.(replayed := true)))
  {
    var s1, reply := Step(s, req, env).0, Step(s, req, env).1.value;
    AcceptedHasReceipt(s, req, env);
    var t := Run(s1, calls);
    EvidenceIsAppendOnly(s1, calls);
    FindReceiptStays(s1.receipts, t.receipts, req.actor, req.key);
    assert t.receipts[reply.receipt] == s1.receipts[reply.receipt];
  }

  lemma AcceptedHasReceipt(s: State, req: Request, env: Env)
    requires Step(s, req, env).1.Ok?
    ensures var s1, reply := Step(s, req, env).0, Step(s, req, env).1.value;
            && FindReceipt(s1.receipts, req.actor, req.key) == Some(reply.receipt)
            && s1.receipts[reply.receipt].intent == req.intent
            && reply == ReplyOf(s1.receipts, reply.receipt, reply.replayed)
  {
    var s1 := Step(s, req, env).0;
    if FindReceipt(s.receipts, req.actor, req.key).None? {
      assert s1.receipts[..|s.receipts|] == s.receipts;
    }
  }

  /** A changed intent under a used retry key is refused without effect, forever. */
  lemma ChangedIntentIsRefused(s: State, req: Request, env: Env, calls: seq<Call>, other: Request, later: Env)
    requires Step(s, req, env).1.Ok?
    requires other.actor == req.actor && other.key == req.key && other.intent != req.intent
    ensures var t := Run(Step(s, req, env).0, calls);
            Step(t, other, later).0 == t && Step(t, other, later).1.Err?
            && (Admissible(other, later) ==> Step(t, other, later).1 == Err(RetryConflict))
  {
    var s1, reply := Step(s, req, env).0, Step(s, req, env).1.value;
    AcceptedHasReceipt(s, req, env);
    var t := Run(s1, calls);
    EvidenceIsAppendOnly(s1, calls);
    FindReceiptStays(s1.receipts, t.receipts, req.actor, req.key);
    assert t.receipts[reply.receipt] == s1.receipts[reply.receipt];
  }

  /** The calls of a run whose actor and key had no receipt when they arrived. */
  function FirstAttempts(s: State, calls: seq<Call>): seq<Call> {
    if calls == [] then []
    else
      var n := |calls| - 1;
      var before := FirstAttempts(s, calls[..n]);
      var req := calls[n].request;
      if FindReceipt(Run(s, calls[..n]).receipts, req.actor, req.key).Some? then before else before + [calls[n]]
  }

  lemma ReceiptMeansNoChange(s: State, req: Request, env: Env)
    requires FindReceipt(s.receipts, req.actor, req.key).Some?
    ensures Step(s, req, env).0 == s
  {
  }

  lemma RunSnoc(s: State, calls: seq<Call>, c: Call)
    ensures Run(s, calls + [c]) == Step(Run(s, calls), c.request, c.env).0
  {
    assert (calls + [c])[..|calls|] == calls;
  }

  /** Deleting every repeated command from a run leaves its final state unchanged. */
  lemma {:induction false} RetriesHaveNoEffect(s: State, calls: seq<Call>)
    ensures Run(s, FirstAttempts(s, calls)) == Run(s, calls)
  {
    if calls != [] {
      var n := |calls| - 1;
      RetriesHaveNoEffect(s, calls[..n]);
      OneMoreCall(s, calls);
    }
  }

  lemma OneMoreCall(s: State, calls: seq<Call>)
    requires calls != []
    requires Run(s, FirstAttempts(s, calls[..|calls| - 1])) == Run(s, calls[..|calls| - 1])
    ensures Run(s, FirstAttempts(s, calls)) == Run(s, calls)
  {
    var n := |calls| - 1;
    var c, t := calls[n], Run(s, calls[..n]);
    if FindReceipt(t.receipts, c.request.actor, c.request.key).Some? {
      ReceiptMeansNoChange(t, c.request, c.env);
    } else {
      RunSnoc(s, FirstAttempts(s, calls[..n]), c);
    }
  }

  // ---- Lifecycle.

  /** Uncancelled, an announcement is approved exactly when its current revision is the
      approved one; otherwise the current revision builds on the approved one. A draft is
      never reviewed already. */
  lemma LifecycleOfItem(s: State, i: Id)
    requires Reachable(s) && i < |s.items| && s.items[i].status != Cancelled
    ensures var row := s.items[i];
            && row.current.Some? && row.current.value < |s.revisions|
            && (row.status == Approved <==> row.approved == row.current)
            && (row.status != Approved ==> s.revisions[row.current.value].baseApproved == row.approved)
            && (row.status == Draft ==> !Reviewed(s.reviews, row.current.value))
            && (row.status == ChangesRequested ==> !Endorsed(s.reviews, row.current.value))
  {
    ReachableIsValid(s);
    assert StatusAgrees(s.items[i], s.reviews);
    assert Newest(s.revisions, i, s.items[i].current.value);
    if row :| row == s.items[i] && row.approved == row.current {
      assert Endorsed(s.reviews, row.current.value);
      assert Reviewed(s.reviews, row.current.value);
    }
  }

  /** No revision is ever decided twice. */
  lemma ReviewedAtMostOnce(s: State, j: Id, k: Id)
    requires Reachable(s) && j < |s.reviews| && k < |s.reviews| && s.reviews[j].revision == s.reviews[k].revision
    ensures j == k
  {
    ReachableIsValid(s);
  }

  lemma {:induction false} NumbersGrow(revisions: seq<Revision>, a: Id, b: Id)
    requires Lineage(revisions) && a < b < |revisions| && revisions[a].item == revisions[b].item
    ensures revisions[a].number < revisions[b].number
    decreases b
  {
    assert Continues(revisions, b);
    var p := revisions[b].previous.value;
    if p != a { NumbersGrow(revisions, a, p); }
  }

  lemma ApprovedByChange(s: State, e: Evidence, x: Change, i: Id)
    requires Legal(s, e, x) && LinkedState(s) && Lineage(s.revisions) && i < |s.items| && s.items[i].approved.Some?
    ensures var t := Apply(s, x);
            && i < |t.items| && t.items[i].approved.Some? && s.items[i].approved.value < |t.revisions|
            && t.items[i].approved.value < |t.revisions|
            && t.revisions[s.items[i].approved.value].number <= t.revisions[t.items[i].approved.value].number
  {
    var a, c := s.items[i].approved.value, s.items[i].current.value;
    assert Newest(s.revisions, i, c);
    if a < c { NumbersGrow(s.revisions, a, c); }
  }

  lemma ApprovedStep(s: State, req: Request, env: Env, i: Id)
    requires Reachable(s) && i < |s.items| && s.items[i].approved.Some?
    ensures var t := Step(s, req, env).0;
            && i < |t.items| && t.items[i].approved.Some? && s.items[i].approved.value < |t.revisions|
            && t.items[i].approved.value < |t.revisions|
            && t.revisions[s.items[i].approved.value].number <= t.revisions[t.items[i].approved.value].number
  {
    ReachableIsValid(s);
    var x := StepCase(s, req, env);
    if x.Some? {
      ApprovedByChange(s, EvidenceOf(s, req, env), x.value, i);
    }
  }

  /** The approved number of an announcement only grows, and approval is never withdrawn. */
  lemma {:induction false} ApprovedOnlyGrows(s: State, calls: seq<Call>, i: Id)
    requires Reachable(s) && i < |s.items| && s.items[i].approved.Some?
    ensures var t := Run(s, calls);
            && i < |t.items| && t.items[i].approved.Some? && s.items[i].approved.value < |s.revisions|
            && t.items[i].approved.value < |t.revisions|
            && s.revisions[s.items[i].approved.value].number <= t.revisions[t.items[i].approved.value].number
  {
    if calls == [] {
      ReachableIsValid(s);
    } else {
      var n := |calls| - 1;
      ApprovedOnlyGrows(s, calls[..n], i);
      var m := Run(s, calls[..n]);
      RunReachable(s, calls[..n]);
      ApprovedStep(m, calls[n].request, calls[n].env, i);
      StepExtends(m, calls[n].request, calls[n].env);
    }
  }

  /** `t` differs from `s` on announcement `i` at most by reports and their version steps. */
  ghost predicate OnlyReportsSince(s: State, t: State, i: Id)
    requires i < |s.items| && |s.items| <= |t.items|
  {
    && t.items[i] == s.items[i].(version := t.items[i].version) && s.items[i].version <= t.items[i].version
    && (forall r | |s.revisions| <= r < |t.revisions| :: t.revisions[r].item != i)
    && (forall k | |s.reviews| <= k < |t.reviews| && t.reviews[k].revision < |t.revisions| ::
          t.revisions[t.reviews[k].revision].item != i)
  }

  lemma OnlyReportsCompose(s: State, m: State, t: State, i: Id)
    requires i < |s.items| && |s.items| <= |m.items| <= |t.items| && OnlyReportsSince(s, m, i) && OnlyReportsSince(m, t, i)
    requires m.revisions <= t.revisions && m.reviews <= t.reviews
    requires forall k | 0 <= k < |m.reviews| :: m.reviews[k].revision < |m.revisions|
    ensures OnlyReportsSince(s, t, i)
  {
    forall r | |s.revisions| <= r < |t.revisions| ensures t.revisions[r].item != i {
      if r < |m.revisions| { assert m.revisions[r] == t.revisions[r]; }
    }
    forall k | |s.reviews| <= k < |t.reviews| && t.reviews[k].revision < |t.revisions|
      ensures t.revisions[t.reviews[k].revision].item != i
    {
      if k < |m.reviews| { assert m.reviews[k] == t.reviews[k]; }
    }
  }

  lemma CancelledByChange(s: State, e: Evidence, x: Change, i: Id)
    requires Legal(s, e, x) && LinkedState(s) && i < |s.items| && s.items[i].status == Cancelled
    ensures |s.items| <= |Apply(s, x).items| && OnlyReportsSince(s, Apply(s, x), i)
  {
    if x.NewReview? {
      assert Newest(s.revisions, x.item, s.items[x.item].current.value);
    }
  }

  /** After cancellation only reports about an announcement can still change. */
  lemma {:induction false} CancelledTakesOnlyReports(s: State, calls: seq<Call>, i: Id)
    requires Reachable(s) && i < |s.items| && s.items[i].status == Cancelled
    ensures |s.items| <= |Run(s, calls).items| && OnlyReportsSince(s, Run(s, calls), i)
  {
    if calls != [] {
      var n := |calls| - 1;
      CancelledTakesOnlyReports(s, calls[..n], i);
      RunReachable(s, calls[..n]);
      CancelledStep(Run(s, calls[..n]), calls[n].request, calls[n].env, i);
      OnlyReportsCompose(s, Run(s, calls[..n]), Run(s, calls), i);
    }
  }

  lemma CancelledStep(s: State, req: Request, env: Env, i: Id)
    requires Reachable(s) && i < |s.items| && s.items[i].status == Cancelled
    ensures |s.items| <= |Step(s, req, env).0.items| && OnlyReportsSince(s, Step(s, req, env).0, i)
    ensures s.revisions <= Step(s, req, env).0.revisions && s.reviews <= Step(s, req, env).0.reviews
    ensures forall k | 0 <= k < |s.reviews| :: s.reviews[k].revision < |s.revisions|
  {
    ReachableIsLinked(s);
    StepExtends(s, req, env);
    var x := StepCase(s, req, env);
    if x.Some? {
      CancelledByChange(s, EvidenceOf(s, req, env), x.value, i);
    }
  }

  // ---- Accounting.

  /** No lost updates: two accepted commands on the same announcement, or on the settings,
      never observed the same version. */
  lemma NoLostUpdates(s: State, j: Id, k: Id)
    requires Reachable(s) && j < k < |s.receipts| && s.receipts[j].item == s.receipts[k].item
    ensures s.receipts[j].version < s.receipts[k].version
    ensures ExpectedOf(s.receipts[j].intent.command) < ExpectedOf(s.receipts[k].intent.command)
  {
    ReachableIsValid(s);
    CountGrows(s.receipts, j, k);
  }

  /** The sequence and the events number the receipts without gaps, every version is the
      number of its receipts, and no bound is ever exceeded. */
  lemma AccountsBalance(s: State)
    requires Reachable(s)
    ensures s.control.sequence == |s.receipts| == |s.events| <= MAX_SEQUENCE
    ensures forall k | 0 <= k < |s.receipts| :: s.receipts[k].sequence == k + 1 && s.events[k].version == k + 1
    ensures s.control.settingsVersion == CountFor(s.receipts, None)
    ensures forall i | 0 <= i < |s.items| :: s.items[i].version == CountFor(s.receipts, Some(i)) <= MAX_HISTORY
    ensures forall i | 0 <= i < |s.items| :: TextBytes(s.revisions, i) <= MAX_STORED_TEXT_BYTES
    ensures forall i | 0 <= i < |s.items| :: ReportCount(s, i, |s.reports|) <= MAX_REPORTS
    ensures forall r | 0 <= r < |s.revisions| :: 1 <= s.revisions[r].number <= MAX_REVISIONS
  {
    ReachableIsValid(s);
  }

  // ---- Publication reports.

  /** `chain` lists the reports of a variant, oldest first. */
  ghost predicate Listing(reports: seq<Report>, variant: Id, chain: seq<Id>) {
    && (forall j | 0 <= j < |chain| :: chain[j] < |reports| && reports[chain[j]].variant == variant)
    && (forall j, k | 0 <= j < k < |chain| :: chain[j] < chain[k])
    && (forall p | 0 <= p < |reports| && reports[p].variant == variant :: p in chain)
  }

  /** The reports of a variant, oldest first. */
  function ChainOf(reports: seq<Report>, variant: Id): (chain: seq<Id>)
    ensures Listing(reports, variant, chain)
  {
    if reports == [] then []
    else
      var n := |reports| - 1;
      var rest := ChainOf(reports[..n], variant);
      assert forall p | 0 <= p < n :: reports[p] == reports[..n][p];
      if reports[n].variant == variant then rest + [n] else rest
  }

  /** One linear chain: the first report replaces nothing, every later one replaces the one
      before it, and exactly the last is unreplaced. */
  ghost predicate OneChain(reports: seq<Report>, variant: Id) {
    var chain := ChainOf(reports, variant);
    forall j | 0 <= j < |chain| :: InChain(reports, chain, j)
  }

  ghost predicate InChain(reports: seq<Report>, chain: seq<Id>, j: nat)
    requires j < |chain| && forall k | 0 <= k < |chain| :: chain[k] < |reports|
  {
    && reports[chain[j]].supersedes == (if j == 0 then None else Some(chain[j - 1]))
    && (Replaced(reports, chain[j]) <==> j < |chain| - 1)
  }

  /** The reports of every variant form one linear correction chain. */
  lemma ReportsFormOneChain(s: State, variant: Id)
    requires Reachable(s)
    ensures OneChain(s.reports, variant)
  {
    ReachableIsValid(s);
    ChainsAreLinear(s.reports, variant);
  }

  lemma ChainsAreLinear(reports: seq<Report>, variant: Id)
    requires Chains(reports)
    ensures OneChain(reports, variant)
  {
    var chain := ChainOf(reports, variant);
    forall j | 0 <= j < |chain| ensures InChain(reports, chain, j) {
      ChainLink(reports, variant, chain, j);
      ChainTip(reports, variant, chain, j);
    }
  }

  lemma ChainLink(reports: seq<Report>, variant: Id, chain: seq<Id>, j: nat)
    requires Chains(reports) && Listing(reports, variant, chain) && j < |chain|
    ensures reports[chain[j]].supersedes == if j == 0 then None else Some(chain[j - 1])
  {
    var p := chain[j];
    assert Chained(reports, p);
    if reports[p].supersedes.Some? {
      var q := reports[p].supersedes.value;
      assert q in chain;
      var k :| 0 <= k < |chain| && chain[k] == q;
      assert k < j;
      assert reports[chain[j - 1]].variant == variant;
    }
  }

  lemma ChainTip(reports: seq<Report>, variant: Id, chain: seq<Id>, j: nat)
    requires Chains(reports) && Listing(reports, variant, chain) && j < |chain|
    ensures Replaced(reports, chain[j]) <==> j < |chain| - 1
  {
    if j < |chain| - 1 {
      ChainLink(reports, variant, chain, j + 1);
    } else {
      forall p | 0 <= p < |reports| ensures reports[p].supersedes != Some(chain[j]) {
        assert Chained(reports, p);
      }
    }
  }

  /** A report never leaves its variant, and only approved copies are ever reported. */
  lemma ReportsAreOfApprovedCopies(s: State, p: Id)
    requires Reachable(s) && p < |s.reports|
    ensures s.reports[p].variant < |s.variants| && s.variants[s.reports[p].variant].revision < |s.revisions|
    ensures Endorsed(s.reviews, s.variants[s.reports[p].variant].revision)
    ensures s.reports[p].supersedes.Some? ==>
              s.reports[p].supersedes.value < p && s.reports[s.reports[p].supersedes.value].variant == s.reports[p].variant
  {
    ReachableIsValid(s);
    assert Chained(s.reports, p);
  }

  /** What any report command needs besides its own target: stopped work, expired rules and
      cancellation do not matter. */
  ghost predicate MayReport(s: State, env: Env, i: Id, expected: int) {
    && env.acceptsWrites && i < |s.items| && s.items[i].version == expected && s.items[i].version < 4096
    && ReportCount(s, i, |s.reports|) < 2048 && s.control.sequence < 0x7FFF_FFFF_FFFF_FFFE && env.stillAdmitted && env.evidenceFits
  }

  /** A fresh publication report is accepted exactly for an unreported copy of an approved
      revision of the announcement. */
  lemma ReportsAreAcceptedExactly(s: State, req: Request, env: Env, i: Id, variant: Id, expected: int, url: string, at: Option<int>)
    requires req.intent.command == RecordPublication(i, variant, expected, url, at)
    requires Admissible(req, env) && FindReceipt(s.receipts, req.actor, req.key).None?
    ensures Step(s, req, env).1.Ok? <==>
              && MayReport(s, env, i, expected) && ItemOfVariant(s, variant) == Some(i)
              && Endorsed(s.reviews, s.variants[variant].revision) && ChainOf(s.reports, variant) == []
  {
    EmptyChain(s.reports, variant);
  }

  lemma EmptyChain(reports: seq<Report>, variant: Id)
    ensures ChainOf(reports, variant) == [] <==> !HasReport(reports, variant)
  {
    var chain := ChainOf(reports, variant);
    if chain != [] {
      assert reports[chain[0]].variant == variant;
    }
  }

  /** A fresh correction is accepted exactly for the latest report of a copy of the
      announcement. */
  lemma CorrectionsAreAcceptedExactly(s: State, req: Request, env: Env, i: Id, report: Id, expected: int, withdrawn: bool, reason: string, url: string, at: Option<int>)
    requires Reachable(s) && req.intent.command == CorrectPublication(i, report, expected, withdrawn, reason, url, at)
    requires Admissible(req, env) && FindReceipt(s.receipts, req.actor, req.key).None?
    ensures Step(s, req, env).1.Ok? <==>
              && MayReport(s, env, i, expected) && report < |s.reports| && ItemOfVariant(s, s.reports[report].variant) == Some(i)
              && var chain := ChainOf(s.reports, s.reports[report].variant); chain != [] && chain[|chain| - 1] == report
  {
    if report < |s.reports| {
      ReportsAreChained(s);
      UnreplacedIsTip(s.reports, report);
    }
    CorrectAnswers(s, req, env, i, report, expected, withdrawn, reason, url, at);
  }

  lemma ReportsAreChained(s: State)
    requires Reachable(s)
    ensures Chains(s.reports)
  {
    ReachableIsValid(s);
  }

  lemma CorrectAnswers(s: State, req: Request, env: Env, i: Id, report: Id, expected: int, withdrawn: bool, reason: string, url: string, at: Option<int>)
    requires req.intent.command == CorrectPublication(i, report, expected, withdrawn, reason, url, at)
    requires Admissible(req, env) && FindReceipt(s.receipts, req.actor, req.key).None?
    ensures Step(s, req, env).1.Ok? <==>
              && MayReport(s, env, i, expected) && report < |s.reports| && ItemOfVariant(s, s.reports[report].variant) == Some(i)
              && !Replaced(s.reports, report)
  {
  }

  lemma UnreplacedIsTip(reports: seq<Report>, report: Id)
    requires Chains(reports) && report < |reports|
    ensures var chain := ChainOf(reports, reports[report].variant);
            chain != [] && (!Replaced(reports, report) <==> chain[|chain| - 1] == report)
  {
    var chain := ChainOf(reports, reports[report].variant);
    assert report in chain;
    var j :| 0 <= j < |chain| && chain[j] == report;
    ChainTip(reports, reports[report].variant, chain, j);
    assert j < |chain| - 1 ==> chain[j] < chain[|chain| - 1];
  }

  // ---- Channels.

  lemma {:induction false} LookupUnique(channels: seq<Channel>, c: Channel)
    requires Distinct(Codes(channels)) && c in channels
    ensures Lookup(channels, c.code) == Some(c)
  {
    var found := Lookup(channels, c.code);
    var i :| 0 <= i < |channels| && channels[i] == c;
    var j :| 0 <= j < |channels| && channels[j] == found.value;
    assert Codes(channels)[i] == Codes(channels)[j];
  }

  /** A channel listed without a link keeps its name in every later settings revision. */
  lemma LinklessChannelKeepsItsName(s: State, i: Id, j: Id, c: Channel, d: Channel)
    requires Reachable(s) && i <= j < |s.settings|
    requires c in s.settings[i].input.channels && c.url == "" && d in s.settings[j].input.channels && d.code == c.code
    ensures d.name == c.name
  {
    ReachableIsValid(s);
    LookupUnique(s.settings[i].input.channels, c);
    if i == j {
      LookupUnique(s.settings[i].input.channels, d);
    }
  }

  /** Rows written after `s` use the settings that were newest then, or later ones. */
  ghost predicate WrittenSince(s: State, t: State) {
    && (forall r | |s.revisions| <= r < |t.revisions| :: t.revisions[r].settings + 1 >= |s.settings|)
    && (forall v | |s.variants| <= v < |t.variants| :: t.variants[v].revision >= |s.revisions|)
  }

  lemma ChangeWritesUnderNewest(s: State, e: Evidence, x: Change)
    requires Legal(s, e, x) && s.control.currentSettings == (if s.settings == [] then None else Some(|s.settings| - 1))
    ensures WrittenSince(s, Apply(s, x))
  {
  }

  lemma WrittenCompose(s: State, m: State, t: State)
    requires WrittenSince(s, m) && WrittenSince(m, t)
    requires s.settings <= m.settings && s.revisions <= m.revisions && m.revisions <= t.revisions && m.variants <= t.variants
    ensures WrittenSince(s, t)
  {
    forall r | |s.revisions| <= r < |t.revisions| ensures t.revisions[r].settings + 1 >= |s.settings| {
      if r < |m.revisions| { assert t.revisions[r] == m.revisions[r]; }
    }
    forall v | |s.variants| <= v < |t.variants| ensures t.variants[v].revision >= |s.revisions| {
      if v < |m.variants| { assert t.variants[v] == m.variants[v]; }
    }
  }

  lemma {:induction false} RunWritesUnderLaterSettings(s: State, calls: seq<Call>)
    requires Inv(s)
    ensures WrittenSince(s, Run(s, calls))
  {
    if calls != [] {
      var n := |calls| - 1;
      RunWritesUnderLaterSettings(s, calls[..n]);
      RunKeepsInv(s, calls[..n]);
      var m, t := Run(s, calls[..n]), Run(s, calls);
      var x := StepCase(m, calls[n].request, calls[n].env);
      if x.Some? {
        ChangeWritesUnderNewest(m, EvidenceOf(m, calls[n].request, calls[n].env), x.value);
        EvidenceIsAppendOnly(s, calls[..n]);
        StepExtends(m, calls[n].request, calls[n].env);
        WrittenCompose(s, m, t);
      }
    }
  }

  /** Once listed without a link, a channel's name is the one every variant written from
      then on carries for its code. */
  lemma LinklessChannelNamesLaterVariants(s: State, calls: seq<Call>, i: Id, c: Channel, v: Id)
    requires Reachable(s) && i < |s.settings| && c in s.settings[i].input.channels && c.url == ""
    requires var t := Run(s, calls); |s.variants| <= v < |t.variants| && t.variants[v].channelCode == c.code
    ensures Run(s, calls).variants[v].channelLabel == c.name
  {
    var t := Run(s, calls);
    ReachableIsValid(s);
    RunReachable(s, calls);
    ReachableIsValid(t);
    EvidenceIsAppendOnly(s, calls);
    RunWritesUnderLaterSettings(s, calls);
    var j := t.revisions[t.variants[v].revision].settings;
    var channels := t.settings[j].input.channels;
    assert Snapshot(channels, t.variants[v]);
    var d := Lookup(channels, c.code).value;
    LinklessChannelKeepsItsName(t, i, j, c, d);
  }

  // ---- Contents.

  /** The copies recorded for a revision, in order. */
  function CopiesOf(variants: seq<Variant>, r: Id): seq<CopyInput> {
    if variants == [] then []
    else
      var n := |variants| - 1;
      var v := variants[n];
      var rest := CopiesOf(variants[..n], r);
      if v.revision == r then rest + [CopyInput(v.channelCode, v.language, v.headline, v.body)] else rest
  }

  /** The draft as it can be read back from the record. */
  function DraftOf(s: State, r: Id): DraftInput
    requires r < |s.revisions|
  {
    var row := s.revisions[r];
    DraftInput(row.headline, row.body, row.language, CopiesOf(s.variants, r), row.bytes)
  }

  lemma {:induction false} CopiesOfConcat(a: seq<Variant>, b: seq<Variant>, r: Id)
    ensures CopiesOf(a + b, r) == CopiesOf(a, r) + CopiesOf(b, r)
  {
    if b == [] {
      assert a + b == a;
    } else {
      assert (a + b)[..|a + b| - 1] == a + b[..|b| - 1];
      CopiesOfConcat(a, b[..|b| - 1], r);
    }
  }

  lemma {:induction false} CopiesOfOthers(variants: seq<Variant>, r: Id)
    requires forall v | 0 <= v < |variants| :: variants[v].revision != r
    ensures CopiesOf(variants, r) == []
  {
    if variants != [] { CopiesOfOthers(variants[..|variants| - 1], r); }
  }

  lemma {:induction false} CopiesOfRows(e: Evidence, r: Id, channels: seq<Channel>, copies: seq<CopyInput>)
    ensures CopiesOf(CopyRows(e, r, channels, copies), r) == copies
  {
    if copies != [] {
      var n := |copies| - 1;
      var rows := CopyRows(e, r, channels, copies);
      assert rows[..n] == CopyRows(e, r, channels, copies[..n]);
      CopiesOfRows(e, r, channels, copies[..n]);
      assert copies == copies[..n] + [copies[n]];
    }
  }

  /** A change records exactly this draft. */
  ghost predicate Holds(s: State, e: Evidence, x: Change, draft: DraftInput) {
    && x.NewRevision? && x.revision.headline == draft.headline && x.revision.body == draft.body
    && x.revision.language == draft.language && x.revision.bytes == draft.bytes
    && x.revision.settings < |s.settings|
    && x.copies == CopyRows(e, |s.revisions|, s.settings[x.revision.settings].input.channels, draft.copies)
  }

  lemma WriteHoldsDraft(s: State, e: Evidence, env: Env, c: Command)
    requires (c.Create? || c.Revise?) && Write(s, e, env, c).Ok?
    ensures Holds(s, e, Write(s, e, env, c).value, c.draft)
  {
    var settings := CurrentSettings(s, env).value;
    match c
    case Create(draft, _) =>
      var x := WriteRevision(s, e, |s.items|, Item(1, Draft, None, None), draft, settings, env.languages);
      assert Write(s, e, env, c) == x;
      assert Holds(s, e, x.value, draft);
    case Revise(item, draft, _, _, _) =>
      var x := WriteRevision(s, e, item, s.items[item], draft, settings, env.languages);
      assert Write(s, e, env, c) == x;
      assert Holds(s, e, x.value, draft);
    case _ =>
  }

  lemma HeldDraftReadsBack(s: State, e: Evidence, x: Change, draft: DraftInput, req: Request, at: int)
    requires LinkedState(s) && Holds(s, e, x, draft)
    ensures var t := Commit(s, x, req, at); |t.revisions| == |s.revisions| + 1 && DraftOf(t, |s.revisions|) == draft
  {
    var r := |s.revisions|;
    CopiesOfConcat(s.variants, x.copies, r);
    CopiesOfOthers(s.variants, r);
    CopiesOfRows(e, r, s.settings[x.revision.settings].input.channels, draft.copies);
  }

  /** An accepted draft can be read back exactly as submitted, now and after any run. */
  lemma DraftIsKeptAsWritten(s: State, req: Request, env: Env, calls: seq<Call>)
    requires Reachable(s) && (req.intent.command.Create? || req.intent.command.Revise?)
    requires Step(s, req, env).1.Ok? && !Step(s, req, env).1.value.replayed
    ensures var t := Run(Step(s, req, env).0, calls);
            |s.revisions| < |t.revisions| && DraftOf(t, |s.revisions|) == req.intent.command.draft
  {
    AcceptedDraft(s, req, env);
    StepIsReachable(s, req, env);
    ReachableIsValid(Step(s, req, env).0);
    DraftUnchanged(Step(s, req, env).0, calls, |s.revisions|);
  }

  lemma AcceptedDraft(s: State, req: Request, env: Env)
    requires Reachable(s) && (req.intent.command.Create? || req.intent.command.Revise?)
    requires Step(s, req, env).1.Ok? && !Step(s, req, env).1.value.replayed
    ensures var t := Step(s, req, env).0;
            |s.revisions| < |t.revisions| && DraftOf(t, |s.revisions|) == req.intent.command.draft
  {
    ReachableIsLinked(s);
    FreshCommit(s, req, env);
    var e := EvidenceOf(s, req, env);
    WriteHoldsDraft(s, e, env, req.intent.command);
    HeldDraftReadsBack(s, e, Attempt(s, req, env).value, req.intent.command.draft, req, env.now);
  }

  lemma ReachableIsLinked(s: State)
    requires Reachable(s)
    ensures LinkedState(s)
  {
    ReachableIsValid(s);
  }

  /** An accepted command that is no retry commits the change its write decided on. */
  lemma FreshCommit(s: State, req: Request, env: Env)
    requires Step(s, req, env).1.Ok? && !Step(s, req, env).1.value.replayed
    ensures Attempt(s, req, env).Ok?
    ensures var x := Attempt(s, req, env).value;
            && Write(s, EvidenceOf(s, req, env), env, req.intent.command) == Ok(x)
            && Step(s, req, env).0 == Commit(s, x, req, env.now)
  {
  }

  /** A recorded revision reads the same after any run. */
  lemma DraftUnchanged(s: State, calls: seq<Call>, r: Id)
    requires Inv(s) && r < |s.revisions|
    ensures |s.revisions| <= |Run(s, calls).revisions| && DraftOf(Run(s, calls), r) == DraftOf(s, r)
  {
    EvidenceIsAppendOnly(s, calls);
    RunWritesUnderLaterSettings(s, calls);
    DraftKept(s, Run(s, calls), r);
  }

  lemma DraftKept(s: State, t: State, r: Id)
    requires s.revisions <= t.revisions && s.variants <= t.variants && WrittenSince(s, t) && r < |s.revisions|
    ensures DraftOf(t, r) == DraftOf(s, r)
  {
    var more := t.variants[|s.variants|..];
    assert t.variants == s.variants + more;
    CopiesOfConcat(s.variants, more, r);
    CopiesOfOthers(more, r);
  }
}
