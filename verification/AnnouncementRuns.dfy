/** Accounting of receipts, and the theorems about every run of the announcement machine. */
module AnnouncementRuns {
  import opened Wrappers
  import opened Announcements
  import opened AnnouncementInvariants

  // ---- Accounting.

  /** How many receipts concern this announcement, or the edition's settings for `None`. */
  function CountFor(receipts: seq<Receipt>, target: Option<Id>): nat {
    if receipts == [] then 0
    else CountFor(receipts[..|receipts| - 1], target) + if receipts[|receipts| - 1].item == target then 1 else 0
  }

  /** The version a command expects its target to have; a new announcement has none. */
  function ExpectedOf(c: Command): int {
    match c
    case Create(_, _) => 0
    case _ => c.expected
  }

  /** The announcement a command addresses. */
  function TargetOf(c: Command): Option<Id> {
    match c
    case UpdateSettings(_, _) => None
    case SetStopped(_, _, _) => None
    case Create(_, _) => None
    case _ => Some(c.item)
  }

  /** Receipts and events number the accepted commands 1, 2, 3, ... without gaps. */
  ghost predicate Sequenced(control: Control, receipts: seq<Receipt>, events: seq<Event>) {
    && control.sequence == |receipts| == |events|
    && forall k | 0 <= k < |receipts| ::
         receipts[k].sequence == k + 1 && events[k] == Event(k + 1, OperationOf(receipts[k].intent.command))
  }

  /** Versions count receipts: the k-th receipt of a target leaves it at version k. */
  ghost predicate Counted(control: Control, items: seq<Item>, receipts: seq<Receipt>) {
    && control.settingsVersion == CountFor(receipts, None)
    && (forall i | 0 <= i < |items| :: items[i].version == CountFor(receipts, Some(i)))
    && (forall k | 0 <= k < |receipts| :: receipts[k].version == CountFor(receipts[..k + 1], receipts[k].item))
    && (forall k | 0 <= k < |receipts| && receipts[k].item.Some? :: receipts[k].item.value < |items|)
  }

  /** A receipt answers the version its command expected, on the target it addressed. */
  ghost predicate Expected(receipts: seq<Receipt>) {
    forall k | 0 <= k < |receipts| ::
      && receipts[k].version == ExpectedOf(receipts[k].intent.command) + 1
      && (receipts[k].intent.command.Create? || receipts[k].item == TargetOf(receipts[k].intent.command))
      && (receipts[k].intent.command.Create? ==> receipts[k].item.Some?)
  }

  /** One receipt per actor and retry key. */
  ghost predicate KeysUnique(receipts: seq<Receipt>) {
    forall j, k | 0 <= j < k < |receipts| :: receipts[j].actor != receipts[k].actor || receipts[j].key != receipts[k].key
  }

  ghost predicate Accounted(s: State) {
    && Sequenced(s.control, s.receipts, s.events) && Counted(s.control, s.items, s.receipts)
    && Expected(s.receipts) && KeysUnique(s.receipts)
  }

  lemma CountAfter(receipts: seq<Receipt>, r: Receipt, target: Option<Id>)
    ensures CountFor(receipts + [r], target) == CountFor(receipts, target) + if r.item == target then 1 else 0
  {
    assert (receipts + [r])[..|receipts|] == receipts;
  }

  lemma {:induction false} CountNone(receipts: seq<Receipt>, target: Option<Id>)
    requires forall k | 0 <= k < |receipts| :: receipts[k].item != target
    ensures CountFor(receipts, target) == 0
  {
    if receipts != [] { CountNone(receipts[..|receipts| - 1], target); }
  }

  lemma {:induction false} CountGrows(receipts: seq<Receipt>, j: nat, k: nat)
    requires j < k < |receipts| && receipts[j].item == receipts[k].item
    ensures CountFor(receipts[..j + 1], receipts[k].item) < CountFor(receipts[..k + 1], receipts[k].item)
  {
    assert receipts[..k + 1][..k] == receipts[..k];
    CountMonotone(receipts, receipts[k].item, j + 1, k);
  }

  lemma {:induction false} CountMonotone(receipts: seq<Receipt>, target: Option<Id>, j: nat, k: nat)
    requires j <= k <= |receipts|
    ensures CountFor(receipts[..j], target) <= CountFor(receipts[..k], target)
  {
    if j < k {
      assert receipts[..k][..k - 1] == receipts[..k - 1];
      CountMonotone(receipts, target, j, k - 1);
    }
  }

  /** What `Write` says of the target and version of its change. */
  lemma WriteAnswersExpected(s: State, e: Evidence, env: Env, c: Command)
    requires Write(s, e, env, c).Ok?
    ensures var x := Write(s, e, env, c).value;
            && VersionAfter(s, x) == ExpectedOf(c) + 1
            && (if c.Create? then ItemOf(x) == Some(|s.items|) else ItemOf(x) == TargetOf(c))
            && (ItemOf(x).Some? ==> ItemOf(x).value <= |s.items|)
  {
  }

  lemma CommitCountsItem(s: State, x: Change, req: Request, at: int, i: Id)
    requires Counted(s.control, s.items, s.receipts) && i < |Commit(s, x, req, at).items|
    requires ItemOf(x).Some? ==> ItemOf(x).value <= |s.items|
    ensures var t := Commit(s, x, req, at); t.items[i].version == CountFor(t.receipts, Some(i))
  {
    var t := Commit(s, x, req, at);
    CountAfter(s.receipts, t.receipts[|s.receipts|], Some(i));
    if i == |s.items| { CountNone(s.receipts, Some(i)); }
    if ItemOf(x) != Some(i) { assert t.items[i] == s.items[i]; }
  }

  lemma AppendCountsReceipt(receipts: seq<Receipt>, r: Receipt)
    requires forall k | 0 <= k < |receipts| :: receipts[k].version == CountFor(receipts[..k + 1], receipts[k].item)
    requires r.version == CountFor(receipts, r.item) + 1
    ensures var all := receipts + [r];
            forall k | 0 <= k < |all| :: all[k].version == CountFor(all[..k + 1], all[k].item)
  {
    var all := receipts + [r];
    forall k | 0 <= k < |all| ensures all[k].version == CountFor(all[..k + 1], all[k].item) {
      if k < |receipts| {
        assert all[..k + 1] == receipts[..k + 1];
      } else {
        assert all[..k + 1] == all;
        CountAfter(receipts, r, r.item);
      }
    }
  }

  lemma CommitCountsSettings(s: State, x: Change, req: Request, at: int)
    requires Counted(s.control, s.items, s.receipts)
    ensures var t := Commit(s, x, req, at); t.control.settingsVersion == CountFor(t.receipts, None)
  {
    var t := Commit(s, x, req, at);
    CountAfter(s.receipts, t.receipts[|s.receipts|], None);
  }

  /** The version a change results in is one more than the receipts of its target so far. */
  lemma VersionIsNextCount(s: State, x: Change)
    requires Counted(s.control, s.items, s.receipts)
    requires ItemOf(x).Some? ==> ItemOf(x).value <= |s.items|
    ensures VersionAfter(s, x) == CountFor(s.receipts, ItemOf(x)) + 1
  {
    if ItemOf(x) == Some(|s.items|) { CountNone(s.receipts, ItemOf(x)); }
  }

  lemma CommitCountsReceipts(s: State, x: Change, req: Request, at: int)
    requires Counted(s.control, s.items, s.receipts)
    requires ItemOf(x).Some? ==> ItemOf(x).value <= |s.items|
    ensures var t := Commit(s, x, req, at);
            forall k | 0 <= k < |t.receipts| :: t.receipts[k].version == CountFor(t.receipts[..k + 1], t.receipts[k].item)
  {
    var r := Commit(s, x, req, at).receipts[|s.receipts|];
    VersionIsNextCount(s, x);
    AppendCountsReceipt(s.receipts, r);
  }

  lemma CommitBoundsItems(s: State, x: Change, req: Request, at: int)
    requires Counted(s.control, s.items, s.receipts)
    requires ItemOf(x).Some? ==> ItemOf(x).value <= |s.items|
    ensures var t := Commit(s, x, req, at);
            forall k | 0 <= k < |t.receipts| && t.receipts[k].item.Some? :: t.receipts[k].item.value < |t.items|
  {
  }

  lemma CommitCounts(s: State, x: Change, req: Request, at: int)
    requires Counted(s.control, s.items, s.receipts)
    requires ItemOf(x).Some? ==> ItemOf(x).value <= |s.items|
    ensures var t := Commit(s, x, req, at); Counted(t.control, t.items, t.receipts)
  {
    var t := Commit(s, x, req, at);
    CommitCountsSettings(s, x, req, at);
    forall i | 0 <= i < |t.items| ensures t.items[i].version == CountFor(t.receipts, Some(i)) {
      CommitCountsItem(s, x, req, at, i);
    }
    CommitCountsReceipts(s, x, req, at);
    CommitBoundsItems(s, x, req, at);
  }

  lemma CommitReceipts(s: State, x: Change, req: Request, at: int)
    requires Sequenced(s.control, s.receipts, s.events) && Expected(s.receipts) && KeysUnique(s.receipts)
    requires FindReceipt(s.receipts, req.actor, req.key).None?
    requires VersionAfter(s, x) == ExpectedOf(req.intent.command) + 1
    requires if req.intent.command.Create? then ItemOf(x).Some? else ItemOf(x) == TargetOf(req.intent.command)
    ensures var t := Commit(s, x, req, at);
            Sequenced(t.control, t.receipts, t.events) && Expected(t.receipts) && KeysUnique(t.receipts)
  {
  }

  lemma CommitKeepsAccounts(s: State, req: Request, env: Env)
    requires Accounted(s) && FindReceipt(s.receipts, req.actor, req.key).None? && Attempt(s, req, env).Ok?
    ensures Accounted(Commit(s, Attempt(s, req, env).value, req, env.now))
  {
    var x := Attempt(s, req, env).value;
    WriteAnswersExpected(s, EvidenceOf(s, req, env), env, req.intent.command);
    CommitCounts(s, x, req, env.now);
    CommitReceipts(s, x, req, env.now);
  }

  // ---- The invariant.

  /** Rounds of review. */
  ghost predicate Rounds(s: State) {
    && RoundsNamed(s.revisions) && RoundsContiguous(s.revisions) && RoundsClosed(s.revisions, s.reviews)
    && Separated(s.revisions, s.reviews) && RoundsOpened(s.revisions, s.reviews)
  }

  ghost predicate Lifecycle(s: State) {
    && Lineage(s.revisions) && DecidedOnce(s.reviews) && Decided(s.items, s.reviews)
    && Based(s.items, s.revisions) && BaseEndorsed(s.revisions, s.reviews)
    && LatestApproved(s.items, s.revisions, s.reviews)
  }

  ghost predicate Publications(s: State) {
    && Chains(s.reports) && Published(s.variants, s.reviews, s.reports)
    && ChannelsStable(s.settings, s.control.currentSettings) && Snapshots(s.settings, s.revisions, s.variants)
    && Shapes(s)
  }

  ghost predicate Inv(s: State) {
    LinkedState(s) && Rounds(s) && Lifecycle(s) && Publications(s) && Bounded(s) && Accounted(s)
  }

  lemma BlankIsBounded(s: State)
    requires s.items == [] && s.revisions == [] && s.reports == [] && s.control.sequence == 0
    ensures Bounded(s)
  {
  }

  lemma BlankIsValid(s: State)
    requires s.items == [] && s.revisions == [] && s.variants == [] && s.reviews == [] && s.reports == []
    requires s.settings == [] && s.receipts == [] && s.events == []
    requires s.control.sequence == 0 && s.control.settingsVersion == 0 && s.control.currentSettings.None?
    ensures Inv(s)
  {
    BlankIsBounded(s);
  }

  lemma EmptyIsValid()
    ensures Inv(Empty)
  {
    BlankIsValid(Empty);
  }

  lemma LegalKeepsRounds(s: State, e: Evidence, x: Change)
    requires LinkedState(s) && Rounds(s) && Lifecycle(s) && Legal(s, e, x)
    ensures Rounds(Apply(s, x))
  {
    ApplyKeepsRoundsNamed(s, e, x);
    ApplyKeepsRoundsContiguous(s, e, x);
    ApplyKeepsRoundsClosed(s, e, x);
    ApplyKeepsSeparated(s, e, x);
    ApplyKeepsRoundsOpened(s, e, x);
  }

  lemma LegalKeepsLifecycle(s: State, e: Evidence, x: Change)
    requires LinkedState(s) && Lifecycle(s) && Legal(s, e, x)
    ensures Lifecycle(Apply(s, x))
  {
    ApplyKeepsLineage(s, e, x);
    ApplyKeepsDecided(s, e, x);
    ApplyKeepsBased(s, e, x);
    ApplyKeepsBaseEndorsed(s, e, x);
    ApplyKeepsLatestApproved(s, e, x);
  }

  lemma LegalKeepsPublications(s: State, e: Evidence, x: Change)
    requires LinkedState(s) && Publications(s) && Legal(s, e, x)
    ensures Publications(Apply(s, x))
  {
    ApplyKeepsChains(s, e, x);
    ApplyKeepsPublished(s, e, x);
    ApplyKeepsChannels(s, e, x);
    ApplyKeepsShapes(s, e, x);
  }

  /** Receipts, events and the sequence are all that `Commit` adds to `Apply`. */
  lemma CommitIsApply(s: State, x: Change, req: Request, at: int)
    requires s.control.sequence < MAX_SEQUENCE && Bounded(Apply(s, x)) && LinkedState(Apply(s, x))
    requires Rounds(Apply(s, x)) && Lifecycle(Apply(s, x)) && Publications(Apply(s, x))
    ensures var t := Commit(s, x, req, at); LinkedState(t) && Rounds(t) && Lifecycle(t) && Publications(t) && Bounded(t)
  {
    var a, t := Apply(s, x), Commit(s, x, req, at);
    forall i: Id ensures ReportCount(t, i, |t.reports|) <= MAX_REPORTS {
      ReportCountKept(a, t, i, |a.reports|);
    }
  }

  /** A legal change, committed, keeps everything but the accounts. */
  lemma LegalKeepsGraph(s: State, e: Evidence, x: Change, req: Request, at: int)
    requires LinkedState(s) && Rounds(s) && Lifecycle(s) && Publications(s) && Bounded(s) && Legal(s, e, x)
    requires s.control.sequence < MAX_SEQUENCE
    ensures var t := Commit(s, x, req, at); LinkedState(t) && Rounds(t) && Lifecycle(t) && Publications(t) && Bounded(t)
  {
    ApplyKeepsLinked(s, e, x);
    LegalKeepsRounds(s, e, x);
    LegalKeepsLifecycle(s, e, x);
    LegalKeepsPublications(s, e, x);
    ApplyKeepsBounds(s, e, x);
    CommitIsApply(s, x, req, at);
  }

  /** A step either changes nothing or commits one legal change. */
  lemma StepCase(s: State, req: Request, env: Env) returns (x: Option<Change>)
    requires LinkedState(s)
    ensures x.None? ==> Step(s, req, env).0 == s
    ensures x.Some? ==>
              && FindReceipt(s.receipts, req.actor, req.key).None? && Attempt(s, req, env) == Ok(x.value)
              && s.control.sequence < MAX_SEQUENCE && Legal(s, EvidenceOf(s, req, env), x.value)
              && Step(s, req, env).0 == Commit(s, x.value, req, env.now)
  {
    if Admissible(req, env) && FindReceipt(s.receipts, req.actor, req.key).None? && Attempt(s, req, env).Ok? {
      x := Some(Attempt(s, req, env).value);
      WriteIsLegal(s, EvidenceOf(s, req, env), env, req.intent.command);
    } else {
      x := None;
    }
  }

  /** Every step keeps the invariant. */
  lemma StepKeepsInv(s: State, req: Request, env: Env)
    requires Inv(s)
    ensures Inv(Step(s, req, env).0)
  {
    var x := StepCase(s, req, env);
    if x.Some? {
      LegalKeepsGraph(s, EvidenceOf(s, req, env), x.value, req, env.now);
      CommitKeepsAccounts(s, req, env);
    }
  }

  /** Every reachable state satisfies the invariant. */
  lemma {:induction false} RunKeepsInv(s: State, calls: seq<Call>)
    requires Inv(s)
    ensures Inv(Run(s, calls))
  {
    if calls != [] {
      RunKeepsInv(s, calls[..|calls| - 1]);
      var last := calls[|calls| - 1];
      StepKeepsInv(Run(s, calls[..|calls| - 1]), last.request, last.env);
    }
  }
}
