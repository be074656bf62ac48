/** What every reachable state of the announcement machine satisfies, one group of facts per
    predicate, each over just the tables it speaks about. */
module AnnouncementInvariants {
  import opened Wrappers
  import opened Sorting
  import opened Announcements

  // ---- What a committed change may be, as the guards of `Write` leave it.

  /** The next revision `r` of the announcement `row`, after its current one. */
  ghost predicate Follows(revisions: seq<Revision>, row: Item, r: Revision) {
    && row.current.Some? && row.current.value < |revisions|
    && var p := row.current.value;
       && r.previous == Some(p) && r.number == revisions[p].number + 1
       && if row.current == row.approved
          then r.baseApproved == row.approved && r.round == |revisions|
          else r.baseApproved == revisions[p].baseApproved && r.round == revisions[p].round
  }

  ghost predicate First(revisions: seq<Revision>, r: Revision) {
    r.number == 1 && r.previous.None? && r.baseApproved.None? && r.round == |revisions|
  }

  /** A variant keeps the name and link its channel had in the settings used. */
  ghost predicate Snapshot(channels: seq<Channel>, v: Variant) {
    Lookup(channels, v.channelCode) == Some(Channel(v.channelCode, v.channelLabel, v.channelUrl))
  }

  /** The shape constraint of reports, and that a withdrawal claims no publication. */
  ghost predicate ReportShaped(p: Report) {
    && (p.supersedes.None? ==> !p.withdrawn) && (p.supersedes.Some? ==> p.reason != "")
    && (p.withdrawn ==> p.url == "" && p.publishedAt.None?)
  }

  ghost predicate Legal(s: State, e: Evidence, x: Change) {
    match x
    case NewSettings(row) =>
      && !RenamesAny(s.settings, row.input.channels) && IsSettings(row.input) && row.evidence == e
      && row.number == s.control.settingsVersion + 1
    case NewStop(stopped) => stopped != s.control.stopped
    case NewRevision(i, r, copies) =>
      && r.item == i && r.evidence == e && r.number <= MAX_REVISIONS && r.headline != "" && r.body != "" && r.bytes > 0
      && TextBytes(s.revisions, i) + r.bytes <= MAX_STORED_TEXT_BYTES
      && r.settings < |s.settings| && s.control.currentSettings == Some(r.settings)
      && (if i < |s.items|
          then s.items[i].status != Cancelled && CanAdvance(s.items[i]) && Follows(s.revisions, s.items[i], r)
          else i == |s.items| && First(s.revisions, r))
      && forall k | 0 <= k < |copies| ::
           && copies[k].revision == |s.revisions| && Snapshot(s.settings[r.settings].input.channels, copies[k])
           && copies[k].headline != "" && copies[k].body != ""
           && forall j | 0 <= j < k :: copies[j].channelCode != copies[k].channelCode || copies[j].language != copies[k].language
    case NewStatus(i, status, _) =>
      && i < |s.items| && CanAdvance(s.items[i])
      && (|| (status == InReview && s.items[i].status == Draft)
          || (status == Cancelled && s.items[i].status != Cancelled))
    case NewReview(i, v) =>
      && i < |s.items| && CanAdvance(s.items[i]) && s.items[i].status == InReview
      && s.items[i].current == Some(v.revision) && v.revision < |s.revisions| && v.evidence == e
      && !WroteIn(s.revisions, i, s.revisions[v.revision].round, v.evidence.actor)
      && (v.decision == RequestChanges ==> v.note != "")
    case NewReport(i, p) =>
      && i < |s.items| && CanAdvance(s.items[i])
      && ItemOfVariant(s, p.variant) == Some(i) && ReportCount(s, i, |s.reports|) < MAX_REPORTS && ReportShaped(p)
      && match p.supersedes
         case None => Endorsed(s.reviews, s.variants[p.variant].revision) && !HasReport(s.reports, p.variant)
         case Some(j) => j < |s.reports| && s.reports[j].variant == p.variant && !Replaced(s.reports, j)
  }

  /** The guards let through nothing but legal changes. */
  lemma WriteIsLegal(s: State, e: Evidence, env: Env, c: Command)
    requires Linked(s.items, s.revisions, s.variants, s.reviews, s.reports, |s.settings|)
    requires WellFormed(c, env.now) && Write(s, e, env, c).Ok?
    ensures Legal(s, e, Write(s, e, env, c).value)
  {
    match c
    case Create(draft, _) =>
      assert IsDraft(draft);
      RevisionIsLegal(s, e, |s.items|, Item(1, Draft, None, None), draft, CurrentSettings(s, env).value, env.languages);
    case Revise(item, draft, _, _, _) =>
      RevisionIsLegal(s, e, item, s.items[item], draft, CurrentSettings(s, env).value, env.languages);
    case _ =>
  }

  lemma RevisionIsLegal(s: State, e: Evidence, i: Id, row: Item, draft: DraftInput, settings: Id, languages: set<string>)
    requires settings < |s.settings| && s.control.currentSettings == Some(settings) && IsDraft(draft)
    requires i <= |s.items| && (if i < |s.items| then row == s.items[i] && row.current.Some? else row == Item(1, Draft, None, None))
    requires row.current.Some? ==> row.current.value < |s.revisions|
    requires WriteRevision(s, e, i, row, draft, settings, languages).Ok?
    ensures var x := WriteRevision(s, e, i, row, draft, settings, languages).value;
            && x.NewRevision? && x.item == i && x.copies == CopyRows(e, |s.revisions|, s.settings[settings].input.channels, draft.copies)
            && (i < |s.items| && row.status != Cancelled && CanAdvance(row) ==> Legal(s, e, x))
            && (i == |s.items| ==> Legal(s, e, x))
  {
    var x := WriteRevision(s, e, i, row, draft, settings, languages).value;
    var channels := s.settings[settings].input.channels;
    forall j, k | 0 <= j < k < |x.copies|
      ensures x.copies[j].channelCode != x.copies[k].channelCode || x.copies[j].language != x.copies[k].language
    {
      assert Selections(draft.copies)[j] != Selections(draft.copies)[k];
    }
    forall k | 0 <= k < |x.copies| ensures Snapshot(channels, x.copies[k]) && x.copies[k].headline != "" && x.copies[k].body != "" {
      assert draft.copies[k] in draft.copies;
      var found := Lookup(channels, draft.copies[k].channelCode);
      assert found.value == Channel(draft.copies[k].channelCode, found.value.name, found.value.url);
    }
  }

  // ---- Groups of invariants.

  /** References point at rows; an announcement's current revision is its newest. */
  ghost predicate Linked(items: seq<Item>, revisions: seq<Revision>, variants: seq<Variant>, reviews: seq<Review>, reports: seq<Report>, settings: nat) {
    && (forall i | 0 <= i < |items| :: items[i].current.Some? && Newest(revisions, i, items[i].current.value))
    && (forall i | 0 <= i < |items| :: items[i].approved.Some? ==>
          items[i].approved.value < |revisions| && revisions[items[i].approved.value].item == i)
    && (forall r | 0 <= r < |revisions| :: revisions[r].item < |items| && revisions[r].settings < settings)
    && (forall v | 0 <= v < |variants| :: variants[v].revision < |revisions|)
    && (forall k | 0 <= k < |reviews| :: reviews[k].revision < |revisions|)
    && (forall p | 0 <= p < |reports| :: reports[p].variant < |variants|)
  }

  ghost predicate Newest(revisions: seq<Revision>, i: Id, c: Id) {
    c < |revisions| && revisions[c].item == i && forall r | c < r < |revisions| :: revisions[r].item != i
  }

  /** Revision `r` directly continues the lineage of its announcement. */
  ghost predicate Continues(revisions: seq<Revision>, r: Id)
    requires r < |revisions|
  {
    match revisions[r].previous
    case None => revisions[r].number == 1 && forall q | 0 <= q < r :: revisions[q].item != revisions[r].item
    case Some(p) =>
      && p < r && revisions[p].item == revisions[r].item && revisions[r].number == revisions[p].number + 1
      && forall q | p < q < r :: revisions[q].item != revisions[r].item
  }

  /** Each announcement's revisions form one line, numbered 1, 2, 3, ... */
  ghost predicate Lineage(revisions: seq<Revision>) {
    forall r | 0 <= r < |revisions| :: Continues(revisions, r)
  }

  /** A round is named after its first revision and lies within one announcement. */
  ghost predicate RoundsNamed(revisions: seq<Revision>) {
    forall r | 0 <= r < |revisions| ::
      && revisions[r].round <= r && revisions[revisions[r].round].round == revisions[r].round
      && revisions[revisions[r].round].item == revisions[r].item
  }

  /** Between two revisions of a round, every revision of the announcement is in it too. */
  ghost predicate RoundsContiguous(revisions: seq<Revision>) {
    forall a, b, c | 0 <= a < b < c < |revisions| && revisions[a].round == revisions[c].round
                     && revisions[b].item == revisions[a].item :: revisions[b].round == revisions[a].round
  }

  /** An approved revision is the last of its round. */
  ghost predicate RoundsClosed(revisions: seq<Revision>, reviews: seq<Review>) {
    forall k, r | 0 <= k < |reviews| && reviews[k].decision == Approve && reviews[k].revision < r < |revisions| ::
      revisions[r].round != revisions[reviews[k].revision].round
  }

  /** The approver of a revision wrote no revision of its round. */
  ghost predicate Separated(revisions: seq<Revision>, reviews: seq<Review>) {
    forall k, r | 0 <= k < |reviews| && reviews[k].decision == Approve && reviews[k].revision < |revisions| && 0 <= r < |revisions|
                  && revisions[r].round == revisions[reviews[k].revision].round ::
      revisions[r].evidence.actor != reviews[k].evidence.actor
  }

  /** A later revision opens a new round exactly when the one before it was approved, and
      otherwise stays in that round. */
  ghost predicate RoundsOpened(revisions: seq<Revision>, reviews: seq<Review>) {
    forall r | 0 <= r < |revisions| && revisions[r].previous.Some? && revisions[r].previous.value < r ::
      var p := revisions[r].previous.value;
      if Endorsed(reviews, p) then revisions[r].round == r else revisions[r].round == revisions[p].round
  }

  /** Each revision is decided at most once. */
  ghost predicate DecidedOnce(reviews: seq<Review>) {
    forall j, k | 0 <= j < k < |reviews| :: reviews[j].revision != reviews[k].revision
  }

  /** The status of an announcement agrees with the decisions on its current revision. */
  ghost predicate StatusAgrees(row: Item, reviews: seq<Review>) {
    && row.current.Some?
    && (row.approved.Some? ==> Endorsed(reviews, row.approved.value))
    && (Endorsed(reviews, row.current.value) <==> row.approved == row.current)
    && (row.status == Draft || row.status == InReview ==> !Reviewed(reviews, row.current.value))
    && (row.status == Approved ==> row.approved == row.current)
    && (row.status == ChangesRequested ==> row.approved != row.current)
  }

  ghost predicate Decided(items: seq<Item>, reviews: seq<Review>) {
    forall i | 0 <= i < |items| :: StatusAgrees(items[i], reviews)
  }

  /** An announcement's approved revision is the newest of its revisions ever approved. */
  ghost predicate LatestApproved(items: seq<Item>, revisions: seq<Revision>, reviews: seq<Review>) {
    forall i, k | 0 <= i < |items| && 0 <= k < |reviews| && reviews[k].decision == Approve
                  && reviews[k].revision < |revisions| && revisions[reviews[k].revision].item == i ::
      items[i].approved.Some? && reviews[k].revision <= items[i].approved.value
  }

  /** The check and uniqueness constraints the database declares on settings revisions,
      revisions, variants, reviews and reports. */
  ghost predicate Shapes(s: State) {
    && (forall i | 0 <= i < |s.settings| :: 0 < s.settings[i].number <= s.control.settingsVersion && IsSettings(s.settings[i].input))
    && (forall i, j | 0 <= i < j < |s.settings| :: s.settings[i].number < s.settings[j].number)
    && (forall r | 0 <= r < |s.revisions| :: s.revisions[r].headline != "" && s.revisions[r].body != "" && s.revisions[r].bytes > 0)
    && (forall v | 0 <= v < |s.variants| :: s.variants[v].headline != "" && s.variants[v].body != "")
    && (forall v, w | 0 <= v < w < |s.variants| && s.variants[v].revision == s.variants[w].revision ::
          s.variants[v].channelCode != s.variants[w].channelCode || s.variants[v].language != s.variants[w].language)
    && (forall k | 0 <= k < |s.reviews| :: s.reviews[k].decision == RequestChanges ==> s.reviews[k].note != "")
    && (forall p | 0 <= p < |s.reports| :: ReportShaped(s.reports[p]))
  }

  /** A pending correction builds on the announcement's approved revision. */
  ghost predicate Based(items: seq<Item>, revisions: seq<Revision>) {
    forall i | 0 <= i < |items| && items[i].current.Some? && items[i].current.value < |revisions| ::
      items[i].approved == items[i].current || revisions[items[i].current.value].baseApproved == items[i].approved
  }

  /** What a revision builds on is an earlier, approved revision of the same announcement. */
  ghost predicate BaseEndorsed(revisions: seq<Revision>, reviews: seq<Review>) {
    forall r | 0 <= r < |revisions| && revisions[r].baseApproved.Some? ::
      var b := revisions[r].baseApproved.value;
      b < r && revisions[b].item == revisions[r].item && Endorsed(reviews, b)
  }

  /** A report either opens the chain of its variant or replaces the latest report of it. */
  ghost predicate Chained(reports: seq<Report>, p: Id)
    requires p < |reports|
  {
    match reports[p].supersedes
    case None => forall q | 0 <= q < p :: reports[q].variant != reports[p].variant
    case Some(j) =>
      && j < p && reports[j].variant == reports[p].variant
      && forall q | j < q < p :: reports[q].variant != reports[p].variant
  }

  ghost predicate Chains(reports: seq<Report>) {
    forall p | 0 <= p < |reports| :: Chained(reports, p)
  }

  /** Every reported copy was approved. */
  ghost predicate Published(variants: seq<Variant>, reviews: seq<Review>, reports: seq<Report>) {
    forall p | 0 <= p < |reports| && reports[p].variant < |variants| ::
      Endorsed(reviews, variants[reports[p].variant].revision)
  }

  /** The current settings are the newest; codes are unique within a settings revision; a
      link-less channel keeps its name in every later one. */
  ghost predicate ChannelsStable(settings: seq<SettingsRow>, current: Option<Id>) {
    && current == (if settings == [] then None else Some(|settings| - 1))
    && (forall i | 0 <= i < |settings| :: Distinct(Codes(settings[i].input.channels)))
    && forall i, j | 0 <= i < j < |settings| ::
         !RenamesLinkless(settings[i].input.channels, settings[j].input.channels)
  }

  /** Every variant is a snapshot of a channel of the settings its revision was written under. */
  ghost predicate Snapshots(settings: seq<SettingsRow>, revisions: seq<Revision>, variants: seq<Variant>) {
    forall v | 0 <= v < |variants| && variants[v].revision < |revisions| && revisions[variants[v].revision].settings < |settings| ::
      Snapshot(settings[revisions[variants[v].revision].settings].input.channels, variants[v])
  }

  /** The resource bounds. */
  ghost predicate Bounded(s: State) {
    && s.control.sequence <= MAX_SEQUENCE
    && (forall i | 0 <= i < |s.items| :: 1 <= s.items[i].version <= MAX_HISTORY)
    && (forall r | 0 <= r < |s.revisions| :: 1 <= s.revisions[r].number <= MAX_REVISIONS)
    && (forall i: Id :: TextBytes(s.revisions, i) <= MAX_STORED_TEXT_BYTES)
    && (forall i: Id :: ReportCount(s, i, |s.reports|) <= MAX_REPORTS)
  }

  // ---- Preservation: a legal change keeps each group.

  ghost predicate LinkedState(s: State) {
    Linked(s.items, s.revisions, s.variants, s.reviews, s.reports, |s.settings|)
  }

  /** Replacing rows by rows with the same current and approved revisions. */
  lemma LinkedRows(s: State, i: Id, row: Item)
    requires LinkedState(s) && i < |s.items| && row.current == s.items[i].current
    requires row.approved == s.items[i].approved || row.approved == row.current
    ensures Linked(PutItem(s.items, i, row), s.revisions, s.variants, s.reviews, s.reports, |s.settings|)
  {
    var after := PutItem(s.items, i, row);
    assert Newest(s.revisions, i, s.items[i].current.value);
    forall j | 0 <= j < |after| ensures after[j].current == s.items[j].current {}
  }

  lemma LinkedRevision(s: State, e: Evidence, x: Change)
    requires LinkedState(s) && Legal(s, e, x) && x.NewRevision?
    ensures LinkedState(Apply(s, x))
  {
    var t := Apply(s, x);
    forall j | 0 <= j < |t.items| ensures t.items[j].current.Some? && Newest(t.revisions, j, t.items[j].current.value) {
      if j != x.item {
        assert t.items[j] == s.items[j];
        assert Newest(s.revisions, j, s.items[j].current.value);
      }
    }
  }

  lemma ApplyKeepsLinked(s: State, e: Evidence, x: Change)
    requires LinkedState(s) && Legal(s, e, x)
    ensures LinkedState(Apply(s, x))
  {
    match x
    case NewSettings(_) =>
    case NewStop(_) =>
    case NewRevision(_, _, _) => LinkedRevision(s, e, x);
    case NewStatus(i, _, _) => LinkedRows(s, i, Moved(s, x));
    case NewReview(i, _) => LinkedRows(s, i, Moved(s, x));
    case NewReport(i, _) => LinkedRows(s, i, Moved(s, x));
  }

  lemma ApplyKeepsLineage(s: State, e: Evidence, x: Change)
    requires LinkedState(s) && Legal(s, e, x) && Lineage(s.revisions)
    ensures Lineage(Apply(s, x).revisions)
  {
    if x.NewRevision? {
      var t := Apply(s, x);
      var n := |s.revisions|;
      forall r | 0 <= r < |t.revisions| ensures Continues(t.revisions, r) {
        if r < n { assert Continues(s.revisions, r); }
      }
    }
  }

  lemma ApplyKeepsRoundsNamed(s: State, e: Evidence, x: Change)
    requires LinkedState(s) && Legal(s, e, x) && RoundsNamed(s.revisions)
    ensures RoundsNamed(Apply(s, x).revisions)
  {
  }

  /** A revision that opens a round, or continues the newest one of its announcement. */
  lemma ContiguousAppend(revisions: seq<Revision>, r: Revision, p: Id)
    requires RoundsNamed(revisions) && RoundsContiguous(revisions)
    requires r.round == |revisions| || (Newest(revisions, r.item, p) && r.round == revisions[p].round)
    ensures RoundsContiguous(revisions + [r])
  {
    var t, n := revisions + [r], |revisions|;
    forall a, b, c | 0 <= a < b < c < |t| && t[a].round == t[c].round && t[b].item == t[a].item
      ensures t[b].round == t[a].round
    {
      if c == n {
        NewestContinues(revisions, r, p, a, b);
      }
    }
  }

  lemma NewestContinues(revisions: seq<Revision>, r: Revision, p: Id, a: Id, b: Id)
    requires RoundsNamed(revisions) && RoundsContiguous(revisions)
    requires r.round == |revisions| || (Newest(revisions, r.item, p) && r.round == revisions[p].round)
    requires a < b < |revisions| && revisions[a].round == r.round && revisions[b].item == revisions[a].item
    ensures revisions[b].round == revisions[a].round
  {
    assert revisions[a].round <= a;
    assert revisions[a].item == revisions[revisions[a].round].item == revisions[p].item;
  }

  lemma ApplyKeepsRoundsContiguous(s: State, e: Evidence, x: Change)
    requires LinkedState(s) && Legal(s, e, x) && RoundsNamed(s.revisions) && RoundsContiguous(s.revisions)
    ensures RoundsContiguous(Apply(s, x).revisions)
  {
    if x.NewRevision? {
      if x.item < |s.items| {
        assert Newest(s.revisions, x.item, s.items[x.item].current.value);
        ContiguousAppend(s.revisions, x.revision, s.items[x.item].current.value);
      } else {
        ContiguousAppend(s.revisions, x.revision, 0);
      }
    }
  }

  lemma ApplyKeepsRoundsClosed(s: State, e: Evidence, x: Change)
    requires LinkedState(s) && Legal(s, e, x) && RoundsNamed(s.revisions) && Decided(s.items, s.reviews)
    requires RoundsClosed(s.revisions, s.reviews)
    ensures RoundsClosed(Apply(s, x).revisions, Apply(s, x).reviews)
  {
    match x
    case NewReview(i, v) =>
      forall r | v.revision < r < |s.revisions| ensures s.revisions[r].round != s.revisions[v.revision].round {
        assert s.revisions[r].item != i;
      }
    case _ =>
  }

  lemma ApplyKeepsSeparated(s: State, e: Evidence, x: Change)
    requires LinkedState(s) && Legal(s, e, x) && RoundsNamed(s.revisions) && Decided(s.items, s.reviews)
    requires RoundsClosed(s.revisions, s.reviews) && Separated(s.revisions, s.reviews)
    ensures Separated(Apply(s, x).revisions, Apply(s, x).reviews)
  {
    match x
    case NewRevision(i, r, _) =>
      ApplyKeepsRoundsClosed(s, e, x);
    case NewReview(i, v) =>
      forall r | 0 <= r < |s.revisions| && s.revisions[r].round == s.revisions[v.revision].round
        ensures s.revisions[r].evidence.actor != v.evidence.actor
      {
        assert s.revisions[r].item == i;
      }
    case _ =>
  }

  lemma ApplyKeepsRoundsOpened(s: State, e: Evidence, x: Change)
    requires LinkedState(s) && Legal(s, e, x) && Lineage(s.revisions) && Decided(s.items, s.reviews)
    requires RoundsOpened(s.revisions, s.reviews)
    ensures RoundsOpened(Apply(s, x).revisions, Apply(s, x).reviews)
  {
    match x
    case NewRevision(i, r, _) =>
      assert i < |s.items| ==> StatusAgrees(s.items[i], s.reviews);
    case NewReview(i, v) =>
      var t := Apply(s, x);
      forall r | 0 <= r < |s.revisions| && s.revisions[r].previous.Some? && s.revisions[r].previous.value < r
        ensures Endorsed(t.reviews, s.revisions[r].previous.value) == Endorsed(s.reviews, s.revisions[r].previous.value)
      {
        assert Continues(s.revisions, r);
        EndorsedAfter(s.reviews, v, s.revisions[r].previous.value);
      }
    case _ =>
  }

  lemma EndorsedAfter(reviews: seq<Review>, v: Review, r: Id)
    ensures Endorsed(reviews + [v], r) <==> Endorsed(reviews, r) || (v.revision == r && v.decision == Approve)
    ensures Reviewed(reviews + [v], r) <==> Reviewed(reviews, r) || v.revision == r
  {
    var longer := reviews + [v];
    assert longer[|reviews|] == v;
    assert forall k | 0 <= k < |reviews| :: longer[k] == reviews[k];
  }

  lemma ApplyKeepsDecided(s: State, e: Evidence, x: Change)
    requires LinkedState(s) && Legal(s, e, x) && Decided(s.items, s.reviews) && DecidedOnce(s.reviews)
    ensures Decided(Apply(s, x).items, Apply(s, x).reviews) && DecidedOnce(Apply(s, x).reviews)
  {
    var t := Apply(s, x);
    if x.NewReview? {
      assert StatusAgrees(s.items[x.item], s.reviews);
    }
    forall j | 0 <= j < |t.items| ensures StatusAgrees(t.items[j], t.reviews) {
      if j < |s.items| { assert StatusAgrees(s.items[j], s.reviews); }
      if x.NewReview? {
        EndorsedAfter(s.reviews, x.review, s.items[j].current.value);
        if s.items[j].approved.Some? { EndorsedAfter(s.reviews, x.review, s.items[j].approved.value); }
      }
    }
  }

  lemma ApplyKeepsLatestApproved(s: State, e: Evidence, x: Change)
    requires LinkedState(s) && Legal(s, e, x) && LatestApproved(s.items, s.revisions, s.reviews)
    ensures LatestApproved(Apply(s, x).items, Apply(s, x).revisions, Apply(s, x).reviews)
  {
    if x.NewReview? {
      assert Newest(s.revisions, x.item, s.items[x.item].current.value);
    }
  }

  lemma ApplyKeepsShapes(s: State, e: Evidence, x: Change)
    requires LinkedState(s) && Legal(s, e, x) && Shapes(s)
    ensures Shapes(Apply(s, x))
  {
  }

  lemma ApplyKeepsBased(s: State, e: Evidence, x: Change)
    requires LinkedState(s) && Legal(s, e, x) && Decided(s.items, s.reviews) && Based(s.items, s.revisions)
    ensures Based(Apply(s, x).items, Apply(s, x).revisions)
  {
    var t := Apply(s, x);
    forall j | 0 <= j < |t.items| && t.items[j].current.Some? && t.items[j].current.value < |t.revisions|
      ensures t.items[j].approved == t.items[j].current || t.revisions[t.items[j].current.value].baseApproved == t.items[j].approved
    {
      if j < |s.items| { assert s.items[j].current.Some? && Newest(s.revisions, j, s.items[j].current.value); }
    }
  }

  lemma ApplyKeepsBaseEndorsed(s: State, e: Evidence, x: Change)
    requires LinkedState(s) && Legal(s, e, x) && Decided(s.items, s.reviews) && BaseEndorsed(s.revisions, s.reviews)
    ensures BaseEndorsed(Apply(s, x).revisions, Apply(s, x).reviews)
  {
    match x
    case NewRevision(i, r, _) =>
      assert i < |s.items| ==> StatusAgrees(s.items[i], s.reviews);
    case NewReview(i, v) =>
      forall r | 0 <= r < |s.revisions| && s.revisions[r].baseApproved.Some?
        ensures Endorsed(s.reviews + [v], s.revisions[r].baseApproved.value)
      {
        EndorsedAfter(s.reviews, v, s.revisions[r].baseApproved.value);
      }
    case _ =>
  }

  lemma ApplyKeepsChains(s: State, e: Evidence, x: Change)
    requires LinkedState(s) && Legal(s, e, x) && Chains(s.reports)
    ensures Chains(Apply(s, x).reports)
  {
    if x.NewReport? {
      var t, n := Apply(s, x).reports, |s.reports|;
      forall p | 0 <= p < |t| ensures Chained(t, p) {
        if p < n { assert Chained(s.reports, p); }
        else if x.report.supersedes.Some? {
          UnreplacedIsLatest(s.reports, x.report.supersedes.value);
        }
      }
    }
  }

  /** Only the latest report of a variant is unreplaced. */
  lemma UnreplacedIsLatest(reports: seq<Report>, j: Id)
    requires Chains(reports) && j < |reports| && !Replaced(reports, j)
    ensures forall q | j < q < |reports| :: reports[q].variant != reports[j].variant
  {
    forall q | j < q < |reports| ensures reports[q].variant != reports[j].variant {
      if reports[q].variant == reports[j].variant { NextReplaces(reports, j, q); }
    }
  }

  lemma NextReplaces(reports: seq<Report>, j: Id, q: Id)
    requires Chains(reports) && j < q < |reports| && reports[q].variant == reports[j].variant
    ensures Replaced(reports, j)
  {
    var first := FirstAfter(reports, j, q);
    assert Chained(reports, first);
    assert reports[first].supersedes == Some(j);
  }

  lemma FirstAfter(reports: seq<Report>, j: Id, q: Id) returns (first: Id)
    requires j < q < |reports| && reports[q].variant == reports[j].variant
    ensures j < first <= q && reports[first].variant == reports[j].variant
    ensures forall k | j < k < first :: reports[k].variant != reports[j].variant
  {
    first := j + 1;
    while reports[first].variant != reports[j].variant
      invariant j < first <= q
      invariant forall k | j < k < first :: reports[k].variant != reports[j].variant
      decreases q - first
    {
      first := first + 1;
    }
  }

  lemma ApplyKeepsPublished(s: State, e: Evidence, x: Change)
    requires LinkedState(s) && Legal(s, e, x) && Published(s.variants, s.reviews, s.reports)
    ensures Published(Apply(s, x).variants, Apply(s, x).reviews, Apply(s, x).reports)
  {
    if x.NewReview? {
      forall p | 0 <= p < |s.reports|
        ensures Endorsed(s.reviews + [x.review], s.variants[s.reports[p].variant].revision)
      {
        EndorsedAfter(s.reviews, x.review, s.variants[s.reports[p].variant].revision);
      }
    }
  }

  lemma ApplyKeepsChannels(s: State, e: Evidence, x: Change)
    requires LinkedState(s) && Legal(s, e, x)
    requires ChannelsStable(s.settings, s.control.currentSettings) && Snapshots(s.settings, s.revisions, s.variants)
    ensures ChannelsStable(Apply(s, x).settings, Apply(s, x).control.currentSettings)
    ensures Snapshots(Apply(s, x).settings, Apply(s, x).revisions, Apply(s, x).variants)
  {
  }

  lemma {:induction false} ReportCountKept(s: State, t: State, i: Id, n: nat)
    requires LinkedState(s) && n <= |s.reports|
    requires s.reports <= t.reports && s.variants <= t.variants && s.revisions <= t.revisions
    ensures ReportCount(t, i, n) == ReportCount(s, i, n)
  {
    if n > 0 { ReportCountKept(s, t, i, n - 1); }
  }

  lemma TextBytesAfter(revisions: seq<Revision>, r: Revision, i: Id)
    ensures TextBytes(revisions + [r], i) == TextBytes(revisions, i) + if r.item == i then r.bytes else 0
  {
    assert (revisions + [r])[..|revisions|] == revisions;
  }

  lemma ApplyKeepsTextBound(s: State, e: Evidence, x: Change, i: Id)
    requires Legal(s, e, x) && TextBytes(s.revisions, i) <= MAX_STORED_TEXT_BYTES
    ensures TextBytes(Apply(s, x).revisions, i) <= MAX_STORED_TEXT_BYTES
  {
    if x.NewRevision? { TextBytesAfter(s.revisions, x.revision, i); }
  }

  lemma ApplyKeepsReportBound(s: State, e: Evidence, x: Change, i: Id)
    requires LinkedState(s) && Legal(s, e, x) && ReportCount(s, i, |s.reports|) <= MAX_REPORTS
    ensures ReportCount(Apply(s, x), i, |Apply(s, x).reports|) <= MAX_REPORTS
  {
    ReportCountKept(s, Apply(s, x), i, |s.reports|);
  }

  lemma ApplyKeepsBounds(s: State, e: Evidence, x: Change)
    requires LinkedState(s) && Legal(s, e, x) && Bounded(s)
    ensures Bounded(Apply(s, x))
  {
    var t := Apply(s, x);
    forall i: Id ensures ReportCount(t, i, |t.reports|) <= MAX_REPORTS {
      ApplyKeepsReportBound(s, e, x, i);
    }
    forall i: Id ensures TextBytes(t.revisions, i) <= MAX_STORED_TEXT_BYTES {
      ApplyKeepsTextBound(s, e, x, i);
    }
  }
}
