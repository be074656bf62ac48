/** The announcement store itself: rows mutated in place inside a transaction that a
    refusal rolls back. Every command is proved to do exactly what `Step` says. */
module AnnouncementLedger {
  import opened Wrappers
  import opened Announcements
  import opened AnnouncementInvariants
  import opened AnnouncementTheorems

  /** What a write closure returns: the object, its announcement and the resulting version. */
  datatype Written = Written(subject: ObjectRef, item: Option<Id>, version: nat)

  /** A write in place agrees with its specification; after a refusal the rows are whatever
      the write left behind, for the transaction to roll back. */
  ghost predicate Agrees(before: State, after: State, spec: Result<Change, Error>, w: Result<Written, Error>) {
    match spec
    case Err(f) => w == Err(f)
    case Ok(x) => after == Apply(before, x) && w == Ok(Written(SubjectOf(before, x), ItemOf(x), VersionAfter(before, x)))
  }

  class Ledger {
    var control: Control
    var settings: seq<SettingsRow>
    var items: seq<Item>
    var revisions: seq<Revision>
    var variants: seq<Variant>
    var reviews: seq<Review>
    var reports: seq<Report>
    var receipts: seq<Receipt>
    var events: seq<Event>

    function View(): State
      reads this
    {
      State(control, settings, items, revisions, variants, reviews, reports, receipts, events)
    }

    /** The store holds what some sequence of commands left. */
    ghost predicate Valid()
      reads this
    {
      Reachable(View())
    }

    constructor ()
      ensures View() == Empty && Valid()
    {
      control := Control(0, 0, None, false);
      settings, items, revisions, variants := [], [], [], [];
      reviews, reports, receipts, events := [], [], [], [];
      new;
      assert View() == Run(Empty, []);
    }

    /** Roll the transaction back. */
    method Restore(saved: State)
      modifies this
      ensures View() == saved
    {
      control, settings, items, revisions := saved.control, saved.settings, saved.items, saved.revisions;
      variants, reviews, reports := saved.variants, saved.reviews, saved.reports;
      receipts, events := saved.receipts, saved.events;
    }

    /** `_advance`. */
    method Advance(i: Id) returns (ok: bool)
      requires i < |items|
      modifies `items
      ensures ok == CanAdvance(old(items[i]))
      ensures ok ==> items == old(items)[i := old(items[i]).(version := old(items[i]).version + 1)]
    {
      if items[i].version >= MAX_HISTORY {
        return false;
      }
      items := items[i := items[i].(version := items[i].version + 1)];
      ok := true;
    }

    /** `_settings`. */
    method RequireSettings(env: Env) returns (r: Result<Id, Error>)
      ensures r == CurrentSettings(View(), env)
    {
      if !env.acceptsWrites || control.stopped {
        return Err(StateConflict);
      }
      if control.currentSettings.None? || control.currentSettings.value >= |settings| {
        return Err(SettingsRequired);
      }
      var row := settings[control.currentSettings.value];
      r := if row.input.reviewOn < env.today then Err(SettingsRequired) else Ok(control.currentSettings.value);
    }

    /** `_item`: the refusal to lock this version of an announcement, if any. */
    method LockItem(i: Id, expected: int) returns (failure: Option<Error>)
      ensures failure == match LockedItem(View(), i, expected) case Ok(_) => None case Err(f) => Some(f)
    {
      if i >= |items| {
        return Some(Unavailable);
      }
      failure := if items[i].version != expected then Some(VersionConflict) else None;
    }

    /** The text retained for an announcement, summed over its revisions. */
    method RetainedBytes(i: Id) returns (total: nat)
      ensures total == TextBytes(revisions, i)
    {
      total := 0;
      for n := 0 to |revisions|
        invariant total == TextBytes(revisions[..n], i)
      {
        assert revisions[..n + 1][..n] == revisions[..n];
        if revisions[n].item == i {
          total := total + revisions[n].bytes;
        }
      }
      assert revisions[..|revisions|] == revisions;
    }

    /** Whether someone wrote a revision of a round. */
    method Authored(i: Id, round: Id, actor: Id) returns (found: bool)
      ensures found == WroteIn(revisions, i, round, actor)
    {
      for n := 0 to |revisions|
        invariant forall r | 0 <= r < n ::
                    revisions[r].item != i || revisions[r].round != round || revisions[r].evidence.actor != actor
      {
        if revisions[n].item == i && revisions[n].round == round && revisions[n].evidence.actor == actor {
          return true;
        }
      }
      found := false;
    }

    /** The reports of an announcement, over all its variants. */
    method CountReports(i: Id) returns (count: nat)
      ensures count == ReportCount(View(), i, |reports|)
    {
      count := 0;
      for n := 0 to |reports|
        invariant count == ReportCount(View(), i, n)
      {
        var v := reports[n].variant;
        if v < |variants| && variants[v].revision < |revisions| && revisions[variants[v].revision].item == i {
          count := count + 1;
        }
      }
    }

    /** The receipt of this actor under this retry key. */
    method EarlierReceipt(actor: Id, key: Id) returns (found: Option<Id>)
      ensures found == FindReceipt(receipts, actor, key)
    {
      for n := 0 to |receipts|
        invariant forall k | 0 <= k < n :: receipts[k].actor != actor || receipts[k].key != key
      {
        if receipts[n].actor == actor && receipts[n].key == key {
          return Some(n);
        }
      }
      found := None;
    }

    /** The check of new channels against every retained settings revision. */
    method RenamesRetained(channels: seq<Channel>) returns (renames: bool)
      ensures renames == RenamesAny(settings, channels)
    {
      for n := 0 to |settings|
        invariant !RenamesAny(settings[..n], channels)
      {
        if RenamesLinkless(settings[n].input.channels, channels) {
          return true;
        }
        assert settings[..n + 1] == settings[..n] + [settings[n]];
      }
      assert settings[..|settings|] == settings;
      renames := false;
    }

    method WriteSettings(e: Evidence, env: Env, x: SettingsInput, expected: int) returns (w: Result<Written, Error>)
      modifies `control, `settings
      ensures Agrees(old(View()), View(), Write(old(View()), e, env, UpdateSettings(x, expected)), w)
      ensures control.sequence == old(control.sequence)
    {
      if !env.acceptsWrites {
        return Err(StateConflict);
      }
      if control.settingsVersion != expected {
        return Err(VersionConflict);
      }
      var renames := RenamesRetained(x.channels);
      if renames || x.reviewOn < env.today {
        return Err(Invalid);
      }
      var row := SettingsRow(e, expected + 1, x);
      settings := settings + [row];
      control := control.(settingsVersion := control.settingsVersion + 1, currentSettings := Some(|settings| - 1));
      w := Ok(Written(SettingsRef(|settings| - 1), None, control.settingsVersion));
    }

    /** Stopping is written first; resuming is undone by the rollback when settings are stale. */
    method WriteStopped(e: Evidence, env: Env, stopped: bool, expected: int, reason: string) returns (w: Result<Written, Error>)
      modifies `control
      ensures Agrees(old(View()), View(), Write(old(View()), e, env, SetStopped(stopped, expected, reason)), w)
      ensures control.sequence == old(control.sequence)
    {
      if !env.acceptsWrites {
        return Err(StateConflict);
      }
      if control.settingsVersion != expected {
        return Err(VersionConflict);
      }
      if control.stopped == stopped {
        return Err(StateConflict);
      }
      control := control.(stopped := stopped);
      if !stopped {
        var current := RequireSettings(env);
        if current.Err? {
          return Err(current.error);
        }
      }
      control := control.(settingsVersion := control.settingsVersion + 1);
      w := Ok(Written(ControlRef, None, control.settingsVersion));
    }

    /** The loop creating one variant per copy. */
    method SaveCopies(e: Evidence, r: Id, channels: seq<Channel>, copies: seq<CopyInput>)
      modifies `variants
      ensures variants == old(variants) + CopyRows(e, r, channels, copies)
    {
      for n := 0 to |copies|
        invariant variants == old(variants) + CopyRows(e, r, channels, copies[..n])
      {
        variants := variants + [CopyRow(e, r, channels, copies[n])];
        assert CopyRows(e, r, channels, copies[..n + 1]) == CopyRows(e, r, channels, copies[..n]) + [CopyRow(e, r, channels, copies[n])];
      }
      assert copies[..|copies|] == copies;
    }

    /** `_write_revision`, on the row of announcement `i`. */
    method SaveRevision(e: Evidence, i: Id, draft: DraftInput, settingsId: Id, languages: set<string>) returns (failure: Option<Error>)
      requires i < |items| && settingsId < |settings|
      requires items[i].current.Some? ==> items[i].current.value < |revisions|
      modifies `items, `revisions, `variants
      ensures var spec := WriteRevision(old(View()), e, i, old(items[i]), draft, settingsId, languages);
              && (failure.Some? ==> spec == Err(failure.value) && View() == old(View()))
              && (failure.None? ==>
                    && spec.Ok? && spec.value.NewRevision? && spec.value.item == i
                    && revisions == old(revisions) + [spec.value.revision]
                    && variants == old(variants) + spec.value.copies
                    && items == old(items)[i := old(items[i]).(current := Some(|old(revisions)|), status := Draft)])
    {
      var row := items[i];
      var previous := row.current;
      var number := if previous.Some? then revisions[previous.value].number + 1 else 1;
      var retained := RetainedBytes(i);
      if number > MAX_REVISIONS || retained + draft.bytes > MAX_STORED_TEXT_BYTES {
        return Some(LimitReached);
      }
      var channels := settings[settingsId].input.channels;
      if !Selectable(draft, channels, languages) {
        return Some(Invalid);
      }
      var base, round;
      if previous.None? || row.current == row.approved {
        base, round := row.approved, |revisions|;
      } else {
        base, round := revisions[previous.value].baseApproved, revisions[previous.value].round;
      }
      var id := |revisions|;
      revisions := revisions + [Revision(e, i, number, previous, base, round, settingsId, draft.headline, draft.body, draft.language, draft.bytes)];
      SaveCopies(e, id, channels, draft.copies);
      items := items[i := row.(current := Some(id), status := Draft)];
      failure := None;
    }

    method WriteCreate(e: Evidence, env: Env, draft: DraftInput, expectedSettings: int) returns (w: Result<Written, Error>)
      modifies `items, `revisions, `variants
      ensures Agrees(old(View()), View(), Write(old(View()), e, env, Create(draft, expectedSettings)), w)
    {
      var current := RequireSettings(env);
      if current.Err? {
        return Err(current.error);
      }
      if control.settingsVersion != expectedSettings {
        return Err(VersionConflict);
      }
      var i := |items|;
      items := items + [Item(1, Draft, None, None)];
      var failure := SaveRevision(e, i, draft, current.value, env.languages);
      if failure.Some? {
        return Err(failure.value);
      }
      w := Ok(Written(ItemRef(i), Some(i), items[i].version));
    }

    method WriteRevise(e: Evidence, env: Env, i: Id, draft: DraftInput, expected: int, expectedSettings: int, reason: string)
      returns (w: Result<Written, Error>)
      requires LinkedState(View())
      modifies `items, `revisions, `variants
      ensures Agrees(old(View()), View(), Write(old(View()), e, env, Revise(i, draft, expected, expectedSettings, reason)), w)
    {
      var current := RequireSettings(env);
      if current.Err? {
        return Err(current.error);
      }
      if control.settingsVersion != expectedSettings {
        return Err(VersionConflict);
      }
      var locked := LockItem(i, expected);
      if locked.Some? {
        return Err(locked.value);
      }
      if items[i].status == Cancelled {
        return Err(StateConflict);
      }
      assert Newest(revisions, i, items[i].current.value);
      var failure := SaveRevision(e, i, draft, current.value, env.languages);
      if failure.Some? {
        return Err(failure.value);
      }
      var ok := Advance(i);
      if !ok {
        return Err(LimitReached);
      }
      w := Ok(Written(RevisionRef(|revisions| - 1), Some(i), items[i].version));
    }

    method WriteRequestReview(e: Evidence, env: Env, i: Id, expected: int) returns (w: Result<Written, Error>)
      modifies `items
      ensures Agrees(old(View()), View(), Write(old(View()), e, env, RequestReview(i, expected)), w)
    {
      var current := RequireSettings(env);
      if current.Err? {
        return Err(current.error);
      }
      var locked := LockItem(i, expected);
      if locked.Some? {
        return Err(locked.value);
      }
      var row := items[i];
      if row.status != Draft || row.current.None? || Reviewed(reviews, row.current.value) {
        return Err(StateConflict);
      }
      items := items[i := row.(status := InReview)];
      var ok := Advance(i);
      if !ok {
        return Err(LimitReached);
      }
      w := Ok(Written(RevisionRef(row.current.value), Some(i), items[i].version));
    }

    method WriteDecision(e: Evidence, env: Env, i: Id, revision: Id, expected: int, decision: Decision, note: string)
      returns (w: Result<Written, Error>)
      modifies `items, `reviews
      ensures Agrees(old(View()), View(), Write(old(View()), e, env, Decide(i, revision, expected, decision, note)), w)
    {
      var current := RequireSettings(env);
      if current.Err? {
        return Err(current.error);
      }
      var locked := LockItem(i, expected);
      if locked.Some? {
        return Err(locked.value);
      }
      var row := items[i];
      if row.status != InReview || row.current != Some(revision) || revision >= |revisions| {
        return Err(StateConflict);
      }
      var authored := Authored(i, revisions[revision].round, e.actor);
      if authored {
        return Err(Denied);
      }
      reviews := reviews + [Review(e, revision, decision, note)];
      items := items[i := row.(status := if decision == Approve then Approved else ChangesRequested)];
      if decision == Approve {
        items := items[i := items[i].(approved := Some(revision))];
      }
      var ok := Advance(i);
      if !ok {
        return Err(LimitReached);
      }
      w := Ok(Written(ReviewRef(|reviews| - 1), Some(i), items[i].version));
    }

    /** The report limit, the row and the version, as reports and corrections share them. */
    method KeepReport(i: Id, report: Report) returns (w: Result<Written, Error>)
      requires i < |items|
      modifies `items, `reports
      ensures Agrees(old(View()), View(),
                     if ReportCount(old(View()), i, |old(reports)|) >= MAX_REPORTS || !CanAdvance(old(items[i])) then Err(LimitReached)
                     else Ok(NewReport(i, report)), w)
    {
      var count := CountReports(i);
      if count >= MAX_REPORTS {
        return Err(LimitReached);
      }
      reports := reports + [report];
      var ok := Advance(i);
      if !ok {
        return Err(LimitReached);
      }
      w := Ok(Written(ReportRef(|reports| - 1), Some(i), items[i].version));
    }

    method WriteReport(e: Evidence, env: Env, i: Id, variant: Id, expected: int, url: string, at: Option<int>)
      returns (w: Result<Written, Error>)
      modifies `items, `reports
      ensures Agrees(old(View()), View(), Write(old(View()), e, env, RecordPublication(i, variant, expected, url, at)), w)
    {
      if !env.acceptsWrites {
        return Err(StateConflict);
      }
      var locked := LockItem(i, expected);
      if locked.Some? {
        return Err(locked.value);
      }
      if ItemOfVariant(View(), variant) != Some(i) || !Endorsed(reviews, variants[variant].revision) {
        return Err(Unavailable);
      }
      if HasReport(reports, variant) {
        return Err(StateConflict);
      }
      w := KeepReport(i, Report(e, variant, None, false, url, at, ""));
    }

    method WriteCorrection(e: Evidence, env: Env, i: Id, report: Id, expected: int, withdrawn: bool, reason: string, url: string, at: Option<int>)
      returns (w: Result<Written, Error>)
      modifies `items, `reports
      ensures Agrees(old(View()), View(), Write(old(View()), e, env, CorrectPublication(i, report, expected, withdrawn, reason, url, at)), w)
    {
      if !env.acceptsWrites {
        return Err(StateConflict);
      }
      var locked := LockItem(i, expected);
      if locked.Some? {
        return Err(locked.value);
      }
      if report >= |reports| || ItemOfVariant(View(), reports[report].variant) != Some(i) || Replaced(reports, report) {
        return Err(StateConflict);
      }
      w := KeepReport(i, Report(e, reports[report].variant, Some(report), withdrawn, url, at, reason));
    }

    method WriteCancel(e: Evidence, env: Env, i: Id, expected: int, reason: string) returns (w: Result<Written, Error>)
      modifies `items
      ensures Agrees(old(View()), View(), Write(old(View()), e, env, Cancel(i, expected, reason)), w)
    {
      if !env.acceptsWrites {
        return Err(StateConflict);
      }
      var locked := LockItem(i, expected);
      if locked.Some? {
        return Err(locked.value);
      }
      if items[i].status == Cancelled {
        return Err(StateConflict);
      }
      items := items[i := items[i].(status := Cancelled)];
      var ok := Advance(i);
      if !ok {
        return Err(LimitReached);
      }
      w := Ok(Written(ItemRef(i), Some(i), items[i].version));
    }

    /** The write closure of a command. */
    method WriteCommand(e: Evidence, env: Env, c: Command) returns (w: Result<Written, Error>)
      requires LinkedState(View())
      modifies this
      ensures Agrees(old(View()), View(), Write(old(View()), e, env, c), w)
      ensures receipts == old(receipts) && events == old(events) && control.sequence == old(control.sequence)
    {
      match c
      case UpdateSettings(x, expected) => w := WriteSettings(e, env, x, expected);
      case SetStopped(stopped, expected, reason) => w := WriteStopped(e, env, stopped, expected, reason);
      case Create(draft, expected) => w := WriteCreate(e, env, draft, expected);
      case Revise(i, draft, expected, expectedSettings, reason) =>
        w := WriteRevise(e, env, i, draft, expected, expectedSettings, reason);
      case RequestReview(i, expected) => w := WriteRequestReview(e, env, i, expected);
      case Decide(i, revision, expected, decision, note) => w := WriteDecision(e, env, i, revision, expected, decision, note);
      case RecordPublication(i, variant, expected, url, at) => w := WriteReport(e, env, i, variant, expected, url, at);
      case CorrectPublication(i, report, expected, withdrawn, reason, url, at) =>
        w := WriteCorrection(e, env, i, report, expected, withdrawn, reason, url, at);
      case Cancel(i, expected, reason) => w := WriteCancel(e, env, i, expected, reason);
    }

    /** The transaction after the replay check: write, advance the sequence, authorize again,
        keep the receipt, bound the evidence, publish the event; or roll everything back. */
    method Transact(req: Request, env: Env) returns (r: Result<Reply, Error>)
      requires LinkedState(View())
      modifies this
      ensures match Attempt(old(View()), req, env)
              case Err(f) => View() == old(View()) && r == Err(f)
              case Ok(x) => View() == Commit(old(View()), x, req, env.now) && r == Ok(ReplyOf(receipts, |old(receipts)|, false))
    {
      if control.sequence >= MAX_SEQUENCE {
        return Err(LimitReached);
      }
      var saved := View();
      var w := WriteCommand(Evidence(req.actor, env.now, |receipts|), env, req.intent.command);
      if w.Err? {
        Restore(saved);
        return Err(w.error);
      }
      ghost var x := Write(saved, EvidenceOf(saved, req, env), env, req.intent.command).value;
      r := Settle(req, env, saved, w.value, x);
    }

    /** Advance the sequence, authorize again, keep the receipt, bound the evidence, publish the
        event; or roll the write back. */
    method Settle(req: Request, env: Env, saved: State, written: Written, ghost x: Change) returns (r: Result<Reply, Error>)
      requires View() == Apply(saved, x) && written == Written(SubjectOf(saved, x), ItemOf(x), VersionAfter(saved, x))
      modifies this
      ensures if !env.stillAdmitted then View() == saved && r == Err(Denied)
              else if ItemOf(x).Some? && !env.evidenceFits then View() == saved && r == Err(LimitReached)
              else View() == Commit(saved, x, req, env.now) && r == Ok(ReplyOf(receipts, |saved.receipts|, false))
    {
      control := control.(sequence := control.sequence + 1);
      if !env.stillAdmitted {
        Restore(saved);
        return Err(Denied);
      }
      receipts := receipts + [Receipt(req.actor, req.key, req.intent, control.sequence, written.item, written.subject, written.version, env.now)];
      if written.item.Some? && !env.evidenceFits {
        Restore(saved);
        return Err(LimitReached);
      }
      events := events + [Event(control.sequence, OperationOf(req.intent.command))];
      r := Ok(ReplyOf(receipts, |receipts| - 1, false));
    }

    /** `execute`: one command, exactly as `Step` says, keeping the invariant. */
    method Execute(req: Request, env: Env) returns (r: Result<Reply, Error>)
      requires Valid()
      modifies this
      ensures Valid()
      ensures (View(), r) == Step(old(View()), req, env)
    {
      StepIsReachable(View(), req, env);
      ReachableIsValid(View());
      r := Answer(req, env);
    }

    /** Admission, the replay check, and otherwise the transaction. */
    method Answer(req: Request, env: Env) returns (r: Result<Reply, Error>)
      requires LinkedState(View())
      modifies this
      ensures (View(), r) == Step(old(View()), req, env)
    {
      if !env.admitted {
        return Err(Denied);
      }
      if !WellFormed(req.intent.command, env.now) {
        return Err(Invalid);
      }
      if !env.ready {
        return Err(NotReady);
      }
      var found := EarlierReceipt(req.actor, req.key);
      if found.Some? {
        if receipts[found.value].intent != req.intent {
          return Err(RetryConflict);
        }
        return Ok(ReplyOf(receipts, found.value, true));
      }
      r := Transact(req, env);
    }
  }
}
