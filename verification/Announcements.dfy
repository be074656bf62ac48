/** `maru.announcements`: the command machine of one event edition. Every command is one
    atomic step: authorize, replay check, guard, write, advance, receipt. Rows live in
    append-only tables and a row's identifier is its position, so a new row always has a
    fresh identifier. What the model takes from outside a step is its `Env`. */
module Announcements {
  import opened Wrappers
  import opened Sorting

  type Id = nat

  const MAX_CHANNELS := 16
  const MAX_VARIANTS := 32
  const MAX_REVISIONS := 256
  const MAX_REPORTS := 2048
  const MAX_HISTORY := 4096
  const MAX_STORED_TEXT_BYTES := 8 * 1024 * 1024
  const MAX_CURSOR := 0x7FFF_FFFF_FFFF_FFFF
  const MAX_SEQUENCE := 0x7FFF_FFFF_FFFF_FFFE

  datatype Status = Draft | InReview | ChangesRequested | Approved | Cancelled

  datatype Decision = Approve | RequestChanges

  datatype Error = Denied | NotReady | Unavailable | VersionConflict | RetryConflict | StateConflict
                 | SettingsRequired | LimitReached | Invalid

  datatype Channel = Channel(code: string, name: string, url: string)

  datatype SettingsInput = SettingsInput(policyName: string, policyDescription: string, policyUrl: string,
                                         recordOwner: string, reviewOn: int, channels: seq<Channel>)

  datatype CopyInput = CopyInput(channelCode: string, language: string, headline: string, body: string)

  /** `bytes` is the length of the canonical encoding of the draft, so it is positive. */
  datatype DraftInput = DraftInput(headline: string, body: string, language: string, copies: seq<CopyInput>, bytes: nat)

  /** Who recorded a row, when, and under which receipt. */
  datatype Evidence = Evidence(actor: Id, at: int, receipt: Id)

  datatype SettingsRow = SettingsRow(evidence: Evidence, number: nat, input: SettingsInput)

  datatype Revision = Revision(evidence: Evidence, item: Id, number: nat, previous: Option<Id>, baseApproved: Option<Id>,
                               round: Id, settings: Id, headline: string, body: string, language: string, bytes: nat)

  datatype Variant = Variant(evidence: Evidence, revision: Id, channelCode: string, channelLabel: string,
                             channelUrl: string, language: string, headline: string, body: string)

  datatype Review = Review(evidence: Evidence, revision: Id, decision: Decision, note: string)

  datatype Report = Report(evidence: Evidence, variant: Id, supersedes: Option<Id>, withdrawn: bool,
                           url: string, publishedAt: Option<int>, reason: string)

  datatype Item = Item(version: nat, status: Status, current: Option<Id>, approved: Option<Id>)

  datatype Control = Control(sequence: nat, settingsVersion: nat, currentSettings: Option<Id>, stopped: bool)

  /** Commands with their normalized intent; `expected` is the version the caller observed. */
  datatype Command =
    | UpdateSettings(settings: SettingsInput, expected: int)
    | SetStopped(stopped: bool, expected: int, reason: string)
    | Create(draft: DraftInput, expectedSettings: int)
    | Revise(item: Id, draft: DraftInput, expected: int, expectedSettings: int, reason: string)
    | RequestReview(item: Id, expected: int)
    | Decide(item: Id, revision: Id, expected: int, decision: Decision, note: string)
    | RecordPublication(item: Id, variant: Id, expected: int, url: string, publishedAt: Option<int>)
    | CorrectPublication(item: Id, report: Id, expected: int, withdrawn: bool, reason: string, url: string, publishedAt: Option<int>)
    | Cancel(item: Id, expected: int, reason: string)

  /** The digest is injective, so a receipt keeps what was digested. */
  datatype Intent = Intent(command: Command, source: string)

  datatype Request = Request(actor: Id, key: Id, intent: Intent)

  datatype ObjectRef = SettingsRef(id: Id) | ControlRef | ItemRef(id: Id) | RevisionRef(id: Id) | ReviewRef(id: Id) | ReportRef(id: Id)

  datatype Receipt = Receipt(actor: Id, key: Id, intent: Intent, sequence: nat, item: Option<Id>, subject: ObjectRef, version: nat, at: int)

  datatype Event = Event(version: nat, operation: Operation)

  datatype Operation = OpSettings | OpStop | OpResume | OpCreate | OpRevise | OpRequestReview | OpApprove
                     | OpChangesRequested | OpRecord | OpCorrect | OpWithdraw | OpCancel

  datatype State = State(control: Control, settings: seq<SettingsRow>, items: seq<Item>, revisions: seq<Revision>,
                         variants: seq<Variant>, reviews: seq<Review>, reports: seq<Report>,
                         receipts: seq<Receipt>, events: seq<Event>)

  const Empty := State(Control(0, 0, None, false), [], [], [], [], [], [], [], [])

  /** Facts from outside the module, fixed for one step: the authorization verdict before
      and after the write, readiness, the edition's lifecycle and languages, the clock, and
      the verdict of the size bound over the complete evidence. */
  datatype Env = Env(admitted: bool, stillAdmitted: bool, ready: bool, acceptsWrites: bool,
                     languages: set<string>, now: int, today: int, evidenceFits: bool)

  datatype Reply = Reply(receipt: Id, subject: ObjectRef, version: nat, item: Option<Id>, replayed: bool)

  function OperationOf(c: Command): Operation {
    match c
    case UpdateSettings(_, _) => OpSettings
    case SetStopped(stopped, _, _) => if stopped then OpStop else OpResume
    case Create(_, _) => OpCreate
    case Revise(_, _, _, _, _) => OpRevise
    case RequestReview(_, _) => OpRequestReview
    case Decide(_, _, _, decision, _) => if decision == Approve then OpApprove else OpChangesRequested
    case RecordPublication(_, _, _, _, _) => OpRecord
    case CorrectPublication(_, _, _, withdrawn, _, _, _) => if withdrawn then OpWithdraw else OpCorrect
    case Cancel(_, _, _) => OpCancel
  }

  // Normalization: what the closed input contracts admit, given normalized text.

  predicate IsVersion(v: int) { 1 <= v < MAX_CURSOR }

  function Codes(channels: seq<Channel>): seq<string> {
    seq(|channels|, i requires 0 <= i < |channels| => channels[i].code)
  }

  function Selections(copies: seq<CopyInput>): seq<(string, string)> {
    seq(|copies|, i requires 0 <= i < |copies| => (copies[i].channelCode, copies[i].language))
  }

  predicate IsSettings(x: SettingsInput) {
    && 1 <= |x.channels| <= MAX_CHANNELS && Distinct(Codes(x.channels))
    && x.policyName != "" && x.recordOwner != "" && (x.policyUrl != "" || x.policyDescription != "")
  }

  predicate IsDraft(x: DraftInput) {
    && 1 <= |x.copies| <= MAX_VARIANTS && Distinct(Selections(x.copies)) && x.headline != "" && x.body != "" && x.bytes > 0
    && forall c | c in x.copies :: c.headline != "" && c.body != ""
  }

  predicate IsPast(at: Option<int>, now: int) { at.Some? ==> at.value <= now }

  predicate WellFormed(c: Command, now: int) {
    match c
    case UpdateSettings(x, e) => IsSettings(x) && 0 <= e < MAX_CURSOR
    case SetStopped(_, e, reason) => IsVersion(e) && reason != ""
    case Create(x, e) => IsDraft(x) && IsVersion(e)
    case Revise(_, x, e, f, reason) => IsDraft(x) && IsVersion(e) && IsVersion(f) && reason != ""
    case RequestReview(_, e) => IsVersion(e)
    case Decide(_, _, e, decision, note) => IsVersion(e) && (decision == RequestChanges ==> note != "")
    case RecordPublication(_, _, e, _, at) => IsVersion(e) && IsPast(at, now)
    case CorrectPublication(_, _, e, withdrawn, reason, url, at) =>
      IsVersion(e) && IsPast(at, now) && reason != "" && (withdrawn ==> url == "" && at.None?)
    case Cancel(_, e, reason) => IsVersion(e) && reason != ""
  }

  // Lookups.

  /** A dictionary from code to channel. */
  function Lookup(channels: seq<Channel>, code: string): (r: Option<Channel>)
    ensures r.Some? ==> r.value in channels && r.value.code == code
    ensures r.None? ==> forall c | c in channels :: c.code != code
  {
    if channels == [] then None
    else if channels[|channels| - 1].code == code then Some(channels[|channels| - 1])
    else Lookup(channels[..|channels| - 1], code)
  }

  /** A link-less channel of an earlier settings revision comes back under another label. */
  predicate RenamesLinkless(earlier: seq<Channel>, channels: seq<Channel>) {
    exists c | c in channels ::
      var o := Lookup(earlier, c.code); o.Some? && o.value.url == "" && o.value.name != c.name
  }

  predicate RenamesAny(rows: seq<SettingsRow>, channels: seq<Channel>) {
    exists i | 0 <= i < |rows| :: RenamesLinkless(rows[i].input.channels, channels)
  }

  function TextBytes(revisions: seq<Revision>, item: Id): nat {
    if revisions == [] then 0
    else TextBytes(revisions[..|revisions| - 1], item) +
         if revisions[|revisions| - 1].item == item then revisions[|revisions| - 1].bytes else 0
  }

  predicate Reviewed(reviews: seq<Review>, revision: Id) {
    exists k | 0 <= k < |reviews| :: reviews[k].revision == revision
  }

  predicate Endorsed(reviews: seq<Review>, revision: Id) {
    exists k | 0 <= k < |reviews| :: reviews[k].revision == revision && reviews[k].decision == Approve
  }

  predicate WroteIn(revisions: seq<Revision>, item: Id, round: Id, actor: Id) {
    exists r | 0 <= r < |revisions| ::
      revisions[r].item == item && revisions[r].round == round && revisions[r].evidence.actor == actor
  }

  predicate HasReport(reports: seq<Report>, variant: Id) {
    exists p | 0 <= p < |reports| :: reports[p].variant == variant
  }

  predicate Replaced(reports: seq<Report>, report: Id) {
    exists p | 0 <= p < |reports| :: reports[p].supersedes == Some(report)
  }

  /** The announcement a report belongs to, through its variant and revision. */
  function ItemOfVariant(s: State, variant: Id): Option<Id> {
    if variant < |s.variants| && s.variants[variant].revision < |s.revisions|
    then Some(s.revisions[s.variants[variant].revision].item) else None
  }

  function ReportCount(s: State, item: Id, n: nat): nat
    requires n <= |s.reports|
  {
    if n == 0 then 0
    else ReportCount(s, item, n - 1) + if ItemOfVariant(s, s.reports[n - 1].variant) == Some(item) then 1 else 0
  }

  /** What a write does, decided by its guards and then applied. */
  datatype Change =
    | NewSettings(settings: SettingsRow)
    | NewStop(stopped: bool)
    | NewRevision(item: Id, revision: Revision, copies: seq<Variant>)
    | NewStatus(item: Id, status: Status, subject: ObjectRef)
    | NewReview(item: Id, review: Review)
    | NewReport(item: Id, report: Report)

  // Guards.

  predicate WritesOpen(s: State, env: Env, stoppedOk: bool) {
    env.acceptsWrites && (s.control.stopped ==> stoppedOk)
  }

  /** The confirmed settings that new content needs. */
  function CurrentSettings(s: State, env: Env): (r: Result<Id, Error>)
    ensures r.Ok? ==> r.value < |s.settings| && s.control.currentSettings == Some(r.value)
  {
    if !WritesOpen(s, env, false) then Err(StateConflict)
    else if s.control.currentSettings.None? || s.control.currentSettings.value >= |s.settings|
            || s.settings[s.control.currentSettings.value].input.reviewOn < env.today then Err(SettingsRequired)
    else Ok(s.control.currentSettings.value)
  }

  function LockedItem(s: State, item: Id, expected: int): (r: Result<Item, Error>)
    ensures r.Ok? ==> item < |s.items| && r.value == s.items[item] && r.value.version == expected
  {
    if item >= |s.items| then Err(Unavailable)
    else if s.items[item].version != expected then Err(VersionConflict)
    else Ok(s.items[item])
  }

  predicate CanAdvance(item: Item) { item.version < MAX_HISTORY }

  predicate Selectable(draft: DraftInput, channels: seq<Channel>, languages: set<string>) {
    && draft.language in languages
    && forall c | c in draft.copies :: c.language in languages && Lookup(channels, c.channelCode).Some?
  }

  function CopyRow(e: Evidence, revision: Id, channels: seq<Channel>, c: CopyInput): Variant {
    var channel := match Lookup(channels, c.channelCode) case Some(x) => x case None => Channel(c.channelCode, "", "");
    Variant(e, revision, c.channelCode, channel.name, channel.url, c.language, c.headline, c.body)
  }

  function CopyRows(e: Evidence, revision: Id, channels: seq<Channel>, copies: seq<CopyInput>): (r: seq<Variant>)
    ensures |r| == |copies| && forall i | 0 <= i < |r| :: r[i] == CopyRow(e, revision, channels, copies[i])
  {
    seq(|copies|, i requires 0 <= i < |copies| => CopyRow(e, revision, channels, copies[i]))
  }

  /** `_write_revision`: the next revision of an announcement, in the round it belongs to. */
  function WriteRevision(s: State, e: Evidence, item: Id, row: Item, draft: DraftInput, settings: Id, languages: set<string>): Result<Change, Error>
    requires settings < |s.settings|
    requires row.current.Some? ==> row.current.value < |s.revisions|
  {
    var previous := row.current;
    var number := if previous.Some? then s.revisions[previous.value].number + 1 else 1;
    var channels := s.settings[settings].input.channels;
    if number > MAX_REVISIONS || TextBytes(s.revisions, item) + draft.bytes > MAX_STORED_TEXT_BYTES then Err(LimitReached)
    else if !Selectable(draft, channels, languages) then Err(Invalid)
    else
      var opens := previous.None? || row.current == row.approved;
      var base := if opens then row.approved else s.revisions[previous.value].baseApproved;
      var round := if opens then |s.revisions| else s.revisions[previous.value].round;
      var revision := Revision(e, item, number, previous, base, round, settings, draft.headline, draft.body, draft.language, draft.bytes);
      Ok(NewRevision(item, revision, CopyRows(e, |s.revisions|, channels, draft.copies)))
  }

  /** The write of a command: its change, or the refusal of the first guard that fails. */
  function Write(s: State, e: Evidence, env: Env, c: Command): Result<Change, Error> {
    match c
    case UpdateSettings(x, expected) =>
      if !WritesOpen(s, env, true) then Err(StateConflict)
      else if s.control.settingsVersion != expected then Err(VersionConflict)
      else if RenamesAny(s.settings, x.channels) then Err(Invalid)
      else if x.reviewOn < env.today then Err(Invalid)
      else Ok(NewSettings(SettingsRow(e, s.control.settingsVersion + 1, x)))
    case SetStopped(stopped, expected, _) =>
      if !WritesOpen(s, env, true) then Err(StateConflict)
      else if s.control.settingsVersion != expected then Err(VersionConflict)
      else if s.control.stopped == stopped then Err(StateConflict)
      else if !stopped then
        match CurrentSettings(s.(control := s.control.(stopped := false)), env)
        case Err(f) => Err(f)
        case Ok(_) => Ok(NewStop(false))
      else Ok(NewStop(true))
    case Create(draft, expected) =>
      (match CurrentSettings(s, env)
       case Err(f) => Err(f)
       case Ok(settings) =>
         if s.control.settingsVersion != expected then Err(VersionConflict)
         else WriteRevision(s, e, |s.items|, Item(1, Draft, None, None), draft, settings, env.languages))
    case Revise(item, draft, expected, expectedSettings, _) =>
      (match CurrentSettings(s, env)
       case Err(f) => Err(f)
       case Ok(settings) =>
         if s.control.settingsVersion != expectedSettings then Err(VersionConflict)
         else
           match LockedItem(s, item, expected)
           case Err(f) => Err(f)
           case Ok(row) =>
             if row.status == Cancelled then Err(StateConflict)
             else if row.current.Some? && row.current.value >= |s.revisions| then Err(Unavailable)
             else
               match WriteRevision(s, e, item, row, draft, settings, env.languages)
               case Err(f) => Err(f)
               case Ok(change) => if CanAdvance(row) then Ok(change) else Err(LimitReached))
    case RequestReview(item, expected) =>
      (match CurrentSettings(s, env)
       case Err(f) => Err(f)
       case Ok(_) =>
         match LockedItem(s, item, expected)
         case Err(f) => Err(f)
         case Ok(row) =>
           if row.status != Draft || row.current.None? || Reviewed(s.reviews, row.current.value) then Err(StateConflict)
           else if !CanAdvance(row) then Err(LimitReached)
           else Ok(NewStatus(item, InReview, RevisionRef(row.current.value))))
    case Decide(item, revision, expected, decision, note) =>
      (match CurrentSettings(s, env)
       case Err(f) => Err(f)
       case Ok(_) =>
         match LockedItem(s, item, expected)
         case Err(f) => Err(f)
         case Ok(row) =>
           if row.status != InReview || row.current != Some(revision) || revision >= |s.revisions| then Err(StateConflict)
           else if WroteIn(s.revisions, item, s.revisions[revision].round, e.actor) then Err(Denied)
           else if !CanAdvance(row) then Err(LimitReached)
           else Ok(NewReview(item, Review(e, revision, decision, note))))
    case RecordPublication(item, variant, expected, url, at) =>
      if !WritesOpen(s, env, true) then Err(StateConflict)
      else
        (match LockedItem(s, item, expected)
         case Err(f) => Err(f)
         case Ok(row) =>
           if ItemOfVariant(s, variant) != Some(item) || !Endorsed(s.reviews, s.variants[variant].revision) then Err(Unavailable)
           else if HasReport(s.reports, variant) then Err(StateConflict)
           else if ReportCount(s, item, |s.reports|) >= MAX_REPORTS || !CanAdvance(row) then Err(LimitReached)
           else Ok(NewReport(item, Report(e, variant, None, false, url, at, ""))))
    case CorrectPublication(item, report, expected, withdrawn, reason, url, at) =>
      if !WritesOpen(s, env, true) then Err(StateConflict)
      else
        (match LockedItem(s, item, expected)
         case Err(f) => Err(f)
         case Ok(row) =>
           if report >= |s.reports| || ItemOfVariant(s, s.reports[report].variant) != Some(item) || Replaced(s.reports, report)
           then Err(StateConflict)
           else if ReportCount(s, item, |s.reports|) >= MAX_REPORTS || !CanAdvance(row) then Err(LimitReached)
           else Ok(NewReport(item, Report(e, s.reports[report].variant, Some(report), withdrawn, url, at, reason))))
    case Cancel(item, expected, _) =>
      if !WritesOpen(s, env, true) then Err(StateConflict)
      else
        match LockedItem(s, item, expected)
        case Err(f) => Err(f)
        case Ok(row) =>
          if row.status == Cancelled then Err(StateConflict)
          else if !CanAdvance(row) then Err(LimitReached)
          else Ok(NewStatus(item, Cancelled, ItemRef(item)))
  }

  // Effects.

  /** The changed announcement, or the new one. */
  function Moved(s: State, x: Change): Item
    requires !x.NewSettings? && !x.NewStop?
  {
    if x.item >= |s.items| then Item(1, Draft, Some(|s.revisions|), None)
    else
      var row := s.items[x.item];
      match x
      case NewRevision(_, _, _) => Item(row.version + 1, Draft, Some(|s.revisions|), row.approved)
      case NewStatus(_, status, _) => Item(row.version + 1, status, row.current, row.approved)
      case NewReview(_, review) =>
        if review.decision == Approve then Item(row.version + 1, Approved, row.current, Some(review.revision))
        else Item(row.version + 1, ChangesRequested, row.current, row.approved)
      case NewReport(_, _) => row.(version := row.version + 1)
  }

  function PutItem(items: seq<Item>, i: Id, row: Item): seq<Item> {
    if i < |items| then items[i := row] else items + [row]
  }

  function Apply(s: State, x: Change): State {
    match x
    case NewSettings(row) =>
      s.(settings := s.settings + [row],
         control := s.control.(settingsVersion := s.control.settingsVersion + 1, currentSettings := Some(|s.settings|)))
    case NewStop(stopped) =>
      s.(control := s.control.(settingsVersion := s.control.settingsVersion + 1, stopped := stopped))
    case NewRevision(item, revision, copies) =>
      s.(items := PutItem(s.items, item, Moved(s, x)), revisions := s.revisions + [revision], variants := s.variants + copies)
    case NewStatus(item, _, _) =>
      s.(items := PutItem(s.items, item, Moved(s, x)))
    case NewReview(item, review) =>
      s.(items := PutItem(s.items, item, Moved(s, x)), reviews := s.reviews + [review])
    case NewReport(item, report) =>
      s.(items := PutItem(s.items, item, Moved(s, x)), reports := s.reports + [report])
  }

  function ItemOf(x: Change): Option<Id> {
    match x case NewSettings(_) => None case NewStop(_) => None case _ => Some(x.item)
  }

  function SubjectOf(s: State, x: Change): ObjectRef {
    match x
    case NewSettings(_) => SettingsRef(|s.settings|)
    case NewStop(_) => ControlRef
    case NewRevision(item, _, _) => if item < |s.items| then RevisionRef(|s.revisions|) else ItemRef(item)
    case NewStatus(_, _, subject) => subject
    case NewReview(_, _) => ReviewRef(|s.reviews|)
    case NewReport(_, _) => ReportRef(|s.reports|)
  }

  function VersionAfter(s: State, x: Change): nat {
    if x.NewSettings? || x.NewStop? then s.control.settingsVersion + 1 else Moved(s, x).version
  }

  /** Commit a change with its receipt and its event. */
  function Commit(s: State, x: Change, req: Request, at: int): State {
    var n := s.control.sequence + 1;
    var t := Apply(s, x);
    t.(control := t.control.(sequence := n),
       receipts := s.receipts + [Receipt(req.actor, req.key, req.intent, n, ItemOf(x), SubjectOf(s, x), VersionAfter(s, x), at)],
       events := s.events + [Event(n, OperationOf(req.intent.command))])
  }

  /** The receipt of an earlier command under the same retry key. */
  function FindReceipt(receipts: seq<Receipt>, actor: Id, key: Id): (r: Option<Id>)
    ensures r.Some? ==> r.value < |receipts| && receipts[r.value].actor == actor && receipts[r.value].key == key
    ensures r.Some? ==> forall k | 0 <= k < r.value :: receipts[k].actor != actor || receipts[k].key != key
    ensures r.None? ==> forall k | 0 <= k < |receipts| :: receipts[k].actor != actor || receipts[k].key != key
  {
    if receipts == [] then None
    else
      var n := |receipts| - 1;
      var r := FindReceipt(receipts[..n], actor, key);
      if r.Some? then r
      else if receipts[n].actor == actor && receipts[n].key == key then Some(n)
      else None
  }

  function ReplyOf(receipts: seq<Receipt>, k: Id, replayed: bool): Reply
    requires k < |receipts|
  {
    Reply(k, receipts[k].subject, receipts[k].version, receipts[k].item, replayed)
  }

  function EvidenceOf(s: State, req: Request, env: Env): Evidence {
    Evidence(req.actor, env.now, |s.receipts|)
  }

  /** The change an unreplayed command commits, or its refusal. */
  function Attempt(s: State, req: Request, env: Env): Result<Change, Error> {
    if s.control.sequence >= MAX_SEQUENCE then Err(LimitReached)
    else
      match Write(s, EvidenceOf(s, req, env), env, req.intent.command)
      case Err(f) => Err(f)
      case Ok(x) =>
        if !env.stillAdmitted then Err(Denied)
        else if ItemOf(x).Some? && !env.evidenceFits then Err(LimitReached)
        else Ok(x)
  }

  predicate Admissible(req: Request, env: Env) {
    env.admitted && WellFormed(req.intent.command, env.now) && env.ready
  }

  /** `execute`: the state after the command and its answer. A refusal changes nothing. */
  function Step(s: State, req: Request, env: Env): (State, Result<Reply, Error>) {
    if !env.admitted then (s, Err(Denied))
    else if !WellFormed(req.intent.command, env.now) then (s, Err(Invalid))
    else if !env.ready then (s, Err(NotReady))
    else
      match FindReceipt(s.receipts, req.actor, req.key)
      case Some(k) =>
        if s.receipts[k].intent != req.intent then (s, Err(RetryConflict))
        else (s, Ok(ReplyOf(s.receipts, k, true)))
      case None =>
        match Attempt(s, req, env)
        case Err(f) => (s, Err(f))
        case Ok(x) =>
          var t := Commit(s, x, req, env.now);
          (t, Ok(ReplyOf(t.receipts, |s.receipts|, false)))
  }

  /** A call: a request and the outside facts it meets. */
  datatype Call = Call(request: Request, env: Env)

  function Run(s: State, calls: seq<Call>): State {
    if calls == [] then s
    else
      var last := calls[|calls| - 1];
      Step(Run(s, calls[..|calls| - 1]), last.request, last.env).0
  }
}
