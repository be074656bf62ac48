/** `maru.accreditation`: attendee credentials and the reconciliation of check-ins relayed by
    offline devices, for one edition. Row locks make every command one atomic step. Rows are
    identified by their position; the verifier digest is injective, so it is kept as the
    token it was made from. Registrations also change elsewhere: those steps are modelled as
    the environment's, and none of them leaves `CheckedIn`. */
module Accreditation {
  import opened Wrappers
  import opened TextOrder
  import opened Sorting

  type Id = nat

  const MANIFEST_LIFETIME := 12 * 60 * 60

  datatype Digest = Digest(token: string)

  datatype CredentialStatus = Issued | Replaced | Revoked

  datatype Credential = Credential(registration: Id, account: Id, publicId: string, digest: Digest, status: CredentialStatus,
                                   issueSequence: nat, caption: string, issuedAt: int, issuedBy: Id,
                                   revokedAt: Option<int>, revokedBy: Option<Id>, revocationReason: string)

  datatype EventKind = WasIssued | WasReprinted | WasRevoked | WasVerified

  datatype Actor = Account(id: Id) | Relay(code: string)

  datatype CredentialEvent = CredentialEvent(credential: Id, kind: EventKind, at: int, actor: Actor)

  datatype Device = Device(enabled: bool, revoked: bool, lastSequence: nat)

  /** A signed manifest row exposes the public id and the digest of an issued credential. */
  datatype ManifestRow = ManifestRow(publicId: string, digest: Digest)

  datatype Manifest = Manifest(sequence: nat, validFrom: int, validUntil: int, generatedBy: Id, rows: seq<ManifestRow>)

  datatype Outcome = Applied | Duplicate | Conflict | Rejected

  datatype ResultCode = ManifestInvalid | CredentialUnknown | NotInManifest | RevokedOrReplaced
                      | AlreadyCheckedIn | NotConfirmed | CheckInApplied

  datatype Operation = Operation(device: string, operationId: Id, deviceSequence: nat, manifestSequence: nat, publicId: string,
                                 occurredAt: int, receivedAt: int, outcome: Outcome, code: ResultCode, credential: Option<Id>)

  datatype RegistrationState = GuardianPending | Waitlisted | PaymentPending | Confirmed | CheckedIn | Expired | Cancelled

  datatype Registration = Registration(account: Id, product: string, state: RegistrationState, entitled: bool,
                                       checkedInAt: Option<int>, version: nat)

  datatype Method = StaffConsole | OfflineRelay

  datatype CheckIn = CheckIn(registration: Id, actor: Actor, at: int, via: Method)

  datatype State = State(registrations: seq<Registration>, credentials: seq<Credential>, events: seq<CredentialEvent>,
                         devices: map<string, Device>, manifests: seq<Manifest>, operations: seq<Operation>, checkIns: seq<CheckIn>)

  const Empty := State([], [], [], map[], [], [], [])

  datatype Error = Denied | Invalid | NotFound | ProfileNotAllowed | BadSignature | SequenceConflict

  /** A submission of an offline device; `admitted` is the edition profile's verdict and
      `signed` that of the signature check. */
  datatype Submission = Submission(device: string, operationId: Id, deviceSequence: int, manifestSequence: int, token: string,
                                   occurredAt: int, receivedAt: int, admitted: bool, signed: bool)

  datatype Action =
    | Issue(actor: Id, allowed: bool, registration: Id, reason: string, now: int, token: string, publicId: string)
    | Revoke(actor: Id, allowed: bool, credential: Id, reason: string, now: int)
    | Snapshot(actor: Id, allowed: bool, configured: bool, now: int)
    | Reconcile(submission: Submission)
    // The environment: registrations and devices managed elsewhere.
    | Register(account: Id, product: string, state: RegistrationState, entitled: bool)
    | ChangeRegistration(registration: Id, state: RegistrationState, entitled: bool)
    | StaffCheckIn(registration: Id, actor: Id, now: int)
    | SetDevice(code: string, enabled: bool, revoked: bool)

  /** The row a command answers with. */
  datatype Answer = CredentialAnswer(id: Id) | ManifestAnswer(id: Id) | OperationAnswer(id: Id) | Done

  // ---- Lookups.

  predicate MayHoldCredential(r: Registration) {
    (r.state == Confirmed || r.state == CheckedIn) && r.entitled
  }

  function FindIssued(credentials: seq<Credential>, registration: Id): (r: Option<Id>)
    ensures r.Some? ==> r.value < |credentials| && credentials[r.value].registration == registration && credentials[r.value].status == Issued
    ensures r.None? ==> forall c | 0 <= c < |credentials| :: credentials[c].registration != registration || credentials[c].status != Issued
  {
    if credentials == [] then None
    else
      var n := |credentials| - 1;
      var rest := FindIssued(credentials[..n], registration);
      if rest.Some? then rest
      else if credentials[n].registration == registration && credentials[n].status == Issued then Some(n) else None
  }

  /** `Max("issue_sequence") or 0` */
  function MaxSequence(credentials: seq<Credential>, registration: Id): nat {
    if credentials == [] then 0
    else
      var n := |credentials| - 1;
      var rest := MaxSequence(credentials[..n], registration);
      if credentials[n].registration == registration && credentials[n].issueSequence > rest then credentials[n].issueSequence else rest
  }

  function FindDigest(credentials: seq<Credential>, digest: Digest): (r: Option<Id>)
    ensures r.Some? ==> r.value < |credentials| && credentials[r.value].digest == digest
    ensures r.None? ==> forall c | 0 <= c < |credentials| :: credentials[c].digest != digest
  {
    if credentials == [] then None
    else
      var n := |credentials| - 1;
      if credentials[n].digest == digest then Some(n) else FindDigest(credentials[..n], digest)
  }

  predicate PublicIdTaken(credentials: seq<Credential>, publicId: string) {
    exists c | 0 <= c < |credentials| :: credentials[c].publicId == publicId
  }

  function FindManifest(manifests: seq<Manifest>, sequence: int): (r: Option<Id>)
    ensures r.Some? ==> r.value < |manifests| && manifests[r.value].sequence == sequence
    ensures r.None? ==> forall m | 0 <= m < |manifests| :: manifests[m].sequence != sequence
  {
    if manifests == [] then None
    else
      var n := |manifests| - 1;
      if manifests[n].sequence == sequence then Some(n) else FindManifest(manifests[..n], sequence)
  }

  function MaxManifest(manifests: seq<Manifest>): nat {
    if manifests == [] then 0
    else
      var n := |manifests| - 1;
      var rest := MaxManifest(manifests[..n]);
      if manifests[n].sequence > rest then manifests[n].sequence else rest
  }

  function FindOperation(operations: seq<Operation>, device: string, operationId: Id): (r: Option<Id>)
    ensures r.Some? ==> r.value < |operations| && operations[r.value].device == device && operations[r.value].operationId == operationId
    ensures r.None? ==> forall p | 0 <= p < |operations| :: operations[p].device != device || operations[p].operationId != operationId
  {
    if operations == [] then None
    else
      var n := |operations| - 1;
      var rest := FindOperation(operations[..n], device, operationId);
      if rest.Some? then rest
      else if operations[n].device == device && operations[n].operationId == operationId then Some(n) else None
  }

  predicate HasCheckIn(checkIns: seq<CheckIn>, registration: Id) {
    exists k | 0 <= k < |checkIns| :: checkIns[k].registration == registration
  }

  predicate Lists(m: Manifest, digest: Digest) {
    exists k | 0 <= k < |m.rows| :: m.rows[k].digest == digest
  }

  predicate ByPublicId(a: ManifestRow, b: ManifestRow) { TextLeq(a.publicId, b.publicId) }

  /** The issued credentials of admissible registrations, ordered by public id. */
  function ManifestRows(credentials: seq<Credential>, registrations: seq<Registration>): seq<ManifestRow> {
    Sort(ByPublicId, IssuedRows(credentials, registrations))
  }

  predicate Admissible(registrations: seq<Registration>, r: Id) {
    r < |registrations| && (registrations[r].state == Confirmed || registrations[r].state == CheckedIn)
  }

  function IssuedRows(credentials: seq<Credential>, registrations: seq<Registration>): seq<ManifestRow> {
    if credentials == [] then []
    else
      var n := |credentials| - 1;
      var c := credentials[n];
      var rest := IssuedRows(credentials[..n], registrations);
      if c.status == Issued && Admissible(registrations, c.registration)
      then rest + [ManifestRow(c.publicId, c.digest)] else rest
  }

  // ---- Commands.

  function Withdraw(c: Credential, status: CredentialStatus, at: int, actor: Id, reason: string): Credential {
    c.(status := status, revokedAt := Some(at), revokedBy := Some(actor), revocationReason := reason)
  }

  /** The credentials with the registration's issued one, if any, marked as replaced. */
  function ReplaceCurrent(credentials: seq<Credential>, registration: Id, now: int, actor: Id, reason: string): seq<Credential> {
    match FindIssued(credentials, registration)
    case None => credentials
    case Some(i) => credentials[i := Withdraw(credentials[i], Replaced, now, actor, reason)]
  }

  /** `issue_credential` */
  function DoIssue(s: State, a: Action): (State, Result<Answer, Error>)
    requires a.Issue?
  {
    if !a.allowed then (s, Err(Denied))
    else if a.reason == "" then (s, Err(Invalid))
    else if a.registration >= |s.registrations| then (s, Err(NotFound))
    else if !MayHoldCredential(s.registrations[a.registration]) then (s, Err(Invalid))
    else if FindDigest(s.credentials, Digest(a.token)).Some? || PublicIdTaken(s.credentials, a.publicId) then (s, Err(Invalid))
    else
      var reprint := FindIssued(s.credentials, a.registration).Some?;
      var sequence := MaxSequence(s.credentials, a.registration) + 1;
      var holder := s.registrations[a.registration];
      var successor := Credential(a.registration, holder.account, a.publicId, Digest(a.token), Issued, sequence, holder.product,
                                  a.now, a.actor, None, None, "");
      var event := CredentialEvent(|s.credentials|, if reprint then WasReprinted else WasIssued, a.now, Account(a.actor));
      (s.(credentials := ReplaceCurrent(s.credentials, a.registration, a.now, a.actor, a.reason) + [successor],
          events := s.events + [event]),
       Ok(CredentialAnswer(|s.credentials|)))
  }

  /** `revoke_credential`; a credential no longer issued is returned as it is. */
  function DoRevoke(s: State, a: Action): (State, Result<Answer, Error>)
    requires a.Revoke?
  {
    if !a.allowed then (s, Err(Denied))
    else if a.reason == "" then (s, Err(Invalid))
    else if a.credential >= |s.credentials| then (s, Err(NotFound))
    else if s.credentials[a.credential].status != Issued then (s, Ok(CredentialAnswer(a.credential)))
    else
      (s.(credentials := s.credentials[a.credential := Withdraw(s.credentials[a.credential], Revoked, a.now, a.actor, a.reason)],
          events := s.events + [CredentialEvent(a.credential, WasRevoked, a.now, Account(a.actor))]),
       Ok(CredentialAnswer(a.credential)))
  }

  /** `generate_offline_manifest` */
  function DoSnapshot(s: State, a: Action): (State, Result<Answer, Error>)
    requires a.Snapshot?
  {
    if !a.allowed then (s, Err(Denied))
    else if !a.configured then (s, Err(Invalid))
    else
      var manifest := Manifest(MaxManifest(s.manifests) + 1, a.now, a.now + MANIFEST_LIFETIME, a.actor,
                               ManifestRows(s.credentials, s.registrations));
      (s.(manifests := s.manifests + [manifest]), Ok(ManifestAnswer(|s.manifests|)))
  }

  /** The verdict on an authentic submission, in the order the checks are made. */
  function Judge(s: State, x: Submission): (ResultCode, Outcome) {
    var manifest := FindManifest(s.manifests, x.manifestSequence);
    var found := FindDigest(s.credentials, Digest(x.token));
    if manifest.None? || !(s.manifests[manifest.value].validFrom <= x.occurredAt < s.manifests[manifest.value].validUntil)
    then (ManifestInvalid, Rejected)
    else if found.None? then (CredentialUnknown, Rejected)
    else
      var c := s.credentials[found.value];
      if !Lists(s.manifests[manifest.value], c.digest) then (NotInManifest, Conflict)
      else if c.status != Issued then (RevokedOrReplaced, Conflict)
      else if c.registration >= |s.registrations| then (NotConfirmed, Conflict)
      else if s.registrations[c.registration].state == CheckedIn then (AlreadyCheckedIn, Duplicate)
      else if s.registrations[c.registration].state != Confirmed then (NotConfirmed, Conflict)
      else (CheckInApplied, Applied)
  }

  function OperationRow(s: State, x: Submission): Operation
    requires x.deviceSequence >= 0 && x.manifestSequence >= 0
  {
    var found := FindDigest(s.credentials, Digest(x.token));
    var verdict := Judge(s, x);
    Operation(x.device, x.operationId, x.deviceSequence, x.manifestSequence,
              if found.Some? then s.credentials[found.value].publicId else "unknown",
              x.occurredAt, x.receivedAt, verdict.1, verdict.0, found)
  }

  /** The arrival an applied operation records. */
  function Arrive(s: State, c: Id, x: Submission): State
    requires c < |s.credentials| && s.credentials[c].registration < |s.registrations|
  {
    var r := s.credentials[c].registration;
    var row := s.registrations[r];
    s.(registrations := s.registrations[r := row.(state := CheckedIn, checkedInAt := Some(x.occurredAt), version := row.version + 1)],
       checkIns := s.checkIns + [CheckIn(r, Relay(x.device), x.occurredAt, OfflineRelay)],
       events := s.events + [CredentialEvent(c, WasVerified, x.occurredAt, Relay(x.device))])
  }

  /** Why a submission is refused before any operation is recorded, if it is. */
  function Refusal(s: State, x: Submission): Option<Error> {
    if !x.signed then Some(BadSignature)
    else if x.device !in s.devices || x.deviceSequence != s.devices[x.device].lastSequence + 1 then Some(SequenceConflict)
    else if x.manifestSequence < 0 then Some(Invalid)
    else if Judge(s, x).1 == Applied && HasCheckIn(s.checkIns, s.credentials[FindDigest(s.credentials, Digest(x.token)).value].registration)
    then Some(Invalid)
    else None
  }

  /** Record a submission that is not refused. */
  function RecordOperation(s: State, x: Submission): State
    requires Refusal(s, x).None?
  {
    var operation := OperationRow(s, x);
    var t := if operation.outcome == Applied then Arrive(s, operation.credential.value, x) else s;
    t.(operations := s.operations + [operation],
       devices := s.devices[x.device := s.devices[x.device].(lastSequence := x.deviceSequence)])
  }

  /** `reconcile_offline_check_in`; a recorded operation id returns the stored operation. */
  function DoReconcile(s: State, x: Submission): (State, Result<Answer, Error>) {
    if !x.admitted then (s, Err(ProfileNotAllowed))
    else if x.device !in s.devices || !s.devices[x.device].enabled || s.devices[x.device].revoked then (s, Err(NotFound))
    else
      match FindOperation(s.operations, x.device, x.operationId)
      case Some(p) => (s, Ok(OperationAnswer(p)))
      case None =>
        match Refusal(s, x)
        case Some(f) => (s, Err(f))
        case None => (RecordOperation(s, x), Ok(OperationAnswer(|s.operations|)))
  }

  /** One step of the whole system. */
  function Step(s: State, a: Action): (State, Result<Answer, Error>) {
    match a
    case Issue(_, _, _, _, _, _, _) => DoIssue(s, a)
    case Revoke(_, _, _, _, _) => DoRevoke(s, a)
    case Snapshot(_, _, _, _) => DoSnapshot(s, a)
    case Reconcile(x) => DoReconcile(s, x)
    case Register(account, product, state, entitled) =>
      if state == CheckedIn then (s, Err(Invalid))
      else (s.(registrations := s.registrations + [Registration(account, product, state, entitled, None, 1)]), Ok(Done))
    case ChangeRegistration(r, state, entitled) =>
      if r >= |s.registrations| || (s.registrations[r].state == CheckedIn) != (state == CheckedIn) then (s, Err(Invalid))
      else
        var row := s.registrations[r];
        (s.(registrations := s.registrations[r := row.(state := state, entitled := entitled, version := row.version + 1)]), Ok(Done))
    case StaffCheckIn(r, actor, now) =>
      if r >= |s.registrations| then (s, Err(NotFound))
      else if s.registrations[r].state == CheckedIn then (s, Ok(Done))
      else if s.registrations[r].state != Confirmed then (s, Err(Invalid))
      else
        var row := s.registrations[r];
        (s.(registrations := s.registrations[r := row.(state := CheckedIn, checkedInAt := Some(now), version := row.version + 1)],
            checkIns := s.checkIns + [CheckIn(r, Account(actor), now, StaffConsole)]), Ok(Done))
    case SetDevice(code, enabled, revoked) =>
      var last := if code in s.devices then s.devices[code].lastSequence else 0;
      (s.(devices := s.devices[code := Device(enabled, revoked, last)]), Ok(Done))
  }

  function Run(s: State, actions: seq<Action>): State {
    if actions == [] then s else Step(Run(s, actions[..|actions| - 1]), actions[|actions| - 1]).0
  }
}
