/** The accreditation store: credentials, devices and registrations updated in place, and
    evidence appended, by the four commands. Each is proved to do exactly what the protocol
    step of that command says. */
module AccreditationDesk {
  import opened Wrappers
  import opened Accreditation
  import opened AccreditationInvariants
  import opened AccreditationTheorems

  class Desk {
    var registrations: seq<Registration>
    var credentials: seq<Credential>
    var events: seq<CredentialEvent>
    var devices: map<string, Device>
    var manifests: seq<Manifest>
    var operations: seq<Operation>
    var checkIns: seq<CheckIn>

    function View(): State
      reads this
    {
      State(registrations, credentials, events, devices, manifests, operations, checkIns)
    }

    /** The store holds what some interleaving of commands and outside changes left. */
    ghost predicate Valid()
      reads this
    {
      Reachable(View())
    }

    constructor ()
      ensures View() == Empty && Valid()
    {
      registrations, credentials, events, devices := [], [], [], map[];
      manifests, operations, checkIns := [], [], [];
      new;
      assert View() == Run(Empty, []);
    }

    /** `issue_credential`: the current credential is replaced first; when the successor then
        breaks a uniqueness constraint, the transaction restores it. */
    method IssueCredential(a: Action) returns (r: Result<Answer, Error>)
      requires Valid() && a.Issue?
      modifies `credentials, `events
      ensures Valid()
      ensures (View(), r) == Step(old(View()), a)
    {
      StepIsReachable(View(), a);
      r := ReplaceAndIssue(a);
    }

    method ReplaceAndIssue(a: Action) returns (r: Result<Answer, Error>)
      requires a.Issue?
      modifies `credentials, `events
      ensures (View(), r) == DoIssue(old(View()), a)
    {
      if !a.allowed {
        return Err(Denied);
      }
      if a.reason == "" {
        return Err(Invalid);
      }
      if a.registration >= |registrations| {
        return Err(NotFound);
      }
      var holder := registrations[a.registration];
      if (holder.state != Confirmed && holder.state != CheckedIn) || !holder.entitled {
        return Err(Invalid);
      }
      var saved := credentials;
      var current := FindIssued(credentials, a.registration);
      var sequence := MaxSequence(credentials, a.registration) + 1;
      var kind := WasIssued;
      if current.Some? {
        var row := credentials[current.value];
        credentials := credentials[current.value := row.(status := Replaced, revokedAt := Some(a.now), revokedBy := Some(a.actor), revocationReason := a.reason)];
        kind := WasReprinted;
      }
      if FindDigest(saved, Digest(a.token)).Some? || PublicIdTaken(saved, a.publicId) {
        credentials := saved;
        return Err(Invalid);
      }
      var id := |credentials|;
      credentials := credentials + [Credential(a.registration, holder.account, a.publicId, Digest(a.token), Issued, sequence,
                                               holder.product, a.now, a.actor, None, None, "")];
      events := events + [CredentialEvent(id, kind, a.now, Account(a.actor))];
      r := Ok(CredentialAnswer(id));
    }

    /** `revoke_credential` */
    method RevokeCredential(a: Action) returns (r: Result<Answer, Error>)
      requires Valid() && a.Revoke?
      modifies `credentials, `events
      ensures Valid()
      ensures (View(), r) == Step(old(View()), a)
    {
      StepIsReachable(View(), a);
      if !a.allowed {
        return Err(Denied);
      }
      if a.reason == "" {
        return Err(Invalid);
      }
      if a.credential >= |credentials| {
        return Err(NotFound);
      }
      var row := credentials[a.credential];
      if row.status == Issued {
        credentials := credentials[a.credential := row.(status := Revoked, revokedAt := Some(a.now), revokedBy := Some(a.actor), revocationReason := a.reason)];
        events := events + [CredentialEvent(a.credential, WasRevoked, a.now, Account(a.actor))];
      }
      r := Ok(CredentialAnswer(a.credential));
    }

    /** `generate_offline_manifest` */
    method GenerateManifest(a: Action) returns (r: Result<Answer, Error>)
      requires Valid() && a.Snapshot?
      modifies `manifests
      ensures Valid()
      ensures (View(), r) == Step(old(View()), a)
      ensures r.Ok? ==> manifests[|manifests| - 1].sequence == |manifests|
    {
      ReachableIsValid(View());
      MaxManifestIsLength(manifests);
      StepIsReachable(View(), a);
      if !a.allowed {
        return Err(Denied);
      }
      if !a.configured {
        return Err(Invalid);
      }
      var sequence := MaxManifest(manifests) + 1;
      var rows := ManifestRows(credentials, registrations);
      manifests := manifests + [Manifest(sequence, a.now, a.now + MANIFEST_LIFETIME, a.actor, rows)];
      r := Ok(ManifestAnswer(|manifests| - 1));
    }

    // What happens elsewhere: registrations, the staff console and the device inventory.

    method Register(a: Action) returns (r: Result<Answer, Error>)
      requires Valid() && a.Register?
      modifies `registrations
      ensures Valid()
      ensures (View(), r) == Step(old(View()), a)
    {
      StepIsReachable(View(), a);
      if a.state == CheckedIn {
        return Err(Invalid);
      }
      registrations := registrations + [Registration(a.account, a.product, a.state, a.entitled, None, 1)];
      r := Ok(Done);
    }

    method ChangeRegistration(a: Action) returns (r: Result<Answer, Error>)
      requires Valid() && a.ChangeRegistration?
      modifies `registrations
      ensures Valid()
      ensures (View(), r) == Step(old(View()), a)
    {
      StepIsReachable(View(), a);
      if a.registration >= |registrations| || (registrations[a.registration].state == CheckedIn) != (a.state == CheckedIn) {
        return Err(Invalid);
      }
      var row := registrations[a.registration];
      registrations := registrations[a.registration := row.(state := a.state, entitled := a.entitled, version := row.version + 1)];
      r := Ok(Done);
    }

    method StaffCheckIn(a: Action) returns (r: Result<Answer, Error>)
      requires Valid() && a.StaffCheckIn?
      modifies `registrations, `checkIns
      ensures Valid()
      ensures (View(), r) == Step(old(View()), a)
    {
      StepIsReachable(View(), a);
      if a.registration >= |registrations| {
        return Err(NotFound);
      }
      var row := registrations[a.registration];
      if row.state == CheckedIn {
        return Ok(Done);
      }
      if row.state != Confirmed {
        return Err(Invalid);
      }
      registrations := registrations[a.registration := row.(state := CheckedIn, checkedInAt := Some(a.now), version := row.version + 1)];
      checkIns := checkIns + [CheckIn(a.registration, Account(a.actor), a.now, StaffConsole)];
      r := Ok(Done);
    }

    method SetDevice(a: Action) returns (r: Result<Answer, Error>)
      requires Valid() && a.SetDevice?
      modifies `devices
      ensures Valid()
      ensures (View(), r) == Step(old(View()), a)
    {
      StepIsReachable(View(), a);
      var last := if a.code in devices then devices[a.code].lastSequence else 0;
      devices := devices[a.code := Device(a.enabled, a.revoked, last)];
      r := Ok(Done);
    }

    /** The branch that applies a check-in. */
    method ApplyCheckIn(c: Id, x: Submission)
      requires c < |credentials| && credentials[c].registration < |registrations|
      modifies `registrations, `checkIns, `events
      ensures View() == Arrive(old(View()), c, x)
    {
      var id := credentials[c].registration;
      var row := registrations[id];
      registrations := registrations[id := row.(state := CheckedIn, checkedInAt := Some(x.occurredAt), version := row.version + 1)];
      checkIns := checkIns + [CheckIn(id, Relay(x.device), x.occurredAt, OfflineRelay)];
      events := events + [CredentialEvent(c, WasVerified, x.occurredAt, Relay(x.device))];
    }

    /** `reconcile_offline_check_in`. A negative manifest sequence is one the record's own
        validation refuses; a second check-in record for a registration cannot arise. */
    method ReconcileCheckIn(x: Submission) returns (r: Result<Answer, Error>)
      requires Valid()
      modifies this
      ensures Valid()
      ensures (View(), r) == Step(old(View()), Reconcile(x))
    {
      StepIsReachable(View(), Reconcile(x));
      ReachableIsValid(View());
      if !x.admitted {
        return Err(ProfileNotAllowed);
      }
      if x.device !in devices || !devices[x.device].enabled || devices[x.device].revoked {
        return Err(NotFound);
      }
      var existing := FindOperation(operations, x.device, x.operationId);
      if existing.Some? {
        return Ok(OperationAnswer(existing.value));
      }
      if !x.signed {
        return Err(BadSignature);
      }
      if x.deviceSequence != devices[x.device].lastSequence + 1 {
        return Err(SequenceConflict);
      }
      if x.manifestSequence < 0 {
        return Err(Invalid);
      }
      NoRecordBeforeArrival(View(), x);
      r := RecordVerdict(x);
    }

    /** The verdict, its effect and its record. */
    method RecordVerdict(x: Submission) returns (r: Result<Answer, Error>)
      requires Refusal(View(), x).None? && Marked(credentials, |registrations|)
      modifies this
      ensures View() == RecordOperation(old(View()), x) && r == Ok(OperationAnswer(|old(operations)|))
    {
      var manifest := FindManifest(manifests, x.manifestSequence);
      var found := FindDigest(credentials, Digest(x.token));
      var publicId := if found.Some? then credentials[found.value].publicId else "unknown";
      var outcome, code;
      if manifest.None? || !(manifests[manifest.value].validFrom <= x.occurredAt < manifests[manifest.value].validUntil) {
        outcome, code := Rejected, ManifestInvalid;
      } else if found.None? {
        outcome, code := Rejected, CredentialUnknown;
      } else if !Lists(manifests[manifest.value], credentials[found.value].digest) {
        outcome, code := Conflict, NotInManifest;
      } else if credentials[found.value].status != Issued {
        outcome, code := Conflict, RevokedOrReplaced;
      } else if registrations[credentials[found.value].registration].state == CheckedIn {
        outcome, code := Duplicate, AlreadyCheckedIn;
      } else if registrations[credentials[found.value].registration].state != Confirmed {
        outcome, code := Conflict, NotConfirmed;
      } else {
        ApplyCheckIn(found.value, x);
        outcome, code := Applied, CheckInApplied;
      }
      operations := operations + [Operation(x.device, x.operationId, x.deviceSequence, x.manifestSequence, publicId,
                                            x.occurredAt, x.receivedAt, outcome, code, found)];
      devices := devices[x.device := devices[x.device].(lastSequence := x.deviceSequence)];
      r := Ok(OperationAnswer(|operations| - 1));
    }
  }

  /** An unarrived registration has no check-in record yet. */
  lemma NoRecordBeforeArrival(s: State, x: Submission)
    requires Inv(s)
    ensures Judge(s, x).1 == Applied ==>
              !HasCheckIn(s.checkIns, s.credentials[FindDigest(s.credentials, Digest(x.token)).value].registration)
  {
  }
}
