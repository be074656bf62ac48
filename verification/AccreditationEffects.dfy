/** Exactly when each accreditation command is accepted, exactly what it records, and what a
    refusal says. */
module AccreditationEffects {
  import opened Wrappers
  import opened TextOrder
  import opened Sorting
  import opened Accreditation
  import opened AccreditationInvariants
  import opened AccreditationTheorems

  // ---- Revocation.

  /** A revocation succeeds exactly when it is allowed, gives a reason and names a credential;
      one still issued is then withdrawn by this actor, at this time and for this reason, and
      one revocation event is published; nothing else changes. */
  lemma RevokesExactly(s: State, a: Action)
    requires a.Revoke?
    ensures Step(s, a).1.Ok? <==> a.allowed && a.reason != "" && a.credential < |s.credentials|
    ensures Step(s, a).1.Ok? ==>
              var t, c := Step(s, a).0, a.credential;
              && Step(s, a).1 == Ok(CredentialAnswer(c)) && |t.credentials| == |s.credentials|
              && (forall d | 0 <= d < |s.credentials| && d != c :: t.credentials[d] == s.credentials[d])
              && t == s.(credentials := t.credentials, events := t.events)
              && (s.credentials[c].status != Issued ==> t == s)
              && (s.credentials[c].status == Issued ==>
                    && t.credentials[c].status == Revoked && t.credentials[c].revokedAt == Some(a.now)
                    && t.credentials[c].revokedBy == Some(a.actor) && t.credentials[c].revocationReason == a.reason
                    && t.credentials[c].registration == s.credentials[c].registration
                    && t.events == s.events + [CredentialEvent(c, WasRevoked, a.now, Account(a.actor))])
    ensures Step(s, a).1.Err? ==> Step(s, a).0 == s
  {
  }

  /** After a successful revocation no run ever applies a check-in with that credential. */
  lemma RevokedIsNeverApplied(s: State, a: Action, actions: seq<Action>, p: Id)
    requires a.Revoke? && Step(s, a).1.Ok?
    requires var t := Step(s, a).0; |t.operations| <= p < |Run(t, actions).operations|
    ensures var u := Run(Step(s, a).0, actions);
            u.operations[p].credential == Some(a.credential) ==> u.operations[p].outcome != Applied
  {
    RevokesExactly(s, a);
    var t := Step(s, a).0;
    if Run(t, actions).operations[p].credential == Some(a.credential) {
      WithdrawnIsNeverApplied(t, actions, a.credential, p);
    }
  }

  /** Nor does a manifest generated from then on list it. */
  lemma RevokedIsNeverListed(s: State, a: Action, actions: seq<Action>, b: Action)
    requires Reachable(s) && a.Revoke? && Step(s, a).1.Ok? && b.Snapshot? && Step(Run(Step(s, a).0, actions), b).1.Ok?
    ensures var u := Step(Run(Step(s, a).0, actions), b).0;
            && a.credential < |s.credentials| && |u.manifests| > 0
            && !Lists(u.manifests[|u.manifests| - 1], s.credentials[a.credential].digest)
  {
    RevokesExactly(s, a);
    var t, c := Step(s, a).0, a.credential;
    var u := Run(t, actions);
    StepIsReachable(s, a);
    RunIsReachable(t, actions);
    ReachableIsValid(u);
    RecordsOnlyGrow(t, actions);
    assert Successor(t.credentials[c], u.credentials[c]);
    StepGrows(s, a);
    assert Successor(s.credentials[c], t.credentials[c]);
    ListedExactlyWhileIssued(u.credentials, u.registrations, c);
  }

  lemma RunIsReachable(s: State, actions: seq<Action>)
    requires Reachable(s)
    ensures Reachable(Run(s, actions))
  {
    var before: seq<Action> :| s == Run(Empty, before);
    RunConcat(Empty, before, actions);
  }

  // ---- Issues.

  /** What an accepted issue records of its holder and issuer, and the one event it publishes:
      a reprint exactly when a credential of the registration was still issued. */
  lemma IssueRecords(s: State, a: Action)
    requires Reachable(s) && a.Issue? && Issuable(s, a)
    ensures var t, n, r := Step(s, a).0, |s.credentials|, a.registration;
            && |t.credentials| == n + 1 && |t.events| == |s.events| + 1 && t.events[..|s.events|] == s.events
            && t == s.(credentials := t.credentials, events := t.events)
            && var c, e := t.credentials[n], t.events[|s.events|];
               && c.registration == r && c.account == s.registrations[r].account && c.caption == s.registrations[r].product
               && c.publicId == a.publicId && c.digest == Digest(a.token) && c.issuedAt == a.now && c.issuedBy == a.actor
               && c.status == Issued && c.revokedAt.None? && c.revokedBy.None? && c.revocationReason == ""
               && e.credential == n && e.at == a.now && e.actor == Account(a.actor)
               && (e.kind == WasReprinted <==> exists d :: 0 <= d < n && Matches(s.credentials[d], r, Issued))
               && (e.kind == WasIssued <==> forall d | 0 <= d < n :: !Matches(s.credentials[d], r, Issued))
  {
    IssueYieldsTheOneCredential(s, a);
    var current := FindIssued(s.credentials, a.registration);
    if current.Some? {
      assert Matches(s.credentials[current.value], a.registration, Issued);
    }
  }

  // ---- Manifests.

  /** A snapshot is taken exactly when allowed and configured, and adds one manifest: numbered
      next, valid for twelve hours from now, its rows ordered by public id. */
  lemma SnapshotsExactly(s: State, a: Action)
    requires Reachable(s) && a.Snapshot?
    ensures Step(s, a).1.Ok? <==> a.allowed && a.configured
    ensures Step(s, a).1.Ok? ==>
              var t, n := Step(s, a).0, |s.manifests|;
              && Step(s, a).1 == Ok(ManifestAnswer(n)) && |t.manifests| == n + 1 && t.manifests[..n] == s.manifests
              && t == s.(manifests := t.manifests)
              && var m := t.manifests[n];
                 && m.sequence == n + 1 && m.validFrom == a.now && m.validUntil == a.now + 43200 && m.generatedBy == a.actor
                 && (forall i, j | 0 <= i < j < |m.rows| :: TextLeq(m.rows[i].publicId, m.rows[j].publicId))
                 && forall d :: CountRows(m.rows, d) == CountIssuedFor(s.credentials, s.registrations, d)
    ensures Step(s, a).1.Err? ==> Step(s, a).0 == s
  {
    ReachableIsValid(s);
    MaxManifestIsLength(s.manifests);
    PublicIdOrder();
    var rows := IssuedRows(s.credentials, s.registrations);
    SortSorts(ByPublicId, rows);
    forall d ensures CountRows(ManifestRows(s.credentials, s.registrations), d) == CountIssuedFor(s.credentials, s.registrations, d) {
      RowsOfIssued(s.credentials, s.registrations, d);
      RowsIgnoreOrder(Sort(ByPublicId, rows), rows, d);
    }
  }

  /** How often a manifest lists this public id and digest. */
  function CountRows(rows: seq<ManifestRow>, d: ManifestRow): nat {
    multiset(rows)[d]
  }

  /** How many issued credentials of admissible registrations have this public id and digest. */
  ghost function CountIssuedFor(credentials: seq<Credential>, registrations: seq<Registration>, d: ManifestRow): nat {
    if credentials == [] then 0
    else
      var n := |credentials| - 1;
      CountIssuedFor(credentials[..n], registrations, d) +
      if IssuedFor(credentials, registrations, d.digest, n) && credentials[n].publicId == d.publicId then 1 else 0
  }

  lemma RowsIgnoreOrder(a: seq<ManifestRow>, b: seq<ManifestRow>, d: ManifestRow)
    requires multiset(a) == multiset(b)
    ensures CountRows(a, d) == CountRows(b, d)
  {
  }

  lemma {:induction false} RowsOfIssued(credentials: seq<Credential>, registrations: seq<Registration>, d: ManifestRow)
    ensures CountRows(IssuedRows(credentials, registrations), d) == CountIssuedFor(credentials, registrations, d)
  {
    if credentials != [] {
      RowsOfIssued(credentials[..|credentials| - 1], registrations, d);
    }
  }

  // ---- Reconciliation.

  /** A new operation is recorded exactly for an authentic submission of an enabled device of an
      admitted profile, next in the device's sequence and not recorded before; anything else
      leaves the state as it was. */
  lemma RecordsExactlyTheRecordable(s: State, x: Submission)
    requires Reachable(s)
    ensures |Step(s, Reconcile(x)).0.operations| == |s.operations| + 1 <==> Recordable(s, x)
    ensures Recordable(s, x) ==> Step(s, Reconcile(x)).1 == Ok(OperationAnswer(|s.operations|))
    ensures !Recordable(s, x) ==> Step(s, Reconcile(x)).0 == s
  {
    ArrivalsAreConserved(s, x);
  }

  /** No credential has the submitted token. */
  ghost predicate Unknown(s: State, x: Submission) {
    forall d | 0 <= d < |s.credentials| :: s.credentials[d].digest != Digest(x.token)
  }

  ghost predicate NotCovered(s: State, x: Submission) {
    forall m | 0 <= m < |s.manifests| :: !ManifestCovers(s, x, m)
  }

  /** The recorded operation is the submission, with the credential of its token, if any. */
  lemma OperationIsTheSubmission(s: State, x: Submission, c: Id)
    requires Reachable(s) && Recordable(s, x)
    ensures var t, n := Step(s, Reconcile(x)).0, |s.operations|;
            && |t.operations| == n + 1 && t.operations[..n] == s.operations
            && t.devices == s.devices[x.device := s.devices[x.device].(lastSequence := x.deviceSequence)]
            && t.credentials == s.credentials && t.manifests == s.manifests
            && var o := t.operations[n];
               && o.device == x.device && o.operationId == x.operationId && o.deviceSequence == x.deviceSequence
               && o.manifestSequence == x.manifestSequence && o.occurredAt == x.occurredAt && o.receivedAt == x.receivedAt
               && (o.credential == Some(c) <==> c < |s.credentials| && s.credentials[c].digest == Digest(x.token))
               && (c < |s.credentials| && s.credentials[c].digest == Digest(x.token) ==> o.publicId == s.credentials[c].publicId)
               && (Unknown(s, x) ==> o.credential.None? && o.publicId == "unknown")
  {
    RecordsExactlyTheRecordable(s, x);
    TokensAreUnique(s);
  }

  lemma TokensAreUnique(s: State)
    requires Reachable(s)
    ensures forall c, d | 0 <= c < d < |s.credentials| :: s.credentials[c].digest != s.credentials[d].digest
    ensures forall c | 0 <= c < |s.credentials| :: s.credentials[c].registration < |s.registrations|
    ensures forall m | 0 <= m < |s.manifests| :: s.manifests[m].sequence == m + 1
  {
    ReachableIsValid(s);
  }

  /** What the recorded outcome and its code mean, for the manifest cited and the credential
      presented. */
  ghost predicate CodeMeans(s: State, x: Submission, m: Id, c: Id, code: ResultCode)
    requires ManifestCovers(s, x, m) && c < |s.credentials| && s.credentials[c].registration < |s.registrations|
  {
    var state := s.registrations[s.credentials[c].registration].state;
    && (code == NotInManifest <==> !Listed(s, x, m, c))
    && (code == RevokedOrReplaced <==> Listed(s, x, m, c) && s.credentials[c].status != Issued)
    && (code == AlreadyCheckedIn <==> Listed(s, x, m, c) && s.credentials[c].status == Issued && state == CheckedIn)
    && (code == CheckInApplied <==> Listed(s, x, m, c) && s.credentials[c].status == Issued && state == Confirmed)
    && (code == NotConfirmed <==> Listed(s, x, m, c) && s.credentials[c].status == Issued && state != CheckedIn && state != Confirmed)
  }

  predicate OutcomeOfCode(code: ResultCode, outcome: Outcome) {
    && (outcome == Applied <==> code == CheckInApplied) && (outcome == Duplicate <==> code == AlreadyCheckedIn)
    && (outcome == Rejected <==> code == ManifestInvalid || code == CredentialUnknown)
    && (outcome == Conflict <==> code == NotInManifest || code == RevokedOrReplaced || code == NotConfirmed)
  }

  lemma CodesAreExact(s: State, x: Submission, m: Id, c: Id)
    requires Reachable(s) && Recordable(s, x)
    ensures |Step(s, Reconcile(x)).0.operations| == |s.operations| + 1
    ensures var o := Step(s, Reconcile(x)).0.operations[|s.operations|];
            && OutcomeOfCode(o.code, o.outcome)
            && (o.code == ManifestInvalid <==> NotCovered(s, x))
            && (o.code == CredentialUnknown <==> !NotCovered(s, x) && Unknown(s, x))
            && (ManifestCovers(s, x, m) && c < |s.credentials| && s.credentials[c].digest == Digest(x.token) ==>
                  s.credentials[c].registration < |s.registrations| && CodeMeans(s, x, m, c, o.code))
  {
    RecordsExactlyTheRecordable(s, x);
    TokensAreUnique(s);
    assert Step(s, Reconcile(x)).0.operations[|s.operations|] == OperationRow(s, x);
    JudgedExactly(s, x);
    if ManifestCovers(s, x, m) && c < |s.credentials| && s.credentials[c].digest == Digest(x.token) {
      JudgedByCase(s, x, m, c);
    }
  }

  lemma JudgedExactly(s: State, x: Submission)
    requires forall m | 0 <= m < |s.manifests| :: s.manifests[m].sequence == m + 1
    ensures OutcomeOfCode(Judge(s, x).0, Judge(s, x).1)
    ensures Judge(s, x).0 == ManifestInvalid <==> NotCovered(s, x)
    ensures Judge(s, x).0 == CredentialUnknown <==> !NotCovered(s, x) && Unknown(s, x)
  {
    var found := FindManifest(s.manifests, x.manifestSequence);
    if found.Some? && s.manifests[found.value].validFrom <= x.occurredAt < s.manifests[found.value].validUntil {
      assert ManifestCovers(s, x, found.value);
    }
  }

  lemma JudgedByCase(s: State, x: Submission, m: Id, c: Id)
    requires forall c, d | 0 <= c < d < |s.credentials| :: s.credentials[c].digest != s.credentials[d].digest
    requires forall c | 0 <= c < |s.credentials| :: s.credentials[c].registration < |s.registrations|
    requires forall m | 0 <= m < |s.manifests| :: s.manifests[m].sequence == m + 1
    requires ManifestCovers(s, x, m) && c < |s.credentials| && s.credentials[c].digest == Digest(x.token)
    ensures CodeMeans(s, x, m, c, Judge(s, x).0)
  {
    assert FindManifest(s.manifests, x.manifestSequence) == Some(m);
    assert FindDigest(s.credentials, Digest(x.token)) == Some(c);
  }

  /** An applied check-in records the arrival of its credential's registration, one check-in and
      one verification; any other outcome changes nothing beside the device log. */
  lemma ArrivalsAreRecorded(s: State, x: Submission)
    requires Reachable(s) && Recordable(s, x)
    ensures |Step(s, Reconcile(x)).0.operations| == |s.operations| + 1
    ensures var t, o := Step(s, Reconcile(x)).0, Step(s, Reconcile(x)).0.operations[|s.operations|];
            if o.outcome != Applied
            then t.registrations == s.registrations && t.checkIns == s.checkIns && t.events == s.events
            else && o.credential.Some? && o.credential.value < |s.credentials|
                 && var r := s.credentials[o.credential.value].registration;
                    && r < |s.registrations| == |t.registrations|
                    && (forall q | 0 <= q < |s.registrations| && q != r :: t.registrations[q] == s.registrations[q])
                    && t.registrations[r] == s.registrations[r].(state := CheckedIn, checkedInAt := Some(x.occurredAt),
                                                                 version := s.registrations[r].version + 1)
                    && t.checkIns == s.checkIns + [CheckIn(r, Relay(x.device), x.occurredAt, OfflineRelay)]
                    && t.events == s.events + [CredentialEvent(o.credential.value, WasVerified, x.occurredAt, Relay(x.device))]
  {
    RecordsExactlyTheRecordable(s, x);
    TokensAreUnique(s);
  }

  /** The staff console admits exactly a confirmed registration, recording one arrival. */
  lemma StaffCheckInsExactly(s: State, a: Action)
    requires a.StaffCheckIn?
    ensures Step(s, a).1.Ok? <==>
              && a.registration < |s.registrations|
              && (s.registrations[a.registration].state == Confirmed || s.registrations[a.registration].state == CheckedIn)
    ensures Step(s, a).1.Ok? ==>
              var t, r := Step(s, a).0, a.registration;
              if s.registrations[r].state == CheckedIn then t == s
              else && |t.registrations| == |s.registrations|
                   && (forall q | 0 <= q < |s.registrations| && q != r :: t.registrations[q] == s.registrations[q])
                   && t.registrations[r].state == CheckedIn && t.registrations[r].checkedInAt == Some(a.now)
                   && t.registrations[r].version == s.registrations[r].version + 1
                   && t.checkIns == s.checkIns + [CheckIn(r, Account(a.actor), a.now, StaffConsole)]
                   && t == s.(registrations := t.registrations, checkIns := t.checkIns)
  {
  }

  // ---- Refusals.

  /** What each refusal of a command means. */
  ghost predicate RefusalMeans(s: State, a: Action, f: Error) {
    match a
    case Issue(_, allowed, r, reason, _, token, publicId) =>
      (f == Denied && !allowed) || (f == NotFound && r >= |s.registrations|)
      || (f == Invalid && (reason == "" || !Unused(s.credentials, token, publicId)
                           || (r < |s.registrations| && (!s.registrations[r].entitled || (s.registrations[r].state != Confirmed && s.registrations[r].state != CheckedIn)))))
    case Revoke(_, allowed, c, reason, _) =>
      (f == Denied && !allowed) || (f == Invalid && reason == "") || (f == NotFound && c >= |s.credentials|)
    case Snapshot(_, allowed, configured, _) => (f == Denied && !allowed) || (f == Invalid && !configured)
    case Reconcile(x) =>
      || (f == ProfileNotAllowed && !x.admitted)
      || (f == NotFound && (x.device !in s.devices || !s.devices[x.device].enabled || s.devices[x.device].revoked))
      || (f == BadSignature && !x.signed)
      || (f == SequenceConflict && x.device in s.devices && x.deviceSequence != s.devices[x.device].lastSequence + 1)
      || (f == Invalid && x.manifestSequence < 0)
    case _ => f == Invalid || f == NotFound
  }

  /** Every refusal names something that is so, and changes nothing. */
  lemma RefusalsAreTrue(s: State, a: Action)
    requires Reachable(s) && Step(s, a).1.Err?
    ensures RefusalMeans(s, a, Step(s, a).1.error) && Step(s, a).0 == s
  {
    match a
    case Reconcile(x) => ArrivalsAreConserved(s, x);
    case Issue(_, _, _, _, _, _, _) => IssueYieldsTheOneCredential(s, a);
    case _ =>
  }
}
