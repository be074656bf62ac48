/** What every reachable state of the credential and check-in protocol satisfies. */
module AccreditationInvariants {
  import opened Wrappers
  import opened Accreditation

  // ---- Counting.

  function CountOf(credentials: seq<Credential>, registration: Id): nat {
    if credentials == [] then 0
    else CountOf(credentials[..|credentials| - 1], registration) + if credentials[|credentials| - 1].registration == registration then 1 else 0
  }

  predicate Matches(c: Credential, registration: Id, status: CredentialStatus) {
    c.registration == registration && c.status == status
  }

  function CountStatus(credentials: seq<Credential>, registration: Id, status: CredentialStatus): nat {
    if credentials == [] then 0
    else CountStatus(credentials[..|credentials| - 1], registration, status) +
         if Matches(credentials[|credentials| - 1], registration, status) then 1 else 0
  }

  predicate Concerns(credentials: seq<Credential>, e: CredentialEvent, registration: Id, kind: EventKind) {
    e.kind == kind && e.credential < |credentials| && credentials[e.credential].registration == registration
  }

  function CountKind(credentials: seq<Credential>, events: seq<CredentialEvent>, registration: Id, kind: EventKind): nat {
    if events == [] then 0
    else CountKind(credentials, events[..|events| - 1], registration, kind) +
         if Concerns(credentials, events[|events| - 1], registration, kind) then 1 else 0
  }

  function CountVerified(events: seq<CredentialEvent>): nat {
    if events == [] then 0
    else CountVerified(events[..|events| - 1]) + if events[|events| - 1].kind == WasVerified then 1 else 0
  }

  function CountApplied(operations: seq<Operation>): nat {
    if operations == [] then 0
    else CountApplied(operations[..|operations| - 1]) + if operations[|operations| - 1].outcome == Applied then 1 else 0
  }

  function CountOffline(checkIns: seq<CheckIn>): nat {
    if checkIns == [] then 0
    else CountOffline(checkIns[..|checkIns| - 1]) + if checkIns[|checkIns| - 1].via == OfflineRelay then 1 else 0
  }

  function CountFrom(operations: seq<Operation>, device: string): nat {
    if operations == [] then 0
    else CountFrom(operations[..|operations| - 1], device) + if operations[|operations| - 1].device == device then 1 else 0
  }

  // ---- The invariant.

  /** Issue sequences of a registration are 1, 2, 3, ... in order of issue. */
  ghost predicate History(credentials: seq<Credential>) {
    forall c | 0 <= c < |credentials| ::
      credentials[c].issueSequence == CountOf(credentials[..c + 1], credentials[c].registration)
  }

  /** At most one credential of a registration is issued, and it is the newest. */
  ghost predicate OneIssued(credentials: seq<Credential>) {
    forall c, d | 0 <= c < d < |credentials| && credentials[c].registration == credentials[d].registration ::
      credentials[c].status != Issued
  }

  /** Digests and public ids are unique; exactly the withdrawn carry revocation fields. */
  ghost predicate Marked(credentials: seq<Credential>, registrations: nat) {
    && (forall c | 0 <= c < |credentials| ::
          && credentials[c].registration < registrations
          && (credentials[c].status == Issued <==> credentials[c].revokedAt.None?))
    && forall c, d | 0 <= c < d < |credentials| ::
         credentials[c].digest != credentials[d].digest && credentials[c].publicId != credentials[d].publicId
  }

  /** Manifests are numbered without gaps. */
  ghost predicate Numbered(manifests: seq<Manifest>) {
    forall m | 0 <= m < |manifests| :: manifests[m].sequence == m + 1
  }

  /** Per registration: as many replaced credentials as reprints, as many revoked as
      revocations, and one issue or reprint per credential. */
  ghost predicate Balanced(credentials: seq<Credential>, events: seq<CredentialEvent>) {
    && (forall k | 0 <= k < |events| :: events[k].credential < |credentials|)
    && forall r: Id ::
         && CountStatus(credentials, r, Replaced) == CountKind(credentials, events, r, WasReprinted)
         && CountStatus(credentials, r, Revoked) == CountKind(credentials, events, r, WasRevoked)
         && CountOf(credentials, r) == CountKind(credentials, events, r, WasIssued) + CountKind(credentials, events, r, WasReprinted)
  }

  /** A device's operations carry the sequences 1..last and distinct operation ids. */
  ghost predicate DeviceLog(operations: seq<Operation>, devices: map<string, Device>) {
    && (forall p | 0 <= p < |operations| ::
          && operations[p].device in devices
          && operations[p].deviceSequence == CountFrom(operations[..p + 1], operations[p].device))
    && (forall d | d in devices :: devices[d].lastSequence == CountFrom(operations, d))
    && forall p, q | 0 <= p < q < |operations| ::
         operations[p].device != operations[q].device || operations[p].operationId != operations[q].operationId
  }

  /** The registration of an operation that names a credential. */
  ghost predicate AppliedTo(credentials: seq<Credential>, o: Operation, r: Id) {
    o.outcome == Applied && o.credential.Some? && o.credential.value < |credentials| && credentials[o.credential.value].registration == r
  }

  /** Applied operations name a credential of a checked-in registration, each a different one. */
  ghost predicate Arrivals(operations: seq<Operation>, credentials: seq<Credential>, registrations: seq<Registration>) {
    && (forall p | 0 <= p < |operations| && operations[p].outcome == Applied ::
          && operations[p].credential.Some? && operations[p].credential.value < |credentials|
          && credentials[operations[p].credential.value].registration < |registrations|
          && registrations[credentials[operations[p].credential.value].registration].state == CheckedIn)
    && forall p, q, r: Id | 0 <= p < q < |operations| && AppliedTo(credentials, operations[p], r) ::
         !AppliedTo(credentials, operations[q], r)
  }

  /** Exactly the checked-in registrations have a check-in record, and only one. */
  ghost predicate CheckInsAgree(checkIns: seq<CheckIn>, registrations: seq<Registration>) {
    && (forall k | 0 <= k < |checkIns| ::
          checkIns[k].registration < |registrations| && registrations[checkIns[k].registration].state == CheckedIn)
    && (forall j, k | 0 <= j < k < |checkIns| :: checkIns[j].registration != checkIns[k].registration)
    && forall r | 0 <= r < |registrations| && registrations[r].state == CheckedIn :: HasCheckIn(checkIns, r)
  }

  ghost predicate Conserved(operations: seq<Operation>, checkIns: seq<CheckIn>, events: seq<CredentialEvent>) {
    CountApplied(operations) == CountOffline(checkIns) == CountVerified(events)
  }

  ghost predicate Credentials(s: State) {
    History(s.credentials) && OneIssued(s.credentials) && Marked(s.credentials, |s.registrations|) && Balanced(s.credentials, s.events)
  }

  ghost predicate Inv(s: State) {
    && Credentials(s) && Numbered(s.manifests) && DeviceLog(s.operations, s.devices)
    && Arrivals(s.operations, s.credentials, s.registrations) && CheckInsAgree(s.checkIns, s.registrations)
    && Conserved(s.operations, s.checkIns, s.events)
  }

  // ---- Lemmas on counts and maxima.

  lemma CountOfAfter(credentials: seq<Credential>, c: Credential, r: Id)
    ensures CountOf(credentials + [c], r) == CountOf(credentials, r) + if c.registration == r then 1 else 0
  {
    assert (credentials + [c])[..|credentials|] == credentials;
  }

  lemma CountStatusAfter(credentials: seq<Credential>, c: Credential, r: Id, status: CredentialStatus)
    ensures CountStatus(credentials + [c], r, status) == CountStatus(credentials, r, status) + if Matches(c, r, status) then 1 else 0
  {
    assert (credentials + [c])[..|credentials|] == credentials;
  }

  lemma {:induction false} CountStatusUpdate(credentials: seq<Credential>, i: nat, c: Credential, r: Id, status: CredentialStatus)
    requires i < |credentials|
    ensures CountStatus(credentials[i := c], r, status) + (if Matches(credentials[i], r, status) then 1 else 0)
         == CountStatus(credentials, r, status) + (if Matches(c, r, status) then 1 else 0)
  {
    var n := |credentials| - 1;
    if i < n {
      CountStatusUpdate(credentials[..n], i, c, r, status);
      assert credentials[i := c][..n] == credentials[..n][i := c];
    } else {
      assert credentials[i := c][..n] == credentials[..n];
    }
  }

  /** The same credentials up to their status, perhaps with more issued since. */
  ghost predicate SameHolders(before: seq<Credential>, after: seq<Credential>) {
    |before| <= |after| && forall c | 0 <= c < |before| :: after[c].registration == before[c].registration
  }

  lemma {:induction false} CountOfKept(before: seq<Credential>, after: seq<Credential>, r: Id)
    requires |before| == |after| && SameHolders(before, after)
    ensures CountOf(after, r) == CountOf(before, r)
  {
    if before != [] { CountOfKept(before[..|before| - 1], after[..|after| - 1], r); }
  }

  lemma {:induction false} CountKindKept(before: seq<Credential>, after: seq<Credential>, events: seq<CredentialEvent>, r: Id, kind: EventKind)
    requires SameHolders(before, after) && forall k | 0 <= k < |events| :: events[k].credential < |before|
    ensures CountKind(after, events, r, kind) == CountKind(before, events, r, kind)
  {
    if events != [] { CountKindKept(before, after, events[..|events| - 1], r, kind); }
  }

  lemma CountKindAfter(credentials: seq<Credential>, events: seq<CredentialEvent>, e: CredentialEvent, r: Id, kind: EventKind)
    ensures CountKind(credentials, events + [e], r, kind) == CountKind(credentials, events, r, kind) + if Concerns(credentials, e, r, kind) then 1 else 0
  {
    assert (events + [e])[..|events|] == events;
  }

  /** The largest issue sequence of a registration is the number of its credentials. */
  lemma {:induction false} MaxIsCount(credentials: seq<Credential>, r: Id)
    requires History(credentials)
    ensures MaxSequence(credentials, r) == CountOf(credentials, r)
  {
    if credentials != [] {
      var n := |credentials| - 1;
      HistoryPrefix(credentials, n);
      MaxIsCount(credentials[..n], r);
      assert credentials[..n + 1] == credentials;
    }
  }

  lemma HistoryPrefix(credentials: seq<Credential>, n: nat)
    requires History(credentials) && n <= |credentials|
    ensures History(credentials[..n])
  {
    forall c | 0 <= c < n ensures credentials[..n][c].issueSequence == CountOf(credentials[..n][..c + 1], credentials[..n][c].registration) {
      assert credentials[..n][..c + 1] == credentials[..c + 1];
    }
  }

  lemma {:induction false} MaxManifestIsLength(manifests: seq<Manifest>)
    requires Numbered(manifests)
    ensures MaxManifest(manifests) == |manifests|
  {
    if manifests != [] { MaxManifestIsLength(manifests[..|manifests| - 1]); }
  }

  lemma HistoryKept(before: seq<Credential>, after: seq<Credential>)
    requires History(before) && |before| == |after| && SameHolders(before, after)
    requires forall c | 0 <= c < |before| :: after[c].issueSequence == before[c].issueSequence
    ensures History(after)
  {
    forall c | 0 <= c < |after| ensures after[c].issueSequence == CountOf(after[..c + 1], after[c].registration) {
      CountOfKept(before[..c + 1], after[..c + 1], after[c].registration);
    }
  }

  lemma HistoryExtended(credentials: seq<Credential>, c: Credential)
    requires History(credentials) && c.issueSequence == CountOf(credentials, c.registration) + 1
    ensures History(credentials + [c])
  {
    var all := credentials + [c];
    forall d | 0 <= d < |all| ensures all[d].issueSequence == CountOf(all[..d + 1], all[d].registration) {
      if d < |credentials| {
        assert all[..d + 1] == credentials[..d + 1];
      } else {
        assert all[..d + 1] == all;
        CountOfAfter(credentials, c, c.registration);
      }
    }
  }

  // ---- Withdrawing and issuing credentials.

  lemma WithdrawKeeps(s: State, i: Id, status: CredentialStatus, at: int, actor: Id, reason: string)
    requires Credentials(s) && i < |s.credentials| && status != Issued
    ensures var after := s.credentials[i := Withdraw(s.credentials[i], status, at, actor, reason)];
            && SameHolders(s.credentials, after) && History(after) && OneIssued(after) && Marked(after, |s.registrations|)
  {
    HistoryKept(s.credentials, s.credentials[i := Withdraw(s.credentials[i], status, at, actor, reason)]);
  }

  /** Revoking shifts one credential and adds one event. */
  lemma RevokeKeepsBalance(credentials: seq<Credential>, events: seq<CredentialEvent>, i: Id, c: Credential, e: CredentialEvent)
    requires Balanced(credentials, events) && i < |credentials| && credentials[i].status == Issued
    requires c.registration == credentials[i].registration && c.status == Revoked && e.credential == i && e.kind == WasRevoked
    ensures Balanced(credentials[i := c], events + [e])
  {
    var after := credentials[i := c];
    forall r: Id
      ensures CountStatus(after, r, Replaced) == CountKind(after, events + [e], r, WasReprinted)
      ensures CountStatus(after, r, Revoked) == CountKind(after, events + [e], r, WasRevoked)
      ensures CountOf(after, r) == CountKind(after, events + [e], r, WasIssued) + CountKind(after, events + [e], r, WasReprinted)
    {
      CountStatusUpdate(credentials, i, c, r, Replaced);
      CountStatusUpdate(credentials, i, c, r, Revoked);
      CountOfKept(credentials, after, r);
      KindsAfter(credentials, after, events, e, r);
    }
  }

  lemma KindsAfter(before: seq<Credential>, after: seq<Credential>, events: seq<CredentialEvent>, e: CredentialEvent, r: Id)
    requires SameHolders(before, after) && forall k | 0 <= k < |events| :: events[k].credential < |before|
    ensures CountKind(after, events + [e], r, WasReprinted) == CountKind(before, events, r, WasReprinted) + if Concerns(after, e, r, WasReprinted) then 1 else 0
    ensures CountKind(after, events + [e], r, WasRevoked) == CountKind(before, events, r, WasRevoked) + if Concerns(after, e, r, WasRevoked) then 1 else 0
    ensures CountKind(after, events + [e], r, WasIssued) == CountKind(before, events, r, WasIssued) + if Concerns(after, e, r, WasIssued) then 1 else 0
  {
    CountKindAfter(after, events, e, r, WasReprinted);
    CountKindAfter(after, events, e, r, WasRevoked);
    CountKindAfter(after, events, e, r, WasIssued);
    CountKindKept(before, after, events, r, WasReprinted);
    CountKindKept(before, after, events, r, WasRevoked);
    CountKindKept(before, after, events, r, WasIssued);
  }

  /** A new credential comes with an issue event, or with a reprint event and one replaced. */
  lemma IssueKeepsBalance(credentials: seq<Credential>, kept: seq<Credential>, events: seq<CredentialEvent>, current: Option<Id>, c: Credential, e: CredentialEvent)
    requires Balanced(credentials, events) && c.status == Issued && e.credential == |credentials|
    requires e.kind == (if current.Some? then WasReprinted else WasIssued)
    requires match current
             case None => kept == credentials
             case Some(i) =>
               && i < |credentials| && credentials[i].status == Issued && credentials[i].registration == c.registration
               && exists w :: kept == credentials[i := w] && w.registration == c.registration && w.status == Replaced
    ensures Balanced(kept + [c], events + [e])
  {
    var after := kept + [c];
    assert SameHolders(credentials, after);
    forall r: Id
      ensures CountStatus(after, r, Replaced) == CountKind(after, events + [e], r, WasReprinted)
      ensures CountStatus(after, r, Revoked) == CountKind(after, events + [e], r, WasRevoked)
      ensures CountOf(after, r) == CountKind(after, events + [e], r, WasIssued) + CountKind(after, events + [e], r, WasReprinted)
    {
      CountStatusAfter(kept, c, r, Replaced);
      CountStatusAfter(kept, c, r, Revoked);
      CountOfAfter(kept, c, r);
      CountOfKept(credentials, kept, r);
      if current.Some? {
        var w :| kept == credentials[current.value := w] && w.registration == c.registration && w.status == Replaced;
        CountStatusUpdate(credentials, current.value, w, r, Replaced);
        CountStatusUpdate(credentials, current.value, w, r, Revoked);
      }
      KindsAfter(credentials, after, events, e, r);
    }
  }

  lemma VerifyKeepsBalance(credentials: seq<Credential>, events: seq<CredentialEvent>, e: CredentialEvent)
    requires Balanced(credentials, events) && e.credential < |credentials| && e.kind == WasVerified
    ensures Balanced(credentials, events + [e])
  {
    forall r: Id
      ensures CountKind(credentials, events + [e], r, WasReprinted) == CountKind(credentials, events, r, WasReprinted)
      ensures CountKind(credentials, events + [e], r, WasRevoked) == CountKind(credentials, events, r, WasRevoked)
      ensures CountKind(credentials, events + [e], r, WasIssued) == CountKind(credentials, events, r, WasIssued)
    {
      KindsAfter(credentials, credentials, events, e, r);
    }
  }

  /** The parts of the invariant that read credentials only through their holders. */
  lemma ArrivalsKept(operations: seq<Operation>, before: seq<Credential>, after: seq<Credential>, registrations: seq<Registration>)
    requires Arrivals(operations, before, registrations) && SameHolders(before, after)
    ensures Arrivals(operations, after, registrations)
  {
    forall p, q, r: Id | 0 <= p < q < |operations| && AppliedTo(after, operations[p], r)
      ensures !AppliedTo(after, operations[q], r)
    {
      assert AppliedTo(before, operations[p], r);
      assert !AppliedTo(before, operations[q], r);
    }
  }

  lemma VerifiedAfter(events: seq<CredentialEvent>, e: CredentialEvent)
    ensures CountVerified(events + [e]) == CountVerified(events) + if e.kind == WasVerified then 1 else 0
  {
    assert (events + [e])[..|events|] == events;
  }

  lemma RevokeKeepsInv(s: State, a: Action)
    requires Inv(s) && a.Revoke?
    ensures Inv(DoRevoke(s, a).0)
  {
    var t := DoRevoke(s, a).0;
    if t != s {
      var c := Withdraw(s.credentials[a.credential], Revoked, a.now, a.actor, a.reason);
      var e := CredentialEvent(a.credential, WasRevoked, a.now, Account(a.actor));
      WithdrawKeeps(s, a.credential, Revoked, a.now, a.actor, a.reason);
      RevokeKeepsBalance(s.credentials, s.events, a.credential, c, e);
      ArrivalsKept(s.operations, s.credentials, t.credentials, s.registrations);
      VerifiedAfter(s.events, e);
    }
  }

  lemma IssueKeepsOneIssued(kept: seq<Credential>, c: Credential)
    requires OneIssued(kept) && forall d | 0 <= d < |kept| && kept[d].registration == c.registration :: kept[d].status != Issued
    ensures OneIssued(kept + [c])
  {
  }

  lemma IssueKeepsMarked(kept: seq<Credential>, c: Credential, registrations: nat)
    requires Marked(kept, registrations) && c.registration < registrations && c.status == Issued && c.revokedAt.None?
    requires forall d | 0 <= d < |kept| :: kept[d].digest != c.digest && kept[d].publicId != c.publicId
    ensures Marked(kept + [c], registrations)
  {
  }

  /** Replacing the current credential leaves the registration without an issued one. */
  lemma ReplaceCurrentKeeps(s: State, r: Id, now: int, actor: Id, reason: string)
    requires Credentials(s)
    ensures var kept := ReplaceCurrent(s.credentials, r, now, actor, reason);
            && |kept| == |s.credentials| && SameHolders(s.credentials, kept)
            && History(kept) && OneIssued(kept) && Marked(kept, |s.registrations|)
            && (forall d | 0 <= d < |kept| && kept[d].registration == r :: kept[d].status != Issued)
            && (forall d | 0 <= d < |kept| :: kept[d].digest == s.credentials[d].digest && kept[d].publicId == s.credentials[d].publicId)
  {
    var current := FindIssued(s.credentials, r);
    if current.Some? {
      WithdrawKeeps(s, current.value, Replaced, now, actor, reason);
      forall d | 0 <= d < |s.credentials| && d != current.value && s.credentials[d].registration == r
        ensures s.credentials[d].status != Issued
      {
      }
    }
  }

  lemma SuccessorKeeps(s: State, kept: seq<Credential>, c: Credential)
    requires History(kept) && OneIssued(kept) && Marked(kept, |s.registrations|) && SameHolders(s.credentials, kept) && |kept| == |s.credentials|
    requires History(s.credentials) && c.registration < |s.registrations| && c.status == Issued && c.revokedAt.None?
    requires c.issueSequence == MaxSequence(s.credentials, c.registration) + 1
    requires forall d | 0 <= d < |kept| && kept[d].registration == c.registration :: kept[d].status != Issued
    requires forall d | 0 <= d < |kept| :: kept[d].digest != c.digest && kept[d].publicId != c.publicId
    ensures History(kept + [c]) && OneIssued(kept + [c]) && Marked(kept + [c], |s.registrations|)
  {
    MaxIsCount(s.credentials, c.registration);
    CountOfKept(s.credentials, kept, c.registration);
    HistoryExtended(kept, c);
    IssueKeepsOneIssued(kept, c);
    IssueKeepsMarked(kept, c, |s.registrations|);
  }

  lemma IssueKeepsCredentials(s: State, a: Action)
    requires Credentials(s) && a.Issue? && DoIssue(s, a).1.Ok?
    ensures Credentials(DoIssue(s, a).0) && SameHolders(s.credentials, DoIssue(s, a).0.credentials)
  {
    var t, n := DoIssue(s, a).0, |s.credentials|;
    var kept := ReplaceCurrent(s.credentials, a.registration, a.now, a.actor, a.reason);
    ReplaceCurrentKeeps(s, a.registration, a.now, a.actor, a.reason);
    SuccessorKeeps(s, kept, t.credentials[n]);
    IssueKeepsBalance(s.credentials, kept, s.events, FindIssued(s.credentials, a.registration), t.credentials[n], t.events[|s.events|]);
  }

  lemma IssueKeepsInv(s: State, a: Action)
    requires Inv(s) && a.Issue?
    ensures Inv(DoIssue(s, a).0)
  {
    var t := DoIssue(s, a).0;
    if DoIssue(s, a).1.Ok? {
      IssueKeepsCredentials(s, a);
      ArrivalsKept(s.operations, s.credentials, t.credentials, s.registrations);
      VerifiedAfter(s.events, t.events[|s.events|]);
    }
  }

  lemma SnapshotKeepsInv(s: State, a: Action)
    requires Inv(s) && a.Snapshot?
    ensures Inv(DoSnapshot(s, a).0)
  {
    MaxManifestIsLength(s.manifests);
  }

  // ---- Recording operations.

  lemma CountFromAfter(operations: seq<Operation>, o: Operation, device: string)
    ensures CountFrom(operations + [o], device) == CountFrom(operations, device) + if o.device == device then 1 else 0
  {
    assert (operations + [o])[..|operations|] == operations;
  }

  lemma RecordKeepsLog(operations: seq<Operation>, devices: map<string, Device>, o: Operation, device: Device)
    requires DeviceLog(operations, devices) && o.device in devices
    requires o.deviceSequence == devices[o.device].lastSequence + 1 == device.lastSequence
    requires FindOperation(operations, o.device, o.operationId).None?
    ensures DeviceLog(operations + [o], devices[o.device := device])
  {
    var all := operations + [o];
    var after := devices[o.device := device];
    forall d | d in after ensures after[d].lastSequence == CountFrom(all, d) {
      CountFromAfter(operations, o, d);
    }
    forall p | 0 <= p < |all| ensures all[p].device in after && all[p].deviceSequence == CountFrom(all[..p + 1], all[p].device) {
      if p < |operations| {
        assert all[..p + 1] == operations[..p + 1];
      } else {
        assert all[..p + 1] == all;
      }
    }
  }

  /** An operation that is not applied leaves arrivals as they are. */
  lemma OtherOutcomeKeepsArrivals(operations: seq<Operation>, credentials: seq<Credential>, registrations: seq<Registration>, o: Operation)
    requires Arrivals(operations, credentials, registrations) && o.outcome != Applied
    ensures Arrivals(operations + [o], credentials, registrations)
    ensures CountApplied(operations + [o]) == CountApplied(operations)
  {
    assert (operations + [o])[..|operations|] == operations;
  }

  /** An applied operation checks in a registration that had not arrived. */
  lemma ApplyKeepsArrivals(operations: seq<Operation>, credentials: seq<Credential>, registrations: seq<Registration>, o: Operation, row: Registration)
    requires Arrivals(operations, credentials, registrations) && o.outcome == Applied && row.state == CheckedIn
    requires o.credential.Some? && o.credential.value < |credentials|
    requires var r := credentials[o.credential.value].registration; r < |registrations| && registrations[r].state != CheckedIn
    ensures Arrivals(operations + [o], credentials, registrations[credentials[o.credential.value].registration := row])
    ensures CountApplied(operations + [o]) == CountApplied(operations) + 1
  {
    assert (operations + [o])[..|operations|] == operations;
  }

  lemma NewCheckInAgrees(checkIns: seq<CheckIn>, registrations: seq<Registration>, k: CheckIn, row: Registration)
    requires CheckInsAgree(checkIns, registrations) && row.state == CheckedIn
    requires k.registration < |registrations| && registrations[k.registration].state != CheckedIn
    ensures CheckInsAgree(checkIns + [k], registrations[k.registration := row])
    ensures CountOffline(checkIns + [k]) == CountOffline(checkIns) + if k.via == OfflineRelay then 1 else 0
  {
    var all, after := checkIns + [k], registrations[k.registration := row];
    assert all[..|checkIns|] == checkIns;
    forall r | 0 <= r < |after| && after[r].state == CheckedIn ensures HasCheckIn(all, r) {
      if r == k.registration {
        assert all[|checkIns|].registration == r;
      } else {
        var j :| 0 <= j < |checkIns| && checkIns[j].registration == r;
        assert all[j].registration == r;
      }
    }
  }

  lemma RecordKeepsInv(s: State, x: Submission)
    requires Inv(s) && Refusal(s, x).None? && FindOperation(s.operations, x.device, x.operationId).None?
    ensures Inv(RecordOperation(s, x))
  {
    var t := RecordOperation(s, x);
    var o := OperationRow(s, x);
    RecordKeepsLog(s.operations, s.devices, o, s.devices[x.device].(lastSequence := x.deviceSequence));
    if o.outcome == Applied {
      var c := o.credential.value;
      var r := s.credentials[c].registration;
      var e := CredentialEvent(c, WasVerified, x.occurredAt, Relay(x.device));
      ApplyKeepsArrivals(s.operations, s.credentials, s.registrations, o, t.registrations[r]);
      NewCheckInAgrees(s.checkIns, s.registrations, CheckIn(r, Relay(x.device), x.occurredAt, OfflineRelay), t.registrations[r]);
      VerifyKeepsBalance(s.credentials, s.events, e);
      VerifiedAfter(s.events, e);
    } else {
      OtherOutcomeKeepsArrivals(s.operations, s.credentials, s.registrations, o);
    }
  }

  // ---- The environment.

  /** A registration change elsewhere neither enters nor leaves the checked-in state. */
  lemma RegistrationsKept(s: State, after: seq<Registration>)
    requires Inv(s) && |s.registrations| <= |after|
    requires forall r | 0 <= r < |s.registrations| :: after[r].state == CheckedIn <==> s.registrations[r].state == CheckedIn
    requires forall r | |s.registrations| <= r < |after| :: after[r].state != CheckedIn
    ensures Inv(s.(registrations := after))
  {
    assert Arrivals(s.operations, s.credentials, after);
    assert CheckInsAgree(s.checkIns, after);
  }

  lemma StaffCheckInKeepsInv(s: State, a: Action)
    requires Inv(s) && a.StaffCheckIn?
    ensures Inv(Step(s, a).0)
  {
    var t := Step(s, a).0;
    if t != s {
      var k := CheckIn(a.registration, Account(a.actor), a.now, StaffConsole);
      NewCheckInAgrees(s.checkIns, s.registrations, k, t.registrations[a.registration]);
      assert Arrivals(s.operations, s.credentials, t.registrations);
    }
  }

  lemma {:induction false} NoOperationsOf(operations: seq<Operation>, device: string)
    requires forall p | 0 <= p < |operations| :: operations[p].device != device
    ensures CountFrom(operations, device) == 0
  {
    if operations != [] { NoOperationsOf(operations[..|operations| - 1], device); }
  }

  lemma SetDeviceKeepsInv(s: State, a: Action)
    requires Inv(s) && a.SetDevice?
    ensures Inv(Step(s, a).0)
  {
    if a.code !in s.devices { NoOperationsOf(s.operations, a.code); }
  }

  /** Every step, of the commands and of the environment, keeps the invariant. */
  lemma StepKeepsInv(s: State, a: Action)
    requires Inv(s)
    ensures Inv(Step(s, a).0)
  {
    match a
    case Issue(_, _, _, _, _, _, _) => IssueKeepsInv(s, a);
    case Revoke(_, _, _, _, _) => RevokeKeepsInv(s, a);
    case Snapshot(_, _, _, _) => SnapshotKeepsInv(s, a);
    case Reconcile(x) =>
      if DoReconcile(s, x).0 != s { RecordKeepsInv(s, x); }
    case Register(_, _, _, _) => RegistrationsKept(s, Step(s, a).0.registrations);
    case ChangeRegistration(_, _, _) => RegistrationsKept(s, Step(s, a).0.registrations);
    case StaffCheckIn(_, _, _) => StaffCheckInKeepsInv(s, a);
    case SetDevice(_, _, _) => SetDeviceKeepsInv(s, a);
  }

  lemma {:induction false} RunKeepsInv(s: State, actions: seq<Action>)
    requires Inv(s)
    ensures Inv(Run(s, actions))
  {
    if actions != [] {
      RunKeepsInv(s, actions[..|actions| - 1]);
      StepKeepsInv(Run(s, actions[..|actions| - 1]), actions[|actions| - 1]);
    }
  }
}
