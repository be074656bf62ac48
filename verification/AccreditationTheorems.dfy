/** The promises of the credential and offline check-in protocol, over every interleaving of
    commands, devices, stale manifests, retries and registration changes elsewhere. */
module AccreditationTheorems {
  import opened Wrappers
  import opened TextOrder
  import opened Sorting
  import opened Accreditation
  import opened AccreditationInvariants

  ghost predicate Reachable(s: State) { exists actions: seq<Action> :: s == Run(Empty, actions) }

  lemma BlankIsValid(s: State)
    requires s.registrations == [] && s.credentials == [] && s.events == [] && s.devices == map[]
    requires s.manifests == [] && s.operations == [] && s.checkIns == []
    ensures Inv(s)
  {
  }

  lemma EmptyIsValid()
    ensures Inv(Empty)
  {
    BlankIsValid(Empty);
  }

  lemma ReachableIsValid(s: State)
    requires Reachable(s)
    ensures Inv(s)
  {
    var actions: seq<Action> :| s == Run(Empty, actions);
    EmptyIsValid();
    RunKeepsInv(Empty, actions);
  }

  lemma {:induction false} RunConcat(s: State, a: seq<Action>, b: seq<Action>)
    ensures Run(s, a + b) == Run(Run(s, a), b)
  {
    if b == [] {
      assert a + b == a;
    } else {
      assert (a + b)[..|a + b| - 1] == a + b[..|b| - 1];
      RunConcat(s, a, b[..|b| - 1]);
    }
  }

  lemma StepIsReachable(s: State, a: Action)
    requires Reachable(s)
    ensures Reachable(Step(s, a).0)
  {
    var actions: seq<Action> :| s == Run(Empty, actions);
    RunConcat(Empty, actions, [a]);
    assert Run(s, [a]) == Step(Run(s, []), a).0;
    assert Step(s, a).0 == Run(Empty, actions + [a]);
  }

  // ---- Credentials.

  /** What never changes about a credential; once withdrawn, nothing does. */
  ghost predicate Successor(before: Credential, after: Credential) {
    && after == before.(status := after.status, revokedAt := after.revokedAt, revokedBy := after.revokedBy,
                        revocationReason := after.revocationReason)
    && (before.status != Issued ==> after == before)
  }

  /** Everything that only grows along a run. */
  ghost predicate Grows(s: State, t: State) {
    && |s.registrations| <= |t.registrations| && |s.credentials| <= |t.credentials|
    && (forall c | 0 <= c < |s.credentials| :: Successor(s.credentials[c], t.credentials[c]))
    && (forall r | 0 <= r < |s.registrations| :: s.registrations[r].state == CheckedIn ==> t.registrations[r].state == CheckedIn)
    && s.manifests <= t.manifests && s.operations <= t.operations && s.events <= t.events && s.checkIns <= t.checkIns
  }

  lemma ReconcileGrows(s: State, x: Submission)
    ensures Grows(s, DoReconcile(s, x).0)
  {
  }

  lemma IssueGrows(s: State, a: Action)
    requires a.Issue?
    ensures Grows(s, DoIssue(s, a).0)
  {
  }

  lemma StepGrows(s: State, a: Action)
    ensures Grows(s, Step(s, a).0)
  {
    match a
    case Issue(_, _, _, _, _, _, _) => IssueGrows(s, a);
    case Reconcile(x) => ReconcileGrows(s, x);
    case _ =>
  }

  lemma GrowsCompose(s: State, m: State, t: State)
    requires Grows(s, m) && Grows(m, t)
    ensures Grows(s, t)
  {
    forall c | 0 <= c < |s.credentials| ensures Successor(s.credentials[c], t.credentials[c]) {
      assert Successor(s.credentials[c], m.credentials[c]) && Successor(m.credentials[c], t.credentials[c]);
    }
  }

  /** A credential no longer issued never changes again, arrivals stay, and manifests,
      operations, events and check-in records are only appended. */
  lemma {:induction false} RecordsOnlyGrow(s: State, actions: seq<Action>)
    ensures Grows(s, Run(s, actions))
  {
    if actions != [] {
      var n := |actions| - 1;
      RecordsOnlyGrow(s, actions[..n]);
      StepGrows(Run(s, actions[..n]), actions[n]);
      GrowsCompose(s, Run(s, actions[..n]), Run(s, actions));
    }
  }

  /** An issued credential is the only issued one of its registration and carries the
      highest issue sequence. */
  lemma IssuedIsHighest(s: State, c: Id, d: Id)
    requires Reachable(s) && c < |s.credentials| && d < |s.credentials| && c != d
    requires s.credentials[c].registration == s.credentials[d].registration && s.credentials[c].status == Issued
    ensures s.credentials[d].status != Issued && s.credentials[d].issueSequence < s.credentials[c].issueSequence
  {
    ReachableIsValid(s);
    assert d < c;
    SequencesGrow(s.credentials, d, c);
  }

  lemma {:induction false} CountOfMonotone(credentials: seq<Credential>, r: Id, j: nat, k: nat)
    requires j <= k <= |credentials|
    ensures CountOf(credentials[..j], r) <= CountOf(credentials[..k], r)
  {
    if j < k {
      assert credentials[..k][..k - 1] == credentials[..k - 1];
      CountOfMonotone(credentials, r, j, k - 1);
    }
  }

  lemma SequencesGrow(credentials: seq<Credential>, d: Id, c: Id)
    requires History(credentials) && d < c < |credentials| && credentials[d].registration == credentials[c].registration
    ensures credentials[d].issueSequence < credentials[c].issueSequence
  {
    CountOfMonotone(credentials, credentials[c].registration, d + 1, c);
    assert credentials[..c + 1][..c] == credentials[..c];
  }

  /** The issue sequences of a registration are exactly 1..n. */
  lemma {:induction false} IssueSequencesAreGapFree(credentials: seq<Credential>, r: Id, k: nat)
    requires History(credentials) && 1 <= k <= CountOf(credentials, r)
    ensures exists c :: 0 <= c < |credentials| && credentials[c].registration == r && credentials[c].issueSequence == k
  {
    var n := |credentials| - 1;
    assert credentials[..n + 1] == credentials;
    if credentials[n].registration == r && credentials[n].issueSequence == k {
    } else {
      HistoryPrefix(credentials, n);
      IssueSequencesAreGapFree(credentials[..n], r, k);
      var c :| 0 <= c < n && credentials[..n][c].registration == r && credentials[..n][c].issueSequence == k;
      assert credentials[c].registration == r && credentials[c].issueSequence == k;
    }
  }

  /** Per registration: sequences 1..n without gaps or repeats, as many replaced credentials
      as reprint events, as many revoked ones as revocation events. */
  lemma CredentialHistory(s: State, r: Id)
    requires Reachable(s)
    ensures forall k | 1 <= k <= CountOf(s.credentials, r) :: HasSequence(s.credentials, r, k)
    ensures forall c | 0 <= c < |s.credentials| && s.credentials[c].registration == r :: 1 <= s.credentials[c].issueSequence <= CountOf(s.credentials, r)
    ensures CountStatus(s.credentials, r, Replaced) == CountKind(s.credentials, s.events, r, WasReprinted)
    ensures CountStatus(s.credentials, r, Revoked) == CountKind(s.credentials, s.events, r, WasRevoked)
  {
    ReachableIsValid(s);
    forall k | 1 <= k <= CountOf(s.credentials, r) ensures HasSequence(s.credentials, r, k) {
      IssueSequencesAreGapFree(s.credentials, r, k);
    }
    forall c | 0 <= c < |s.credentials| && s.credentials[c].registration == r
      ensures 1 <= s.credentials[c].issueSequence <= CountOf(s.credentials, r)
    {
      SequenceOfCredential(s.credentials, c);
    }
  }

  lemma CountsItself(credentials: seq<Credential>)
    requires credentials != []
    ensures CountOf(credentials, credentials[|credentials| - 1].registration) >= 1
  {
  }

  lemma SequenceOfCredential(credentials: seq<Credential>, c: Id)
    requires History(credentials) && c < |credentials|
    ensures 1 <= credentials[c].issueSequence <= CountOf(credentials, credentials[c].registration)
  {
    CountsItself(credentials[..c + 1]);
    CountOfMonotone(credentials, credentials[c].registration, c + 1, |credentials|);
    assert credentials[..|credentials|] == credentials;
  }

  ghost predicate HasSequence(credentials: seq<Credential>, r: Id, k: nat) {
    exists c :: 0 <= c < |credentials| && credentials[c].registration == r && credentials[c].issueSequence == k
  }

  // ---- Manifests.

  ghost predicate IssuedFor(credentials: seq<Credential>, registrations: seq<Registration>, digest: Digest, c: Id) {
    && c < |credentials| && credentials[c].digest == digest && credentials[c].status == Issued
    && credentials[c].registration < |registrations|
    && (registrations[credentials[c].registration].state == Confirmed || registrations[credentials[c].registration].state == CheckedIn)
  }

  /** A manifest lists exactly the credentials issued, at its generation, to registrations
      that may attend. */
  lemma ManifestListsExactlyTheIssued(credentials: seq<Credential>, registrations: seq<Registration>, digest: Digest)
    ensures (exists k :: 0 <= k < |ManifestRows(credentials, registrations)| && ManifestRows(credentials, registrations)[k].digest == digest)
       <==> (exists c :: IssuedFor(credentials, registrations, digest, c))
  {
    var rows, sorted := IssuedRows(credentials, registrations), ManifestRows(credentials, registrations);
    PublicIdOrder();
    SortSorts(ByPublicId, rows);
    if k :| 0 <= k < |sorted| && sorted[k].digest == digest {
      assert sorted[k] in multiset(rows);
      var j :| 0 <= j < |rows| && rows[j] == sorted[k];
      var c := RowHasCredential(credentials, registrations, j);
      assert IssuedFor(credentials, registrations, digest, c);
    }
    if c :| IssuedFor(credentials, registrations, digest, c) {
      var j := CredentialHasRow(credentials, registrations, c);
      assert rows[j] in multiset(sorted);
      var k :| 0 <= k < |sorted| && sorted[k] == rows[j];
      assert sorted[k].digest == digest;
    }
  }

  lemma PublicIdOrder()
    ensures Preorder(ByPublicId)
  {
    forall a: ManifestRow, b: ManifestRow ensures ByPublicId(a, b) || ByPublicId(b, a) {
      TextTotal(a.publicId, b.publicId);
    }
    forall a: ManifestRow, b: ManifestRow, c: ManifestRow ensures ByPublicId(a, b) && ByPublicId(b, c) ==> ByPublicId(a, c) {
      if ByPublicId(a, b) && ByPublicId(b, c) { TextTransitive(a.publicId, b.publicId, c.publicId); }
    }
  }

  lemma {:induction false} RowHasCredential(credentials: seq<Credential>, registrations: seq<Registration>, j: nat) returns (c: Id)
    requires j < |IssuedRows(credentials, registrations)|
    ensures IssuedFor(credentials, registrations, IssuedRows(credentials, registrations)[j].digest, c)
    decreases |credentials|
  {
    var n := |credentials| - 1;
    if j < |IssuedRows(credentials[..n], registrations)| {
      c := RowHasCredential(credentials[..n], registrations, j);
    } else {
      c := n;
    }
  }

  lemma {:induction false} CredentialHasRow(credentials: seq<Credential>, registrations: seq<Registration>, c: Id) returns (j: nat)
    requires c < |credentials| && IssuedFor(credentials, registrations, credentials[c].digest, c)
    ensures j < |IssuedRows(credentials, registrations)| && IssuedRows(credentials, registrations)[j].digest == credentials[c].digest
    decreases |credentials|
  {
    var n := |credentials| - 1;
    if c < n {
      j := CredentialHasRow(credentials[..n], registrations, c);
    } else {
      j := |IssuedRows(credentials[..n], registrations)|;
    }
  }

  // ---- Applied check-ins cite a live manifest.

  /** The state before action `n` of a run. */
  function At(start: State, actions: seq<Action>, n: nat): State
    requires n <= |actions|
  {
    Run(start, actions[..n])
  }

  lemma AtSteps(start: State, actions: seq<Action>, n: nat)
    requires n < |actions|
    ensures At(start, actions, n + 1) == Step(At(start, actions, n), actions[n]).0
  {
    assert actions[..n + 1][..n] == actions[..n];
  }

  lemma AtGrows(start: State, actions: seq<Action>, m: nat, n: nat)
    requires m <= n <= |actions|
    ensures Grows(At(start, actions, m), At(start, actions, n))
  {
    assert actions[..n] == actions[..m] + actions[m..n];
    RunConcat(start, actions[..m], actions[m..n]);
    RecordsOnlyGrow(At(start, actions, m), actions[m..n]);
  }

  lemma AtIsValid(start: State, actions: seq<Action>, n: nat)
    requires Inv(start) && n <= |actions|
    ensures Inv(At(start, actions, n))
  {
    RunKeepsInv(start, actions[..n]);
  }

  /** Action `g` generated the manifest numbered `q`. */
  ghost predicate GeneratedAt(start: State, actions: seq<Action>, g: nat, q: nat) {
    g < |actions| && actions[g].Snapshot? && |At(start, actions, g).manifests| + 1 == |At(start, actions, g + 1).manifests| == q
  }

  lemma ManifestsGrowByOne(s: State, a: Action)
    ensures |Step(s, a).0.manifests| <= |s.manifests| + 1
    ensures |Step(s, a).0.manifests| == |s.manifests| + 1 ==> a.Snapshot?
  {
  }

  lemma {:induction false} WhenGenerated(start: State, actions: seq<Action>, j: nat, q: nat) returns (g: nat)
    requires j <= |actions| && |start.manifests| < q <= |At(start, actions, j).manifests|
    ensures g < j && GeneratedAt(start, actions, g, q)
  {
    assert j > 0;
    AtSteps(start, actions, j - 1);
    ManifestsGrowByOne(At(start, actions, j - 1), actions[j - 1]);
    if q <= |At(start, actions, j - 1).manifests| {
      g := WhenGenerated(start, actions, j - 1, q);
    } else {
      g := j - 1;
    }
  }

  /** Credential `c` exists and is issued in every state from before action `g` to before action `j`. */
  ghost predicate IssuedThroughout(start: State, actions: seq<Action>, g: nat, j: nat, c: Id)
    requires g <= j <= |actions|
  {
    forall n | g <= n <= j :: c < |At(start, actions, n).credentials| && At(start, actions, n).credentials[c].status == Issued
  }

  lemma IssuedBackwards(start: State, actions: seq<Action>, g: nat, j: nat, c: Id)
    requires g <= j <= |actions| && c < |At(start, actions, g).credentials|
    requires c < |At(start, actions, j).credentials| && At(start, actions, j).credentials[c].status == Issued
    ensures IssuedThroughout(start, actions, g, j, c)
  {
    forall n | g <= n <= j ensures c < |At(start, actions, n).credentials| && At(start, actions, n).credentials[c].status == Issued {
      AtGrows(start, actions, g, n);
      AtGrows(start, actions, n, j);
      assert Successor(At(start, actions, n).credentials[c], At(start, actions, j).credentials[c]);
    }
  }

  /** A manifest keeps the rows it was generated with. */
  lemma ManifestKeepsRows(start: State, actions: seq<Action>, g: nat, j: nat, q: nat)
    requires GeneratedAt(start, actions, g, q) && g < j <= |actions|
    ensures 1 <= q <= |At(start, actions, j).manifests|
    ensures At(start, actions, j).manifests[q - 1].rows == ManifestRows(At(start, actions, g).credentials, At(start, actions, g).registrations)
    ensures At(start, actions, j).manifests[q - 1].validFrom == actions[g].now
    ensures At(start, actions, j).manifests[q - 1].validUntil == actions[g].now + MANIFEST_LIFETIME
  {
    AtSteps(start, actions, g);
    AtGrows(start, actions, g + 1, j);
  }

  /** A digest names the same credential in both states. */
  lemma SameDigestSameCredential(s: State, t: State, d: Id, c: Id)
    requires Grows(s, t) && Marked(t.credentials, |t.registrations|) && d < |s.credentials| && c < |t.credentials|
    requires s.credentials[d].digest == t.credentials[c].digest
    ensures d == c
  {
    assert Successor(s.credentials[d], t.credentials[d]);
  }

  /** What the manifest of step `g` lists was issued then, to the credential that still has
      that digest later. */
  lemma ListedWasIssued(start: State, actions: seq<Action>, g: nat, j: nat, q: nat, c: Id)
    requires Inv(start) && GeneratedAt(start, actions, g, q) && g < j <= |actions| && c < |At(start, actions, j).credentials|
    requires q <= |At(start, actions, j).manifests| && Lists(At(start, actions, j).manifests[q - 1], At(start, actions, j).credentials[c].digest)
    ensures c < |At(start, actions, g).credentials|
  {
    var s, t := At(start, actions, g), At(start, actions, j);
    ManifestKeepsRows(start, actions, g, j, q);
    var digest := t.credentials[c].digest;
    ManifestListsExactlyTheIssued(s.credentials, s.registrations, digest);
    var d :| IssuedFor(s.credentials, s.registrations, digest, d);
    AtGrows(start, actions, g, j);
    AtIsValid(start, actions, j);
    SameDigestSameCredential(s, t, d, c);
  }

  /** Action `j` recorded an applied check-in. */
  ghost predicate AppliedAt(start: State, actions: seq<Action>, j: nat) {
    && j < |actions| && actions[j].Reconcile?
    && |At(start, actions, j + 1).operations| == |At(start, actions, j).operations| + 1
    && At(start, actions, j + 1).operations[|At(start, actions, j).operations|].outcome == Applied
  }

  lemma AppliedVerdict(s: State, x: Submission)
    requires |DoReconcile(s, x).0.operations| == |s.operations| + 1
    requires DoReconcile(s, x).0.operations[|s.operations|].outcome == Applied
    ensures Refusal(s, x).None? && Judge(s, x) == (CheckInApplied, Applied)
    ensures DoReconcile(s, x).0.operations[|s.operations|] == OperationRow(s, x)
  {
  }

  /** Every applied check-in cites a manifest, generated earlier in the run, that listed its
      very credential; the check-in happened within that manifest's validity; and the
      credential was issued in every state from the generation to the application. The run
      may start from the empty state or at any point before the first manifest. */
  lemma AppliedCitesLiveManifest(start: State, actions: seq<Action>, j: nat)
    requires Reachable(start) && start.manifests == [] && AppliedAt(start, actions, j)
    ensures var s := At(start, actions, j);
            var o := At(start, actions, j + 1).operations[|s.operations|];
            && o.credential.Some? && o.credential.value < |s.credentials|
            && exists g | 0 <= g < j ::
                 && GeneratedAt(start, actions, g, o.manifestSequence)
                 && |s.manifests| >= o.manifestSequence
                 && Lists(s.manifests[o.manifestSequence - 1], s.credentials[o.credential.value].digest)
                 && actions[g].now <= o.occurredAt < actions[g].now + MANIFEST_LIFETIME
                 && IssuedThroughout(start, actions, g, j, o.credential.value)
  {
    ReachableIsValid(start);
    var s, x := At(start, actions, j), actions[j].submission;
    AtSteps(start, actions, j);
    AtIsValid(start, actions, j);
    AppliedVerdict(s, x);
    var c := FindDigest(s.credentials, Digest(x.token)).value;
    var m := FindManifest(s.manifests, x.manifestSequence).value;
    var g := WhenGenerated(start, actions, j, m + 1);
    ListedWasIssued(start, actions, g, j, m + 1, c);
    IssuedBackwards(start, actions, g, j, c);
    ManifestKeepsRows(start, actions, g, j, m + 1);
    assert GeneratedAt(start, actions, g, x.manifestSequence);
  }

  /** A credential once revoked or replaced is never applied later, however old the manifest. */
  lemma {:induction false} WithdrawnIsNeverApplied(s: State, actions: seq<Action>, c: Id, p: Id)
    requires c < |s.credentials| && s.credentials[c].status != Issued
    requires |s.operations| <= p < |Run(s, actions).operations| && Run(s, actions).operations[p].credential == Some(c)
    ensures Run(s, actions).operations[p].outcome != Applied
  {
    if actions != [] {
      var n := |actions| - 1;
      var m, t := Run(s, actions[..n]), Run(s, actions);
      RecordsOnlyGrow(s, actions[..n]);
      StepGrows(m, actions[n]);
      assert Successor(s.credentials[c], m.credentials[c]);
      if p < |m.operations| {
        assert t.operations[p] == m.operations[p];
        WithdrawnIsNeverApplied(s, actions[..n], c, p);
      } else {
        NewOperationIsJudged(m, actions[n], p);
      }
    }
  }

  lemma NewOperationIsJudged(s: State, a: Action, p: Id)
    requires |s.operations| <= p < |Step(s, a).0.operations|
    ensures a.Reconcile? && p == |s.operations|
    ensures var x := a.submission;
            && x.deviceSequence >= 0 && x.manifestSequence >= 0
            && Step(s, a).0.operations[p] == OperationRow(s, x)
  {
  }

  // ---- Exactly-once arrival.

  /** Each registration has at most one applied operation, across all devices. */
  lemma ArrivesAtMostOnce(s: State, p: Id, q: Id, r: Id)
    requires Reachable(s) && p < |s.operations| && q < |s.operations|
    requires AppliedTo(s.credentials, s.operations[p], r) && AppliedTo(s.credentials, s.operations[q], r)
    ensures p == q
  {
    ReachableIsValid(s);
  }

  /** As many applied operations as offline check-in records as verification events; the
      one-record-per-registration constraint is never hit. */
  lemma ArrivalsAreConserved(s: State, x: Submission)
    requires Reachable(s)
    ensures CountApplied(s.operations) == CountOffline(s.checkIns) == CountVerified(s.events)
    ensures Judge(s, x).1 == Applied ==> !HasCheckIn(s.checkIns, s.credentials[FindDigest(s.credentials, Digest(x.token)).value].registration)
  {
    ReachableIsValid(s);
  }

  /** A submission that will be recorded as a new operation. */
  ghost predicate Recordable(s: State, x: Submission) {
    && x.admitted && x.device in s.devices && s.devices[x.device].enabled && !s.devices[x.device].revoked
    && FindOperation(s.operations, x.device, x.operationId).None?
    && x.signed && x.deviceSequence == s.devices[x.device].lastSequence + 1 && x.manifestSequence >= 0
  }

  /** A submission with credential `c`, still issued and listed in a manifest valid then. */
  ghost predicate Presents(s: State, x: Submission, c: Id) {
    && FindDigest(s.credentials, Digest(x.token)) == Some(c) && s.credentials[c].status == Issued
    && var m := FindManifest(s.manifests, x.manifestSequence);
       && m.Some? && s.manifests[m.value].validFrom <= x.occurredAt < s.manifests[m.value].validUntil
       && Lists(s.manifests[m.value], s.credentials[c].digest)
  }

  /** After an arrival, every later operation with a still issued, listed credential of that
      registration is recorded as a duplicate, from any device and after any run, and
      changes nothing but the device log. */
  lemma LaterOperationsAreDuplicates(s: State, p: Id, r: Id, actions: seq<Action>, x: Submission, c: Id)
    requires Reachable(s) && p < |s.operations| && AppliedTo(s.credentials, s.operations[p], r)
    requires var t := Run(s, actions); Recordable(t, x) && Presents(t, x, c) && t.credentials[c].registration == r
    ensures var t := Run(s, actions);
            var u := Step(t, Reconcile(x)).0;
            && |u.operations| == |t.operations| + 1
            && u.operations[|t.operations|].outcome == Duplicate && u.operations[|t.operations|].code == AlreadyCheckedIn
            && u.registrations == t.registrations && u.checkIns == t.checkIns && u.events == t.events && u.credentials == t.credentials
  {
    var t := Run(s, actions);
    ArrivedStaysArrived(s, p, r, actions);
    DuplicateVerdict(t, x, c);
  }

  lemma ArrivedStaysArrived(s: State, p: Id, r: Id, actions: seq<Action>)
    requires Reachable(s) && p < |s.operations| && AppliedTo(s.credentials, s.operations[p], r)
    ensures var t := Run(s, actions); r < |t.registrations| && t.registrations[r].state == CheckedIn
  {
    ReachableIsValid(s);
    RecordsOnlyGrow(s, actions);
  }

  lemma DuplicateVerdict(t: State, x: Submission, c: Id)
    requires Recordable(t, x) && Presents(t, x, c)
    requires t.credentials[c].registration < |t.registrations| && t.registrations[t.credentials[c].registration].state == CheckedIn
    ensures var u := DoReconcile(t, x).0;
            && |u.operations| == |t.operations| + 1
            && u.operations[|t.operations|].outcome == Duplicate && u.operations[|t.operations|].code == AlreadyCheckedIn
            && u.registrations == t.registrations && u.checkIns == t.checkIns && u.events == t.events && u.credentials == t.credentials
  {
    assert Judge(t, x) == (AlreadyCheckedIn, Duplicate);
  }

  // ---- Verdicts.

  /** The submitted manifest exists and covers the time of the check-in. */
  ghost predicate ManifestCovers(s: State, x: Submission, m: Id) {
    m < |s.manifests| && s.manifests[m].sequence == x.manifestSequence && s.manifests[m].validFrom <= x.occurredAt < s.manifests[m].validUntil
  }

  /** The submitted token is credential `c`, listed in manifest `m`. */
  ghost predicate Listed(s: State, x: Submission, m: Id, c: Id) {
    && ManifestCovers(s, x, m) && c < |s.credentials| && s.credentials[c].digest == Digest(x.token)
    && Lists(s.manifests[m], s.credentials[c].digest)
  }

  /** A recorded operation is applied exactly when its credential is listed in the covering
      manifest, still issued, and its registration confirmed; it is a duplicate exactly when
      that registration has already arrived; it is rejected exactly when no manifest covers
      it or no credential has its token. */
  lemma VerdictsAreExact(s: State, x: Submission, m: Id, c: Id)
    requires Reachable(s)
    ensures Listed(s, x, m, c) ==>
              && s.credentials[c].registration < |s.registrations|
              && (Judge(s, x).1 == Applied <==> s.credentials[c].status == Issued && s.registrations[s.credentials[c].registration].state == Confirmed)
              && (Judge(s, x).1 == Duplicate <==> s.credentials[c].status == Issued && s.registrations[s.credentials[c].registration].state == CheckedIn)
              && Judge(s, x).1 != Rejected
    ensures Judge(s, x).1 == Applied || Judge(s, x).1 == Duplicate ==> exists n: Id, d: Id :: Listed(s, x, n, d)
    ensures Judge(s, x).1 == Rejected <==> !(exists n: Id, d: Id :: ManifestCovers(s, x, n) && d < |s.credentials| && s.credentials[d].digest == Digest(x.token))
  {
    ReachableIsValid(s);
    assert Numbered(s.manifests) && Marked(s.credentials, |s.registrations|);
    if Listed(s, x, m, c) { ListedVerdict(s, x, m, c); }
    FoundVerdict(s, x);
  }

  lemma ListedVerdict(s: State, x: Submission, m: Id, c: Id)
    requires Numbered(s.manifests) && Marked(s.credentials, |s.registrations|) && Listed(s, x, m, c)
    ensures Judge(s, x).1 == (if s.credentials[c].status != Issued then Conflict
                              else if s.registrations[s.credentials[c].registration].state == CheckedIn then Duplicate
                              else if s.registrations[s.credentials[c].registration].state != Confirmed then Conflict else Applied)
  {
    SameManifest(s.manifests, m, FindManifest(s.manifests, x.manifestSequence).value);
    SameCredential(s.credentials, |s.registrations|, c, FindDigest(s.credentials, Digest(x.token)).value);
  }

  lemma FoundVerdict(s: State, x: Submission)
    requires Numbered(s.manifests)
    ensures Judge(s, x).1 == Applied || Judge(s, x).1 == Duplicate ==> exists n: Id, d: Id :: Listed(s, x, n, d)
    ensures Judge(s, x).1 == Rejected <==> !(exists n: Id, d: Id :: ManifestCovers(s, x, n) && d < |s.credentials| && s.credentials[d].digest == Digest(x.token))
  {
    var manifest, found := FindManifest(s.manifests, x.manifestSequence), FindDigest(s.credentials, Digest(x.token));
    if Judge(s, x).1 == Rejected {
      forall n: Id | ManifestCovers(s, x, n) ensures found.None? {
        SameManifest(s.manifests, n, manifest.value);
      }
    } else {
      assert ManifestCovers(s, x, manifest.value);
      if Lists(s.manifests[manifest.value], Digest(x.token)) {
        assert Listed(s, x, manifest.value, found.value);
      }
    }
  }

  lemma SameManifest(manifests: seq<Manifest>, m: Id, n: Id)
    requires Numbered(manifests) && m < |manifests| && n < |manifests| && manifests[m].sequence == manifests[n].sequence
    ensures m == n
  {
  }

  lemma SameCredential(credentials: seq<Credential>, registrations: nat, c: Id, d: Id)
    requires Marked(credentials, registrations) && c < |credentials| && d < |credentials| && credentials[c].digest == credentials[d].digest
    ensures c == d
  {
  }

  /** A token and public id never used before. */
  ghost predicate Unused(credentials: seq<Credential>, token: string, publicId: string) {
    forall c | 0 <= c < |credentials| :: credentials[c].digest != Digest(token) && credentials[c].publicId != publicId
  }

  ghost predicate Issuable(s: State, a: Action)
    requires a.Issue?
  {
    && a.allowed && a.reason != "" && a.registration < |s.registrations| && s.registrations[a.registration].entitled
    && (s.registrations[a.registration].state == Confirmed || s.registrations[a.registration].state == CheckedIn)
    && Unused(s.credentials, a.token, a.publicId)
  }

  /** Under an unused token an admitted issue always succeeds; it numbers the new credential
      one after those the registration ever had, leaves it the only issued one, marks an issued
      predecessor as replaced by this actor, and leaves all other credentials alone. */
  lemma IssueYieldsTheOneCredential(s: State, a: Action)
    requires Reachable(s) && a.Issue?
    ensures Step(s, a).1.Ok? <==> Issuable(s, a)
    ensures Issuable(s, a) ==>
              var t, n, r := Step(s, a).0, |s.credentials|, a.registration;
              && Step(s, a).1 == Ok(CredentialAnswer(n)) && |t.credentials| == n + 1
              && t.credentials[n].digest == Digest(a.token) && t.credentials[n].issueSequence == CountOf(s.credentials, r) + 1
              && Matches(t.credentials[n], r, Issued) && CountStatus(t.credentials, r, Issued) == 1
              && forall d | 0 <= d < n ::
                   t.credentials[d] == if Matches(s.credentials[d], r, Issued)
                                       then Withdraw(s.credentials[d], Replaced, a.now, a.actor, a.reason) else s.credentials[d]
  {
    if Issuable(s, a) {
      ReachableIsValid(s);
      IssueAppends(s, a);
      ReplacedRows(s.credentials, a.registration, a.now, a.actor, a.reason);
      var kept := ReplaceCurrent(s.credentials, a.registration, a.now, a.actor, a.reason);
      CountStatusAfter(kept, Step(s, a).0.credentials[|s.credentials|], a.registration, Issued);
    }
  }

  /** A successful issue replaces the current credential and appends its successor. */
  lemma IssueAppends(s: State, a: Action)
    requires a.Issue? && Issuable(s, a) && History(s.credentials)
    ensures var t, n := Step(s, a).0, |s.credentials|;
            && Step(s, a).1 == Ok(CredentialAnswer(n)) && |t.credentials| == n + 1
            && t.credentials == ReplaceCurrent(s.credentials, a.registration, a.now, a.actor, a.reason) + [t.credentials[n]]
            && Matches(t.credentials[n], a.registration, Issued) && t.credentials[n].digest == Digest(a.token)
            && t.credentials[n].issueSequence == CountOf(s.credentials, a.registration) + 1
  {
    MaxIsCount(s.credentials, a.registration);
  }

  lemma {:induction false} NoneOfStatus(credentials: seq<Credential>, r: Id, status: CredentialStatus)
    requires forall d | 0 <= d < |credentials| :: !Matches(credentials[d], r, status)
    ensures CountStatus(credentials, r, status) == 0
  {
    if credentials != [] { NoneOfStatus(credentials[..|credentials| - 1], r, status); }
  }

  /** Replacing withdraws the issued credential of the registration and no other. */
  lemma ReplacedRows(credentials: seq<Credential>, r: Id, now: int, actor: Id, reason: string)
    requires OneIssued(credentials)
    ensures var kept := ReplaceCurrent(credentials, r, now, actor, reason);
            && |kept| == |credentials| && CountStatus(kept, r, Issued) == 0
            && forall d | 0 <= d < |credentials| ::
                 kept[d] == if Matches(credentials[d], r, Issued) then Withdraw(credentials[d], Replaced, now, actor, reason) else credentials[d]
  {
    NoneOfStatus(ReplaceCurrent(credentials, r, now, actor, reason), r, Issued);
  }

  /** The next manifest lists the new credential and none of its predecessors. */
  lemma NextManifestListsTheSuccessor(s: State, a: Action, b: Action, d: Id)
    requires Reachable(s) && a.Issue? && Step(s, a).1.Ok?
    requires b.Snapshot? && Step(Step(s, a).0, b).1.Ok?
    requires d < |s.credentials| && s.credentials[d].registration == a.registration
    ensures var t := Step(Step(s, a).0, b).0;
            && |t.manifests| > 0
            && Lists(t.manifests[|t.manifests| - 1], Digest(a.token))
            && !Lists(t.manifests[|t.manifests| - 1], s.credentials[d].digest)
  {
    var t := Step(s, a).0;
    SuccessorFacts(s, a, d);
    ListedExactlyWhileIssued(t.credentials, t.registrations, |s.credentials|);
    ListedExactlyWhileIssued(t.credentials, t.registrations, d);
  }

  lemma SuccessorFacts(s: State, a: Action, d: Id)
    requires Reachable(s) && a.Issue? && Step(s, a).1.Ok? && d < |s.credentials| && s.credentials[d].registration == a.registration
    ensures var t := Step(s, a).0;
            && Marked(t.credentials, |t.registrations|) && |t.credentials| == |s.credentials| + 1
            && t.credentials[d].status != Issued && t.credentials[d].digest == s.credentials[d].digest
            && IssuedFor(t.credentials, t.registrations, Digest(a.token), |s.credentials|)
  {
    IssueYieldsTheOneCredential(s, a);
    StepIsReachable(s, a);
    ReachableIsValid(Step(s, a).0);
  }

  /** With unique digests, a manifest lists a credential exactly while it is issued to a
      registration that may attend. */
  lemma ListedExactlyWhileIssued(credentials: seq<Credential>, registrations: seq<Registration>, c: Id)
    requires Marked(credentials, |registrations|) && c < |credentials|
    ensures (exists k :: 0 <= k < |ManifestRows(credentials, registrations)| && ManifestRows(credentials, registrations)[k].digest == credentials[c].digest)
       <==> credentials[c].status == Issued && Admissible(registrations, credentials[c].registration)
  {
    ManifestListsExactlyTheIssued(credentials, registrations, credentials[c].digest);
    forall d | IssuedFor(credentials, registrations, credentials[c].digest, d) ensures d == c {
      SameCredential(credentials, |registrations|, c, d);
    }
    assert IssuedFor(credentials, registrations, credentials[c].digest, c)
      <==> credentials[c].status == Issued && Admissible(registrations, credentials[c].registration);
  }

  // ---- Device logs.

  /** A recorded operation id returns the stored operation unchanged, after any run, as long
      as the device and the profile are still admitted; and nothing changes. */
  lemma ResubmissionReturnsStored(s: State, p: Id, actions: seq<Action>, x: Submission)
    requires Reachable(s) && p < |s.operations|
    requires x.device == s.operations[p].device && x.operationId == s.operations[p].operationId && x.admitted
    requires var t := Run(s, actions); x.device in t.devices && t.devices[x.device].enabled && !t.devices[x.device].revoked
    ensures var t := Run(s, actions);
            Step(t, Reconcile(x)) == (t, Ok(OperationAnswer(p))) && |s.operations| <= |t.operations| && t.operations[p] == s.operations[p]
  {
    var t := Run(s, actions);
    RecordsOnlyGrow(s, actions);
    assert t.operations[p] == s.operations[p];
    LogOfRun(s, actions);
    FindsStored(t.operations, t.devices, p);
  }

  lemma LogOfRun(s: State, actions: seq<Action>)
    requires Reachable(s)
    ensures DeviceLog(Run(s, actions).operations, Run(s, actions).devices)
  {
    ReachableIsValid(s);
    RunKeepsInv(s, actions);
  }

  lemma FindsStored(operations: seq<Operation>, devices: map<string, Device>, p: Id)
    requires DeviceLog(operations, devices) && p < |operations|
    ensures FindOperation(operations, operations[p].device, operations[p].operationId) == Some(p)
  {
    var q := FindOperation(operations, operations[p].device, operations[p].operationId);
    assert q.Some?;
  }

  ghost predicate Logged(operations: seq<Operation>, device: string, k: nat) {
    exists p :: 0 <= p < |operations| && operations[p].device == device && operations[p].deviceSequence == k
  }

  /** A device's log carries exactly the sequences 1..last, each once, under distinct operation
      ids. */
  lemma DeviceLogIsGapFree(s: State, device: string)
    requires Reachable(s) && device in s.devices
    ensures forall k | 1 <= k <= s.devices[device].lastSequence :: Logged(s.operations, device, k)
    ensures forall p | 0 <= p < |s.operations| && s.operations[p].device == device ::
              1 <= s.operations[p].deviceSequence <= s.devices[device].lastSequence
    ensures forall p, q | 0 <= p < q < |s.operations| && s.operations[p].device == device && s.operations[q].device == device ::
              s.operations[p].deviceSequence < s.operations[q].deviceSequence && s.operations[p].operationId != s.operations[q].operationId
  {
    ReachableIsValid(s);
    LogIsGapFree(s.operations, s.devices, device);
  }

  lemma LogIsGapFree(operations: seq<Operation>, devices: map<string, Device>, device: string)
    requires DeviceLog(operations, devices) && device in devices
    ensures forall k | 1 <= k <= devices[device].lastSequence :: Logged(operations, device, k)
    ensures forall p | 0 <= p < |operations| && operations[p].device == device ::
              1 <= operations[p].deviceSequence <= devices[device].lastSequence
    ensures forall p, q | 0 <= p < q < |operations| && operations[p].device == device && operations[q].device == device ::
              operations[p].deviceSequence < operations[q].deviceSequence
  {
    forall k | 1 <= k <= devices[device].lastSequence ensures Logged(operations, device, k) {
      LoggedEach(operations, devices, device, k);
    }
    forall p | 0 <= p < |operations| && operations[p].device == device
      ensures 1 <= operations[p].deviceSequence <= devices[device].lastSequence
    {
      SequenceInRange(operations, devices, p);
    }
    forall p, q | 0 <= p < q < |operations| && operations[p].device == device && operations[q].device == device
      ensures operations[p].deviceSequence < operations[q].deviceSequence
    {
      CountFromMonotone(operations, device, p + 1, q);
      assert operations[..q + 1][..q] == operations[..q];
    }
  }

  lemma SequenceInRange(operations: seq<Operation>, devices: map<string, Device>, p: Id)
    requires DeviceLog(operations, devices) && p < |operations|
    ensures operations[p].device in devices && 1 <= operations[p].deviceSequence <= devices[operations[p].device].lastSequence
  {
    assert operations[..|operations|] == operations;
    CountFromMonotone(operations, operations[p].device, p + 1, |operations|);
    assert operations[..p + 1][..p] == operations[..p];
  }

  lemma {:induction false} CountFromMonotone(operations: seq<Operation>, device: string, j: nat, k: nat)
    requires j <= k <= |operations|
    ensures CountFrom(operations[..j], device) <= CountFrom(operations[..k], device)
  {
    if j < k {
      assert operations[..k][..k - 1] == operations[..k - 1];
      CountFromMonotone(operations, device, j, k - 1);
    }
  }

  lemma LoggedEach(operations: seq<Operation>, devices: map<string, Device>, device: string, k: nat)
    requires DeviceLog(operations, devices) && 1 <= k <= CountFrom(operations, device)
    ensures Logged(operations, device, k)
  {
    assert operations[..|operations|] == operations;
    var p := WhereCounted(operations, device, k, |operations|);
    assert operations[p].deviceSequence == k;
  }

  lemma {:induction false} WhereCounted(operations: seq<Operation>, device: string, k: nat, n: nat) returns (p: nat)
    requires n <= |operations| && 1 <= k <= CountFrom(operations[..n], device)
    ensures p < n && operations[p].device == device && CountFrom(operations[..p + 1], device) == k
  {
    assert operations[..n][..n - 1] == operations[..n - 1];
    if k <= CountFrom(operations[..n - 1], device) {
      p := WhereCounted(operations, device, k, n - 1);
    } else {
      p := n - 1;
    }
  }
}
