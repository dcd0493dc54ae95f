/** What every reachable registry satisfies, and what no sequence of control requests can undo. */
module RegistryTheorems {
  import opened Wrappers
  import opened Text
  import opened Registry

  // The invariant

  /** Every stored document is valid and is the one its row and its acknowledgement speak of. */
  ghost predicate Documented(s: State) {
    forall g :: g in s.registrations ==>
      && g != EMPTY_GUID
      && IsValid(s.registrations[g].desired)
      && s.registrations[g].revision == s.registrations[g].desired.revision ==
         s.registrations[g].acknowledgement.revision
      && s.registrations[g].acknowledgement.registrationId == g
  }

  /** Every credential belongs to a stored registration and carries a decodable verifier. */
  ghost predicate Owned(s: State) {
    forall k :: k in s.credentials ==>
      s.credentials[k].registrationId in s.registrations && IsVerifier(s.credentials[k].verifier)
  }

  /** A credential is unrevoked exactly when its registration is enabled and lists it. */
  ghost predicate RevokedUnlessListed(s: State) {
    forall k :: k in s.credentials && s.credentials[k].registrationId in s.registrations ==>
      var desired := s.registrations[s.credentials[k].registrationId].desired;
      !s.credentials[k].revoked <==> desired.state.Enabled? && k in Listed(desired.credentials)
  }

  /** Every listed credential is stored, under the registration that lists it. */
  ghost predicate Stored(s: State) {
    forall g, k :: g in s.registrations && k in Listed(s.registrations[g].desired.credentials) ==>
      k in s.credentials && s.credentials[k].registrationId == g
  }

  /**
    What a stored credential is checked against is what its registration's document says, up to the
    case of hexadecimal digits.
   */
  ghost predicate VerifiersMatch(s: State) {
    forall g, k :: g in s.registrations && k in Listed(s.registrations[g].desired.credentials) && k in s.credentials ==>
      EqualIgnoreCase(s.credentials[k].verifier, VerifierOf(s.registrations[g].desired.credentials, k))
  }

  /**
    An acknowledgement tells when the credential its document rotates out expires, and tells
    nothing without a rotation.
   */
  ghost predicate Acknowledged(s: State) {
    forall g :: g in s.registrations ==>
      match s.registrations[g].desired.rotation
      case None => s.registrations[g].acknowledgement.previousExpiresAt.None?
      case Some(operation) =>
        && operation.previousId in s.credentials
        && s.credentials[operation.previousId].expiresAt.Some?
        && s.credentials[operation.previousId].expiresAt == s.registrations[g].acknowledgement.previousExpiresAt
  }

  /** Both ends of a rotation are credentials of its registration, and the old one expires at the deadline. */
  ghost predicate Dated(s: State) {
    forall r :: r in s.rotations ==>
      var row := s.rotations[r];
      && r != EMPTY_GUID
      && row.previousId in s.credentials && row.newId in s.credentials
      && s.credentials[row.previousId].registrationId == row.registrationId
      && s.credentials[row.newId].registrationId == row.registrationId
      && s.credentials[row.previousId].expiresAt == Some(row.deadline)
  }

  /** Only a rotation gives a credential an expiry. */
  ghost predicate ExpiryExplained(s: State) {
    forall k :: k in s.credentials && s.credentials[k].expiresAt.Some? ==> Superseded(s, k)
  }

  ghost predicate Superseded(s: State, k: string) {
    exists r :: r in s.rotations && s.rotations[r].previousId == k
  }

  /** A credential is replaced at most once and replaces at most one other. */
  ghost predicate Linear(rotations: map<Guid, RotationEntry>) {
    forall p, q :: p in rotations && q in rotations && p != q ==>
      rotations[p].previousId != rotations[q].previousId && rotations[p].newId != rotations[q].newId
  }

  /** Rotations in which each one replaces what the one before it introduced. */
  ghost predicate Chain(rotations: map<Guid, RotationEntry>, path: seq<Guid>) {
    && |path| > 0
    && (forall i :: 0 <= i < |path| ==> path[i] in rotations)
    && (forall i :: 0 < i < |path| ==> rotations[path[i - 1]].newId == rotations[path[i]].previousId)
  }

  ghost predicate Cycle(rotations: map<Guid, RotationEntry>, path: seq<Guid>) {
    Chain(rotations, path) && rotations[path[|path| - 1]].newId == rotations[path[0]].previousId
  }

  ghost predicate Acyclic(rotations: map<Guid, RotationEntry>) {
    forall path :: !Cycle(rotations, path)
  }

  ghost predicate Valid(s: State) {
    && Documented(s) && Owned(s) && RevokedUnlessListed(s) && Stored(s) && VerifiersMatch(s)
    && Acknowledged(s) && Dated(s) && ExpiryExplained(s) && Linear(s.rotations) && Acyclic(s.rotations)
  }

  // Every step keeps it

  lemma ListedVerifier(credentials: seq<DesiredCredential>, k: string)
    requires k in Listed(credentials)
    requires forall i :: 0 <= i < |credentials| ==> IsVerifier(credentials[i].verifier)
    ensures IsVerifier(VerifierOf(credentials, k))
  {
    if credentials[0].id != k {
      assert k in Listed(credentials[1..]) by {
        var i :| 0 <= i < |credentials| && credentials[i].id == k;
        assert credentials[1..][i - 1].id == k;
      }
      ListedVerifier(credentials[1..], k);
    }
  }

  /** What the later lemmas need of a request that commits. */
  ghost predicate Fits(s: State, id: Guid, desired: DesiredRegistration) {
    && (id in s.registrations ==> Supersedes(s.registrations[id], desired))
    && |desired.credentials| <= 4
    && (forall k :: k in Listed(desired.credentials) && k in s.credentials ==>
          && s.credentials[k].registrationId == id && (desired.state.Enabled? ==> !s.credentials[k].revoked)
          && EqualIgnoreCase(s.credentials[k].verifier, VerifierOf(desired.credentials, k)))
    && (desired.rotation.Some? && !StartsRotation(s, desired) ==>
          SameRotation(s.rotations[desired.rotation.value.operationId], id, desired.rotation.value))
    && (StartsRotation(s, desired) ==>
          && desired.rotation.value.operationId != EMPTY_GUID
          && MayRotate(s, id, desired.rotation.value)
          && desired.state.Enabled?
          && desired.rotation.value.previousId in Listed(desired.credentials)
          && desired.rotation.value.newId in Listed(desired.credentials))
  }

  lemma CommittingFits(s: State, id: Guid, desired: DesiredRegistration)
    requires Commits(s, id, desired)
    ensures Fits(s, id, desired)
  {
    forall k | k in Listed(desired.credentials) && k in s.credentials
      ensures s.credentials[k].registrationId == id && (desired.state.Enabled? ==> !s.credentials[k].revoked)
      ensures EqualIgnoreCase(s.credentials[k].verifier, VerifierOf(desired.credentials, k))
    {
      var i :| 0 <= i < |desired.credentials| && desired.credentials[i].id == k;
      FirstIsOnly(desired.credentials, i);
      hide EqualIgnoreCase, VerifierOf;
      assert !Clashes(s, id, desired, desired.credentials[i]);
    }
  }

  lemma CommitKeepsDocuments(s: State, id: Guid, desired: DesiredRegistration, now: int, at: int)
    requires Documented(s) && Owned(s) && id != EMPTY_GUID && IsValid(desired) && Fits(s, id, desired)
    ensures Documented(Commit(s, id, desired, now, at)) && Owned(Commit(s, id, desired, now, at))
  {
    CommitKeepsOwned(s, id, desired, now, at);
    hide Owned, VerifierOf, EqualIgnoreCase, CommittedCredential, CommittedRotations;
  }

  lemma CommitKeepsOwned(s: State, id: Guid, desired: DesiredRegistration, now: int, at: int)
    requires Owned(s) && IsValid(desired) && Fits(s, id, desired)
    ensures Owned(Commit(s, id, desired, now, at))
  {
    var after := Commit(s, id, desired, now, at);
    assert forall i :: 0 <= i < |desired.credentials| ==> IsVerifier(desired.credentials[i].verifier);
    hide VerifierOf, EqualIgnoreCase, IsVerifier, IsValid, CommittedRotations;
    forall k | k in after.credentials
      ensures after.credentials[k].registrationId in after.registrations && IsVerifier(after.credentials[k].verifier)
    {
      assert after.credentials[k] == CommittedCredential(s, id, desired, now, k);
      if k !in s.credentials {
        ListedVerifier(desired.credentials, k);
      }
    }
  }

  lemma CommitKeepsListing(s: State, id: Guid, desired: DesiredRegistration, now: int, at: int)
    requires Owned(s) && RevokedUnlessListed(s) && Fits(s, id, desired)
    ensures RevokedUnlessListed(Commit(s, id, desired, now, at))
  {
    hide VerifierOf, EqualIgnoreCase, Listed;
    var after := Commit(s, id, desired, now, at);
    forall k | k in after.credentials && after.credentials[k].registrationId in after.registrations
      ensures var document := after.registrations[after.credentials[k].registrationId].desired;
              !after.credentials[k].revoked <==> document.state.Enabled? && k in Listed(document.credentials)
    {
      assert after.credentials[k] == CommittedCredential(s, id, desired, now, k);
    }
  }

  lemma CommitKeepsStored(s: State, id: Guid, desired: DesiredRegistration, now: int, at: int)
    requires Stored(s) && Fits(s, id, desired)
    ensures Stored(Commit(s, id, desired, now, at))
  {
    hide VerifierOf, EqualIgnoreCase, Listed;
    var after := Commit(s, id, desired, now, at);
    forall g, k | g in after.registrations && k in Listed(after.registrations[g].desired.credentials)
      ensures k in after.credentials && after.credentials[k].registrationId == g
    {
      assert g != id ==> k in s.credentials;
      assert after.credentials[k] == CommittedCredential(s, id, desired, now, k);
    }
  }

  lemma CommitKeepsDated(s: State, id: Guid, desired: DesiredRegistration, now: int, at: int)
    requires Dated(s) && Fits(s, id, desired)
    ensures Dated(Commit(s, id, desired, now, at))
  {
    hide VerifierOf, EqualIgnoreCase;
    var after := Commit(s, id, desired, now, at);
    forall r | r in after.rotations
      ensures var row := after.rotations[r];
              && r != EMPTY_GUID
              && row.previousId in after.credentials && row.newId in after.credentials
              && after.credentials[row.previousId].registrationId == row.registrationId
              && after.credentials[row.newId].registrationId == row.registrationId
              && after.credentials[row.previousId].expiresAt == Some(row.deadline)
    {
      var row := after.rotations[r];
      assert row.previousId in s.credentials;
      assert after.credentials[row.previousId] == CommittedCredential(s, id, desired, now, row.previousId);
      assert after.credentials[row.newId] == CommittedCredential(s, id, desired, now, row.newId);
    }
  }

  lemma CommitKeepsVerifiers(s: State, id: Guid, desired: DesiredRegistration, now: int, at: int)
    requires Stored(s) && VerifiersMatch(s) && Fits(s, id, desired)
    ensures VerifiersMatch(Commit(s, id, desired, now, at))
  {
    hide VerifierOf, Listed;
    var after := Commit(s, id, desired, now, at);
    forall g, k | g in after.registrations && k in Listed(after.registrations[g].desired.credentials)
      && k in after.credentials
      ensures EqualIgnoreCase(after.credentials[k].verifier, VerifierOf(after.registrations[g].desired.credentials, k))
    {
      assert after.credentials[k] == CommittedCredential(s, id, desired, now, k);
    }
  }

  lemma CommitKeepsAcknowledged(s: State, id: Guid, desired: DesiredRegistration, now: int, at: int)
    requires Dated(s) && Acknowledged(s) && Fits(s, id, desired)
    ensures Acknowledged(Commit(s, id, desired, now, at))
  {
    hide VerifierOf, Listed, EqualIgnoreCase, CommittedCredential, Fits;
    CommitKeepsDated(s, id, desired, now, at);
    ExpiriesStay(s, id, desired, now, at);
    if desired.rotation.Some? {
      RotationStored(s, id, desired, now);
    }
  }

  /** The rotation a committing document asks for has a row, which ends at the credential it names. */
  lemma RotationStored(s: State, id: Guid, desired: DesiredRegistration, now: int)
    requires Fits(s, id, desired) && desired.rotation.Some?
    ensures var rotations, operation := CommittedRotations(s, id, desired, now), desired.rotation.value;
            operation.operationId in rotations && rotations[operation.operationId].previousId == operation.previousId
  {
    hide VerifierOf, Listed, EqualIgnoreCase;
  }

  lemma ExpiriesStay(s: State, id: Guid, desired: DesiredRegistration, now: int, at: int)
    requires Fits(s, id, desired)
    ensures var after := Commit(s, id, desired, now, at);
            forall k :: k in s.credentials && s.credentials[k].expiresAt.Some? ==>
              k in after.credentials && after.credentials[k].expiresAt == s.credentials[k].expiresAt
  {
    hide VerifierOf, Listed, EqualIgnoreCase;
    var after := Commit(s, id, desired, now, at);
    forall k | k in s.credentials && s.credentials[k].expiresAt.Some?
      ensures k in after.credentials && after.credentials[k].expiresAt == s.credentials[k].expiresAt
    {
      assert after.credentials[k] == CommittedCredential(s, id, desired, now, k);
    }
  }

  lemma CommitKeepsExplained(s: State, id: Guid, desired: DesiredRegistration, now: int, at: int)
    requires ExpiryExplained(s)
    ensures ExpiryExplained(Commit(s, id, desired, now, at))
  {
    var after := Commit(s, id, desired, now, at);
    forall k | k in after.credentials && after.credentials[k].expiresAt.Some?
      ensures Superseded(after, k)
    {
      if StartsRotation(s, desired) && desired.rotation.value.previousId == k {
        assert after.rotations[desired.rotation.value.operationId].previousId == k;
      } else {
        assert Superseded(s, k);
        var r :| r in s.rotations && s.rotations[r].previousId == k;
        assert after.rotations[r].previousId == k;
      }
    }
  }

  lemma CommitKeepsLinear(s: State, id: Guid, desired: DesiredRegistration, now: int)
    requires Dated(s) && Linear(s.rotations) && Fits(s, id, desired)
    ensures Linear(CommittedRotations(s, id, desired, now))
  {
    hide VerifierOf, EqualIgnoreCase;
    if StartsRotation(s, desired) {
      // An existing row starting at the outgoing credential would have dated it already, and no
      // existing row can end at a credential that is not stored yet.
      forall r | r in s.rotations
        ensures s.rotations[r].previousId != desired.rotation.value.previousId
        ensures s.rotations[r].newId != desired.rotation.value.newId
      {
        assert s.credentials[s.rotations[r].previousId].expiresAt.Some?;
      }
    }
  }

  lemma CommitKeepsAcyclic(s: State, id: Guid, desired: DesiredRegistration, now: int)
    requires Dated(s) && Acyclic(s.rotations) && Fits(s, id, desired)
    ensures Acyclic(CommittedRotations(s, id, desired, now))
  {
    hide VerifierOf, EqualIgnoreCase;
    var rotations := CommittedRotations(s, id, desired, now);
    forall path ensures !Cycle(rotations, path) {
      assert !Cycle(s.rotations, path);
      if StartsRotation(s, desired) && Cycle(rotations, path) {
        // The incoming credential is new, so no rotation leaves it and the added edge ends every chain.
        var added := desired.rotation.value.operationId;
        forall i | 0 <= i < |path| ensures path[i] != added {
          var next := if i + 1 < |path| then i + 1 else 0;
          assert rotations[path[i]].newId == rotations[path[next]].previousId;
        }
      }
    }
  }

  lemma PutPreservesValid(s: State, request: Request)
    requires Valid(s)
    ensures Valid(Step(s, request))
  {
    var Request(id, desired, now, at) := request;
    if Commits(s, id, desired) {
      CommittingFits(s, id, desired);
      CommitKeepsDocuments(s, id, desired, now, at);
      CommitKeepsListing(s, id, desired, now, at);
      CommitKeepsStored(s, id, desired, now, at);
      CommitKeepsDated(s, id, desired, now, at);
      CommitKeepsVerifiers(s, id, desired, now, at);
      CommitKeepsAcknowledged(s, id, desired, now, at);
      CommitKeepsExplained(s, id, desired, now, at);
      CommitKeepsLinear(s, id, desired, now);
      CommitKeepsAcyclic(s, id, desired, now);
    }
  }

  lemma {:induction false} RunPreservesValid(s: State, requests: seq<Request>)
    requires Valid(s)
    ensures Valid(Run(s, requests))
    decreases |requests|
  {
    if requests != [] {
      PutPreservesValid(s, requests[0]);
      RunPreservesValid(Step(s, requests[0]), requests[1..]);
    }
  }

  /** Every registry reached from empty tables satisfies the invariant. */
  lemma ReachableIsValid(requests: seq<Request>)
    ensures Valid(Run(EMPTY, requests))
  {
    RunPreservesValid(EMPTY, requests);
  }

  // Rotations form disjoint simple paths

  /**
    Along any chain of rotations of a reachable registry no credential occurs twice, and all of
    them belong to one registration. With `Linear`, the rotation relation is a set of disjoint
    simple paths.
   */
  lemma ChainsAreSimple(s: State, path: seq<Guid>)
    requires Dated(s) && Acyclic(s.rotations) && Chain(s.rotations, path)
    ensures forall i, j :: 0 <= i < j < |path| ==> s.rotations[path[i]].previousId != s.rotations[path[j]].previousId
    ensures forall i, j :: 0 <= i <= j < |path| ==> s.rotations[path[i]].previousId != s.rotations[path[j]].newId
    ensures forall i :: 0 <= i < |path| ==> s.rotations[path[i]].registrationId == s.rotations[path[0]].registrationId
  {
    forall i, j | 0 <= i <= j < |path| ensures s.rotations[path[i]].previousId != s.rotations[path[j]].newId {
      var part := path[i..j + 1];
      forall m | 0 < m < |part| ensures s.rotations[part[m - 1]].newId == s.rotations[part[m]].previousId {
        assert part[m - 1] == path[i + m - 1] && part[m] == path[i + m];
      }
      assert Chain(s.rotations, part) && !Cycle(s.rotations, part);
    }
    forall i, j | 0 <= i < j < |path| ensures s.rotations[path[i]].previousId != s.rotations[path[j]].previousId {
      assert s.rotations[path[i]].previousId != s.rotations[path[j - 1]].newId;
    }
    ChainStaysInside(s, path, |path| - 1);
  }

  lemma {:induction false} ChainStaysInside(s: State, path: seq<Guid>, n: nat)
    requires Dated(s) && Chain(s.rotations, path) && n < |path|
    ensures forall i :: 0 <= i <= n ==> s.rotations[path[i]].registrationId == s.rotations[path[0]].registrationId
  {
    if n > 0 {
      ChainStaysInside(s, path, n - 1);
      assert s.rotations[path[n - 1]].newId == s.rotations[path[n]].previousId;
    }
  }

  /** In a reachable registry a credential expires exactly if it was rotated out, at that rotation's deadline. */
  lemma ExpiryIsDeadline(s: State, k: string, r: Guid)
    requires Valid(s) && k in s.credentials
    ensures s.credentials[k].expiresAt.Some? <==> Superseded(s, k)
    ensures r in s.rotations && s.rotations[r].previousId == k ==>
      s.credentials[k].expiresAt == Some(s.rotations[r].deadline)
  {
    if Superseded(s, k) {
      var q :| q in s.rotations && s.rotations[q].previousId == k;
    }
  }

  // What one request does

  /**
    A request either commits, leaving exactly the listed credentials usable when the registration
    is enabled and none otherwise, or changes no table at all. It touches no other registration.
   */
  lemma PutEffect(s: State, request: Request)
    ensures !Commits(s, request.id, request.desired) ==> Step(s, request) == s
    ensures Commits(s, request.id, request.desired) ==>
      var after := Step(s, request);
      var usable := Usable(after, request.id);
      && request.id in after.registrations
      && after.registrations[request.id].desired == request.desired
      && (request.id in s.registrations ==>
           after.registrations[request.id].revision > s.registrations[request.id].revision)
      && usable == (if request.desired.state.Enabled? then Listed(request.desired.credentials) else {})
      && |usable| <= 4
    ensures forall g :: g != request.id ==> Untouched(s, Step(s, request), g)
  {
    var Request(id, desired, now, at) := request;
    if Commits(s, id, desired) {
      CommittingFits(s, id, desired);
      CommitUsable(s, id, desired, now, at);
      CommitTouchesOneRegistration(s, id, desired, now, at);
    }
  }

  lemma CommitUsable(s: State, id: Guid, desired: DesiredRegistration, now: int, at: int)
    requires Fits(s, id, desired)
    ensures Usable(Commit(s, id, desired, now, at), id) ==
      (if desired.state.Enabled? then Listed(desired.credentials) else {})
    ensures |Usable(Commit(s, id, desired, now, at), id)| <= 4
  {
    hide VerifierOf, EqualIgnoreCase;
    var after := Commit(s, id, desired, now, at);
    var usable := if desired.state.Enabled? then Listed(desired.credentials) else {};
    forall k ensures k in Usable(after, id) <==> k in usable {
      if k in after.credentials {
        assert after.credentials[k] == CommittedCredential(s, id, desired, now, k);
      }
    }
    assert Usable(after, id) == usable;
    ListedCount(desired.credentials);
  }

  ghost function Usable(s: State, g: Guid): set<string> {
    set k | k in s.credentials && s.credentials[k].registrationId == g && !s.credentials[k].revoked
  }

  /** Two registries agree on everything that belongs to one registration. */
  ghost predicate Untouched(s: State, after: State, g: Guid) {
    && (g in s.registrations <==> g in after.registrations)
    && (g in s.registrations ==> after.registrations[g] == s.registrations[g])
    && (forall k :: k in s.credentials && s.credentials[k].registrationId == g ==>
         k in after.credentials && after.credentials[k] == s.credentials[k])
    && (forall k :: k in after.credentials && after.credentials[k].registrationId == g ==> k in s.credentials)
    && (forall r :: r in s.rotations && s.rotations[r].registrationId == g ==>
         r in after.rotations && after.rotations[r] == s.rotations[r])
    && (forall r :: r in after.rotations && after.rotations[r].registrationId == g ==> r in s.rotations)
  }

  lemma CommitTouchesOneRegistration(s: State, id: Guid, desired: DesiredRegistration, now: int, at: int)
    requires Fits(s, id, desired)
    ensures forall g :: g != id ==> Untouched(s, Commit(s, id, desired, now, at), g)
  {
    hide VerifierOf, EqualIgnoreCase;
    var after := Commit(s, id, desired, now, at);
    forall k | k in after.credentials && (k !in s.credentials || after.credentials[k] != s.credentials[k])
      ensures after.credentials[k].registrationId == id
              && (k in s.credentials ==> s.credentials[k].registrationId == id)
    {
      assert after.credentials[k] == CommittedCredential(s, id, desired, now, k);
    }
  }

  lemma ListedCount(credentials: seq<DesiredCredential>)
    ensures |Listed(credentials)| <= |credentials|
  {
    if credentials == [] {
      assert Listed(credentials) == {};
    } else {
      var last := |credentials| - 1;
      ListedCount(credentials[..last]);
      assert Listed(credentials) == Listed(credentials[..last]) + {credentials[last].id};
    }
  }

  // What no run can undo

  ghost predicate CredentialEvolves(row: CredentialEntry, after: CredentialEntry) {
    && after.registrationId == row.registrationId
    && after.verifier == row.verifier
    && (row.revoked ==> after.revoked)
    && (row.expiresAt.Some? ==> after.expiresAt == row.expiresAt)
  }

  /** How a registry may differ from an earlier one: rows are never lost, revocation and expiry never taken back. */
  ghost predicate Evolves(s: State, after: State) {
    && (forall k :: k in s.credentials ==>
         k in after.credentials && CredentialEvolves(s.credentials[k], after.credentials[k]))
    && (forall r :: r in s.rotations ==> r in after.rotations && after.rotations[r] == s.rotations[r])
    && (forall g :: g in s.registrations ==>
          && g in after.registrations
          && after.registrations[g].revision >= s.registrations[g].revision
          && (after.registrations[g].revision == s.registrations[g].revision ==>
               after.registrations[g] == s.registrations[g])
          && (s.registrations[g].desired.state.Deleted? ==> after.registrations[g] == s.registrations[g]))
  }

  lemma CommitEvolves(s: State, id: Guid, desired: DesiredRegistration, now: int, at: int)
    requires Fits(s, id, desired)
    requires forall g :: g in s.registrations ==> s.registrations[g].revision == s.registrations[g].desired.revision
    ensures Evolves(s, Commit(s, id, desired, now, at))
  {
    hide VerifierOf, EqualIgnoreCase;
    var after := Commit(s, id, desired, now, at);
    forall k | k in s.credentials ensures CredentialEvolves(s.credentials[k], after.credentials[k]) {
      assert after.credentials[k] == CommittedCredential(s, id, desired, now, k);
    }
  }

  lemma StepEvolves(s: State, request: Request)
    requires Documented(s)
    ensures Evolves(s, Step(s, request))
  {
    hide IsValid, Fits;
    var Request(id, desired, now, at) := request;
    if Commits(s, id, desired) {
      CommittingFits(s, id, desired);
      CommitEvolves(s, id, desired, now, at);
    }
  }

  lemma EvolvesTransitive(a: State, b: State, c: State)
    requires Evolves(a, b) && Evolves(b, c)
    ensures Evolves(a, c)
  {
  }

  /**
    Whatever the control plane sends afterwards: no row disappears, no revocation is lifted, no
    deadline moves, no revision falls, and a deleted registration stays exactly as it is.
   */
  lemma {:induction false} RunEvolves(s: State, requests: seq<Request>)
    requires Valid(s)
    ensures Evolves(s, Run(s, requests))
    decreases |requests|
  {
    if requests != [] {
      StepEvolves(s, requests[0]);
      PutPreservesValid(s, requests[0]);
      hide Valid, Step, Evolves;
      RunEvolves(Step(s, requests[0]), requests[1..]);
      EvolvesTransitive(s, Step(s, requests[0]), Run(s, requests));
    }
  }

  /**
    An accepted request sent again, whatever was sent in between, is answered as it was the first
    time as long as its revision is the stored one, and conflicts from then on; it changes nothing.
   */
  lemma ReplayAnswersAsBefore(s: State, request: Request, requests: seq<Request>, now: int, at: int)
    requires Valid(s) && Commits(s, request.id, request.desired)
    ensures var first := Put(s, request.id, request.desired, request.now, request.acknowledgedAt).1;
            var later := Run(Step(s, request), requests);
            && request.id in later.registrations
            && Put(later, request.id, request.desired, now, at) ==
               (later, if later.registrations[request.id].revision == request.desired.revision then first else Conflict)
  {
    var Request(id, desired, started, acknowledged) := request;
    var once := Step(s, request);
    PutPreservesValid(s, request);
    RunEvolves(once, requests);
    assert once == Commit(s, id, desired, started, acknowledged);
    var row := RegistrationEntry(desired, desired.revision, Acknowledge(s, id, desired, started, acknowledged));
    assert once.registrations[id] == row;
    assert id != EMPTY_GUID && IsValid(desired);
    hide Valid, Step, Run, Commit, IsValid, Acknowledge, Put, Commits;
    AnsweredFromStore(Run(once, requests), id, now, at, row);
  }

  /** What `Put` answers to a document accepted before. */
  lemma AnsweredFromStore(s: State, id: Guid, now: int, at: int, row: RegistrationEntry)
    requires id != EMPTY_GUID && IsValid(row.desired) && row.revision == row.desired.revision
    requires id in s.registrations && s.registrations[id].revision >= row.revision
    requires s.registrations[id].revision == row.revision ==> s.registrations[id] == row
    ensures Put(s, id, row.desired, now, at) ==
            (s, if s.registrations[id].revision == row.revision then Content(row.acknowledgement) else Conflict)
  {
    hide IsValid, CredentialRejection, Commit, Acknowledge;
  }

  // The ingress against the registry

  ghost predicate Lost(s: State, k: string, now: int) {
    k in s.credentials
    && (s.credentials[k].revoked || (s.credentials[k].expiresAt.Some? && s.credentials[k].expiresAt.value <= now))
  }

  /**
    A credential once revoked or expired is never accepted again, under any later requests and any
    later clock, whatever happens between the two queries.
   */
  lemma LossIsPermanent(s: State, requests: seq<Request>, second: State, sha256: Hash, attempt: Attempt, now: int)
    requires Valid(s) && now <= attempt.now
    requires Presented(attempt.header).Some? && Lost(s, Presented(attempt.header).value.0, now)
    ensures Authorize(Run(s, requests), second, sha256, attempt) == Unauthorized
  {
    RunEvolves(s, requests);
    hide Valid, Run, FromHex;
  }

  /** An accepted request that leaves a stored credential out, or does not enable its registration, loses it at once. */
  lemma OmissionLoses(s: State, request: Request, k: string, now: int)
    requires Valid(s) && Commits(s, request.id, request.desired)
    requires k in s.credentials && s.credentials[k].registrationId == request.id
    requires k !in Listed(request.desired.credentials) || !request.desired.state.Enabled?
    ensures Lost(Step(s, request), k, now)
  {
    assert Step(s, request).credentials[k] == CommittedCredential(s, request.id, request.desired, request.now, k);
  }

  /**
    So what an accepted request leaves out or disables stays refused for ever, even if a later
    document lists it again.
   */
  lemma OmittedForEver(s: State, request: Request, requests: seq<Request>, second: State, sha256: Hash,
                       attempt: Attempt)
    requires Valid(s) && Commits(s, request.id, request.desired) && Presented(attempt.header).Some?
    requires var k := Presented(attempt.header).value.0;
             && k in s.credentials && s.credentials[k].registrationId == request.id
             && (k !in Listed(request.desired.credentials) || !request.desired.state.Enabled?)
    ensures Authorize(Run(Step(s, request), requests), second, sha256, attempt) == Unauthorized
  {
    OmissionLoses(s, request, Presented(attempt.header).value.0, attempt.now);
    PutPreservesValid(s, request);
    hide Valid, Commits;
    LossIsPermanent(Step(s, request), requests, second, sha256, attempt, attempt.now);
  }

  /** The time until which a rotation lets a credential be used, if it was rotated out. */
  ghost predicate WithinGrace(s: State, k: string, now: int) {
    forall r :: r in s.rotations && s.rotations[r].previousId == k ==> now < s.rotations[r].deadline
  }

  /** A document lists the presented credential, with a verifier that is the hash of the presented secret. */
  ghost predicate ListsPresented(desired: DesiredRegistration, sha256: Hash, header: string) {
    && Presented(header).Some?
    && Presented(header).value.0 in Listed(desired.credentials)
    && var verifier := VerifierOf(desired.credentials, Presented(header).value.0);
       IsHex(verifier) && FromHex(verifier) == sha256(Presented(header).value.1)
  }

  /** The latest document of `g` is enabled and lists the presented credential, which no deadline has passed. */
  ghost predicate Vouched(s: State, g: Guid, sha256: Hash, attempt: Attempt) {
    && g in s.registrations
    && s.registrations[g].desired.state.Enabled?
    && ListsPresented(s.registrations[g].desired, sha256, attempt.header)
    && WithinGrace(s, Presented(attempt.header).value.0, attempt.now)
  }

  /** The latest document of `g` is enabled and names the environment. */
  ghost predicate Serves(s: State, g: Guid, environment: string) {
    && g in s.registrations
    && s.registrations[g].desired.state.Enabled?
    && environment in s.registrations[g].desired.environments
  }

  /** What the control plane last said entitles the attempt. */
  ghost predicate Entitled(s: State, g: Guid, sha256: Hash, attempt: Attempt) {
    Vouched(s, g, sha256, attempt) && Serves(s, g, attempt.environment)
  }

  lemma SameBytes(a: string, b: string)
    requires EqualIgnoreCase(a, b) && IsVerifier(a) && IsVerifier(b)
    ensures FromHex(a) == FromHex(b)
  {
    forall i | 0 <= i < |a| ensures HexDigit(a[i]) == HexDigit(b[i]) {
    }
  }

  /** The bytes a listed credential is checked against are those its document gives. */
  lemma StoredAsListed(s: State, g: Guid, k: string)
    requires g in s.registrations && IsValid(s.registrations[g].desired)
             && k in Listed(s.registrations[g].desired.credentials)
    requires Owned(s) && VerifiersMatch(s) && k in s.credentials
    ensures IsVerifier(VerifierOf(s.registrations[g].desired.credentials, k)) && IsVerifier(s.credentials[k].verifier)
    ensures FromHex(VerifierOf(s.registrations[g].desired.credentials, k)) == FromHex(s.credentials[k].verifier)
  {
    hide VerifierOf, FromHex, EqualIgnoreCase;
    ListedVerifier(s.registrations[g].desired.credentials, k);
    SameBytes(s.credentials[k].verifier, VerifierOf(s.registrations[g].desired.credentials, k));
  }

  /**
    In a reachable registry a credential is good for a registration exactly when that
    registration's document vouches for it.
   */
  lemma GoodExactly(s: State, g: Guid, sha256: Hash, attempt: Attempt)
    requires Valid(s)
    ensures !CheckCredential(s, sha256, attempt).Broken?
    ensures CheckCredential(s, sha256, attempt) == Good(g) <==> Vouched(s, g, sha256, attempt)
  {
    hide VerifierOf, FromHex, Listed, IsValid, VerifiersMatch, Acknowledged, Dated, ExpiryExplained, Linear, Acyclic,
         Presented, WithinGrace, IsVerifier;
    if Presented(attempt.header).Some? {
      var k := Presented(attempt.header).value.0;
      if g in s.registrations && k in Listed(s.registrations[g].desired.credentials) {
        ListedRow(s, g, k);
        VerifierIsHex(s.credentials[k].verifier);
        VerifierIsHex(VerifierOf(s.registrations[g].desired.credentials, k));
      }
      if k in s.credentials {
        VerifierIsHex(s.credentials[k].verifier);
        GraceIsExpiry(s, k, attempt.now);
      }
    }
  }

  lemma VerifierIsHex(verifier: string)
    requires IsVerifier(verifier)
    ensures IsHex(verifier)
  {
  }

  lemma GraceIsExpiry(s: State, k: string, now: int)
    requires Dated(s) && ExpiryExplained(s) && k in s.credentials
    ensures WithinGrace(s, k, now) <==> !(s.credentials[k].expiresAt.Some? && s.credentials[k].expiresAt.value <= now)
  {
    if s.credentials[k].expiresAt.Some? {
      assert Superseded(s, k);
      var r :| r in s.rotations && s.rotations[r].previousId == k;
      assert s.rotations[r].deadline == s.credentials[k].expiresAt.value;
    }
  }

  /**
    The two queries see a reachable registry and what any control requests in between have made of
    it. The ingress never faults, and it admits an attempt for a registration exactly when the first
    registry's documents and rotations vouch for the credential and the second one's document serves
    the environment; it goes on with that second document.
   */
  lemma AdmittedAcross(s: State, between: seq<Request>, g: Guid, sha256: Hash, attempt: Attempt)
    requires Valid(s)
    ensures !Authorize(s, Run(s, between), sha256, attempt).Fault?
    ensures Admits(s, between, g, sha256, attempt)
       <==> Vouched(s, g, sha256, attempt) && Serves(Run(s, between), g, attempt.environment)
    ensures Admits(s, between, g, sha256, attempt) ==>
      Authorize(s, Run(s, between), sha256, attempt) == Admitted(g, Run(s, between).registrations[g].desired)
  {
    hide Valid, Run, CheckCredential, ListsPresented, WithinGrace;
    GoodExactly(s, g, sha256, attempt);
    var credited := CheckCredential(s, sha256, attempt);
    if credited.Good? {
      GoodExactly(s, credited.registrationId, sha256, attempt);
      RegistrationStays(s, between, credited.registrationId);
    }
  }

  lemma RegistrationStays(s: State, requests: seq<Request>, g: Guid)
    requires Valid(s) && g in s.registrations
    ensures g in Run(s, requests).registrations
  {
    hide Valid, Run;
    RunEvolves(s, requests);
  }

  ghost predicate Admits(s: State, between: seq<Request>, g: Guid, sha256: Hash, attempt: Attempt) {
    var decision := Authorize(s, Run(s, between), sha256, attempt);
    decision.Admitted? && decision.registrationId == g
  }

  /** With nothing in between, what the control plane last said is all that counts. */
  lemma AdmittedExactly(s: State, g: Guid, sha256: Hash, attempt: Attempt)
    requires Valid(s)
    ensures !Authorize(s, s, sha256, attempt).Fault?
    ensures Authorize(s, s, sha256, attempt).Admitted? && Authorize(s, s, sha256, attempt).registrationId == g
       <==> Entitled(s, g, sha256, attempt)
    ensures Entitled(s, g, sha256, attempt) ==>
      Authorize(s, s, sha256, attempt) == Admitted(g, s.registrations[g].desired)
  {
    AdmittedAcross(s, [], g, sha256, attempt);
    assert Run(s, []) == s;
    hide Valid, Authorize, Vouched, Serves;
  }

  /**
    Between the queries the environment is newly named, and the credential taken out of the document
    or its deadline passed.
   */
  ghost predicate Straddled(s: State, later: State, g: Guid, sha256: Hash, attempt: Attempt) {
    && Vouched(s, g, sha256, attempt)
    && attempt.environment !in s.registrations[g].desired.environments
    && Serves(later, g, attempt.environment)
    && var k := Presented(attempt.header).value.0;
       k !in Listed(later.registrations[g].desired.credentials) || !WithinGrace(later, k, attempt.now)
  }

  /**
    The two queries decide as one query before or one query after would have, unless control requests
    in between straddle them; then they admit what neither registry entitles.
   */
  lemma ReadsAgreeExactly(s: State, between: seq<Request>, g: Guid, sha256: Hash, attempt: Attempt)
    requires Valid(s)
    ensures var later, admits := Run(s, between), Admits(s, between, g, sha256, attempt);
            || admits == Entitled(s, g, sha256, attempt)
            || admits == Entitled(later, g, sha256, attempt)
            <==> !Straddled(s, later, g, sha256, attempt)
    ensures Straddled(s, Run(s, between), g, sha256, attempt) ==> Admits(s, between, g, sha256, attempt)
  {
    AdmittedAcross(s, between, g, sha256, attempt);
    var later := Run(s, between);
    if Vouched(s, g, sha256, attempt) && Serves(later, g, attempt.environment) {
      StillVouched(s, between, g, sha256, attempt);
    }
    hide Valid, Run, Admits, ListsPresented, WithinGrace, Listed;
  }

  /**
    A credential vouched for stays so as long as the document lists it and no deadline has passed:
    its verifier cannot change.
   */
  lemma StillVouched(s: State, between: seq<Request>, g: Guid, sha256: Hash, attempt: Attempt)
    requires Valid(s) && Vouched(s, g, sha256, attempt) && Serves(Run(s, between), g, attempt.environment)
    ensures var later, k := Run(s, between), Presented(attempt.header).value.0;
            Vouched(later, g, sha256, attempt) <==>
            k in Listed(later.registrations[g].desired.credentials) && WithinGrace(later, k, attempt.now)
  {
    hide Valid, Run, VerifierOf, FromHex, Listed, WithinGrace;
    var later, k := Run(s, between), Presented(attempt.header).value.0;
    if k in Listed(later.registrations[g].desired.credentials) {
      RunPreservesValid(s, between);
      ValidParts(s);
      ValidParts(later);
      hide Documented, Owned, Stored, VerifiersMatch, Dated, ExpiryExplained;
      ListedRow(s, g, k);
      ListedRow(later, g, k);
      VerifierKept(s, between, k);
    }
  }

  /** The row of a listed credential. */
  lemma ListedRow(s: State, g: Guid, k: string)
    requires Documented(s) && Owned(s) && Stored(s) && VerifiersMatch(s)
    requires g in s.registrations && k in Listed(s.registrations[g].desired.credentials)
    ensures k in s.credentials
    ensures var verifier := VerifierOf(s.registrations[g].desired.credentials, k);
            IsVerifier(verifier) && IsVerifier(s.credentials[k].verifier)
              && FromHex(verifier) == FromHex(s.credentials[k].verifier)
  {
    hide IsValid, Listed, VerifierOf, FromHex, VerifiersMatch;
    assert k in s.credentials;
    StoredAsListed(s, g, k);
  }

  lemma VerifierKept(s: State, requests: seq<Request>, k: string)
    requires Valid(s) && k in s.credentials
    ensures k in Run(s, requests).credentials && Run(s, requests).credentials[k].verifier == s.credentials[k].verifier
  {
    hide Valid, Run;
    RunEvolves(s, requests);
  }

  /** One request does: it takes the presented credential out of a document and newly names the environment. */
  lemma OneRequestStraddles(s: State, request: Request, sha256: Hash, attempt: Attempt)
    requires Valid(s) && Commits(s, request.id, request.desired)
    requires Vouched(s, request.id, sha256, attempt)
    requires attempt.environment !in s.registrations[request.id].desired.environments
    requires request.desired.state.Enabled? && attempt.environment in request.desired.environments
    requires Presented(attempt.header).value.0 !in Listed(request.desired.credentials)
    ensures Authorize(s, Step(s, request), sha256, attempt) == Admitted(request.id, request.desired)
    ensures !Entitled(s, request.id, sha256, attempt) && !Entitled(Step(s, request), request.id, sha256, attempt)
  {
    GoodExactly(s, request.id, sha256, attempt);
    assert Step(s, request).registrations[request.id].desired == request.desired;
    hide Valid, Commits, Step, CheckCredential, VerifierOf, FromHex, WithinGrace, Listed;
  }

  /**
    An input: environment "x" and credential "k" first, then "y" and "m" between the queries of an
    attempt with "k" for "y".
   */
  lemma StraddledInput(verifier: string, sha256: Hash)
    requires IsVerifier(verifier) && IsHex(verifier) && sha256("z") == FromHex(verifier)
    ensures var first, second :=
      Request(1, Sample(1, "x", "k", verifier), 0, 0), Request(1, Sample(2, "y", "m", verifier), 0, 0);
            var s, attempt := Run(EMPTY, [first]), Attempt("Bearer k.z", "y", 0);
            && Authorize(s, Step(s, second), sha256, attempt) == Admitted(1, second.desired)
            && !Entitled(s, 1, sha256, attempt) && !Entitled(Step(s, second), 1, sha256, attempt)
  {
    var first, second :=
      Request(1, Sample(1, "x", "k", verifier), 0, 0), Request(1, Sample(2, "y", "m", verifier), 0, 0);
    var s, attempt := Run(EMPTY, [first]), Attempt("Bearer k.z", "y", 0);
    SamplePresented();
    SampleRegistry(verifier);
    hide IsValid, Presented, FromHex, IsHex, IsVerifier, Listed, Valid, Commits, Step, Run, Authorize, Vouched, Serves;
    SampleVouched(s, verifier, sha256, attempt);
    OneRequestStraddles(s, second, sha256, attempt);
  }

  lemma SampleRegistry(verifier: string)
    requires IsVerifier(verifier)
    ensures var first, second :=
      Request(1, Sample(1, "x", "k", verifier), 0, 0), Request(1, Sample(2, "y", "m", verifier), 0, 0);
            var s := Run(EMPTY, [first]);
            && Valid(s) && Commits(s, 1, second.desired) && "k" !in Listed(second.desired.credentials)
            && 1 in s.registrations && s.registrations[1].desired == first.desired && s.rotations == map[]
  {
    var first, second :=
      Request(1, Sample(1, "x", "k", verifier), 0, 0), Request(1, Sample(2, "y", "m", verifier), 0, 0);
    SampleIsValid(1, "x", "k", verifier);
    SampleIsValid(2, "y", "m", verifier);
    hide IsValid, IsVerifier, Listed;
    ReachableIsValid([first]);
    RunOne(EMPTY, first);
    hide Valid, Commits, Step, Run;
    SampleCommits(EMPTY, first);
    SampleCommits(Run(EMPTY, [first]), second);
  }

  function Sample(revision: int, environment: string, credential: string, verifier: string): DesiredRegistration {
    DesiredRegistration(revision, "c", "a", "b", "s", [environment], Enabled,
                        [DesiredCredential(credential, verifier)], None)
  }

  lemma SampleIsValid(revision: int, environment: string, credential: string, verifier: string)
    requires revision > 0 && IsIdentity(environment) && IsIdentity(credential) && '.' !in credential
             && IsVerifier(verifier)
    ensures IsValid(Sample(revision, environment, credential, verifier))
    ensures Listed(Sample(revision, environment, credential, verifier).credentials) == {credential}
  {
    assert IsIdentity("c") && IsIdentity("a") && IsIdentity("b") && IsIdentity("s");
    assert Sample(revision, environment, credential, verifier).credentials[0].id == credential;
  }

  lemma SamplePresented()
    ensures Presented("Bearer k.z") == Some(("k", "z"))
  {
    var header, text, tail := "Bearer k.z", "k.z", ".z";
    assert header[7..] == text && "Bearer " <= header;
    assert text[1..] == tail && tail[1..] == "z" && [text[0]] + "" == "k";
    assert CutAtDot(tail) == Some(("", "z"));
    assert CutAtDot(text) == Some((['k'] + "", "z"));
  }

  lemma RunOne(s: State, request: Request)
    ensures Run(s, [request]) == Step(s, request)
  {
    hide Step;
    var requests := [request];
    assert requests[1..] == [];
    assert Run(s, requests) == Run(Step(s, requests[0]), requests[1..]);
  }

  lemma SampleCommits(s: State, request: Request)
    requires IsValid(request.desired) && request.id != EMPTY_GUID && request.desired.rotation.None?
    requires request.id in s.registrations ==> Supersedes(s.registrations[request.id], request.desired)
    requires forall k :: k in Listed(request.desired.credentials) ==> k !in s.credentials
    ensures Commits(s, request.id, request.desired)
    ensures var after := Step(s, request);
            && request.id in after.registrations && after.registrations[request.id].desired == request.desired
            && after.registrations[request.id].revision == request.desired.revision
            && after.credentials.Keys == s.credentials.Keys + Listed(request.desired.credentials)
            && after.rotations == s.rotations
  {
    hide IsValid;
  }

  lemma SampleVouched(s: State, verifier: string, sha256: Hash, attempt: Attempt)
    requires 1 in s.registrations && s.registrations[1].desired == Sample(1, "x", "k", verifier) && s.rotations == map[]
    requires Presented(attempt.header) == Some(("k", "z")) && IsHex(verifier) && sha256("z") == FromHex(verifier)
    ensures Vouched(s, 1, sha256, attempt)
  {
    assert Sample(1, "x", "k", verifier).credentials[0].id == "k";
    hide FromHex, IsHex, Presented;
  }

  /** Starting a rotation dates the outgoing credential and leaves it usable. */
  lemma RotationDates(s: State, id: Guid, desired: DesiredRegistration, now: int, at: int)
    requires Fits(s, id, desired) && StartsRotation(s, desired)
    ensures var after := Commit(s, id, desired, now, at).credentials[desired.rotation.value.previousId];
            var before := s.credentials[desired.rotation.value.previousId];
            after == before.(expiresAt := Some(now + GRACE_MILLIS)) && !after.revoked && after.registrationId == id
  {
    hide VerifierOf, EqualIgnoreCase;
    var k := desired.rotation.value.previousId;
    var after := Commit(s, id, desired, now, at);
    assert after.credentials[k] == CommittedCredential(s, id, desired, now, k);
  }

  /** From 24 hours after an accepted rotation the outgoing credential is refused, whatever requests follow. */
  lemma RotationEnds(s: State, request: Request, requests: seq<Request>, second: State, sha256: Hash, attempt: Attempt)
    requires Valid(s) && Commits(s, request.id, request.desired) && StartsRotation(s, request.desired)
    requires Presented(attempt.header).Some?
             && Presented(attempt.header).value.0 == request.desired.rotation.value.previousId
    requires attempt.now >= request.now + GRACE_MILLIS
    ensures Authorize(Run(Step(s, request), requests), second, sha256, attempt) == Unauthorized
  {
    hide Valid, Commits, StartsRotation, Step, Authorize, Presented;
    RotationStarted(s, request);
    LossIsPermanent(Step(s, request), requests, second, sha256, attempt, attempt.now);
  }

  /** What a request that starts a rotation leaves. */
  lemma RotationStarted(s: State, request: Request)
    requires Valid(s) && Commits(s, request.id, request.desired) && StartsRotation(s, request.desired)
    ensures var Request(id, desired, started, at) := request;
            var after, k := Step(s, request), desired.rotation.value.previousId;
            && Valid(after)
            && id in after.registrations && after.registrations[id].desired == desired && desired.state.Enabled?
            && k in after.credentials && after.credentials[k].expiresAt == Some(started + GRACE_MILLIS)
  {
    hide Valid, Commits, Step, StartsRotation, Fits, CommittedCredential, CommittedRotations, Acknowledge, MayRotate;
    var Request(id, desired, started, at) := request;
    PutPreservesValid(s, request);
    CommittingFits(s, id, desired);
    StepCommits(s, request);
    EnablesRotation(s, id, desired);
    RotationDates(s, id, desired, started, at);
  }

  lemma StepCommits(s: State, request: Request)
    requires Commits(s, request.id, request.desired)
    ensures Step(s, request) == Commit(s, request.id, request.desired, request.now, request.acknowledgedAt)
  {
    hide Commit, Acknowledge, IsValid, CredentialRejection;
  }

  lemma EnablesRotation(s: State, id: Guid, desired: DesiredRegistration)
    requires Fits(s, id, desired) && StartsRotation(s, desired)
    ensures desired.state.Enabled? && desired.rotation.value.previousId in s.credentials
  {
    hide VerifierOf, EqualIgnoreCase, Listed;
  }

  /** Until then, and as long as nothing else is accepted for its registration, it is admitted. */
  lemma RotationGrace(s: State, request: Request, sha256: Hash, attempt: Attempt)
    requires Valid(s) && Commits(s, request.id, request.desired) && StartsRotation(s, request.desired)
    requires Presented(attempt.header).Some?
             && Presented(attempt.header).value.0 == request.desired.rotation.value.previousId
    requires ListsPresented(request.desired, sha256, attempt.header)
    requires attempt.environment in request.desired.environments && attempt.now < request.now + GRACE_MILLIS
    ensures Authorize(Step(s, request), Step(s, request), sha256, attempt) == Admitted(request.id, request.desired)
  {
    hide Valid, Commits, StartsRotation, Step, Authorize, Presented, ListsPresented, WithinGrace;
    var after := Step(s, request);
    RotationStarted(s, request);
    ValidParts(after);
    hide Documented, Owned, Stored, VerifiersMatch, Dated, ExpiryExplained;
    GraceIsExpiry(after, Presented(attempt.header).value.0, attempt.now);
    AdmittedExactly(after, request.id, sha256, attempt);
  }

  lemma ValidParts(s: State)
    requires Valid(s)
    ensures Documented(s) && Owned(s) && Stored(s) && VerifiersMatch(s) && Dated(s) && ExpiryExplained(s)
  {
  }
}
