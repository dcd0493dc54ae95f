/** The database object the control handler updates in place, proved against `Registry.Put`. */
module RegistryDb {
  import opened Wrappers
  import opened Registry
  import RegistryTheorems

  class RegistryDb {
    var registrations: map<Guid, RegistrationEntry>
    var credentials: map<string, CredentialEntry>
    var rotations: map<Guid, RotationEntry>

    function Contents(): State
      reads this
    {
      State(registrations, credentials, rotations)
    }

    constructor ()
      ensures Contents() == EMPTY
      ensures RegistryTheorems.Valid(Contents())
    {
      registrations, credentials, rotations := map[], map[], map[];
    }

    /**
      The handler of a control PUT. Rows are read into a working copy and changed there; only the
      last statements, the commit, write the tables, so a conflict found half-way leaves them as
      they were.
     */
    method Put(id: Guid, desired: DesiredRegistration, now: int, acknowledgedAt: int) returns (response: Response)
      modifies this
      ensures (Contents(), response) == Registry.Put(old(Contents()), id, desired, now, acknowledgedAt)
    {
      if id == EMPTY_GUID || !IsValid(desired) {
        return BadRequest;
      }
      if id in registrations {
        var existing := registrations[id];
        if existing.revision == desired.revision && existing.desired == desired {
          return Content(existing.acknowledgement);
        }
        if desired.revision <= existing.revision || existing.desired.state.Deleted? {
          return Conflict;
        }
      }
      response := Store(id, desired, now, acknowledgedAt);
    }

    /** The rest of the handler: the rotation, the credentials and the commit. */
    method Store(id: Guid, desired: DesiredRegistration, now: int, acknowledgedAt: int) returns (response: Response)
      requires DistinctIds(desired.credentials)
      modifies this
      ensures var s := old(Contents());
              match CredentialRejection(s, id, desired)
              case Some(refusal) => Contents() == s && response == refusal
              case None =>
                && Contents() == Commit(s, id, desired, now, acknowledgedAt)
                && response == Content(Acknowledge(s, id, desired, now, acknowledgedAt))
    {
      hide RotationRejection, CredentialRejection, CommittedRotations, StartsRotation, Clashes, Pending, Commit,
           Acknowledge, DistinctIds;
      var refusal, rotation, dated, added := Rotate(id, desired, now);
      RejectedBy(Contents(), id, desired);
      if refusal.Some? {
        return refusal.value;
      }
      var clash, tracked := Enroll(id, desired, now, dated);
      if clash {
        return Conflict;
      }
      var acknowledgement := Acknowledgement(id, desired.revision, acknowledgedAt,
                                             if rotation.None? then None else Some(rotation.value.deadline));
      Committed(Contents(), id, desired, now, acknowledgedAt, tracked);
      registrations := registrations[id := RegistrationEntry(desired, desired.revision, acknowledgement)];
      credentials := tracked;
      rotations := added;
      return Content(acknowledgement);
    }

    /** Both loops over credentials, on the rows the rotation has dated. */
    method Enroll(id: Guid, desired: DesiredRegistration, now: int, dated: map<string, CredentialEntry>)
      returns (clash: bool, tracked: map<string, CredentialEntry>)
      requires DistinctIds(desired.credentials) && RotationRejection(Contents(), id, desired).None?
      requires dated.Keys == credentials.Keys
      requires forall k :: k in dated ==> dated[k] == Pending(Contents(), id, desired, now, k)
      ensures clash <==>
        exists i :: 0 <= i < |desired.credentials| && Clashes(Contents(), id, desired, desired.credentials[i])
      ensures !clash ==> tracked == Commit(Contents(), id, desired, now, 0).credentials
    {
      hide RotationRejection, StartsRotation, Clashes, Pending, Commit, Listed, DistinctIds, SameButDated;
      DatedRows(Contents(), id, desired, now, dated);
      RotatesStored(Contents(), id, desired);
      var stored := set k | k in credentials && credentials[k].registrationId == id;
      var known;
      clash, tracked, known := AddListed(Contents(), id, desired, dated, stored);
      if !clash {
        AddedArePending(Contents(), id, desired, now, dated, tracked);
        KnownRows(Contents(), id, desired, now, tracked, known);
        tracked := Revoke(id, desired, now, tracked, known);
      }
    }

    /** What `Store` writes. */
    static lemma Committed(s: State, id: Guid, desired: DesiredRegistration, now: int, at: int,
                           tracked: map<string, CredentialEntry>)
      requires tracked == Commit(s, id, desired, now, 0).credentials
      ensures var added := CommittedRotations(s, id, desired, now);
              var acknowledgement :=
                Acknowledgement(id, desired.revision, at,
                                if desired.rotation.None? then None
                                else Some(added[desired.rotation.value.operationId].deadline));
              && Acknowledge(s, id, desired, now, at) == acknowledgement
              && Commit(s, id, desired, now, at)
                 == State(s.registrations[id := RegistrationEntry(desired, desired.revision, acknowledgement)],
                          tracked, added)
    {
      hide CommittedCredential, Listed;
    }

    /** What `Store` has to find out to refuse. */
    static lemma RejectedBy(s: State, id: Guid, desired: DesiredRegistration)
      ensures RotationRejection(s, id, desired).Some? ==>
        CredentialRejection(s, id, desired) == RotationRejection(s, id, desired)
      ensures RotationRejection(s, id, desired).None? ==>
        if exists i :: 0 <= i < |desired.credentials| && Clashes(s, id, desired, desired.credentials[i])
        then CredentialRejection(s, id, desired) == Some(Conflict) else CredentialRejection(s, id, desired) == None
    {
      hide RotationRejection, Clashes;
    }

    /** The rows as they are dated differ from the stored ones at most in expiry. */
    static lemma DatedRows(s: State, id: Guid, desired: DesiredRegistration, now: int,
                           dated: map<string, CredentialEntry>)
      requires dated.Keys == s.credentials.Keys && forall k :: k in dated ==>
        dated[k] == Pending(s, id, desired, now, k)
      ensures SameButDated(s.credentials, dated)
    {
      hide StartsRotation;
    }

    /** A rotation that may start starts at a stored credential. */
    static lemma RotatesStored(s: State, id: Guid, desired: DesiredRegistration)
      requires RotationRejection(s, id, desired).None?
      ensures StartsRotation(s, desired) ==> desired.rotation.value.previousId in s.credentials
    {
      hide RotationWellFormed;
    }

    /** A row belongs to the registration if it did before, or was added for it. */
    static lemma KnownRows(s: State, id: Guid, desired: DesiredRegistration, now: int,
                           tracked: map<string, CredentialEntry>, known: set<string>)
      requires tracked.Keys == s.credentials.Keys + Listed(desired.credentials)
      requires forall k :: k in tracked ==> tracked[k] == Pending(s, id, desired, now, k)
      requires known == (set k | k in s.credentials && s.credentials[k].registrationId == id)
               + (tracked.Keys - s.credentials.Keys)
      ensures forall k :: k in known <==> k in tracked && tracked[k].registrationId == id
    {
      hide StartsRotation, VerifierOf;
    }

    /** The rotation the document asks for: refused, found already started, or started now. */
    method Rotate(id: Guid, desired: DesiredRegistration, now: int)
      returns (refusal: Option<Response>, rotation: Option<RotationEntry>, tracked: map<string, CredentialEntry>,
               added: map<Guid, RotationEntry>)
      ensures refusal == RotationRejection(Contents(), id, desired)
      ensures refusal.None? ==>
        && tracked.Keys == credentials.Keys
        && (forall k :: k in tracked ==> tracked[k] == Pending(Contents(), id, desired, now, k))
        && added == CommittedRotations(Contents(), id, desired, now)
        && rotation == if desired.rotation.None? then None else Some(added[desired.rotation.value.operationId])
    {
      refusal, rotation, tracked, added := None, None, credentials, rotations;
      if desired.rotation.Some? {
        var operation := desired.rotation.value;
        if operation.operationId == EMPTY_GUID || !desired.state.Enabled?
           || operation.previousId == operation.newId
           || operation.previousId !in Listed(desired.credentials)
           || operation.newId !in Listed(desired.credentials) {
          refusal := Some(BadRequest);
          return;
        }
        if operation.operationId in rotations {
          rotation := Some(rotations[operation.operationId]);
          if rotation.value.registrationId != id || rotation.value.previousId != operation.previousId
             || rotation.value.newId != operation.newId {
            refusal := Some(Conflict);
          }
          return;
        }
        if operation.previousId !in credentials || credentials[operation.previousId].registrationId != id
           || credentials[operation.previousId].revoked || credentials[operation.previousId].expiresAt.Some?
           || operation.newId in credentials {
          refusal := Some(Conflict);
          return;
        }
        rotation := Some(RotationEntry(id, operation.previousId, operation.newId, now + GRACE_MILLIS));
        var outgoing := tracked[operation.previousId];
        tracked := tracked[operation.previousId := outgoing.(expiresAt := Some(rotation.value.deadline))];
        added := added[operation.operationId := rotation.value];
      }
    }

    /** The working copy holds the stored rows, differing at most in expiry. */
    static ghost predicate SameButDated(stored: map<string, CredentialEntry>, rows: map<string, CredentialEntry>) {
      && rows.Keys == stored.Keys
      && forall k :: k in rows ==> rows[k] == stored[k].(expiresAt := rows[k].expiresAt)
    }

    /** Adding the listed credentials to the dated rows gives the rows before revocation. */
    static lemma AddedArePending(s: State, id: Guid, desired: DesiredRegistration, now: int,
                                 rows: map<string, CredentialEntry>, tracked: map<string, CredentialEntry>)
      requires DistinctIds(desired.credentials)
      requires StartsRotation(s, desired) ==> desired.rotation.value.previousId in s.credentials
      requires rows.Keys == s.credentials.Keys && forall k :: k in rows ==> rows[k] == Pending(s, id, desired, now, k)
      requires rows.Keys <= tracked.Keys <= rows.Keys + Listed(desired.credentials)
      requires forall i :: 0 <= i < |desired.credentials| ==> desired.credentials[i].id in tracked
      requires forall k :: k in rows ==> tracked[k] == rows[k]
      requires forall i :: 0 <= i < |desired.credentials| && desired.credentials[i].id !in rows ==>
        tracked[desired.credentials[i].id] == CredentialEntry(id, desired.credentials[i].verifier, false, None)
      ensures tracked.Keys == s.credentials.Keys + Listed(desired.credentials)
      ensures forall k :: k in tracked ==> tracked[k] == Pending(s, id, desired, now, k)
    {
      forall k | k in tracked ensures tracked[k] == Pending(s, id, desired, now, k) {
        if k !in rows {
          var i :| 0 <= i < |desired.credentials| && desired.credentials[i].id == k;
          FirstIsOnly(desired.credentials, i);
        }
      }
    }

    /** The row under `k` before revocation: dated by a starting rotation, or created for a listed credential. */
    static ghost function Pending(s: State, id: Guid, desired: DesiredRegistration, now: int,
                                  k: string): CredentialEntry
      requires k in s.credentials || k in Listed(desired.credentials)
    {
      var row := if k in s.credentials then s.credentials[k]
                 else CredentialEntry(id, VerifierOf(desired.credentials, k), false, None);
      if StartsRotation(s, desired) && desired.rotation.value.previousId == k
      then row.(expiresAt := Some(now + GRACE_MILLIS)) else row
    }

    /** The loop over the listed credentials: check each against its row, or add a row for it. */
    static method AddListed(ghost s: State, id: Guid, desired: DesiredRegistration,
                            rows: map<string, CredentialEntry>, ids: set<string>)
      returns (clash: bool, tracked: map<string, CredentialEntry>, known: set<string>)
      requires DistinctIds(desired.credentials)
      requires SameButDated(s.credentials, rows)
      ensures clash ==> exists i :: 0 <= i < |desired.credentials| && Clashes(s, id, desired, desired.credentials[i])
      ensures !clash ==>
        && (forall i :: 0 <= i < |desired.credentials| ==> !Clashes(s, id, desired, desired.credentials[i]))
        && rows.Keys <= tracked.Keys <= rows.Keys + Listed(desired.credentials)
        && (forall i :: 0 <= i < |desired.credentials| ==> desired.credentials[i].id in tracked)
        && (forall k :: k in rows ==> tracked[k] == rows[k])
        && (forall i :: 0 <= i < |desired.credentials| && desired.credentials[i].id !in rows ==>
              tracked[desired.credentials[i].id] == CredentialEntry(id, desired.credentials[i].verifier, false, None))
        && known == ids + (tracked.Keys - rows.Keys)
    {
      hide Clashes, Listed, EqualIgnoreCase;
      clash, tracked, known := false, rows, ids;
      for i := 0 to |desired.credentials|
        invariant forall j :: 0 <= j < i ==>
          !Clashes(s, id, desired, desired.credentials[j]) && desired.credentials[j].id in tracked
        invariant forall j :: i <= j < |desired.credentials| && desired.credentials[j].id in tracked ==>
          desired.credentials[j].id in rows
        invariant rows.Keys <= tracked.Keys <= rows.Keys + Listed(desired.credentials)
        invariant forall k :: k in rows ==> tracked[k] == rows[k]
        invariant forall j :: 0 <= j < i && desired.credentials[j].id !in rows ==>
          tracked[desired.credentials[j].id] == CredentialEntry(id, desired.credentials[j].verifier, false, None)
        invariant known == ids + (tracked.Keys - rows.Keys)
      {
        IsListed(desired.credentials, i);
        clash, tracked, known := AddOne(s, id, desired, desired.credentials[i], tracked, known);
        if clash {
          return;
        }
      }
    }

    /** One turn of that loop. */
    static method AddOne(ghost s: State, id: Guid, desired: DesiredRegistration, credential: DesiredCredential,
                         rows: map<string, CredentialEntry>, ids: set<string>)
      returns (clash: bool, tracked: map<string, CredentialEntry>, known: set<string>)
      requires credential.id in rows <==> credential.id in s.credentials
      requires credential.id in rows ==>
        rows[credential.id] == s.credentials[credential.id].(expiresAt := rows[credential.id].expiresAt)
      ensures clash <==> Clashes(s, id, desired, credential)
      ensures tracked == if credential.id in rows then rows
                         else rows[credential.id := CredentialEntry(id, credential.verifier, false, None)]
      ensures known == if credential.id in rows then ids else ids + {credential.id}
    {
      clash, tracked, known := false, rows, ids;
      if credential.id in tracked {
        var stored := tracked[credential.id];
        clash := stored.registrationId != id || (stored.revoked && desired.state.Enabled?)
          || !EqualIgnoreCase(stored.verifier, credential.verifier);
      } else {
        tracked := tracked[credential.id := CredentialEntry(id, credential.verifier, false, None)];
        known := known + {credential.id};
      }
    }

    /** The loop over the registration's credentials: revoke whatever the document does not enable. */
    method Revoke(id: Guid, desired: DesiredRegistration, now: int, rows: map<string, CredentialEntry>,
                  known: set<string>)
      returns (tracked: map<string, CredentialEntry>)
      requires rows.Keys == credentials.Keys + Listed(desired.credentials)
      requires forall k :: k in rows ==> rows[k] == Pending(Contents(), id, desired, now, k)
      requires forall k :: k in known <==> k in rows && rows[k].registrationId == id
      ensures tracked == Commit(Contents(), id, desired, now, 0).credentials
    {
      hide VerifierOf, StartsRotation;
      tracked := rows;
      var rest := known;
      while rest != {}
        invariant rest <= known
        invariant tracked.Keys == rows.Keys
        invariant forall k :: k in rows && k in rest ==> tracked[k] == rows[k]
        invariant forall k :: k in rows && k !in rest ==>
          tracked[k] == CommittedCredential(Contents(), id, desired, now, k)
        decreases rest
      {
        var k :| k in rest;
        rest := rest - {k};
        var revoked := tracked[k].revoked || !desired.state.Enabled? || k !in Listed(desired.credentials);
        tracked := tracked[k := tracked[k].(revoked := revoked)];
      }
    }
  }

  lemma IsListed(credentials: seq<DesiredCredential>, i: nat)
    requires i < |credentials|
    ensures credentials[i].id in Listed(credentials)
  {
  }
}
