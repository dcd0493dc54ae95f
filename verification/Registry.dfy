/**
  The telemetry gateway's registry: the three tables, the rule by which a control PUT changes
  them, and the rule by which the ingress reads them.

  A JSON document is represented by the record it carries, since serialization is injective on
  valid registrations; a hash is represented by a function parameter.
 */
module Registry {
  import opened Wrappers
  import opened Text

  /** A GUID; zero is the empty one. */
  type Guid = nat

  const EMPTY_GUID: Guid := 0
  const GRACE_MILLIS := 24 * 60 * 60 * 1000

  // Input documents

  /** `Undefined` is a number outside the enumeration, which the JSON converter lets through. */
  datatype RegistrationState = Enabled | Disabled | Deleted | Undefined(code: int)

  datatype DesiredCredential = DesiredCredential(id: string, verifier: string)

  datatype CredentialRotation = CredentialRotation(operationId: Guid, previousId: string, newId: string)

  datatype DesiredRegistration = DesiredRegistration(
    revision: int,
    clientId: string,
    applicationId: string,
    browserService: string,
    serverService: string,
    environments: seq<string>,
    state: RegistrationState,
    credentials: seq<DesiredCredential>,
    rotation: Option<CredentialRotation>)

  datatype Acknowledgement = Acknowledgement(
    registrationId: Guid, revision: int, acknowledgedAt: int, previousExpiresAt: Option<int>)

  // Tables

  datatype RegistrationEntry = RegistrationEntry(desired: DesiredRegistration, revision: int,
                                                 acknowledgement: Acknowledgement)

  datatype CredentialEntry = CredentialEntry(registrationId: Guid, verifier: string, revoked: bool,
                                             expiresAt: Option<int>)

  datatype RotationEntry = RotationEntry(registrationId: Guid, previousId: string, newId: string, deadline: int)

  datatype State = State(
    registrations: map<Guid, RegistrationEntry>,
    credentials: map<string, CredentialEntry>,
    rotations: map<Guid, RotationEntry>)

  const EMPTY := State(map[], map[], map[])

  datatype Response = BadRequest | Conflict | Content(acknowledgement: Acknowledgement)

  // Validation of one document

  predicate IsAsciiLetterOrDigit(c: char) {
    'a' <= c <= 'z' || 'A' <= c <= 'Z' || '0' <= c <= '9'
  }

  predicate IsAsciiHexDigit(c: char) {
    'a' <= c <= 'f' || 'A' <= c <= 'F' || '0' <= c <= '9'
  }

  predicate IsIdentity(value: string) {
    && 0 < |value| <= 128
    && forall i :: 0 <= i < |value| ==> IsAsciiLetterOrDigit(value[i]) || value[i] in "-_."
  }

  predicate IsVerifier(value: string) {
    |value| == 64 && forall i :: 0 <= i < |value| ==> IsAsciiHexDigit(value[i])
  }

  predicate DistinctIds(credentials: seq<DesiredCredential>) {
    forall i, j :: 0 <= i < j < |credentials| ==> credentials[i].id != credentials[j].id
  }

  predicate IsValid(desired: DesiredRegistration) {
    && desired.revision > 0
    && !desired.state.Undefined?
    && IsIdentity(desired.clientId) && IsIdentity(desired.applicationId)
    && IsIdentity(desired.browserService) && IsIdentity(desired.serverService)
    && 0 < |desired.environments| <= 16
    && (forall i :: 0 <= i < |desired.environments| ==> IsIdentity(desired.environments[i]))
    && (forall i, j :: 0 <= i < j < |desired.environments| ==> desired.environments[i] != desired.environments[j])
    && |desired.credentials| <= 4
    && (forall i :: 0 <= i < |desired.credentials| ==>
          && IsIdentity(desired.credentials[i].id)
          && '.' !in desired.credentials[i].id
          && IsVerifier(desired.credentials[i].verifier))
    && DistinctIds(desired.credentials)
    && (desired.state.Enabled? ==> |desired.credentials| > 0)
  }

  function ToLower(c: char): char {
    if 'A' <= c <= 'Z' then (c as int + 32) as char else c
  }

  predicate EqualIgnoreCase(left: string, right: string) {
    |left| == |right| && forall i :: 0 <= i < |left| ==> ToLower(left[i]) == ToLower(right[i])
  }

  /** The credential identifiers a document lists. */
  function Listed(credentials: seq<DesiredCredential>): set<string> {
    set i | 0 <= i < |credentials| :: credentials[i].id
  }

  /** The verifier a document lists for an identifier (the first one, though identifiers are distinct). */
  function VerifierOf(credentials: seq<DesiredCredential>, id: string): string
    requires id in Listed(credentials)
  {
    if credentials[0].id == id then credentials[0].verifier else VerifierOf(credentials[1..], id)
  }

  /** Identifiers are distinct, so the verifier listed for one is the verifier at its position. */
  lemma {:induction false} FirstIsOnly(credentials: seq<DesiredCredential>, i: nat)
    requires DistinctIds(credentials) && i < |credentials|
    ensures credentials[i].id in Listed(credentials)
    ensures VerifierOf(credentials, credentials[i].id) == credentials[i].verifier
  {
    if i > 0 {
      FirstIsOnly(credentials[1..], i - 1);
      assert credentials[0].id != credentials[i].id;
      assert credentials[1..][i - 1] == credentials[i];
    }
  }

  // The control PUT

  predicate Replays(existing: RegistrationEntry, desired: DesiredRegistration) {
    existing.revision == desired.revision && existing.desired == desired
  }

  predicate Supersedes(existing: RegistrationEntry, desired: DesiredRegistration) {
    desired.revision > existing.revision && !existing.desired.state.Deleted?
  }

  /** The rotation a document asks for is well formed with respect to the document itself. */
  predicate RotationWellFormed(desired: DesiredRegistration, operation: CredentialRotation) {
    && operation.operationId != EMPTY_GUID
    && desired.state.Enabled?
    && operation.previousId != operation.newId
    && operation.previousId in Listed(desired.credentials)
    && operation.newId in Listed(desired.credentials)
  }

  predicate SameRotation(row: RotationEntry, id: Guid, operation: CredentialRotation) {
    row.registrationId == id && row.previousId == operation.previousId && row.newId == operation.newId
  }

  /** A rotation that has no row yet may start. */
  predicate MayRotate(s: State, id: Guid, operation: CredentialRotation) {
    && operation.previousId in s.credentials
    && s.credentials[operation.previousId].registrationId == id
    && !s.credentials[operation.previousId].revoked
    && s.credentials[operation.previousId].expiresAt.None?
    && operation.newId !in s.credentials
  }

  /** The row this request adds, if it starts a rotation. */
  predicate StartsRotation(s: State, desired: DesiredRegistration) {
    desired.rotation.Some? && desired.rotation.value.operationId !in s.rotations
  }

  function NewRotation(id: Guid, operation: CredentialRotation, now: int): RotationEntry {
    RotationEntry(id, operation.previousId, operation.newId, now + GRACE_MILLIS)
  }

  /** A listed credential clashes with the row already stored under its identifier. */
  predicate Clashes(s: State, id: Guid, desired: DesiredRegistration, credential: DesiredCredential) {
    && credential.id in s.credentials
    && var stored := s.credentials[credential.id];
       stored.registrationId != id || (stored.revoked && desired.state.Enabled?)
         || !EqualIgnoreCase(stored.verifier, credential.verifier)
  }

  /** Why the rotation a document asks for is refused, if it is. */
  function RotationRejection(s: State, id: Guid, desired: DesiredRegistration): Option<Response> {
    if desired.rotation.None? then None
    else if !RotationWellFormed(desired, desired.rotation.value) then Some(BadRequest)
    else if StartsRotation(s, desired) then
      if MayRotate(s, id, desired.rotation.value) then None else Some(Conflict)
    else if SameRotation(s.rotations[desired.rotation.value.operationId], id, desired.rotation.value) then None
    else Some(Conflict)
  }

  /** Why the credentials of an otherwise acceptable document are refused, if they are. */
  function CredentialRejection(s: State, id: Guid, desired: DesiredRegistration): Option<Response> {
    if RotationRejection(s, id, desired).Some? then RotationRejection(s, id, desired)
    else if exists i :: 0 <= i < |desired.credentials| && Clashes(s, id, desired, desired.credentials[i])
    then Some(Conflict)
    else None
  }

  /** Why a request is turned away, if it is. */
  function Rejection(s: State, id: Guid, desired: DesiredRegistration): Option<Response> {
    if id == EMPTY_GUID || !IsValid(desired) then Some(BadRequest)
    else if id in s.registrations && !Supersedes(s.registrations[id], desired) then Some(Conflict)
    else CredentialRejection(s, id, desired)
  }

  /** The credential row an accepted request leaves under `k`. */
  function CommittedCredential(s: State, id: Guid, desired: DesiredRegistration, now: int, k: string): CredentialEntry
    requires k in s.credentials || k in Listed(desired.credentials)
  {
    var row := if k in s.credentials then s.credentials[k]
               else CredentialEntry(id, VerifierOf(desired.credentials, k), false, None);
    var dated := if StartsRotation(s, desired) && desired.rotation.value.previousId == k
                 then row.(expiresAt := Some(now + GRACE_MILLIS)) else row;
    if dated.registrationId != id then dated
    else dated.(revoked := dated.revoked || !desired.state.Enabled? || k !in Listed(desired.credentials))
  }

  function CommittedRotations(s: State, id: Guid, desired: DesiredRegistration, now: int): map<Guid, RotationEntry> {
    if StartsRotation(s, desired)
    then s.rotations[desired.rotation.value.operationId := NewRotation(id, desired.rotation.value, now)]
    else s.rotations
  }

  function Acknowledge(s: State, id: Guid, desired: DesiredRegistration, now: int,
                       acknowledgedAt: int): Acknowledgement {
    var rotations := CommittedRotations(s, id, desired, now);
    Acknowledgement(id, desired.revision, acknowledgedAt,
                    if desired.rotation.Some? then Some(rotations[desired.rotation.value.operationId].deadline)
                    else None)
  }

  function Commit(s: State, id: Guid, desired: DesiredRegistration, now: int, acknowledgedAt: int): State {
    State(
      s.registrations[id := RegistrationEntry(desired, desired.revision,
                                              Acknowledge(s, id, desired, now, acknowledgedAt))],
      map k | k in s.credentials.Keys + Listed(desired.credentials) :: CommittedCredential(s, id, desired, now, k),
      CommittedRotations(s, id, desired, now))
  }

  /** One control PUT: the clock is read once for a new deadline and again for the acknowledgement. */
  function Put(s: State, id: Guid, desired: DesiredRegistration, now: int, acknowledgedAt: int): (State, Response) {
    if id != EMPTY_GUID && IsValid(desired) && id in s.registrations && Replays(s.registrations[id], desired)
    then (s, Content(s.registrations[id].acknowledgement))
    else match Rejection(s, id, desired) {
      case Some(response) => (s, response)
      case None => (Commit(s, id, desired, now, acknowledgedAt),
                    Content(Acknowledge(s, id, desired, now, acknowledgedAt)))
    }
  }

  /** The request is neither a replay nor turned away: it commits. */
  predicate Commits(s: State, id: Guid, desired: DesiredRegistration) {
    && !(id in s.registrations && Replays(s.registrations[id], desired))
    && Rejection(s, id, desired).None?
  }

  datatype Request = Request(id: Guid, desired: DesiredRegistration, now: int, acknowledgedAt: int)

  function Step(s: State, request: Request): State {
    Put(s, request.id, request.desired, request.now, request.acknowledgedAt).0
  }

  /** The tables after a whole sequence of control requests, accepted or not. */
  function Run(s: State, requests: seq<Request>): State
    decreases |requests|
  {
    if requests == [] then s else Run(Step(s, requests[0]), requests[1..])
  }

  // The ingress

  /** `Fault` stands for an exception escaping the handler: a missing row or an undecodable verifier. */
  datatype Decision = Unauthorized | Fault | Admitted(registrationId: Guid, desired: DesiredRegistration)

  function HexDigit(c: char): nat
    requires IsAsciiHexDigit(c)
  {
    if c <= '9' then c as nat - '0' as nat
    else if c <= 'F' then c as nat - 'A' as nat + 10 else c as nat - 'a' as nat + 10
  }

  predicate IsHex(text: string) {
    |text| % 2 == 0 && forall i :: 0 <= i < |text| ==> IsAsciiHexDigit(text[i])
  }

  function FromHex(text: string): seq<nat>
    requires IsHex(text)
  {
    seq(|text| / 2, i requires 0 <= i < |text| / 2 => 16 * HexDigit(text[2 * i]) + HexDigit(text[2 * i + 1]))
  }

  /** The identifier and the secret an Authorization header presents. */
  function Presented(header: string): Option<(string, string)> {
    if |header| > 512 || !("Bearer " <= header) then None else CutAtDot(header[7..])
  }

  /** What a request to the ingress presents, and when it is looked at. */
  datatype Attempt = Attempt(header: string, environment: string, now: int)

  type Hash = string -> seq<nat>

  /** How the presented credential fares: refused, a fault, or good for a registration. */
  datatype Credited = Refused | Broken | Good(registrationId: Guid)

  /** The first query, for the credential. */
  function CheckCredential(s: State, sha256: Hash, attempt: Attempt): Credited {
    match Presented(attempt.header)
    case None => Refused
    case Some((id, secret)) =>
      if id !in s.credentials then Refused
      else
        var credential := s.credentials[id];
        if credential.revoked || (credential.expiresAt.Some? && credential.expiresAt.value <= attempt.now) then Refused
        else if !IsHex(credential.verifier) then Broken
        else if FromHex(credential.verifier) != sha256(secret) then Refused
        else Good(credential.registrationId)
  }

  /** The second query, for the registration; control requests may have been served since the first. */
  function Authorize(first: State, second: State, sha256: Hash, attempt: Attempt): Decision {
    match CheckCredential(first, sha256, attempt)
    case Refused => Unauthorized
    case Broken => Fault
    case Good(g) =>
      if g !in second.registrations then Fault
      else
        var desired := second.registrations[g].desired;
        if !desired.state.Enabled? || attempt.environment !in desired.environments then Unauthorized
        else Admitted(g, desired)
  }
}
