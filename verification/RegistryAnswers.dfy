/**
  What the registry answers, said in terms of the documents it stores: which requests are accepted,
  which are refused and how, and which attempts the ingress admits. Verifiers are texts that spell
  bytes.
 */
module RegistryAnswers {
  import opened Wrappers
  import opened Text
  import opened Registry
  import opened RegistryTheorems

  // Hexadecimal text

  const LOWER := "0123456789abcdef"
  const UPPER := "0123456789ABCDEF"

  ghost predicate SpellsDigit(c: char, digit: nat) {
    digit < 16 && (c == LOWER[digit] || c == UPPER[digit])
  }

  /** Two digits for each byte, the high one first, in either case. */
  ghost predicate Spells(text: string, bytes: seq<nat>) {
    && |text| == 2 * |bytes|
    && forall i :: 0 <= i < |bytes| ==>
         bytes[i] < 256 && SpellsDigit(text[2 * i], bytes[i] / 16) && SpellsDigit(text[2 * i + 1], bytes[i] % 16)
  }

  function ToHex(bytes: seq<nat>): string
    requires forall i :: 0 <= i < |bytes| ==> bytes[i] < 256
  {
    if bytes == [] then "" else [LOWER[bytes[0] / 16], LOWER[bytes[0] % 16]] + ToHex(bytes[1..])
  }

  lemma DigitLetters(digit: nat)
    requires digit < 16
    ensures LOWER[digit] == if digit < 10 then '0' + digit as char else 'a' + (digit - 10) as char
    ensures UPPER[digit] == if digit < 10 then '0' + digit as char else 'A' + (digit - 10) as char
  {
  }

  lemma DigitExactly(c: char, digit: nat)
    ensures SpellsDigit(c, digit) <==> IsAsciiHexDigit(c) && HexDigit(c) == digit
  {
    if digit < 16 {
      DigitLetters(digit);
    }
    if IsAsciiHexDigit(c) {
      DigitLetters(HexDigit(c));
    }
  }

  /** Decoding a text yields exactly the bytes it spells. */
  lemma FromHexExactly(text: string, bytes: seq<nat>)
    ensures Spells(text, bytes) <==> IsHex(text) && FromHex(text) == bytes
  {
    hide SpellsDigit, HexDigit, IsAsciiHexDigit;
    if Spells(text, bytes) {
      SpelledIsHex(text, bytes);
    }
    if IsHex(text) && FromHex(text) == bytes {
      HexIsSpelled(text);
    }
  }

  lemma SpelledIsHex(text: string, bytes: seq<nat>)
    requires Spells(text, bytes)
    ensures IsHex(text) && FromHex(text) == bytes
  {
    hide SpellsDigit, HexDigit, IsAsciiHexDigit;
    forall i | 0 <= i < |bytes|
      ensures IsAsciiHexDigit(text[2 * i]) && IsAsciiHexDigit(text[2 * i + 1])
      ensures 16 * HexDigit(text[2 * i]) + HexDigit(text[2 * i + 1]) == bytes[i]
    {
      DigitExactly(text[2 * i], bytes[i] / 16);
      DigitExactly(text[2 * i + 1], bytes[i] % 16);
    }
    forall i | 0 <= i < |text| ensures IsAsciiHexDigit(text[i]) {
      assert i == 2 * (i / 2) || i == 2 * (i / 2) + 1;
    }
  }

  lemma HexIsSpelled(text: string)
    requires IsHex(text)
    ensures Spells(text, FromHex(text))
  {
    hide SpellsDigit, HexDigit, IsAsciiHexDigit;
    var bytes := FromHex(text);
    forall i | 0 <= i < |bytes|
      ensures bytes[i] < 256 && SpellsDigit(text[2 * i], bytes[i] / 16) && SpellsDigit(text[2 * i + 1], bytes[i] % 16)
    {
      DigitExactly(text[2 * i], HexDigit(text[2 * i]));
      DigitExactly(text[2 * i + 1], HexDigit(text[2 * i + 1]));
      DigitSmall(text[2 * i], HexDigit(text[2 * i]));
      DigitSmall(text[2 * i + 1], HexDigit(text[2 * i + 1]));
    }
  }

  lemma DigitSmall(c: char, digit: nat)
    requires SpellsDigit(c, digit)
    ensures digit < 16
  {
  }

  /** A printed byte string is spelled by its print, so decoding returns it. */
  lemma {:induction false} ToHexSpells(bytes: seq<nat>)
    requires forall i :: 0 <= i < |bytes| ==> bytes[i] < 256
    ensures Spells(ToHex(bytes), bytes)
    ensures IsHex(ToHex(bytes)) && FromHex(ToHex(bytes)) == bytes
  {
    hide FromHex, Spells, SpellsDigit, IsHex;
    if bytes == [] {
      NoBytes();
    } else {
      ToHexSpells(bytes[1..]);
      FirstSpelled(LOWER[bytes[0] / 16], LOWER[bytes[0] % 16], ToHex(bytes[1..]), bytes);
    }
    FromHexExactly(ToHex(bytes), bytes);
  }

  lemma NoBytes()
    ensures Spells("", [])
  {
  }

  lemma FirstSpelled(high: char, low: char, rest: string, bytes: seq<nat>)
    requires bytes != [] && bytes[0] < 256 && Spells(rest, bytes[1..])
    requires high == LOWER[bytes[0] / 16] && low == LOWER[bytes[0] % 16]
    ensures Spells([high, low] + rest, bytes)
  {
    var text := [high, low] + rest;
    assert SpellsDigit(high, bytes[0] / 16) && SpellsDigit(low, bytes[0] % 16);
    hide SpellsDigit;
    forall i | 0 < i < |bytes|
      ensures bytes[i] < 256 && SpellsDigit(text[2 * i], bytes[i] / 16) && SpellsDigit(text[2 * i + 1], bytes[i] % 16)
    {
      assert bytes[1..][i - 1] == bytes[i];
      assert text[2 * i] == rest[2 * (i - 1)] && text[2 * i + 1] == rest[2 * (i - 1) + 1];
    }
  }

  // Valid documents

  /** Letters, digits, and three more: between 1 and 128 of them. */
  ghost predicate Identity(value: string) {
    && 1 <= |value| <= 128
    && forall i :: 0 <= i < |value| ==>
         || 'a' <= value[i] <= 'z' || 'A' <= value[i] <= 'Z' || '0' <= value[i] <= '9'
         || value[i] == '-' || value[i] == '_' || value[i] == '.'
  }

  function Elements(texts: seq<string>): set<string> {
    set i | 0 <= i < |texts| :: texts[i]
  }

  /** A sequence has no repetition exactly if it has as many elements as places. */
  lemma {:induction false} DistinctExactly(texts: seq<string>)
    ensures |Elements(texts)| <= |texts|
    ensures |Elements(texts)| == |texts| <==> forall i, j :: 0 <= i < j < |texts| ==> texts[i] != texts[j]
    decreases |texts|
  {
    if texts == [] {
      assert Elements(texts) == {};
    } else {
      var n := |texts| - 1;
      var front := texts[..n];
      DistinctExactly(front);
      assert Elements(texts) == Elements(front) + {texts[n]};
      if texts[n] in Elements(front) {
        var i :| 0 <= i < n && front[i] == texts[n];
        assert texts[i] == texts[n] && Elements(texts) == Elements(front);
      } else {
        forall i | 0 <= i < n ensures texts[i] != texts[n] {
          assert front[i] == texts[i];
        }
        assert (forall i, j :: 0 <= i < j < |texts| ==> texts[i] != texts[j]) <==>
               (forall i, j :: 0 <= i < j < n ==> front[i] != front[j]);
      }
    }
  }

  function Identifiers(credentials: seq<DesiredCredential>): seq<string> {
    seq(|credentials|, i requires 0 <= i < |credentials| => credentials[i].id)
  }

  /**
    Which documents are valid: identities, one to sixteen environments, at most four credentials
    and, if enabled, at least one, each once.
   */
  lemma ValidExactly(desired: DesiredRegistration)
    ensures IsValid(desired) <==>
      && desired.revision >= 1 && desired.state in {Enabled, Disabled, RegistrationState.Deleted}
      && Identity(desired.clientId) && Identity(desired.applicationId)
      && Identity(desired.browserService) && Identity(desired.serverService)
      && 1 <= |desired.environments| <= 16 && |Elements(desired.environments)| == |desired.environments|
      && (forall i :: 0 <= i < |desired.environments| ==> Identity(desired.environments[i]))
      && |desired.credentials| <= 4 && |Elements(Identifiers(desired.credentials))| == |desired.credentials|
      && (forall i :: 0 <= i < |desired.credentials| ==>
            && Identity(desired.credentials[i].id) && '.' !in desired.credentials[i].id
            && SpellsThirtyTwo(desired.credentials[i].verifier))
      && (desired.state == Enabled ==> |desired.credentials| >= 1)
  {
    DistinctExactly(desired.environments);
    DistinctExactly(Identifiers(desired.credentials));
    forall value ensures Identity(value) <==> IsIdentity(value) {
      IdentityExactly(value);
    }
    forall i | 0 <= i < |desired.credentials|
      ensures IsVerifier(desired.credentials[i].verifier) <==> SpellsThirtyTwo(desired.credentials[i].verifier)
    {
      VerifierExactly(desired.credentials[i].verifier);
    }
    DistinctIdentifiers(desired.credentials);
    hide Identity, IsIdentity, IsVerifier, SpellsThirtyTwo, Elements, Identifiers, DistinctIds;
  }

  lemma IdentityExactly(value: string)
    ensures Identity(value) <==> IsIdentity(value)
  {
  }

  lemma DistinctIdentifiers(credentials: seq<DesiredCredential>)
    ensures DistinctIds(credentials) <==> |Elements(Identifiers(credentials))| == |credentials|
  {
    DistinctExactly(Identifiers(credentials));
    hide Elements;
    var ids := Identifiers(credentials);
    forall i | 0 <= i < |credentials| ensures ids[i] == credentials[i].id {
    }
  }

  /** A verifier is the text of 32 bytes. */
  ghost predicate SpellsThirtyTwo(text: string) {
    exists bytes :: |bytes| == 32 && Spells(text, bytes)
  }

  lemma VerifierExactly(text: string)
    ensures SpellsThirtyTwo(text) <==> IsVerifier(text)
  {
    hide Spells, FromHex, IsAsciiHexDigit;
    if IsVerifier(text) {
      HexIsSpelled(text);
      assert |FromHex(text)| == 32 by {
        HalfAsMany(text);
      }
    }
    if SpellsThirtyTwo(text) {
      var bytes :| |bytes| == 32 && Spells(text, bytes);
      SpelledIsHex(text, bytes);
      SpelledLength(text, bytes);
    }
  }

  lemma HalfAsMany(text: string)
    requires IsHex(text)
    ensures |FromHex(text)| == |text| / 2
  {
  }

  lemma SpelledLength(text: string, bytes: seq<nat>)
    requires Spells(text, bytes)
    ensures |text| == 2 * |bytes|
  {
  }

  // Verifiers

  /** Two texts that spell the same bytes. */
  ghost predicate SameVerifier(a: string, b: string) {
    exists bytes :: Spells(a, bytes) && Spells(b, bytes)
  }

  lemma SameVerifierIs(a: string, b: string)
    requires IsVerifier(a) && IsVerifier(b)
    ensures SameVerifier(a, b) <==> FromHex(a) == FromHex(b)
    ensures SameVerifier(a, b) <==> EqualIgnoreCase(a, b)
  {
    hide Spells, FromHex, EqualIgnoreCase;
    HexIsSpelled(a);
    HexIsSpelled(b);
    if SameVerifier(a, b) {
      var bytes :| Spells(a, bytes) && Spells(b, bytes);
      FromHexExactly(a, bytes);
      FromHexExactly(b, bytes);
    }
    if EqualIgnoreCase(a, b) {
      SameBytes(a, b);
    }
    if FromHex(a) == FromHex(b) {
      SameText(a, b);
    }
  }

  lemma SameText(a: string, b: string)
    requires IsVerifier(a) && IsVerifier(b) && FromHex(a) == FromHex(b)
    ensures EqualIgnoreCase(a, b)
  {
    hide HexDigit, ToLower;
    forall i | 0 <= i < |a| ensures ToLower(a[i]) == ToLower(b[i]) {
      var j := i / 2;
      assert FromHex(a)[j] == FromHex(b)[j];
      SmallDigit(a[2 * j]);
      SmallDigit(a[2 * j + 1]);
      SmallDigit(b[2 * j]);
      SmallDigit(b[2 * j + 1]);
      SameDigit(a[i], b[i]);
    }
  }

  lemma SmallDigit(c: char)
    requires IsAsciiHexDigit(c)
    ensures HexDigit(c) < 16
  {
  }

  lemma SameDigit(c: char, d: char)
    requires IsAsciiHexDigit(c) && IsAsciiHexDigit(d)
    ensures HexDigit(c) == HexDigit(d) ==> ToLower(c) == ToLower(d)
  {
  }

  // Which requests are accepted

  ghost predicate Lists(desired: DesiredRegistration, k: string) {
    exists i :: 0 <= i < |desired.credentials| && desired.credentials[i].id == k
  }

  ghost predicate ListsWith(desired: DesiredRegistration, credential: DesiredCredential) {
    exists i :: 0 <= i < |desired.credentials| && desired.credentials[i].id == credential.id
                && SameVerifier(desired.credentials[i].verifier, credential.verifier)
  }

  /** The stored document is enabled. */
  ghost predicate EnabledNow(s: State, id: Guid) {
    id in s.registrations && s.registrations[id].desired.state.Enabled?
  }

  /**
    A listed credential is acceptable: its identifier is unknown, or the enabled document before
    lists it with the same verifier; a document that does not enable may list any of its
    registration's credentials, revoked ones included.
   */
  ghost predicate Open(s: State, id: Guid, desired: DesiredRegistration, credential: DesiredCredential) {
    || credential.id !in s.credentials
    || if desired.state.Enabled? then EnabledNow(s, id) && ListsWith(s.registrations[id].desired, credential)
       else s.credentials[credential.id].registrationId == id
            && SameVerifier(s.credentials[credential.id].verifier, credential.verifier)
  }

  /** The rotation asked for makes sense within its own document. */
  ghost predicate Sensible(desired: DesiredRegistration) {
    desired.rotation.Some? ==>
      var CredentialRotation(operationId, previousId, newId) := desired.rotation.value;
      && operationId != 0 && desired.state.Enabled? && previousId != newId
      && Lists(desired, previousId) && Lists(desired, newId)
  }

  /**
    The rotation asked for is one already recorded, or goes from a credential the enabled document
    before lists and no rotation has taken out yet to one that is unknown.
   */
  ghost predicate RotationOpen(s: State, id: Guid, desired: DesiredRegistration) {
    desired.rotation.Some? ==>
      var CredentialRotation(operationId, previousId, newId) := desired.rotation.value;
      if operationId in s.rotations then
        var row := s.rotations[operationId];
        row.registrationId == id && row.previousId == previousId && row.newId == newId
      else
        && EnabledNow(s, id) && Lists(s.registrations[id].desired, previousId)
        && (forall r :: r in s.rotations ==> s.rotations[r].previousId != previousId)
        && newId !in s.credentials
  }

  /** When the outgoing credential of the rotation asked for expires: 24 hours from the first time it is asked for. */
  ghost function Expiry(s: State, desired: DesiredRegistration, now: int): Option<int> {
    if desired.rotation.None? then None
    else if desired.rotation.value.operationId in s.rotations
    then Some(s.rotations[desired.rotation.value.operationId].deadline)
    else Some(now + 86_400_000)
  }

  /** The answer, by the documents stored. */
  ghost function Answer(s: State, request: Request): Response {
    var Request(id, desired, now, at) := request;
    if id == 0 || !IsValid(desired) then BadRequest
    else if id in s.registrations && desired == s.registrations[id].desired
         then Content(s.registrations[id].acknowledgement)
    else if id in s.registrations
            && (desired.revision <= s.registrations[id].desired.revision || s.registrations[id].desired.state.Deleted?)
    then Conflict
    else if !Sensible(desired) then BadRequest
    else if RotationOpen(s, id, desired)
            && forall i :: 0 <= i < |desired.credentials| ==> Open(s, id, desired, desired.credentials[i])
    then Content(Acknowledgement(id, desired.revision, at, Expiry(s, desired, now)))
    else Conflict
  }

  /**
    A request is turned down, repeats the stored document, or is stored: then its document and its
    answer are what is stored.
   */
  lemma PutExactly(s: State, request: Request)
    requires Valid(s)
    ensures var Request(id, desired, now, at) := request;
            var (after, response) := Put(s, id, desired, now, at);
            && response == Answer(s, request)
            && (!response.Content? || (id in s.registrations && desired == s.registrations[id].desired) ==> after == s)
            && (response.Content? && !(id in s.registrations && desired == s.registrations[id].desired) ==>
                  after.registrations
                  == s.registrations[id := RegistrationEntry(desired, desired.revision, response.acknowledgement)])
  {
    var Request(id, desired, now, at) := request;
    if id != 0 && IsValid(desired) {
      if id in s.registrations {
        ReplaysExactly(s, id, desired);
      }
      RotationExactly(s, id, desired);
      CredentialsExactly(s, id, desired);
      ExpiryExactly(s, id, desired, now, at);
      RejectionIs(s, id, desired);
    }
    hide Valid, IsValid, Open, RotationOpen, Sensible, Expiry, RotationRejection, Clashes, Rejection, Acknowledge,
         Supersedes, Replays;
  }

  lemma ReplaysExactly(s: State, id: Guid, desired: DesiredRegistration)
    requires Valid(s) && id in s.registrations
    ensures Replays(s.registrations[id], desired) <==> desired == s.registrations[id].desired
    ensures Supersedes(s.registrations[id], desired) <==>
      desired.revision > s.registrations[id].desired.revision && !s.registrations[id].desired.state.Deleted?
  {
    hide IsValid, Owned, RevokedUnlessListed, Stored, VerifiersMatch, Acknowledged, Dated, ExpiryExplained, Linear,
         Acyclic;
  }

  lemma RejectionIs(s: State, id: Guid, desired: DesiredRegistration)
    requires id != 0 && IsValid(desired)
    ensures Rejection(s, id, desired) ==
      if id in s.registrations && !Supersedes(s.registrations[id], desired) then Some(Conflict)
      else if RotationRejection(s, id, desired).Some? then RotationRejection(s, id, desired)
      else if exists i :: 0 <= i < |desired.credentials| && Clashes(s, id, desired, desired.credentials[i])
      then Some(Conflict)
      else None
  {
    hide IsValid, Supersedes, RotationRejection, Clashes;
  }

  lemma ExpiryExactly(s: State, id: Guid, desired: DesiredRegistration, now: int, at: int)
    ensures Acknowledge(s, id, desired, now, at) == Acknowledgement(id, desired.revision, at, Expiry(s, desired, now))
  {
  }

  lemma ListsExactly(desired: DesiredRegistration, k: string)
    ensures Lists(desired, k) <==> k in Listed(desired.credentials)
  {
  }

  lemma RotationExactly(s: State, id: Guid, desired: DesiredRegistration)
    requires Valid(s)
    ensures RotationRejection(s, id, desired) ==
      if !Sensible(desired) then Some(BadRequest) else if RotationOpen(s, id, desired) then None else Some(Conflict)
  {
    hide Valid, Lists, Listed, EnabledNow;
    if desired.rotation.Some? {
      var operation := desired.rotation.value;
      ListsExactly(desired, operation.previousId);
      ListsExactly(desired, operation.newId);
      OutgoingExactly(s, id, operation.previousId);
    }
  }

  /** A credential may be rotated out exactly if the enabled document lists it and no rotation has taken it out. */
  lemma OutgoingExactly(s: State, id: Guid, k: string)
    requires Valid(s)
    ensures k in s.credentials && s.credentials[k].registrationId == id && !s.credentials[k].revoked
            && s.credentials[k].expiresAt.None?
       <==> EnabledNow(s, id) && Lists(s.registrations[id].desired, k)
            && forall r :: r in s.rotations ==> s.rotations[r].previousId != k
  {
    ValidParts(s);
    hide IsValid, VerifiersMatch, Acknowledged, Linear, Acyclic, Listed, Lists;
    if id in s.registrations {
      ListsExactly(s.registrations[id].desired, k);
    }
    if k in s.credentials && Superseded(s, k) {
      var r :| r in s.rotations && s.rotations[r].previousId == k;
    }
  }

  lemma CredentialsExactly(s: State, id: Guid, desired: DesiredRegistration)
    requires Valid(s) && IsValid(desired)
    ensures forall i :: 0 <= i < |desired.credentials| ==>
      (Clashes(s, id, desired, desired.credentials[i]) <==> !Open(s, id, desired, desired.credentials[i]))
  {
    forall i | 0 <= i < |desired.credentials|
      ensures Clashes(s, id, desired, desired.credentials[i]) <==> !Open(s, id, desired, desired.credentials[i])
    {
      assert IsVerifier(desired.credentials[i].verifier);
      hide IsValid, IsVerifier, Valid, Clashes, Open;
      OpenExactly(s, id, desired, desired.credentials[i]);
    }
  }

  lemma OpenExactly(s: State, id: Guid, desired: DesiredRegistration, credential: DesiredCredential)
    requires Valid(s) && IsVerifier(credential.verifier)
    ensures Clashes(s, id, desired, credential) <==> !Open(s, id, desired, credential)
  {
    if credential.id in s.credentials {
      var row := s.credentials[credential.id];
      RowFacts(s, credential.id);
      hide Valid, IsVerifier, EqualIgnoreCase, SameVerifier, ListsWith, EnabledNow;
      SameVerifierIs(row.verifier, credential.verifier);
      KeptExactly(s, id, credential);
    }
  }

  lemma RowFacts(s: State, k: string)
    requires Valid(s) && k in s.credentials
    ensures IsVerifier(s.credentials[k].verifier)
  {
  }

  /**
    An enabled document lists a stored credential with its verifier exactly if the row is its
    registration's, unrevoked and has that verifier.
   */
  lemma KeptExactly(s: State, id: Guid, credential: DesiredCredential)
    requires Valid(s) && credential.id in s.credentials && IsVerifier(credential.verifier)
    ensures var row := s.credentials[credential.id];
            EnabledNow(s, id) && ListsWith(s.registrations[id].desired, credential)
            <==> row.registrationId == id && !row.revoked && EqualIgnoreCase(row.verifier, credential.verifier)
  {
    var k, row := credential.id, s.credentials[credential.id];
    UsableExactly(s, id, k);
    RowFacts(s, k);
    SameVerifierIs(row.verifier, credential.verifier);
    if EnabledNow(s, id) {
      var stored := s.registrations[id].desired;
      StoredIsValid(s, id);
      ListsExactly(stored, k);
      hide Valid, IsVerifier, EqualIgnoreCase, SameVerifier, FromHex, Listed, VerifierOf;
      if Lists(stored, k) {
        ListedVerifierIs(s, id, credential);
      }
    }
    hide Valid, IsVerifier, EqualIgnoreCase, SameVerifier, FromHex, Listed;
  }

  lemma StoredIsValid(s: State, g: Guid)
    requires Valid(s) && g in s.registrations
    ensures IsValid(s.registrations[g].desired)
  {
  }

  lemma UsableExactly(s: State, id: Guid, k: string)
    requires Valid(s) && k in s.credentials
    ensures s.credentials[k].registrationId == id && !s.credentials[k].revoked <==>
            EnabledNow(s, id) && Lists(s.registrations[id].desired, k)
  {
    hide IsValid, VerifiersMatch, Acknowledged, Dated, ExpiryExplained, Linear, Acyclic, Listed, Lists;
    if id in s.registrations {
      ListsExactly(s.registrations[id].desired, k);
    }
  }

  /** The verifier a document lists for an identifier is the one of the row, whatever the case of its digits. */
  lemma ListedVerifierIs(s: State, id: Guid, credential: DesiredCredential)
    requires Valid(s) && id in s.registrations && Lists(s.registrations[id].desired, credential.id)
    requires credential.id in s.credentials && IsVerifier(credential.verifier)
    ensures ListsWith(s.registrations[id].desired, credential)
      <==> SameVerifier(s.credentials[credential.id].verifier, credential.verifier)
  {
    var stored := s.registrations[id].desired;
    ListsExactly(stored, credential.id);
    ValidParts(s);
    StoredIsValid(s, id);
    hide Valid, SameVerifier, FromHex, VerifierOf, Listed, IsVerifier, Owned, Stored, VerifiersMatch, Dated,
         ExpiryExplained;
    ListedRow(s, id, credential.id);
    RowVerifier(stored, credential, s.credentials[credential.id].verifier);
  }

  lemma RowVerifier(stored: DesiredRegistration, credential: DesiredCredential, verifier: string)
    requires IsValid(stored) && Lists(stored, credential.id) && credential.id in Listed(stored.credentials)
    requires IsVerifier(VerifierOf(stored.credentials, credential.id)) && IsVerifier(verifier)
             && IsVerifier(credential.verifier)
    requires FromHex(VerifierOf(stored.credentials, credential.id)) == FromHex(verifier)
    ensures ListsWith(stored, credential) <==> SameVerifier(verifier, credential.verifier)
  {
    forall i | 0 <= i < |stored.credentials| && stored.credentials[i].id == credential.id
      ensures SameVerifier(stored.credentials[i].verifier, credential.verifier)
        <==> SameVerifier(verifier, credential.verifier)
    {
      FirstIsOnly(stored.credentials, i);
      SameVerifierIs(stored.credentials[i].verifier, credential.verifier);
      SameVerifierIs(verifier, credential.verifier);
    }
    hide SameVerifier, FromHex, VerifierOf, Listed, IsVerifier, IsValid;
  }

  /** The requests that change the registry are those answered with content that do not repeat the stored document. */
  lemma CommitsExactly(s: State, request: Request)
    requires Valid(s)
    ensures Commits(s, request.id, request.desired) <==>
      Answer(s, request).Content?
      && !(request.id in s.registrations && request.desired == s.registrations[request.id].desired)
  {
    hide Valid, IsValid, Open, RotationOpen, Sensible, Expiry, RotationRejection, Clashes, Rejection, Supersedes,
         Replays;
    var Request(id, desired, now, at) := request;
    if id != 0 && IsValid(desired) {
      if id in s.registrations {
        ReplaysExactly(s, id, desired);
      }
      RotationExactly(s, id, desired);
      CredentialsExactly(s, id, desired);
      RejectionIs(s, id, desired);
    } else {
      RefusedAtOnce(s, id, desired);
    }
  }

  lemma RefusedAtOnce(s: State, id: Guid, desired: DesiredRegistration)
    requires id == 0 || !IsValid(desired)
    ensures Rejection(s, id, desired) == Some(BadRequest)
  {
    hide IsValid;
  }

  // Some that are

  /** A valid later document that keeps the stored one's credentials is accepted, whatever else it changes. */
  lemma UpdateAccepted(s: State, request: Request)
    requires Valid(s) && request.id in s.registrations && IsValid(request.desired) && request.desired.rotation.None?
    requires var stored := s.registrations[request.id].desired;
             stored.state.Enabled? && stored.credentials == request.desired.credentials
               && stored.revision < request.desired.revision
    ensures Put(s, request.id, request.desired, request.now, request.acknowledgedAt).1
         == Content(Acknowledgement(request.id, request.desired.revision, request.acknowledgedAt, None))
  {
    PutExactly(s, request);
    AllOwned(s, request.id);
    StoredIsValid(s, request.id);
    ListsItself(s.registrations[request.id].desired);
    NotEmptyId(s, request.id);
    hide Valid, IsValid, Put, ListsWith, SameVerifier, Lists;
  }

  /**
    A registration can always be disabled or deleted, unless it is deleted, by a later document
    that lists what the stored one lists.
   */
  lemma DisablingAccepted(s: State, request: Request)
    requires Valid(s) && request.id in s.registrations && IsValid(request.desired) && request.desired.rotation.None?
    requires var stored := s.registrations[request.id].desired;
             !stored.state.Deleted? && stored.credentials == request.desired.credentials
               && stored.revision < request.desired.revision
    requires !request.desired.state.Enabled?
    ensures Put(s, request.id, request.desired, request.now, request.acknowledgedAt).1
         == Content(Acknowledgement(request.id, request.desired.revision, request.acknowledgedAt, None))
  {
    PutExactly(s, request);
    AllOwned(s, request.id);
    NotEmptyId(s, request.id);
    hide Valid, IsValid, Put, ListsWith, SameVerifier, Lists;
  }

  /** A credential that no rotation has taken out may be rotated for a new one; it expires 24 hours later. */
  lemma RotationAccepted(s: State, request: Request, added: DesiredCredential, operation: CredentialRotation)
    requires Valid(s) && request.id in s.registrations && IsValid(request.desired)
    requires var stored := s.registrations[request.id].desired;
             && stored.state.Enabled? && request.desired.state.Enabled? && stored.revision < request.desired.revision
             && request.desired.credentials == stored.credentials + [added]
             && Lists(stored, operation.previousId)
    requires request.desired.rotation == Some(operation) && operation.operationId != 0
             && operation.operationId !in s.rotations
    requires operation.newId == added.id && added.id !in s.credentials
    requires forall r :: r in s.rotations ==> s.rotations[r].previousId != operation.previousId
    ensures Put(s, request.id, request.desired, request.now, request.acknowledgedAt).1
         == Content(Acknowledgement(request.id, request.desired.revision, request.acknowledgedAt,
                                    Some(request.now + 86_400_000)))
  {
    hide Valid, IsValid, Put, ListsWith, SameVerifier, Lists, Sensible, Open, RotationOpen, Answer;
    var stored := s.registrations[request.id].desired;
    PutExactly(s, request);
    NotEmptyId(s, request.id);
    StoredListed(s, request.id, operation.previousId);
    SensibleWith(stored, request.desired, added, operation);
    RotationOpens(s, request.id, request.desired, operation);
    AddingOpens(s, request.id, request.desired, added);
    AnswerWhenOpen(s, request);
  }

  lemma AnswerWhenOpen(s: State, request: Request)
    requires request.id != 0 && IsValid(request.desired) && request.id in s.registrations
    requires request.desired.revision > s.registrations[request.id].desired.revision
    requires !s.registrations[request.id].desired.state.Deleted?
    requires Sensible(request.desired) && RotationOpen(s, request.id, request.desired)
    requires forall i :: 0 <= i < |request.desired.credentials| ==>
      Open(s, request.id, request.desired, request.desired.credentials[i])
    ensures Answer(s, request)
         == Content(Acknowledgement(request.id, request.desired.revision, request.acknowledgedAt,
                                    Expiry(s, request.desired, request.now)))
  {
    hide IsValid, Sensible, RotationOpen, Open;
  }

  lemma RotationOpens(s: State, id: Guid, desired: DesiredRegistration, operation: CredentialRotation)
    requires desired.rotation == Some(operation) && operation.operationId !in s.rotations
             && operation.newId !in s.credentials
    requires EnabledNow(s, id) && Lists(s.registrations[id].desired, operation.previousId)
    requires forall r :: r in s.rotations ==> s.rotations[r].previousId != operation.previousId
    ensures RotationOpen(s, id, desired)
  {
    hide Lists;
  }

  /** An enabled document may list what the one before lists, and an unknown credential. */
  lemma AddingOpens(s: State, id: Guid, desired: DesiredRegistration, added: DesiredCredential)
    requires Valid(s) && EnabledNow(s, id) && desired.state.Enabled? && added.id !in s.credentials
    requires desired.credentials == s.registrations[id].desired.credentials + [added]
    ensures forall i :: 0 <= i < |desired.credentials| ==> Open(s, id, desired, desired.credentials[i])
  {
    hide Valid, IsValid, ListsWith;
    var stored := s.registrations[id].desired;
    StoredIsValid(s, id);
    ListsItself(stored);
    forall i | 0 <= i < |desired.credentials| ensures Open(s, id, desired, desired.credentials[i]) {
      if i < |stored.credentials| {
        assert desired.credentials[i] == stored.credentials[i];
      }
    }
  }

  lemma SensibleWith(stored: DesiredRegistration, desired: DesiredRegistration, added: DesiredCredential,
                     operation: CredentialRotation)
    requires desired.credentials == stored.credentials + [added] && desired.state.Enabled?
    requires desired.rotation == Some(operation) && operation.operationId != 0 && operation.newId == added.id
    requires Lists(stored, operation.previousId) && operation.previousId != operation.newId
    ensures Sensible(desired)
  {
    var i :| 0 <= i < |stored.credentials| && stored.credentials[i].id == operation.previousId;
    assert desired.credentials[i].id == operation.previousId;
    assert desired.credentials[|stored.credentials|].id == operation.newId;
  }

  lemma NotEmptyId(s: State, g: Guid)
    requires Valid(s) && g in s.registrations
    ensures g != 0
  {
  }

  lemma StoredListed(s: State, g: Guid, k: string)
    requires Valid(s) && g in s.registrations && Lists(s.registrations[g].desired, k)
    ensures k in s.credentials
  {
    ListsExactly(s.registrations[g].desired, k);
  }

  /** Every credential a stored document lists is its registration's, with the verifier it lists. */
  lemma AllOwned(s: State, g: Guid)
    requires Valid(s) && g in s.registrations
    ensures forall i :: 0 <= i < |s.registrations[g].desired.credentials| ==>
      var credential := s.registrations[g].desired.credentials[i];
      && credential.id in s.credentials && s.credentials[credential.id].registrationId == g
      && SameVerifier(s.credentials[credential.id].verifier, credential.verifier)
  {
    var stored := s.registrations[g].desired;
    StoredIsValid(s, g);
    forall i | 0 <= i < |stored.credentials|
      ensures stored.credentials[i].id in s.credentials && s.credentials[stored.credentials[i].id].registrationId == g
      ensures SameVerifier(s.credentials[stored.credentials[i].id].verifier, stored.credentials[i].verifier)
    {
      OneOwned(s, g, i);
    }
    hide Valid, SameVerifier;
  }

  lemma OneOwned(s: State, g: Guid, i: nat)
    requires Valid(s) && g in s.registrations && i < |s.registrations[g].desired.credentials|
    ensures var credential := s.registrations[g].desired.credentials[i];
            && credential.id in s.credentials && s.credentials[credential.id].registrationId == g
            && SameVerifier(s.credentials[credential.id].verifier, credential.verifier)
  {
    var stored := s.registrations[g].desired;
    StoredIsValid(s, g);
    FirstIsOnly(stored.credentials, i);
    StoredUnder(s, g, stored.credentials[i].id);
    ValidParts(s);
    hide Valid, IsValid, IsVerifier, FromHex, VerifierOf, Listed, SameVerifier, Documented, Owned, Stored,
         VerifiersMatch;
    ListedRow(s, g, stored.credentials[i].id);
    SameVerifierIs(s.credentials[stored.credentials[i].id].verifier, stored.credentials[i].verifier);
  }

  lemma StoredUnder(s: State, g: Guid, k: string)
    requires Valid(s) && g in s.registrations && k in Listed(s.registrations[g].desired.credentials)
    ensures k in s.credentials && s.credentials[k].registrationId == g
  {
    hide IsValid, Listed;
  }

  lemma ListsItself(desired: DesiredRegistration)
    requires IsValid(desired)
    ensures forall i :: 0 <= i < |desired.credentials| ==> ListsWith(desired, desired.credentials[i])
  {
    forall i | 0 <= i < |desired.credentials| ensures ListsWith(desired, desired.credentials[i]) {
      SameVerifierIs(desired.credentials[i].verifier, desired.credentials[i].verifier);
    }
  }

  // Which attempts are admitted

  /** The header presents an identifier, which has no dot, and a secret, which may. */
  ghost predicate Presents(header: string, k: string, secret: string) {
    |header| <= 512 && header == "Bearer " + k + "." + secret && '.' !in k
  }

  lemma PresentedExactly(header: string, k: string, secret: string)
    ensures Presented(header) == Some((k, secret)) <==> Presents(header, k, secret)
  {
    if Presents(header, k, secret) {
      assert header == "Bearer " + (k + "." + secret);
      assert header[7..] == k + "." + secret;
      CutJoined(k, secret);
    }
    if Presented(header) == Some((k, secret)) {
      assert header == "Bearer " + header[7..];
      assert header[7..] == k + "." + secret;
    }
  }

  /**
    With nothing in between its queries the ingress admits exactly those attempts that present a
    credential the registration's enabled document lists, with the secret whose hash its verifier
    spells, for an environment the document names, and before every deadline of a rotation of it.
   */
  lemma AdmittedPlainly(s: State, g: Guid, sha256: Hash, attempt: Attempt, k: string, secret: string)
    requires Valid(s) && Presents(attempt.header, k, secret)
    ensures Authorize(s, s, sha256, attempt).Admitted? && Authorize(s, s, sha256, attempt).registrationId == g <==>
            && EnabledNow(s, g) && attempt.environment in s.registrations[g].desired.environments
            && ListsSpelled(s.registrations[g].desired, k, sha256(secret))
            && forall r :: r in s.rotations && s.rotations[r].previousId == k ==> attempt.now < s.rotations[r].deadline
  {
    hide Valid, IsValid, Authorize, Presented, Presents, FromHex, IsHex, VerifierOf, Listed, ListsSpelled;
    PresentedExactly(attempt.header, k, secret);
    AdmittedExactly(s, g, sha256, attempt);
    if g in s.registrations {
      StoredIsValid(s, g);
      SpelledExactly(s.registrations[g].desired, k, sha256(secret));
    }
  }

  /** A header that presents nothing is refused. */
  lemma RefusedPlainly(first: State, second: State, sha256: Hash, attempt: Attempt)
    requires forall k, secret :: !Presents(attempt.header, k, secret)
    ensures Authorize(first, second, sha256, attempt) == Unauthorized
  {
    if Presented(attempt.header).Some? {
      var (k, secret) := Presented(attempt.header).value;
      PresentedExactly(attempt.header, k, secret);
      assert false;
    }
    hide Presented, FromHex;
  }

  ghost predicate ListsSpelled(desired: DesiredRegistration, k: string, bytes: seq<nat>) {
    exists i :: 0 <= i < |desired.credentials| && desired.credentials[i].id == k
      && Spells(desired.credentials[i].verifier, bytes)
  }

  lemma SpelledExactly(desired: DesiredRegistration, k: string, bytes: seq<nat>)
    requires IsValid(desired)
    ensures ListsSpelled(desired, k, bytes) <==>
            k in Listed(desired.credentials)
            && IsHex(VerifierOf(desired.credentials, k)) && FromHex(VerifierOf(desired.credentials, k)) == bytes
  {
    forall i | 0 <= i < |desired.credentials| && desired.credentials[i].id == k
      ensures k in Listed(desired.credentials) && VerifierOf(desired.credentials, k) == desired.credentials[i].verifier
    {
      FirstIsOnly(desired.credentials, i);
    }
    hide Spells, FromHex, IsHex, VerifierOf;
    if k in Listed(desired.credentials) {
      FromHexExactly(VerifierOf(desired.credentials, k), bytes);
    }
  }

  /** So an enabled document that lists the printed hash of a secret lets its bearer in. */
  lemma PrintedHashAdmits(s: State, g: Guid, sha256: Hash, attempt: Attempt, i: nat, secret: string)
    requires Valid(s) && EnabledNow(s, g) && i < |s.registrations[g].desired.credentials|
    requires forall j :: 0 <= j < |sha256(secret)| ==> sha256(secret)[j] < 256
    requires var credential := s.registrations[g].desired.credentials[i];
             && credential.verifier == ToHex(sha256(secret))
             && |attempt.header| <= 512 && attempt.header == "Bearer " + credential.id + "." + secret
             && forall r :: r in s.rotations && s.rotations[r].previousId == credential.id ==>
                  attempt.now < s.rotations[r].deadline
    requires attempt.environment in s.registrations[g].desired.environments
    ensures Authorize(s, s, sha256, attempt) == Admitted(g, s.registrations[g].desired)
  {
    StoredIsValid(s, g);
    var credential := s.registrations[g].desired.credentials[i];
    assert '.' !in credential.id;
    ToHexSpells(sha256(secret));
    AdmittedPlainly(s, g, sha256, attempt, credential.id, secret);
    AdmittedExactly(s, g, sha256, attempt);
    hide Valid, IsValid, Authorize, FromHex, IsHex, Spells, ToHex, Vouched;
  }
}
