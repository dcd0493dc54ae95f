# Wallow: telemetry, publication and sign-in, modelled

Each part is a transition or a function that says what the code means, theorems about it over all
inputs or all runs, and, where the code changes things in place, a method or a class proved to
compute that transition.

- **Telemetry gateway registry** (`Registry`, `RegistryTheorems`, `RegistryAnswers`, `RegistryDb`). The control plane
  PUTs whole documents; the gateway keeps registrations, credentials and rotations. `Put` is one
  request against the three tables, `Run` a sequence of them, `Authorize` the ingress' decision over
  its two queries. Requests are serialised by a semaphore, so runs are sequences. `RegistryDb` is the
  handler over rows changed in a working copy and written by the commit. `RegistryAnswers` says what
  is accepted and admitted in terms of the documents stored.
- **Source maps** (`SourceMaps`, `SourceMapTheorems`, `SourceMapFormat`, `SourceMapStore`). Decoding of the `mappings`
  text with its 32-bit arithmetic written out, a printer that serves as the specification, the
  decoder's loops, and the bounded store of uploads.
- **Telemetry exporter of the API** (`OtlpBatch`, `IndependentTelemetry`, `TelemetryExporter`).
  Choosing a batch, its bytes on the wire, and the queue as a state machine whose steps are the lock
  regions, so that a sequence of steps is an interleaving of threads.
- **Browser queue** (`BrowserQueue`, `BrowserQueueObject`). A state machine whose steps are the
  stretches of code between two awaits: enqueues, overlapping context resets, and one drain.
- **Rate limits** (`RateLimit`, `RateLimiter`, `Relay`). The bounded fixed-window map against the
  unbounded limiter it stands for, and the relay's token bucket, counted in hundredths of a token,
  with its cap on concurrent handlers.
- **Browser logger** (`Logger`). Buffer, splitting of batches, backoff and drop reports, for one
  flush and for any number of flushes at once.
- **Publication** (`DependencyOrder`, `Aliases`). The order in which packages are published, and the
  moving aliases of releases.
- **Base32** (`Base32`) as the sign-in tests decode it (section 6 of RFC 4648).
- **Redirects** (`Propagation`), followed by hand to decide trace context and credentials on every
  hop (section 15.4 of RFC 9110).

Four properties one might expect do not hold of the code. Each is stated with the exact condition
under which it does, and with an input for which it does not:

- The browser queue counts a batch a second time when cancelling its response body rejects, because
  one `catch` covers both the request and the cancellation. Its counters add up if and only if every
  such cancellation resolves (`BrowserQueue.CountedOnceExactly`, `RejectedCancelCountsTwice`).
- The API exporter counts a batch nowhere when sending it fails with an exception other than the two
  it handles. Its counters add up if and only if that never happens
  (`IndependentTelemetry.AccountedExactly`, `EscapesUncounted`).
- The bounded limiter is neither more nor less permissive than the unbounded one: an evicted key
  starts anew, which can allow it what the other denies, and in a later window, which can deny it
  what the other allows. The two are the same if and only if fewer than the maximum of other windows
  are running whenever a window opens (`RateLimit.RoomyExactly`, `RoomyIsObservable`), and for one
  key if and only if it is never evicted while its window is running (`UnevictedExactly`;
  `EvictionAllowsMore`, `EvictionAllowsLess`).
- The ingress does not decide as if it had read the registry at one moment: it reads the credential
  and the registration in two queries outside a transaction. It does, at one of the two moments, if
  and only if the control requests in between do not both newly name the environment and take the
  credential out or let its deadline pass (`RegistryTheorems.ReadsAgreeExactly`, `StraddledInput`).

The comment on the base32 decoder speaks of unpadded text; the code also strips trailing padding, and
the model does as the code does.

## Model

| member | source | states |
|---|---|---|
| RegistryTheorems.PutPreservesValid | api/src/Wallow.TelemetryGateway/GatewayControl.cs:57-161 | From any registry that satisfies the invariant, any PUT (accepted, replayed, refused as bad or conflicting) leaves one that does: stored documents valid and consistent with their row and acknowledgement, every credential owned by a stored registration, unrevoked exactly when that registration is enabled and lists it, checked against the verifier its document gives, expiring exactly when it was rotated out and at that deadline, and rotations disjoint simple paths |
| RegistryTheorems.ReachableIsValid | api/src/Wallow.TelemetryGateway/GatewayControl.cs:57-161 | Every registry reached from empty tables by any sequence of control requests satisfies that invariant |
| RegistryTheorems.CommitKeepsLinear | api/src/Wallow.TelemetryGateway/GatewayControl.cs:95-122 | An accepted request leaves every credential the outgoing end of at most one rotation and the incoming end of at most one |
| RegistryTheorems.CommitKeepsAcyclic | api/src/Wallow.TelemetryGateway/GatewayControl.cs:95-122 | An accepted request closes no cycle of rotations of any length: the incoming credential of a new rotation is new |
| RegistryTheorems.ChainsAreSimple | api/src/Wallow.TelemetryGateway/GatewayControl.cs:95-122 | Along any chain of rotations no credential occurs twice, and all of them belong to one registration |
| RegistryTheorems.ExpiryIsDeadline | api/src/Wallow.TelemetryGateway/GatewayControl.cs:118-121 | A credential has an expiry exactly when some rotation takes it out, and then it is that rotation's deadline |
| RegistryTheorems.PutEffect | api/src/Wallow.TelemetryGateway/GatewayControl.cs:60-160 | A request that does not commit changes no table. One that commits strictly raises the revision, leaves exactly the listed credentials unrevoked when enabled and none otherwise, at most four; no row of any other registration appears, disappears or changes in either case |
| RegistryTheorems.RunEvolves | api/src/Wallow.TelemetryGateway/GatewayControl.cs:57-161 | Over any sequence of requests no row disappears, no owner or verifier of a credential changes, no revocation is lifted, no expiry and no rotation changes, no revision falls, an unchanged revision means an unchanged row, and a deleted registration stays exactly as it is |
| RegistryTheorems.ReplayAnswersAsBefore | api/src/Wallow.TelemetryGateway/GatewayControl.cs:66-79 | An accepted request sent again after any other requests changes nothing; it gets its first answer, word for word, exactly as long as its revision is the stored one, and conflicts from then on |
| RegistryTheorems.LossIsPermanent | api/src/Wallow.TelemetryGateway/GatewayIngress.cs:51-57 | A credential that is revoked or whose deadline has passed is refused by the ingress after every further sequence of control requests and at every later time, whatever its second query then finds |
| RegistryTheorems.OmittedForEver | api/src/Wallow.TelemetryGateway/GatewayControl.cs:125-146 | A credential left out of an accepted document, or disabled by it, is refused for ever, also when a later document lists it again |
| RegistryTheorems.AdmittedAcross | api/src/Wallow.TelemetryGateway/GatewayIngress.cs:39-66 | The ingress queries the credential and then the registration, and any control requests may be served in between. It never throws, and it admits for a registration if and only if the first registry's documents and rotations vouch for the presented credential and the second one's document is enabled and names the environment; it goes on with that second document |
| RegistryTheorems.AdmittedExactly | api/src/Wallow.TelemetryGateway/GatewayIngress.cs:39-66 | With nothing in between it admits if and only if that registration's stored document is enabled, names the environment and lists the presented identifier with the hash of the presented secret, and no rotation deadline for it has passed |
| RegistryTheorems.ReadsAgreeExactly | api/src/Wallow.TelemetryGateway/GatewayIngress.cs:51-66 | The two queries decide as one query at the first or at the second would, if and only if the requests in between do not both newly name the environment and take the credential out of the document, or see its deadline pass; if they do, the attempt is admitted |
| RegistryTheorems.OneRequestStraddles | api/src/Wallow.TelemetryGateway/GatewayIngress.cs:51-66 | One such request is enough: the attempt is admitted although neither registry entitles it |
| RegistryTheorems.StraddledInput | api/src/Wallow.TelemetryGateway/GatewayIngress.cs:51-66 | The failing input, from empty tables: two documents and an attempt between their commits |
| RegistryTheorems.GoodExactly | api/src/Wallow.TelemetryGateway/GatewayIngress.cs:51-57 | The first query finds a credential good for a registration if and only if that registration's document vouches for it |
| RegistryTheorems.RotationEnds | api/src/Wallow.TelemetryGateway/GatewayControl.cs:112-121 | From 24 hours after an accepted rotation the outgoing credential is refused, whatever requests follow |
| RegistryTheorems.RotationGrace | api/src/Wallow.TelemetryGateway/GatewayControl.cs:112-121 | Until then, with nothing further accepted for the registration, the ingress admits the outgoing credential |
| RegistryTheorems.StoredAsListed | api/src/Wallow.TelemetryGateway/GatewayControl.cs:127-139 | The bytes a listed credential is checked against are those of its document's verifier, although verifiers may differ in the case of their digits |
| RegistryAnswers.PutExactly | api/src/Wallow.TelemetryGateway/GatewayControl.cs:57-161 | In every reachable registry the answer to a PUT is the one given by the documents stored: bad request for an invalid document or a rotation that makes no sense within it; the first acknowledgement for the stored document; conflict for an older revision or a deleted registration; and otherwise content, with the revision, the time and the expiry of the rotated credential, if and only if each listed credential is unknown or the enabled document before lists it with the same verifier (a document that does not enable may list any of its registration's, revoked ones too), and the rotation is a recorded one or goes from a listed credential not yet rotated out to an unknown one; then exactly that document is stored, and in every other case nothing changes |
| RegistryAnswers.CommitsExactly | api/src/Wallow.TelemetryGateway/GatewayControl.cs:57-161 | The requests that change the registry are exactly those answered with content that do not repeat the stored document |
| RegistryAnswers.UpdateAccepted | api/src/Wallow.TelemetryGateway/GatewayControl.cs:125-160 | Every valid later document that keeps an enabled registration's credentials is accepted, whatever else it changes |
| RegistryAnswers.DisablingAccepted | api/src/Wallow.TelemetryGateway/GatewayControl.cs:125-160 | Every later document that disables or deletes a registration and lists what the stored one lists is accepted, revoked credentials included |
| RegistryAnswers.RotationAccepted | api/src/Wallow.TelemetryGateway/GatewayControl.cs:83-123 | A rotation from a listed credential not rotated out before to an added one is accepted, and the acknowledgement says that the outgoing one expires 24 hours later |
| RegistryAnswers.ValidExactly | api/src/Wallow.TelemetryGateway/RegistrationValidation.cs:5-24 | A document is valid if and only if its names are identities, it has one to sixteen environments, at most four credentials and at least one if enabled, as many different ones as places, and each verifier is the text of 32 bytes |
| RegistryAnswers.FromHexExactly | api/src/Wallow.TelemetryGateway/GatewayIngress.cs:54 | Decoding a text yields given bytes if and only if it spells them: two digits a byte, the high one first, in either case |
| RegistryAnswers.ToHexSpells | api/src/Wallow.TelemetryGateway/GatewayIngress.cs:54 | Decoding the printed form of any byte string returns it |
| RegistryAnswers.PresentedExactly | api/src/Wallow.TelemetryGateway/GatewayIngress.cs:39-49 | A header presents an identifier and a secret if and only if it is at most 512 characters and is "Bearer ", the identifier without a dot, a dot, and the secret |
| RegistryAnswers.AdmittedPlainly | api/src/Wallow.TelemetryGateway/GatewayIngress.cs:39-66 | An attempt that presents an identifier and a secret is admitted for a registration if and only if its document is enabled, names the environment and lists the identifier with a verifier that spells the hash of the secret, before every deadline of a rotation of it |
| RegistryAnswers.PrintedHashAdmits | api/src/Wallow.TelemetryGateway/GatewayIngress.cs:39-66 | So the bearer of a secret whose printed hash an enabled document lists is let in |
| Text.CutAtDot | api/src/Wallow.TelemetryGateway/GatewayIngress.cs:45-49 | The credential is cut at its first dot and at no other, and cannot be cut exactly when it has none |
| RegistryDb.RegistryDb.Put | api/src/Wallow.TelemetryGateway/GatewayControl.cs:57-161 | The handler, which edits rows in a working copy and writes the tables last, leaves exactly the tables and gives exactly the answer of the transition the theorems are about; a conflict found half-way changes nothing |
| RegistryDb.RegistryDb.Store | api/src/Wallow.TelemetryGateway/GatewayControl.cs:81-160 | Rotation, credentials and commit together: refused for the first reason that applies with the tables as they were, or all written |
| RegistryDb.RegistryDb.Rotate | api/src/Wallow.TelemetryGateway/GatewayControl.cs:83-123 | A rotation is refused, found already started, or started: only the outgoing credential is dated, and one row added |
| RegistryDb.RegistryDb.Enroll | api/src/Wallow.TelemetryGateway/GatewayControl.cs:125-146 | Both loops over credentials together: they report a clash exactly when there is one, and otherwise leave the credential table of the committed state |
| RegistryDb.RegistryDb.AddListed | api/src/Wallow.TelemetryGateway/GatewayControl.cs:125-140 | The loop stops exactly when some listed credential clashes with a stored row, and otherwise adds a row for each unknown identifier and changes none |
| RegistryDb.RegistryDb.Revoke | api/src/Wallow.TelemetryGateway/GatewayControl.cs:142-146 | The loop over the registration's rows leaves the credential table of the committed state |
| SourceMaps.OrAddsHighBits | api/src/Wallow.TelemetryGateway/PrivateSourceMaps.cs:90 | Or-ing a digit in above the bits already in use adds it |
| SourceMaps.VlqFitsWord | api/src/Wallow.TelemetryGateway/PrivateSourceMaps.cs:82-93 | For every text the accumulator stays below 2^32 |
| SourceMaps.ValuesInRange | api/src/Wallow.TelemetryGateway/PrivateSourceMaps.cs:78-96 | Every decoded field lies within plus or minus 2^31 - 1, so the casts cannot overflow |
| SourceMapTheorems.ReadsNumber | api/src/Wallow.TelemetryGateway/PrivateSourceMaps.cs:82-94 | Every number in that range, sign included, is read back from its printed digits, whatever text follows |
| SourceMapTheorems.DecodePrint | api/src/Wallow.TelemetryGateway/PrivateSourceMaps.cs:68-121 | Round trip: for all lines of absolute segments that fit the tables and the integer range, at most 16384 in all, decoding their delta-coded print answers every line and column with the last segment on that line at or before that column; generated columns start over on each line while source, line, column and name carry on |
| SourceMapTheorems.AnswerIsLast | api/src/Wallow.TelemetryGateway/PrivateSourceMaps.cs:116 | The answer is the position of the last segment of the line whose column is not after the requested one |
| SourceMapTheorems.SortedIsGreatestLowerBound | api/src/Wallow.TelemetryGateway/PrivateSourceMaps.cs:116 | With columns in order, that segment is the greatest lower bound of the requested column |
| SourceMapTheorems.FailureIndependent | api/src/Wallow.TelemetryGateway/PrivateSourceMaps.cs:33-33 | Whether decoding fails, and with which fault, is the same for every requested line and column, so a map accepted once can be looked up everywhere |
| SourceMapTheorems.AcceptedMapsMeanLines | api/src/Wallow.TelemetryGateway/PrivateSourceMaps.cs:68-121 | Soundness for every accepted text, canonical or not: there are lines of segments, all within the tables and limits and one line for each part of the text, in which decoding at any position is a lookup |
| SourceMapTheorems.CanonicalForm | api/src/Wallow.TelemetryGateway/PrivateSourceMaps.cs:68-121 | Printing what an accepted map means gives a map that answers every question alike |
| SourceMapFormat.DigitExactly | api/src/Wallow.TelemetryGateway/PrivateSourceMaps.cs:10-10 | A character is read as its position in the alphabet of 64 characters, given in full, and no other character is a digit |
| SourceMapFormat.QuantityExactly | api/src/Wallow.TelemetryGateway/PrivateSourceMaps.cs:82-93 | A quantity is read if and only if the text begins with one to seven digits of which all but the last say that more follow, the seventh being at most 3; and it is the sum of their low five bits, each weighing 32 times the one before |
| SourceMapFormat.SignIsLowestBit | api/src/Wallow.TelemetryGateway/PrivateSourceMaps.cs:94 | The lowest bit of a quantity is the sign of the number in the others |
| SourceMapFormat.ForeignIsRefused | api/src/Wallow.TelemetryGateway/PrivateSourceMaps.cs:72-93 | A map with any character outside the alphabet, the comma and the semicolon is refused, at every position |
| SourceMapFormat.ExampleMap | api/src/Wallow.TelemetryGateway/PrivateSourceMaps.cs:68-121 | One map in full, every field different: its text, and what it answers at five positions |
| SourceMapStore.DecodeValue | api/src/Wallow.TelemetryGateway/PrivateSourceMaps.cs:82-94 | The digit loop over 32-bit shifts and ors reads exactly the quantity the arithmetic definition gives, consumes the same text and fails on the same texts |
| SourceMapStore.DecodeValues | api/src/Wallow.TelemetryGateway/PrivateSourceMaps.cs:78-96 | The loop over one segment yields exactly its numbers, or its fault |
| SourceMapStore.DecodeMap | api/src/Wallow.TelemetryGateway/PrivateSourceMaps.cs:68-121 | The nested loops over running variables compute the decoding the theorems are about, faults and checked overflows included |
| SourceMapStore.DecodeFromTables | api/src/Wallow.TelemetryGateway/PrivateSourceMaps.cs:101-115 | Whatever a lookup returns is a source of the map's table, with a name of its table or none, and a line and column counted from one |
| SourceMapStore.SafeName | api/src/Wallow.TelemetryGateway/PrivateSourceMaps.cs:65 | The result is always a label, and a label is left alone |
| SourceMapStore.BasenameExactly | api/src/Wallow.TelemetryGateway/PrivateSourceMaps.cs:66 | Of every path the last segment, before a query or fragment and after a slash of either kind, is kept if it is a label, and "unknown" otherwise |
| SourceMapStore.Basename | api/src/Wallow.TelemetryGateway/PrivateSourceMaps.cs:66 | The result is a label for every path |
| SourceMapStore.TotalReplace | api/src/Wallow.TelemetryGateway/PrivateSourceMaps.cs:36-38 | Replacing a file changes the store's size by the difference of the two |
| SourceMapStore.PrintedIsAcceptable | api/src/Wallow.TelemetryGateway/PrivateSourceMaps.cs:18-38 | Every map of labels printed from segments within its tables, up to the limits, can be uploaded and is kept as it is |
| SourceMapStore.RefusedUploads | api/src/Wallow.TelemetryGateway/PrivateSourceMaps.cs:21-33 | An upload is refused for an unknown registration, a bad label, another version, sections, too many entries, or mappings that do not decode |
| SourceMapStore.FitsExactly | api/src/Wallow.TelemetryGateway/PrivateSourceMaps.cs:36-38 | A file fits if and only if it is at most 64 KiB and, with all files under other keys, at most 128 MiB |
| SourceMapStore.Store.Upload | api/src/Wallow.TelemetryGateway/PrivateSourceMaps.cs:18-48 | The store stays within its budget, every stored map decodes, and the contents change at the given key only: stored exactly when the document is acceptable and fits, with the bytes it replaces given back; refused or turned away without any change otherwise |
| SourceMapStore.Store.Lookup | api/src/Wallow.TelemetryGateway/PrivateSourceMaps.cs:49-58 | Refused exactly for a bad label or a coordinate outside 1 to 1000000; otherwise what decoding the stored map gives, without ever failing, in labels only |
| SourceMapStore.Store.Size | api/src/Wallow.TelemetryGateway/PrivateSourceMaps.cs:37 | The loop over the files sums their lengths |
| OtlpBatch.SplitConserves | api/src/Wallow.ServiceDefaults/IndependentTelemetry.cs:161-182 | Batch and remainder together are the queue, as multisets |
| OtlpBatch.SplitConservesCharges | api/src/Wallow.ServiceDefaults/IndependentTelemetry.cs:161-193 | So are the bytes they are charged |
| OtlpBatch.TakenIsMaximal | api/src/Wallow.ServiceDefaults/IndependentTelemetry.cs:170-181 | A batch has one signal and is within 1 MiB, and no record of that signal left behind would still fit |
| OtlpBatch.IndexAfterIsRight | api/src/Wallow.ServiceDefaults/IndependentTelemetry.cs:170-181 | What stays behind keeps its order |
| OtlpBatch.HeadLeaves | api/src/Wallow.ServiceDefaults/IndependentTelemetry.cs:163-192 | Of a queue whose records were admitted, the batch begins with the head: it is never empty, and the branch for an empty batch is never taken |
| OtlpBatch.LeavesInTime | api/src/Wallow.ServiceDefaults/IndependentTelemetry.cs:159-182 | The record at index i has left after i + 1 iterations, whatever is enqueued in between |
| OtlpBatch.ComputeLength | api/src/Wallow.ServiceDefaults/OtlpBatchContent.cs:23-27 | The announced length is the number of bytes written, none and one record included |
| OtlpBatch.Serialize | api/src/Wallow.ServiceDefaults/OtlpBatchContent.cs:31-43 | The loop writes prefix, records with separators between them, and suffix |
| OtlpBatch.BatchFitsRequest | api/src/Wallow.ServiceDefaults/IndependentTelemetry.cs:162-196 | What a batch writes is never longer than 1 MiB |
| OtlpBatch.WireExactly | api/src/Wallow.ServiceDefaults/OtlpBatchContent.cs:15-43 | The bytes of one and of two records for each signal, in full |
| IndependentTelemetry.NextPreservesValid | api/src/Wallow.ServiceDefaults/IndependentTelemetry.cs:135-281 | Every lock region, in any order, keeps: the byte counter is the charges of the queue and of the batch in flight and at most 8 MiB; every record ever offered is, as a multiset, in exactly one of exported, dropped, queued, in flight or escaped; the exported counter is the number of records exported, and the dropped counter the number of records dropped plus the failures reported; the batch in flight is non-empty, of one signal, and fits a request |
| IndependentTelemetry.RunPreservesValid | api/src/Wallow.ServiceDefaults/IndependentTelemetry.cs:135-281 | Hence that holds after every interleaving of enqueues, failures, flushes, expiry and stops; both ways of releasing bytes agree with it |
| IndependentTelemetry.AccountedExactly | api/src/Wallow.ServiceDefaults/IndependentTelemetry.cs:194-226 | From a valid state with nothing escaped, the counters plus the queue and the batch in flight equal the records offered plus the failures reported after a run if and only if no exception other than the two handled ones met a batch in flight |
| IndependentTelemetry.AnswersExactly | api/src/Wallow.ServiceDefaults/IndependentTelemetry.cs:199-219 | Records are exported by a success status and by nothing else: the whole batch, nothing dropped and no failure; any other status or a handled exception drops the whole batch and is one failed request, and nothing else is |
| IndependentTelemetry.CountsExactly | api/src/Wallow.ServiceDefaults/IndependentTelemetry.cs:199-219 | Over every run the exported counter is the records in batches answered with success, and the failed counter the number of failing answers |
| IndependentTelemetry.OfferedExactly | api/src/Wallow.ServiceDefaults/IndependentTelemetry.cs:135-148 | A record is queued behind all others if and only if stopping has not begun, it is at most 1 MiB with 65 bytes of framing, and what is queued and in flight leaves room for it within 8 MiB; otherwise it is dropped |
| IndependentTelemetry.TakenExactly | api/src/Wallow.ServiceDefaults/IndependentTelemetry.cs:163-182 | The flusher that holds the semaphore puts in flight a batch that begins with the head, and leaves the rest |
| IndependentTelemetry.EndsExactly | api/src/Wallow.ServiceDefaults/IndependentTelemetry.cs:232-280 | Expiry and the end of a stop drop everything queued; a flush in time and the beginning of a stop drop nothing |
| IndependentTelemetry.EscapesUncounted | api/src/Wallow.ServiceDefaults/IndependentTelemetry.cs:212-226 | The failing input: any record that is admitted, sent, and met by such an exception is offered and counted nowhere |
| IndependentTelemetry.StoppedQueueOnlyShrinks | api/src/Wallow.ServiceDefaults/IndependentTelemetry.cs:140-143 | After a stop has begun the queue never grows, and once empty stays empty |
| IndependentTelemetry.StopSettlesAll | api/src/Wallow.ServiceDefaults/IndependentTelemetry.cs:261-281 | Whatever happened before a stop and after it, once the last flusher is out no byte is held, every record ever offered is exported, dropped or escaped, and the counters are those numbers |
| TelemetryExporter.TelemetryExporter.TakeBatch | api/src/Wallow.ServiceDefaults/IndependentTelemetry.cs:161-182 | Rotating the queue once in place yields exactly the batch and leaves exactly the remainder, in order |
| TelemetryExporter.TelemetryExporter.Enqueue | api/src/Wallow.ServiceDefaults/IndependentTelemetry.cs:135-148 | The method is the enqueuing step, which keeps the invariant: it drops when stopping, too large or over budget, and otherwise appends and charges |
| TelemetryExporter.TelemetryExporter.CountAnswer | api/src/Wallow.ServiceDefaults/IndependentTelemetry.cs:199-210 | The method is the answering step for any status: records move from the batch in flight to exactly one of exported and dropped, and the invariant is kept |
| TelemetryExporter.TelemetryExporter.ReleaseBytes | api/src/Wallow.ServiceDefaults/IndependentTelemetry.cs:193-226 | The sum over the batch that is subtracted is what the batch was charged |
| TelemetryExporter.TelemetryExporter.FinishFlush | api/src/Wallow.ServiceDefaults/IndependentTelemetry.cs:230-245 | The method is the releasing step, which empties the queue when the time is up |
| TelemetryExporter.TelemetryExporter.FinishStopping | api/src/Wallow.ServiceDefaults/IndependentTelemetry.cs:272-280 | The sum that is subtracted is what the cleared queue was charged, leaving the charge of a batch still in flight |
| BrowserQueue.NextPreservesValid | packages/telemetry/src/browser-queue.ts:39-177 | Every stretch of code between two awaits keeps: the byte counter is the queue and the one batch in flight, at most 262144; every accepted record is, as a multiset, in exactly one of exported, dropped, queued or awaiting an answer; the counters are the numbers of those exported, and of those dropped, those refused and those counted again, which were exported or dropped before and are counted again once at most; the queue and the context belong to the current generation and a batch in flight to that or an earlier one; every exported record was answered in its own generation; every request ever posted is within the limits and carries records and a context of one generation |
| BrowserQueue.RunPreservesValid | packages/telemetry/src/browser-queue.ts:39-177 | Hence that holds at every await of every interleaving of enqueues, flushes, expiry and overlapping resets |
| BrowserQueue.FittingFits | packages/telemetry/src/browser-queue.ts:106-130 | The records taken for one request fit it together, and the next one would not |
| BrowserQueue.ProceedTakesMaximalFront | packages/telemetry/src/browser-queue.ts:98-134 | Each turn of the loop posts a non-empty, maximal front of the queue under the context then held |
| BrowserQueue.LateAnswerDrops | packages/telemetry/src/browser-queue.ts:95-168 | From any valid state with a batch in flight, after every run that contains a reset and no answer to that batch, with any number of other resets and flushes, every answer or failure leaves the exported count alone and drops exactly that batch, changing neither queue nor context |
| BrowserQueue.ExportsAreCurrent | packages/telemetry/src/browser-queue.ts:147-158 | Only an accepting answer to a batch of the current generation raises the exported count, by that batch |
| BrowserQueue.ChangedForgets | packages/telemetry/src/browser-queue.ts:149-152 | After status 409 there is no context, nothing is queued, and the batch and everything queued are dropped |
| BrowserQueue.ChangedSilences | packages/telemetry/src/browser-queue.ts:45-71 | From then on, in every run, nothing is posted, queued or held as context until a reset begun later is answered with one |
| BrowserQueue.ChangedResets | packages/telemetry/src/browser-queue.ts:169-176 | And the drain begins such a reset when it resumes, if no reset and no expiry came before, whatever else did |
| BrowserQueue.AnswersExactly | packages/telemetry/src/browser-queue.ts:147-164 | An accepting answer exports exactly the batch; any other status and a failed request drop it and are one failed request |
| BrowserQueue.CountsExactly | packages/telemetry/src/browser-queue.ts:45-168 | Over every run the exported counter is the records in batches accepted in their own generation, and the failed counter the failed context requests, refused or unanswered batches, and rejected cancellations |
| BrowserQueue.EnqueuedExactly | packages/telemetry/src/browser-queue.ts:72-94 | A record is queued if and only if there is a context, something is left of it, it is at most 8192 bytes, and what is queued and in flight leaves room for it within 262144; the dropped counter says what was not |
| BrowserQueue.ContextExactly | packages/telemetry/src/browser-queue.ts:59-70 | A context is taken if and only if the latest reset is answered well, with a text of at most 256 characters |
| BrowserQueue.MergedExactly | packages/telemetry/src/browser-queue.ts:102-130 | A request carries every record of every kind of its batch, in order |
| BrowserQueue.WithinExactly | packages/telemetry/src/browser-queue.ts:113-122 | A request fits if and only if it has at most 256 records of each kind and 49152 bytes |
| BrowserQueue.FlushExactly | packages/telemetry/src/browser-queue.ts:95-134 | A flush begins a reset without a context, posts a front of the queue if the head fits alone, and otherwise drops everything |
| BrowserQueue.ResumedExactly | packages/telemetry/src/browser-queue.ts:169-176 | A drain whose time is up drops what is queued; one that a reset has overtaken leaves it alone |
| BrowserQueue.ResetsSeparate | packages/telemetry/src/browser-queue.ts:45-71 | A reset leaves nothing queued and no context, and the answer to an earlier reset never sets a context, whatever happens in between |
| BrowserQueue.CountedOnceExactly | packages/telemetry/src/browser-queue.ts:159-167 | From a valid state with nothing counted twice, the counters plus the queue and the batch in flight equal the records accepted and refused after a run if and only if every cancellation of a response body resolved |
| BrowserQueue.BalancedUnlessRecounted | packages/telemetry/src/browser-queue.ts:159-167 | Otherwise they exceed it by exactly the records counted again |
| BrowserQueue.RejectedCancelCountsTwice | packages/telemetry/src/browser-queue.ts:159-167 | The failing input: one record, exported, whose response body cannot be cancelled, ends with one exported and one dropped |
| BrowserQueueObject.BrowserQueueObject.ClearQueue | packages/telemetry/src/browser-queue.ts:39-44 | The loop subtracts exactly the bytes of what it drops |
| BrowserQueueObject.BrowserQueueObject.EnqueueBatch | packages/telemetry/src/browser-queue.ts:72-94 | The method is the enqueuing step |
| BrowserQueueObject.BrowserQueueObject.BeginReset | packages/telemetry/src/browser-queue.ts:45-51 | The method is the synchronous front of a reset |
| BrowserQueueObject.BrowserQueueObject.EndReset | packages/telemetry/src/browser-queue.ts:52-70 | The method is the arrival of a context, used only if no other reset came after |
| BrowserQueueObject.BrowserQueueObject.Assemble | packages/telemetry/src/browser-queue.ts:106-130 | The loop takes exactly the maximal front of the queue that fits and leaves the rest |
| BrowserQueueObject.BrowserQueueObject.Resume | packages/telemetry/src/browser-queue.ts:98-176 | From any await of the drain to its next: the method is the atomic step |
| BrowserQueueObject.BrowserQueueObject.TakeAnswer | packages/telemetry/src/browser-queue.ts:147-158 | The method is the answering step |
| BrowserQueueObject.BrowserQueueObject.TakeFailure | packages/telemetry/src/browser-queue.ts:162-167 | The method is the step of a failed request |
| BrowserQueueObject.BrowserQueueObject.TakeCancellation | packages/telemetry/src/browser-queue.ts:159-167 | The method is the step after the cancellation, whose rejection the same handler counts |
| RateLimit.AlwaysBounded | packages/logger/src/rate-limit.ts:74-97 | On every trace, with times in any order, no more keys are tracked than allowed and no count exceeds the limit, read as at least one since options are not validated |
| RateLimit.WindowExactly | packages/logger/src/rate-limit.ts:78-95 | What the unbounded limiter is: a window opens with the first request that finds none, lasts exactly as long as the options say, allows the first request and then as many as the limit in all, and no more; the next request after it is allowed again |
| RateLimit.KeysAreApart | packages/logger/src/rate-limit.ts:78-95 | And it answers a key's requests as if there were no others |
| RateLimit.MakeRoomFacts | packages/logger/src/rate-limit.ts:52-66 | Making room keeps only running windows, unchanged, leaves space for one more key, and evicts no running window when fewer are running than may be tracked |
| RateLimit.RefinesIdeal | packages/logger/src/rate-limit.ts:74-97 | On every trace in time order that opens a window only when fewer than the maximum are running, every answer is that of the unbounded per-key limiter, so the sweep cannot be observed |
| RateLimit.RoomyExactly | packages/logger/src/rate-limit.ts:52-66 | That condition, which speaks of the trace and the options only, holds if and only if the running windows of both limiters are the same after every request, for all options |
| RateLimit.RoomyIsObservable | packages/logger/src/rate-limit.ts:52-97 | And, from an empty map, if and only if at no point of the trace any number of requests of any one key would be answered differently by the two |
| RateLimit.UnevictedAnswersAlike | packages/logger/src/rate-limit.ts:78-95 | A key never evicted while its window is running gets exactly the answers of the unbounded limiter, whatever happens to other keys |
| RateLimit.UnevictedExactly | packages/logger/src/rate-limit.ts:59-95 | And only such a key: it is never so evicted if and only if at no point of the trace any number of its requests would be answered differently |
| RateLimit.EvictionAllowsMore | packages/logger/src/rate-limit.ts:59-65 | Where the condition fails: a trace on which eviction allows what the unbounded limiter denies |
| RateLimit.EvictionAllowsLess | packages/logger/src/rate-limit.ts:59-65 | And one on which it denies what the unbounded limiter allows, since the evicted key's window starts later |
| RateLimit.TwiceTheLimit | packages/logger/src/rate-limit.ts:78-95 | On every trace in time order, a key not evicted while its window is running is accepted at most twice the limit less one times within any interval of one window's length |
| RateLimiter.RateLimiter.Allow | packages/logger/src/rate-limit.ts:78-95 | The method changes the map and answers as the transition the theorems are about |
| RateLimiter.RateLimiter.MakeRoom | packages/logger/src/rate-limit.ts:52-66 | Both loops together leave the map that transition defines, insertion order included |
| RateLimiter.RateLimiter.Sweep | packages/logger/src/rate-limit.ts:53-57 | Deleting during iteration leaves exactly the running windows, in insertion order |
| Relay.RunPreservesValid | packages/telemetry/src/relay.ts:130-268 | At every point of every interleaving the concurrency counter is the number of unfinished handlers, at most 16, the bucket is between empty and full, and every request is rejected, answered or unfinished |
| Relay.TokensPay | packages/telemetry/src/relay.ts:143-150 | From any state, what the bucket holds and what it gains until the end pays for every admission |
| Relay.TokenBucket | packages/telemetry/src/relay.ts:143-150 | On every trace in time order at most 20 + (t - s)/100 requests are admitted at times in [s, t] (milliseconds) |
| Relay.RefusedOnlyAtTheBound | packages/telemetry/src/relay.ts:143-150 | Conversely, a request that passes the checks, with fewer than 16 unfinished, is refused only if admitting it would exceed that bound: since some moment s more than 20 + (t - s)/100 would have been admitted |
| Relay.BucketAccounts | packages/telemetry/src/relay.ts:143-150 | What the bucket holds is what it gained since it was last full, less what the requests admitted since then have cost |
| Relay.ArrivalsExactly | packages/telemetry/src/relay.ts:143-150 | A request not admitted is counted as rejected and takes no place; one admitted takes one and changes no counter |
| Relay.OutcomesExactly | packages/telemetry/src/relay.ts:237-267 | Each way a handler ends changes the four counters in just its way |
| Relay.RejectionsLeaveNoMark | packages/telemetry/src/relay.ts:132-148 | Leaving all rejected requests out of a trace changes no later decision, although they refill the bucket |
| Relay.RelayObject.Begin | packages/telemetry/src/relay.ts:130-150 | A handler up to its first await is the arrival step, and tells whether it was admitted |
| Relay.RelayObject.End | packages/telemetry/src/relay.ts:251-267 | A handler's end is the finishing step, its place freed on every path |
| DependencyOrder.Order | scripts/ci/publication_packages.py:110-132 | Refused as duplicate exactly when a name repeats, as cyclic exactly when names are distinct and some candidate depends on itself through candidates; otherwise a permutation of the candidates in which every dependency or peer that is a candidate comes before its dependent |
| DependencyOrder.Walk.Visit | scripts/ci/publication_packages.py:117-128 | The recursive visit terminates and fails only with a cycle among the names being visited; otherwise the name and all it depends on are ordered, and what was ordered before stays |
| DependencyOrder.TopologicalIsAcyclic | scripts/ci/publication_packages.py:117-132 | An order that puts dependencies first rules out a cycle of any length |
| DependencyOrder.SortedNames | scripts/ci/publication_packages.py:123 | Ascending, with exactly the given names |
| DependencyOrder.BeforeExactly | scripts/ci/publication_packages.py:123 | A name is before another if and only if its first differing character is smaller, or it ends first |
| DependencyOrder.ByNameSize | scripts/ci/publication_packages.py:112-114 | The dictionary by name is smaller than the list exactly when a name repeats |
| Logger.PiecesAreTheBatch | packages/logger/src/index.ts:217-262 | Splitting terminates, and the pieces in order, oversized ones included, concatenate to the batch |
| Logger.PiecesFit | packages/logger/src/index.ts:227-256 | Every body is within the cap, and only a single event beyond it is dropped |
| Logger.SentIsPrefix | packages/logger/src/index.ts:232-280 | What is posted is the bodies of all pieces, or of the pieces up to the one whose request failed |
| Logger.OnlyTheLastFails | packages/logger/src/index.ts:240-262 | Every request made was answered well except the last one of a flush that fails |
| Logger.SettledIsPrefix | packages/logger/src/index.ts:217-280 | The events settled by a flush are a prefix of its batch |
| Logger.RunPreservesValid | packages/logger/src/index.ts:181-342 | However records, flushes, beacons, splits and failures interleave: every event there ever was is in exactly one place, the counts carried by all drop events ever made plus the count still to report equal the events shifted out or dropped as oversized, and the buffer is within its ceiling |
| Logger.RunInOrder | packages/logger/src/index.ts:217-280 | Over every interleaving, each flush has posted exactly the bodies of the first pieces of the batch it drained, in their order, and has exactly the other pieces still to send unless its last request failed; its batch never changes |
| Logger.FinishedPostsAll | packages/logger/src/index.ts:217-262 | A flush that ends without a failure has posted the bodies of all pieces of its batch |
| Logger.EndedAsSent | packages/logger/src/index.ts:217-280 | However it was interleaved, a flush that is over has posted exactly what one without interruption would have whose requests end alike, and has failed if and only if that one would |
| Logger.OversizedExactly | packages/logger/src/index.ts:227-256 | Of the events a flush settles, exactly those not posted are counted as oversized |
| Logger.NewestKept | packages/logger/src/index.ts:325-337 | A record joins the end of the buffer, and the oldest events beyond the ceiling leave it and are counted |
| Logger.FlushExactly | packages/logger/src/index.ts:181-200 | A flush takes everything buffered, behind a report if anything was dropped, if and only if there is something and no backoff is running |
| Logger.FullFlushes | packages/logger/src/index.ts:339-341 | A record that fills the buffer to the threshold flushes it at once, unless a backoff is running |
| Logger.BackoffExactly | packages/logger/src/index.ts:211-214 | A request that fails starts the backoff, and nothing else does |
| Logger.SilentInBackoff | packages/logger/src/index.ts:265-307 | While it runs, whatever happens, no flush and no beacon takes anything |
| Logger.LoggerCore.RecordEvent | packages/logger/src/index.ts:310-342 | The shift loop leaves the newest events within the ceiling and counts the others |
| Logger.LoggerCore.DrainBuffer | packages/logger/src/index.ts:181-200 | What was dropped is reported ahead of the buffer, and both are emptied |
| Logger.LoggerCore.PostBatch | packages/logger/src/index.ts:217-243 | The mutual recursion makes exactly the requests the pieces of the batch call for, in order, up to a failure, and counts exactly the oversized events it came to |
| Logger.LoggerCore.PostSplit | packages/logger/src/index.ts:252-262 | The same for a batch beyond the cap |
| Logger.LoggerCore.FlushCore | packages/logger/src/index.ts:265-280 | Nothing happens in backoff or with nothing to say; otherwise everything buffered is sent or given up, and backoff starts exactly when a request fails |
| Aliases.StableTextsAreCanonical | scripts/ci/publication_aliases.py:7-19 | A text parses to a version if and only if it is that version's printed form |
| Aliases.PrintedIsStable | scripts/ci/publication_aliases.py:10-19 | Every printed version of at most 128 characters is read as that stable version |
| Aliases.ExampleAliases | scripts/ci/publication_aliases.py:22-31 | The version and the aliases of one release in full, for images and packages, of a prerelease and of one with build metadata |
| Aliases.NewerExactly | scripts/ci/publication_releases.py:57 | A version is newer if and only if it is greater in the first component in which the two differ; of two that differ one is |
| Aliases.GrantedExactly | scripts/ci/publication_releases.py:53-57 | A stable release is granted an alias exactly when it bears it and no release of its component in the history that bears it is newer; a prerelease is granted none |
| Aliases.OneOwner | scripts/ci/publication_releases.py:53-57 | Two releases of a component in one history that are granted the same alias have the same version |
| Aliases.AliasesNeverFall | scripts/ci/publication_publish_images.py:134-138 | Over any sequence of serialised publications with a growing history, however each ends, no alias moves to an older version |
| Aliases.PublishedExactly | scripts/ci/publication_publish_images.py:134-138 | Publishing one release without an exception moves exactly the aliases it is granted, and to its version |
| Aliases.AdvanceNeverLowers | scripts/ci/publication_publish_packages.py:39-45 | However advancing ends, no stable tag is lowered; if it succeeds every granted alias names this release or a newer one |
| Aliases.PackageTagsNeverFall | scripts/ci/publication_publish_packages.py:39-45 | Over any sequence of package publications, with any histories, no stable tag is ever lowered |
| Aliases.PackageTags.Publish | scripts/ci/publication_publish_packages.py:39-45 | The loop changes the tags, and ends, as the transition those theorems are about |
| Base32.Decode | apps/wallow-auth/e2e/totp.ts:29-52 | For every text, and every way of upper-casing the characters outside ASCII, the loop over a wrapping, sign-extending 32-bit buffer yields the bytes of the concatenated five-bit values, or the first character outside the alphabet |
| Base32.DecodeEncode | apps/wallow-auth/e2e/totp.ts:29-52 | Round trip: decoding any text whose upper case is the encoding of a byte string, padded or not, returns that byte string |
| Base32.ValueExactly | apps/wallow-auth/e2e/totp.ts:23 | A character's value is its position in the alphabet of 32 characters, given in full, and no other character has one |
| Base32.ExampleDecoded | apps/wallow-auth/e2e/totp.ts:29-52 | Two bytes in full, as RFC 4648 prints them |
| Base32.EncodingIsUpper | apps/wallow-auth/e2e/totp.ts:30 | The encoding is its own upper case, so it is such a text |
| Base32.PushFive | apps/wallow-auth/e2e/totp.ts:42 | A wrapping shift by five and an or keep the live bits and append the new ones, whatever junk is above them |
| Base32.CutByte | apps/wallow-auth/e2e/totp.ts:47 | A byte cut with a sign-extending shift consists of live bits only |
| Base32.TakeByte | apps/wallow-auth/e2e/totp.ts:45-48 | It is the next eight bits of the text, and the others stay live |
| Base32.RefusedExactly | apps/wallow-auth/e2e/totp.ts:35-40 | A text is refused if and only if its upper case, without trailing padding, has a character outside the alphabet, and then for the first such character |
| Propagation.Chain | packages/telemetry/src/propagation.ts:12-72 | However servers answer there is at least one fetch, and at most one more than the redirects allowed |
| Propagation.AtMostTwentyOne | packages/telemetry/src/propagation.ts:3-18 | With the default number of redirects there are at most 21 fetches, and exactly 21 and then a refusal when every answer is a redirect and there is no body to send again |
| Propagation.HopsFollowReplies | packages/telemetry/src/propagation.ts:27-71 | Every hop but the last was redirected to where the next one goes, and a chain that returns does so with the last hop's answer, for one of the three reasons to stop |
| Propagation.TraceContextPerHop | packages/telemetry/src/propagation.ts:20-25 | On every hop: trace context if and only if it was supplied and the hop's origin is owned, and never baggage or trace state |
| Propagation.CredentialsStayHome | packages/telemetry/src/propagation.ts:40-45 | A hop carries a credential header if and only if the first request did and every hop so far shares one origin, and then unchanged |
| Propagation.BodiesEndWithTheSwitch | packages/telemetry/src/propagation.ts:46-70 | After a switch to GET every later hop is a GET without a body; before any, every later hop keeps the method and carries the body to replay |
| Propagation.GoesOnExactly | packages/telemetry/src/propagation.ts:27-70 | A chain goes on if and only if the answer is one of the five redirects, to a URL, redirects are followed and some are left, and the method changes to GET, or there is no body, or one that can be sent again |
| Propagation.OthersTravel | packages/telemetry/src/propagation.ts:40-52 | Every header that is no credential, no trace context and not about the body is on every hop as on the first |
| Propagation.LengthTravels | packages/telemetry/src/propagation.ts:49-52 | The length of a body is announced on exactly the hops before a switch to GET |
| Propagation.FetchWithContext | packages/telemetry/src/propagation.ts:12-72 | The recursion that edits each request's headers in place sends exactly the chain the theorems are about and ends as it does |
| Propagation.EditHeaders | packages/telemetry/src/propagation.ts:20-25 | Deleting and setting in place leaves the headers of a prepared request and nothing else changed |
| Propagation.CopyHeaders | packages/telemetry/src/propagation.ts:40-52 | The copied headers less the credentials across origins and the content headers after a switch |

## Left out

- Gateway hosting: Kestrel, Entity Framework and SQLite, cancellation of a request in progress, the check of the management secret and the refusal of encoded control bodies (`GatewayControl.cs:31-45`).
- JSON text: a document stands for its serialization, which is injective on valid registrations; malformed JSON, absent properties and null elements are not represented, except that an upload may be no valid map document at all.
- Hashes: SHA-256 is a function parameter in the registry, and the file a source map is stored in is identified with the key that is hashed; constant-time comparison is comparison.
- Characters: a text is a sequence of code points, so lengths the code takes in UTF-16 units differ for text outside the basic plane; this matters only for the 512-character header and the 256-character context.
- Records of equal content: the ledgers are multisets, so two records with the same signal and bytes (or payload, size and generation) are not told apart.
- Tracked entities: `RegistryDb` works on a copy of the rows as values, so aliasing between the tracked list and the table is not modelled; its `Put` is divided into methods for parts the handler has inline, as are the other classes where one source function holds several loops.
- Ingress after authorisation (`GatewayIngress.cs:68` onwards): media types, leases, body limits, rewriting of Faro payloads and forwarding; `IngestionLimits.cs`, whose meaning is the .NET library's.
- Source-map files: writing to a temporary file and moving it, and the sizes of files that other writers leave in the directory; concurrent uploads.
- Capturing telemetry in the API: building logs, spans and metrics, sanitizing them, and the periodic timer; records are their signal and bytes.
- Time budgets: a timeout or an abort is a step that may occur at any point, so the theorems hold for every timing but do not say how long anything takes.
- `packages/telemetry/src/exporter.ts`, an easier twin of the exporter modelled here.
- Faro sanitizing and the privacy expressions: what the sanitizer leaves of a payload, and how long a payload and a context are on the wire, are parameters.
- Relay: sessions, cookies, their signatures, the reading of bodies and the forwarding, beyond the way a handler ends; floating-point rounding of the token count, and clocks that run backwards.
- RateLimit.RefinesIdeal: requires room for the running windows, because exactly then the limiters are the same (RateLimit.RoomyExactly).
- RateLimit.TwiceTheLimit: concerns keys that are not evicted while their window is running, because eviction starts a new allowance.
- Logger: what events contain, the level filter, redaction, the CSRF token, listeners and the timer; a negative ceiling on buffered events, for which the code does not terminate.
- Logger.LoggerCore.FlushCore: runs one flush without interruption; any interleaving is the subject of Logger.Run, Logger.RunInOrder and Logger.EndedAsSent, by which a flush posts the same either way.
- DependencyOrder: Python's recursion limit, and the validation of package contents around the ordering.
- Publication transport: registries and GitHub appear as outcomes (written and confirmed, written and not confirmed, refused), the listing of releases as the history; the nightly alias follows the main branch and not versions.
- Aliases.AliasesNeverFall: requires histories that grow and publications that do not overlap, which the image path relies on; the package path does without (Aliases.PackageTagsNeverFall).
- Base32: how the platform upper-cases characters outside ASCII is a parameter; the HMAC, the counter and the six digits cut from it (`totp.ts:59-73`) are arithmetic that can be read from the code.
- Propagation: parsing and resolving of URLs, the header guards of request objects, abort signals, streaming, and which redirects the platform itself would refuse.
