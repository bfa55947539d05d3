# Verified models of the registry's stateful libraries

This project models the parts of the registry that carry state or branch over unbounded
data, and proves what they promise over every input, every run and every interleaving:

- **Key rotation** (`Aes`, `Hex`, `RekeyModel`, `RekeySweep`, `RekeyTheorems`, `RowLocks`,
  `RekeyCli`): the encryption envelope with its two layouts, the sweep that re-encrypts a
  database table by table in three modes, the row locks under it and the command around it.
  The cipher is a parameter constrained by `Aes.Lawful`; any database call may fail, a commit
  may succeed although its acknowledgement is lost, the random source may dry up, and rows
  are visited in any order.
- **Message delivery** (`Consumer`, `ConsumerRuns`, `Deliveries`, `Publisher`): the retry counter
  of the consumer with the broker around it, the fate of every message told from the history
  of its deliveries alone, and the publish-and-confirm protocol under a mutex.
- **Caches** (`CertCache`, `GrpcCache`): certificate hot reload against a disk that changes
  between any two system calls, and response caching against concurrent requests, expiry,
  eviction and corruption.
- **Scanner adapters** (`Layers`, `Dedupe`, `Findings`, `Clair`): flattening image layers, and
  translating three scanners' reports to findings.
- **Codecs and validators** (`Decimal`, `Base64`, `Phc`, `Trim`, `Glob`, `Utf8`, `GlobText`): the
  stored-password string, the syntax scan and the matcher for subject globs, and what the
  matcher's bytes have to do with the characters its documentation speaks of.

`dafny verify dfyconfig.toml` checks everything. `Prelude` and `Sums` hold shared types and
sums over maps.

How to read the models: what the source does in place is a class or a method with loops,
proved against a function or relation on values; the theorems are about those. A protocol
is a step system (`Enabled`, `Next`, `Run`), and theorems about it hold for every run. Where
the source calls code that is not modelled, its answers are parameters (an oracle, a
timeline, a function), so nothing is assumed about them beyond the named predicates.

Where the code and its comments differ, the model follows the code:

- A NULL in a hex-text column of a candidate row cannot be scanned into a string, so it fails
  the table (`sweep.go:178-186`); the comment at line 197 counts it among the skipped.
- `NextVersion` looks at every table that exists, optional ones included; its comment says
  non-optional tables only.
- The retry bound does not hold for a message without any id: each redelivery has a new tag
  and so a new counter (`ConsumerRuns.UnidentifiedIsUnbounded`); the comments at
  `consumer.go:66-68` and `240-243` say such a message fails safe.
- After a drain of the publisher times out, later calls do not see a sticky error: they read
  each other's confirmations, off by the number of timed-out drains
  (`Publisher.LostDrainIsNeverRepaired`, `Publisher.NilForRefusedMessage`).
- A Grype layer entry whose name climbs above its start is refused or lands nearer to the
  root than the image has it, so a flattened tree can miss a file of the image
  (`Layers.ClimbingFileIsMisplaced`, `Layers.GrypeAlwaysCoversExactly`); Trivy cleans such names.
- A question mark in a glob stands for one byte, not for one character
  (`GlobText.QuestionTakesOneCharacterExactlyWhenAscii`).
- The browser's and the service's glob scans are meant to agree; they differ on two white
  space characters (`Glob.ChecksDisagreeExactly`).

## Model

| member | source | states |
|---|---|---|
| `Aes.EncryptIntoBuffer` | libs/crypto/aes/aes.go:58-81 | filling the buffer byte by byte and sealing into it yields the v1 layout: version, nonce, sealed text; a bad key or a failing random source yields an error |
| `Aes.StoredFormat` | libs/crypto/aes/aes.go:58-81 | a blob is the byte 1, twelve bytes of nonce and the sealed text with a tag of sixteen; exactly keys of thirty-two bytes encrypt, when the random source yields |
| `Aes.FormatsRead` | libs/crypto/aes/aes.go:90-134 | which bytes are opened behind which nonce, for every blob and key: from twenty-nine bytes beginning with 1 behind the nonce at 1, failing that from twelve bytes behind the nonce at 0 |
| `Aes.DecryptInvertsEncrypt` | libs/crypto/aes/aes.go:58-134 | decryption undoes encryption for every plaintext, key and nonce |
| `Aes.LegacyDecryptsUnlessV1Authenticates` | libs/crypto/aes/aes.go:90-134 | a legacy blob decrypts to its plaintext exactly when the v1 reading of the same bytes does not authenticate as something else; a nonce not starting with the version byte is enough |
| `Aes.DecryptIsAuthenticated` | libs/crypto/aes/aes.go:90-134 | every success is what the cipher opened under one of the two layouts, and nothing shorter than nonce and tag decrypts |
| `Aes.TaggedIsLawful` | libs/crypto/aes/aes.go:58-81 | the hypotheses on the cipher can be met |
| `Aes.AmbiguousLegacyBlob` | libs/crypto/aes/aes.go:90-134 | lawfulness alone does not exclude a legacy blob that reads as v1: there is one that decrypts to another text |
| `Hex.DecodeInvertsEncode` | libs/crypto/rekey/sweep.go:195-205 | hexadecimal text decodes to the bytes it was encoded from |
| `Hex.DecodesExactlyHexText` | libs/crypto/rekey/sweep.go:195-205 | exactly the texts of even length made of hexadecimal digits of either case decode |
| `RekeySweep.FitsDecides` | libs/crypto/rekey/sweep.go:191-233 | a row whose cells all produced fitting values has no rejected cell, and has a new value exactly when some cell is still on the old key |
| `RekeySweep.ApplyUpdate` | libs/crypto/rekey/sweep.go:257-284 | the updated row is the row rotated: each new value in its own column and encoding, all other columns untouched, the version column stamped |
| `RekeySweep.InspectRow` | libs/crypto/rekey/sweep.go:314-338 | a row is reported exactly when some non-empty cell is not hexadecimal or does not decrypt under the new key |
| `RekeySweep.Store.Draw` | libs/crypto/aes/aes.go:75-78 | each call takes the next value of the random source |
| `RekeySweep.Store.RekeyCell` | libs/crypto/rekey/sweep.go:193-227 | a cell is kept, renewed with its plaintext under the nonce of a draw of its own, or rejected with the defect it has; exactly a cell to renew draws; other failures come from the random source |
| `RekeySweep.Store.ScanRow` | libs/crypto/rekey/sweep.go:174-189 | the scan fails exactly at a NULL text cell, and names it |
| `RekeySweep.Store.RekeyRow` | libs/crypto/rekey/sweep.go:173-234 | a scanned row yields a new value for exactly its renewable cells, each with a draw of its own, and is changed exactly when it is stale; a failure names a cell that is to blame |
| `RekeySweep.Store.CollectUpdates` | libs/crypto/rekey/sweep.go:162-238 | in any row order the updates list each stale row once, no candidate row was rejected, and no two values share a draw |
| `RekeySweep.Store.CommitUpdates` | libs/crypto/rekey/sweep.go:244-253 | the commit makes exactly the updated rows visible, or none of them, and reports their number |
| `RekeySweep.Store.ApplyAll` | libs/crypto/rekey/sweep.go:244-248 | applying the updates rotates exactly the stale rows and writes exactly their values |
| `RekeySweep.Store.RotateTable` | libs/crypto/rekey/sweep.go:153-254 | one table is all or nothing: success means the committed table is exactly the rotated one and the count is its stale rows; a dry run writes nothing; failure leaves every table as it was, except that a commit whose acknowledgement is lost has taken full effect; with a quiet environment it fails only for a named defect of the data |
| `RekeySweep.Store.VerifyTable` | libs/crypto/rekey/sweep.go:288-344 | the count is the number of rows behind, over every row order; with a quiet environment it fails only when the query or the scan does |
| `RekeySweep.Store.CountBehind` | libs/crypto/rekey/sweep.go:297-343 | counting row by row in any order gives the size of the set of rows behind, and succeeds exactly when every candidate row can be scanned |
| `RekeySweep.Store.SweepOne` | libs/crypto/rekey/sweep.go:82-108 | one spec takes the database exactly one step, or none, or the step of a commit whose acknowledgement was lost; an absent optional table is skipped, and an absent required table or a missing column never succeeds |
| `RekeySweep.Store.Sweep` | libs/crypto/rekey/sweep.go:80-110 | whatever fails, the specs before the failing one are swept, each counted in the report from the state it found, and the others untouched, except for one whose commit's acknowledgement was lost; it succeeds only if every table that is not optional exists; only a rotation writes; the database is the one before with exactly the cells of the origins written, each under the nonce of a draw of its own; without failures of the environment it stops only where the data does not pass |
| `RekeySweep.Store.NextVersion` | libs/crypto/rekey/sweep.go:349-371 | the result is one above the largest stamp of every existing table, narrowed to 16 bits, and it is larger than that stamp exactly while the stamp is below 32767 |
| `RekeySweep.MaxStamp` | libs/crypto/rekey/sweep.go:361-365 | the maximum is reached, or is zero, and no stamp exceeds it |
| `RekeySweep.SweptFrame` | libs/crypto/rekey/sweep.go:80-110 | a sweep changes no table outside its specs |
| `RekeySweep.Advance` | libs/crypto/rekey/sweep.go:80-110 | sweeping one more spec extends the swept prefix and its report by that spec, in each mode, also when several specs name one table |
| `RekeySweep.StillOwed` | libs/crypto/rekey/sweep.go:80-110 | with distinct tables, a spec not yet swept is owed what it was owed at the start |
| `RekeyTheorems.SealedReads` | libs/crypto/rekey/rekey.go:28-46 | a cell written by a rotation reads back under the new key and will not be renewed again |
| `RekeyTheorems.CellEvolvesKeepsSecret` | libs/crypto/rekey/rekey.go:28-46 | whatever happened to a cell, its secret is the same, a cell already on the new key is byte-identical, and an empty one stays as it was |
| `RekeyTheorems.SweptEvolves` | libs/crypto/rekey/sweep.go:80-110 | a sweep only ever renews cells |
| `RekeyTheorems.RowRotatedSettles` | libs/crypto/rekey/sweep.go:193-233 | a rotated row has every non-empty cell on the new key |
| `RekeyTheorems.SettledThroughCommit` | libs/crypto/rekey/sweep.go:153-254 | a finished spec stays finished while later specs commit, also ones on the same table |
| `RekeyTheorems.SweptSettles` | libs/crypto/rekey/sweep.go:80-110 | after a sweep every spec is finished: all its non-empty cells decrypt under the new key |
| `RekeyTheorems.StoppedSweepIsCut` | libs/crypto/rekey/sweep.go:80-110 | however a rotation ends, it leaves one cut behind: the specs it completed, and one more when an acknowledgement was lost |
| `RekeyTheorems.AttemptedEvolves` | libs/crypto/rekey/sweep.go:80-110 | any number of attempts, each cut after any prefix of the specs, only renews cells |
| `RekeyTheorems.AttemptedFurther` | libs/crypto/rekey/sweep.go:80-110 | a further cut is a further attempt |
| `RekeyTheorems.PassingDataStaysPassing` | libs/crypto/rekey/sweep.go:153-254 | data that passes at the start passes at every cut, so a rotation never gets stuck on its own earlier work |
| `RekeyTheorems.RetryStaysPossible` | libs/crypto/rekey/sweep.go:153-254 | data that could be rotated before such attempts still can afterwards |
| `RekeyTheorems.ResumingIsFaithful` | libs/crypto/rekey/sweep.go:80-110 | a full rotation after any interrupted attempts gives every cell the same plaintext under the new key as one uninterrupted rotation, cells already on the new key byte for byte |
| `RekeyTheorems.RotationIsFinal` | libs/crypto/rekey/sweep.go:80-110 | after a rotation verify reports zero, and another rotation, whatever its version, changes and reports nothing |
| `RekeyTheorems.VerifyZeroMeansSettled` | libs/crypto/rekey/sweep.go:288-344 | verify reports zero exactly when every non-empty cell of every spec decrypts under the new key |
| `RekeyTheorems.HealthyStaleIsBehind` | libs/crypto/rekey/sweep.go:193-227 | where nothing is rejected, the rows to rotate are the rows verify counts |
| `RekeyTheorems.ModesAgree` | libs/crypto/rekey/sweep.go:153-344 | dry run, rotate and verify report the same numbers, in total and per table, from the same state |
| `RekeyTheorems.ReportAddsUp` | libs/crypto/rekey/sweep.go:102-107 | the rows rotated are the sum over the tables of the report, when table names are distinct |
| `RekeyTheorems.CutIsExactPrefix` | libs/crypto/rekey/sweep.go:80-110 | the specs of a committed prefix are finished and the tables of the others as they were |
| `RekeyTheorems.StoppedRotateIsExactPrefix` | libs/crypto/rekey/sweep.go:80-110 | however a rotation stops, the tables before are finished and reported, the tables after are untouched, and the one it stopped at is untouched, or finished when the acknowledgement of its commit was lost |
| `RekeyTheorems.ChangedRowsAreStamped` | libs/crypto/rekey/sweep.go:257-284 | over a whole sweep a row is unchanged or carries the run's version, and no other stamp changes |
| `RekeyTheorems.FreshVersionMarksExactlyTheChangedRows` | libs/crypto/rekey/sweep.go:257-371 | with the automatic version, below the top of the range, the rows of a run are exactly those stamped above everything stored before, all with one version |
| `RekeyTheorems.NoncesRepeatExactlyWhenDrawsDo` | libs/crypto/aes/aes.go:75-81 | two cells changed by one sweep carry the nonces of two different draws of it, so they share a nonce exactly when the random source repeats itself |
| `RekeyTheorems.WhatACellDecides` | libs/crypto/rekey/sweep.go:193-227 | in terms of the stored bytes and the two keys: when a value is kept, renewed with which plaintext, or stops the table, and when verify counts it |
| `RekeyTheorems.RowsWithoutValuesAreSkipped` | libs/crypto/rekey/sweep.go:133-148 | a row without any value stops nothing; with any value, a NULL text column stops the table |
| `RowLocks.LocksKeepCopiesCurrent` | libs/crypto/rekey/sweep.go:133-165 | with the selected rows locked, what the transaction read stays what is stored, in every interleaving with writers |
| `RowLocks.LockedCommitRotatesCurrentRows` | libs/crypto/rekey/sweep.go:133-251 | every row a commit writes is the rotation of the value current at commit time; all other rows keep theirs |
| `RowLocks.UnlockedCommitLosesUpdate` | libs/crypto/rekey/sweep.go:133-148 | without the lock there is an interleaving in which every commit writes the rotation of an overwritten value |
| `RekeyCli.GeneratedKeyParses` | libs/crypto/rekey/rekey.go:51-70 | a generated key, with any blanks around it, parses back to the same key |
| `RekeyCli.KeysAreSixtyFourDigits` | libs/crypto/rekey/rekey.go:51-60 | a key parses exactly when there are sixty-four hexadecimal digits between the blanks |
| `RekeyCli.RunCli` | libs/crypto/rekey/cli.go:63-183 | input is refused exactly when it is badly asked, before the database is touched; only a rotation writes, and however it ends it leaves one cut behind, stamped with the version asked for or the next generation; verify ends well exactly when everything is on the new key; when nothing fails around it, a well-asked run ends early only where it is stuck on the data |
| `RekeyCli.RunVerify` | libs/crypto/rekey/cli.go:143-155 | changes nothing; success means every spec is finished, the rows-remain error that some is not; with nothing failing around it, it fails only where the data does not pass |
| `RekeyCli.ChooseVersion` | libs/crypto/rekey/cli.go:158-164 | an explicit version is taken as given, an omitted one is one above the largest stored |
| `RekeyCli.RunRotate` | libs/crypto/rekey/cli.go:157-181 | success or failure, what is left behind is one cut with the chosen version, the whole sweep on success; a dry run changes nothing; with nothing failing around it, it fails only where it is stuck on the data |
| `Consumer.Consumer.constructor` | libs/rabbitmq/consumer/consumer.go:79-88 | a new consumer counts nothing, and a zero maximum means three |
| `Consumer.Consumer.Handle` | libs/rabbitmq/consumer/consumer.go:172-229 | the counter map, the answer to the broker and whether the handler ran, for every delivery; acknowledged exactly when the message parses and the handler succeeds |
| `Consumer.KeyIsIdentity` | libs/rabbitmq/consumer/consumer.go:244-252 | two deliveries share a key exactly when they share an id from the same source, or the tag |
| `ConsumerRuns.ConservedKept` | libs/rabbitmq/consumer/consumer.go:172-229 | every step keeps each message in exactly one of queued, in flight, acknowledged, dead-lettered |
| `ConsumerRuns.CountersOwnedKept` | libs/rabbitmq/consumer/consumer.go:172-229 | every step keeps each stable counter between one and the maximum and owned by a pending message |
| `ConsumerRuns.SumAfter` | libs/rabbitmq/consumer/consumer.go:190-228 | a requeue adds one to the sum of the stable counters, a resolution takes away at most the maximum |
| `ConsumerRuns.AccountedKept` | libs/rabbitmq/consumer/consumer.go:172-229 | every step keeps the account: calls so far are at most a full allowance per resolved message plus the counters |
| `ConsumerRuns.NoRetriesKept` | libs/rabbitmq/consumer/consumer.go:210-215 | with a maximum of at most zero no counter is ever kept and every call resolves its message |
| `ConsumerRuns.RunKeepsInv` | libs/rabbitmq/consumer/consumer.go:148-229 | every run keeps the four invariants together |
| `ConsumerRuns.MessagesConserved` | libs/rabbitmq/consumer/consumer.go:172-252 | in every run no message is lost or doubled and every stable counter belongs to a pending message |
| `ConsumerRuns.StableCallsBounded` | libs/rabbitmq/consumer/consumer.go:172-252 | in every run, handler calls on messages with an id number at most (maximum + 1) per such message, also when several share an id |
| `ConsumerRuns.EventsAddUp` | libs/rabbitmq/consumer/consumer.go:148-229 | the events of a run are its publications, deliveries and handled deliveries; the handled ones without a call are the unparseable messages |
| `ConsumerRuns.RunsAreFinite` | libs/rabbitmq/consumer/consumer.go:172-252 | when every message that parses has an id, the length of every run is bounded by its publications |
| `ConsumerRuns.LoneMessageDeadLettered` | libs/rabbitmq/consumer/consumer.go:190-224 | a message that always fails is dead-lettered exactly at call maximum + 1, and then, and only then, nothing more can happen |
| `ConsumerRuns.UnidentifiedCycles` | libs/rabbitmq/consumer/consumer.go:240-252 | a message without an id can fail and come back any number of times, leaving a counter behind each time |
| `ConsumerRuns.UnidentifiedIsUnbounded` | libs/rabbitmq/consumer/consumer.go:240-252 | no number bounds the handler calls of all runs over such a message |
| `ConsumerRuns.CallsBoundedExactlyWhenStable` | libs/rabbitmq/consumer/consumer.go:172-252 | the bound on calls holds for all runs over given messages exactly when there are no retries or every one that parses has an id |
| `Deliveries.AnswerIsFate` | libs/rabbitmq/consumer/consumer.go:172-229 | the answer to a delivery is the one its history determines |
| `Deliveries.CounterTellsOn` | libs/rabbitmq/consumer/consumer.go:195-227 | every counter stands at the number of failures in a row on its identity, counted around the allowance |
| `Deliveries.FatesFollowFromHistory` | libs/rabbitmq/consumer/consumer.go:172-252 | in every run, read off the events alone: a message is acknowledged exactly when it parses and a call on it succeeded, dead-lettered exactly when it was handled and does not parse or a call on it failed after as many other failures in a row on its identity as there are retries, and the handler is called once per handled delivery that parses |
| `Deliveries.OneTooManyAtFirst` | libs/rabbitmq/consumer/consumer.go:210-221 | up to the first dead letter, a failure is one too many exactly when as many went before as there are retries |
| `Publisher.StepKeepsInv` | libs/rabbitmq/publisher/publisher.go:120-232 | every step keeps the balance of confirmations and the attribution of every result |
| `Publisher.RunKeepsInv` | libs/rabbitmq/publisher/publisher.go:120-232 | every interleaving keeps them, results are never revised and lost drains never forgotten |
| `Publisher.OutstandingIsLostDrains` | libs/rabbitmq/publisher/publisher.go:120-203 | whenever the mutex is free and the channel open, confirmations owed minus consumed is the number of timed-out drains |
| `Publisher.ConfirmationIsShiftedByLostDrains` | libs/rabbitmq/publisher/publisher.go:168-203 | a caller reads the confirmation of the message as many places before its own as drains have timed out, and answers by that one's verdict |
| `Publisher.NilMeansAcked` | libs/rabbitmq/publisher/publisher.go:120-193 | with no timed-out drain, nil means the broker acknowledged this very message, and the nack error that it refused it |
| `Publisher.LostDrainIsNeverRepaired` | libs/rabbitmq/publisher/publisher.go:157-203 | after one timed-out drain every later caller that reads a confirmation reads someone else's |
| `Publisher.NilForRefusedMessage` | libs/rabbitmq/publisher/publisher.go:157-203 | a run in which nil is returned for a message the broker refused |
| `Publisher.ClosedIsFinal` | libs/rabbitmq/publisher/publisher.go:131-138 | after Close nothing is sent and every call returns the closed error |
| `Publisher.Client.Publish` | libs/rabbitmq/publisher/publisher.go:120-193 | a call is a run of the protocol, whatever broker and network do meanwhile: it fails closed exactly when closed and on the send exactly when that fails or the channel is closed; otherwise a confirmation that is there when the wait looks is read unless the caller aborts, and with no drain lost nil is returned exactly when the broker acknowledged this message; it keeps the invariant and loses at most one drain, only when it aborts |
| `Publisher.OwnConfirmation` | libs/rabbitmq/publisher/publisher.go:168-193 | the confirmation read is the caller's own, as many places back as drains were lost |
| `Publisher.Client.Attempt` | libs/rabbitmq/publisher/publisher.go:126-193 | the critical section: which error or answer, from the state before and what happens meanwhile |
| `Publisher.Client.Await` | libs/rabbitmq/publisher/publisher.go:168-193 | from what is there when the wait looks: the oldest confirmation is read exactly when there is one and the caller does not abort, the channel is found closed exactly when it is also empty, and otherwise, and only then, the caller gives up |
| `Publisher.Client.DrainStaleConfirm` | libs/rabbitmq/publisher/publisher.go:198-203 | a confirmation is taken exactly when one is there before the drain's deadline, and one is lost exactly when the deadline comes first or nothing arrives on an open channel |
| `Publisher.Client.Shutdown` | libs/rabbitmq/publisher/publisher.go:213-232 | closes, as a run of the protocol, and changes nothing else; a second call changes nothing |
| `CertCache.CertCache.Current` | libs/auth/mtls/mtls.go:120-179 | the fields and the answer after a call, for every timeline of the disk; a failed stat serves what is held |
| `CertCache.WhatIsServed` | libs/auth/mtls/mtls.go:120-179 | in terms of the disk: a failed stat or an unchanged fingerprint serves what is held and loads nothing; another fingerprint serves the pair read under its new fingerprint, or what is held if there is none |
| `CertCache.NewCertCache` | libs/auth/mtls/mtls.go:184-193 | a cache exists only after a successful load, and holds what was loaded |
| `CertCache.LoadFills` | libs/auth/mtls/mtls.go:98-114 | the fingerprint was on disk before the certificate was read, the certificate when it was read, and the key belongs to it |
| `CertCache.NeverReusedTells` | libs/auth/mtls/mtls.go:98-114 | on a disk that never reuses a fingerprint, a fingerprint that comes back comes back with its leaf |
| `CertCache.FilledIsFresh` | libs/auth/mtls/mtls.go:98-179 | on a disk that tells, equal fingerprints mean equal certificates, at every later moment |
| `CertCache.CurrentServes` | libs/auth/mtls/mtls.go:120-179 | a call never errors, keeps the invariant, serves a matching pair, falls back only to what it had, and otherwise serves a certificate that was on disk during the call |
| `CertCache.RotationIsPickedUp` | libs/auth/mtls/mtls.go:120-179 | when the disk is steady the next call serves what is there and the one after finds it unchanged |
| `CertCache.RunNeverErrors` | libs/auth/mtls/mtls.go:120-179 | over every sequence of calls, on any disk, no call errors and each fallback is to the last good certificate |
| `CertCache.RunServesWhatWasOnDisk` | libs/auth/mtls/mtls.go:120-179 | on a disk that tells, every answer of every run that is not a fallback was on disk during its own call |
| `CertCache.RunsAreFreshExactlyWhenDiskTells` | libs/auth/mtls/mtls.go:98-179 | every run after every load is served from disk exactly when the disk tells: a condition on what stat and read show, with no cache in it |
| `CertCache.ReusedFingerprintServesStale` | libs/auth/mtls/mtls.go:130-134 | a disk that does not tell, on which a replaced certificate is served for ever |
| `GrpcCache.KeysCollideExactlyWhenMethodsOverlap` | libs/middleware/grpc/cache.go:52-52 | two methods can share an entry exactly when one followed by a colon begins the other |
| `GrpcCache.ColonFreeMethodsDoNotOverlap` | libs/middleware/grpc/cache.go:52-52 | methods without a colon never do |
| `GrpcCache.HitRefines` | libs/middleware/grpc/cache.go:54-62 | a hit is a response the handler gave for the same method and suffix, stored less than its time to live ago |
| `GrpcCache.StepKeepsStore` | libs/middleware/grpc/cache.go:36-81 | every step keeps each readable entry traceable to a call whose handler returned it |
| `GrpcCache.StepKeepsCalls` | libs/middleware/grpc/cache.go:36-81 | every step keeps each waiting call without a result and each storing call with its own handler's |
| `GrpcCache.StepKeepsAnswers` | libs/middleware/grpc/cache.go:36-81 | every step keeps every answer given a refinement of the handler |
| `GrpcCache.CacheRefinesHandler` | libs/middleware/grpc/cache.go:36-81 | in every interleaving each answer is what the handler returned in this very call, error or not, or a response it returned for the same method and suffix in a call stored less than the time to live ago; errors never come from the cache |
| `GrpcCache.OnlyCachableRequestsAreCached` | libs/middleware/grpc/cache.go:37-52 | in every run an unlisted method, a request that is no proto message or one without a key suffix is answered by its own handler and never stored |
| `GrpcCache.StoredIsServedExactlyWhileFresh` | libs/middleware/grpc/cache.go:54-77 | a stored response answers the next lookup of the same method and suffix exactly while its time to live has not passed |
| `GrpcCache.CorruptedIsEvicted` | libs/middleware/grpc/cache.go:55-65 | a live entry that cannot be read is deleted by the lookup that finds it, and the handler is called |
| `GrpcCache.OldAnswer` | libs/middleware/grpc/cache.go:54-77 | without an expiry there is a run that serves a response stored any number of ticks before |
| `GrpcCache.AgeBoundedExactlyWhenTtlPositive` | libs/middleware/grpc/cache.go:70-77 | the age of a method's answers is bounded over all runs exactly when its time to live is positive |
| `GrpcCache.Server.Intercept` | libs/middleware/grpc/cache.go:36-81 | a request is a run of the step system, whatever others do meanwhile: the answer is the handler's own unless a lookup hit, and a failed lookup never fails the request |
| `GrpcCache.Server.CallHandler` | libs/middleware/grpc/cache.go:64-79 | after a miss the answer is the handler's, whether or not it could be stored |
| `Layers.Rootfs.Extract` | infra/scanner-plugins/trivy-adapter/main.go:253-289 | one entry: whiteouts are skipped, directories and files are created in place, with exactly the failures of the reference |
| `Layers.Rootfs.Untar` | infra/scanner-plugins/trivy-adapter/main.go:242-289 | one layer extracted in place is the layer folded entry by entry, and fails exactly when some entry does |
| `Layers.Rootfs.ApplyLayers` | infra/scanner-plugins/trivy-adapter/main.go:172-180 | the loop over the layers yields the flattened tree, and fails exactly when some layer does |
| `Layers.OrdinaryEntriesAreExtracted` | infra/scanner-plugins/trivy-adapter/main.go:253-289 | an entry whose last component does not begin with ".wh." is extracted to its path with its bytes up to the cap, and is so in the image; it fails exactly when a file is in the way, or a directory where the file should be |
| `Layers.WhiteoutEntriesAreSkipped` | infra/scanner-plugins/trivy-adapter/main.go:253-258 | an entry whose last component begins with ".wh." changes nothing, trailing slashes or not |
| `Layers.WhiteoutRemovesExactly` | infra/scanner-plugins/trivy-adapter/main.go:253-258 | what a skipped whiteout means for the image, after the OCI image-spec: its sibling with everything in it is gone, or everything in its directory, and nothing else |
| `Layers.EntryKeepsCover` | infra/scanner-plugins/trivy-adapter/main.go:253-289 | an entry extracted on top of a covering tree covers the entry applied to the image |
| `Layers.FlattenCoversImage` | infra/scanner-plugins/trivy-adapter/main.go:172-180 | flattening that succeeds contains every file of the image, where the image applies whiteouts as the OCI image-spec says, with the same bytes up to the cap |
| `Layers.TrivyCoversImage` | infra/scanner-plugins/trivy-adapter/main.go:242-289 | for Trivy with no condition on the entries |
| `Layers.GrypeCoversImage` | infra/scanner-plugins/grype-adapter/main.go:249-302 | for Grype with the same bytes, whatever its work directory, when no name that is extracted climbs above its start |
| `Layers.ClimbingFileIsMisplaced` | infra/scanner-plugins/grype-adapter/main.go:264-272 | a layer that flattens although a file of its image is missing from the flattened tree |
| `Layers.GrypeCoversEntryExactlyWhenNotClimbing` | infra/scanner-plugins/grype-adapter/main.go:264-289 | a one-entry image that flattens is covered exactly when its name does not climb |
| `Layers.GrypeAlwaysCoversExactly` | infra/scanner-plugins/grype-adapter/main.go:249-302 | every image over a set of names that flattens is covered exactly when each name is a whiteout, is refused, or never climbs above its start |
| `Layers.BytesExactWithinCap` | infra/scanner-plugins/trivy-adapter/main.go:281-288 | a file keeps all its bytes exactly when Trivy's 200 MiB cap admits them |
| `Layers.ExactWithoutWhiteouts` | infra/scanner-plugins/trivy-adapter/main.go:240-258 | without whiteouts the flattened tree has exactly the paths of the image |
| `Layers.DeletedFileStillReported` | infra/scanner-plugins/trivy-adapter/main.go:253-258 | a whiteout removes a path from the image and changes nothing in the flattened tree |
| `Layers.GrypeAgreesExactlyWhenNotClimbing` | infra/scanner-plugins/grype-adapter/main.go:264-272 | from every work directory, Grype puts an entry where the image has it exactly when the name never climbs above its start; one that climbs and is not refused lands nearer to the root |
| `Layers.GrypeAcceptsExactlyWhatComesBack` | infra/scanner-plugins/grype-adapter/main.go:264-272 | a name that goes up from the work directory and down again is accepted exactly when it comes back into it |
| `Dedupe.PicksAreTheFirsts` | infra/scanner-plugins/trivy-adapter/main.go:351-360 | the positions kept are increasing and are exactly those with no earlier element of the same key |
| `Dedupe.OnePickPerKey` | infra/scanner-plugins/trivy-adapter/main.go:351-360 | one element is kept for each key |
| `Findings.TranslateTrivy` | infra/scanner-plugins/trivy-adapter/main.go:346-376 | in fields: for every vulnerability of the report exactly one finding has its id, package and version, there is no other finding, and each one carries the severity, fixed version, description and references of the first vulnerability with its triple; none for a missing report |
| `Findings.TranslateGrype` | infra/scanner-plugins/grype-adapter/main.go:357-389 | the same over the flat list of matches, with the first of the fixed versions |
| `Findings.FirstsAreOwed` | infra/scanner-plugins/trivy-adapter/main.go:346-376 | the first occurrences, converted, are what the report is owed, for every conversion that keeps id, package and version |
| `Findings.FlatIsConcatenation` | infra/scanner-plugins/trivy-adapter/main.go:353-354 | the results are read one after the other |
| `Findings.TranslationIsFaithful` | infra/scanner-plugins/trivy-adapter/main.go:346-376 | no vulnerability, package and version is lost or repeated, report order is kept, and each finding is the conversion of its first occurrence |
| `Findings.CountBySeverity` | infra/scanner-plugins/trivy-adapter/main.go:378-384 | the loop computes the tally |
| `Findings.TallyAddsUp` | infra/scanner-plugins/trivy-adapter/main.go:378-384 | the counts sum to the number of findings |
| `Findings.TallyCounts` | infra/scanner-plugins/trivy-adapter/main.go:378-384 | each severity is counted as often as it occurs |
| `Clair.Record` | infra/scanner-plugins/clair-adapter/main.go:473-500 | one finding extends the findings, the seen keys and the counts, or is skipped when its key was seen |
| `Clair.ScanPackage` | infra/scanner-plugins/clair-adapter/main.go:453-502 | one package extends the findings, the seen keys and the counts by its first occurrences; missing metadata contributes nothing |
| `Clair.Translate` | infra/scanner-plugins/clair-adapter/main.go:448-510 | for some order of the map the findings are the first occurrences per glued key, and the counts are their tally |
| `Clair.OutputIsOwed` | infra/scanner-plugins/clair-adapter/main.go:453-502 | in fields: every finding says what the report says of a listed vulnerability and package, the id standing in for a missing name; every listed one has a finding with its key, and no two findings share one |
| `Clair.WordsAreWords` | infra/scanner-plugins/clair-adapter/main.go:482-490 | the links are split at white space |
| `Clair.OneWord` | infra/scanner-plugins/clair-adapter/main.go:482-490 | and nowhere else |
| `Clair.SeveritiesAreNormalised` | infra/scanner-plugins/clair-adapter/main.go:516-531 | the five severities are recognised whatever their case, and everything else is unknown |
| `Clair.OrderDoesNotChangeKeys` | infra/scanner-plugins/clair-adapter/main.go:453-477 | every order gives the same keys and as many findings |
| `Clair.JoinIsUnambiguousExactlyWithoutBars` | infra/scanner-plugins/clair-adapter/main.go:473-473 | a glued key belongs to one vulnerability, package and version exactly when none of them contains a bar |
| `Clair.NoTripleLostWithoutBars` | infra/scanner-plugins/clair-adapter/main.go:473-477 | without bars, deduplicating on the glued key is deduplicating on the triple, and no triple is lost |
| `Clair.ReportedExactlyWhenFirst` | infra/scanner-plugins/clair-adapter/main.go:473-477 | a finding is reported exactly when it is the first met with its key |
| `Clair.OrderDoesNotShowExactlyWhenPackagesAgree` | infra/scanner-plugins/clair-adapter/main.go:453-502 | any part of a finding, such as its severity, is independent of the order exactly when packages sharing a key agree on it |
| `Clair.CountsDoNotShowOrder` | infra/scanner-plugins/clair-adapter/main.go:479-480 | when packages agree on severities every order gives the same counts |
| `Clair.SeverityDependsOnOrder` | infra/scanner-plugins/clair-adapter/main.go:453-502 | a report whose findings and counts depend on the order |
| `Decimal.ValueOfPrint` | libs/crypto/argon2/argon2.go:35-37 | a printed number is all digits and has its value |
| `Base64.DecodeInvertsEncode` | libs/crypto/argon2/argon2.go:38-71 | decoding undoes encoding, for every byte string |
| `Base64.EncodeInvertsDecodeExactlyWhenCanonical` | libs/crypto/argon2/argon2.go:63-71 | a text that decodes is the encoding of its result exactly when it has no line break and no spare bit |
| `Base64.DecodesExactly` | libs/crypto/argon2/argon2.go:63-71 | exactly the texts over the alphabet and line breaks decode, unless one character is left over |
| `Phc.Hash` | libs/crypto/argon2/argon2.go:27-41 | the string has the documented form with today's cost, parses back to the salt drawn and the key derived, and verifies the password it was made from; without a salt it is an error |
| `Phc.Verify` | libs/crypto/argon2/argon2.go:46-75 | each malformed part has its own error, in order; otherwise the answer is whether the derived key is the stored one |
| `Phc.ParamsReadBack` | libs/crypto/argon2/argon2.go:57-61 | costs in range are read back, and whatever follows them that is not a digit is ignored |
| `Phc.ParseInvertsEncoded` | libs/crypto/argon2/argon2.go:29-71 | parsing recovers cost, salt and hash, for every version and every cost in range |
| `Phc.FiveSeparators` | libs/crypto/argon2/argon2.go:47-50 | a string without exactly five separators has the wrong format |
| `Phc.FirstFaultDecides` | libs/crypto/argon2/argon2.go:47-71 | of six parts the first fault decides which error is returned, and without one salt, hash and cost are those of the parts |
| `Phc.CostsAreReadExactlyInRange` | libs/crypto/argon2/argon2.go:57-61 | printed costs are read back exactly when they fit 32, 32 and 8 bits, and are refused otherwise |
| `Phc.VersionsRead` | libs/crypto/argon2/argon2.go:52-55 | a version is read with blanks and a sign before it and anything after it, exactly when it fits 64 bits |
| `Phc.VerifyAcceptsExactlyTheSameKey` | libs/crypto/argon2/argon2.go:46-75 | whatever cost a password was hashed with, exactly the passwords deriving the same key are accepted |
| `Trim.UnchangedExactlyWhenEndsAreNotBlank` | frontend/src/lib/oidc-subject-glob.ts:50-57 | a text equals its trim exactly when neither end is blank |
| `Glob.RunLength` | frontend/src/lib/oidc-subject-glob.ts:38-41 | the run counted is all stars and stops where they do |
| `Glob.Validate` | frontend/src/lib/oidc-subject-glob.ts:26-59 | in whatever units the text is made of, accepts exactly the non-empty texts equal to their trim without three stars in a row; a rejected run is the first maximal one longer than two, with its offset and length |
| `Glob.ChecksDisagreeExactly` | services/auth/internal/service/oidc_subject.go:104-131 | the browser and the service disagree exactly on texts with an end that only one of them trims |
| `Glob.MatchGlob` | services/auth/internal/service/oidc_subject.go:38-91 | on bytes, matches exactly when the whole subject can be cut into one piece per token: stars and question marks without a slash, double stars anything, literals themselves |
| `Glob.TryDeep` | services/auth/internal/service/oidc_subject.go:44-55 | trying every position decides a double star |
| `Glob.TryStar` | services/auth/internal/service/oidc_subject.go:56-71 | trying every position up to the first slash decides a star |
| `Glob.SlashesAreKept` | services/auth/internal/service/oidc_subject.go:8-10 | a pattern without two stars in a row only matches subjects with its own number of slashes |
| `Glob.LiteralMatchesItself` | services/auth/internal/service/oidc_subject.go:79-86 | a pattern without wildcards matches exactly itself |
| `Glob.LiteralPrefix` | services/auth/internal/service/oidc_subject.go:79-86 | a literal text in front of a pattern matches itself in front of the rest |
| `Glob.SingleStarMeans` | services/auth/internal/service/oidc_subject.go:8-8 | a star in front of a pattern takes any run without a slash |
| `Glob.DoubleStarMeans` | services/auth/internal/service/oidc_subject.go:9-9 | a double star takes any run |
| `Glob.QuestionMarkMeans` | services/auth/internal/service/oidc_subject.go:10-10 | a question mark takes one unit that is not a slash |
| `Utf8.EncodeIsSelfSynchronising` | services/auth/internal/service/oidc_subject.go:38-40 | UTF-8 keeps ASCII bytes to ASCII characters, and no character's bytes begin another's |
| `GlobText.SkipContinuation` | services/auth/internal/service/oidc_subject.go:44-71 | a pattern that matches from inside a character matches from one byte further on |
| `GlobText.BytesMatchLikeCharacters` | services/auth/internal/service/oidc_subject.go:38-91 | for any such encoding, matching bytes is matching characters: for every subject when the pattern has no question mark, for every pattern when the subject is ASCII |
| `GlobText.ServiceMatchesAsDocumented` | services/auth/internal/service/oidc_subject.go:8-12 | so it is for UTF-8: the matcher does what its documentation says in characters |
| `GlobText.DocumentedForAllPatternsExactlyWhenAscii` | services/auth/internal/service/oidc_subject.go:8-12 | for a given subject the matcher does what is documented, whatever the pattern, exactly when the subject is ASCII |
| `GlobText.QuestionTakesOneCharacterExactlyWhenAscii` | services/auth/internal/service/oidc_subject.go:10-10 | the documented single character is taken exactly when it is ASCII and not a slash |

## Left out

- AES-GCM and argon2id themselves, random numbers: parameters; no cryptographic hardness is claimed beyond the named predicates.
- SQL text, the database driver, AMQP and Redis clients, TLS handshakes, tar and gzip decoding, JSON: foreign code; only the effect of each call is modelled.
- RekeySweep.Store.Sweep: asks that a spec names each column once and not its version column among them, because an UPDATE naming a column twice is refused by the database.
- RekeySweep.Store.RotateTable: the database calls of one transaction fail through one oracle; which isolation level the database runs at is modelled only through the row locks.
- RowLocks.LockedCommitRotatesCurrentRows: rows inserted after the candidate query are not locked and are left as they are.
- RekeyCli.RunCli: flags arrive parsed; the printed lines are not modelled; a key's surrounding blanks are the six ASCII ones, where the library also trims those outside ASCII.
- ConsumerRuns.MessagesConserved: one consumer per queue, acknowledgements succeed, no message expires at the broker.
- Publisher.Client.Publish: marshalling the event and the wall clock are left out; deadlines are decisions of the environment.
- GrpcCache.CacheRefinesHandler: the store is written only by this interceptor, by eviction and with data no method can read; a delete of a corrupted entry that takes effect later is an eviction.
- CertCache.CurrentServes: calls are serialised by the mutex; a certificate is its parsed leaf, and the CA pool and TLS configurations around the cache are not modelled.
- Layers.FlattenCoversImage: directories and regular files only; symbolic and hard links, devices, file modes and compression detection are left out, and so is the disk running full.
- Phc.Verify: the text is a sequence of characters; byte sequences that are not valid UTF-8, and the constant-time property of the comparison, are left out.
- Glob.ChecksDisagreeExactly: compares the two scans on characters; a star and every blank is one character in both, so only the offsets reported differ (UTF-16 units in the browser, bytes in the service).
- GlobText.ServiceMatchesAsDocumented: for a subject that is not ASCII, which of the patterns with a question mark still agree with the documentation is left to the byte semantics; that some do not is proved.
- Retry interceptor, peer allow-list, bearer parsing, configuration loader, error tables: small finite branches that would only add easy members.
- User interface, HTTP services, migrations, lint and generator tools: no unbounded state of their own, or plain data.
