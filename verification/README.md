# Verified model of CloudOps Guard's ingestion core

This project models the parts of CloudOps Guard whose correctness is hard to see from any one function,
and proves what they promise. `dafny verify dfyconfig.toml` checks all of it.

## What is modelled

**The ingestion store.** `Models`, `StoreSpec`, `StoreChanges`, `StoreRuns` and `Bindings` hold the metadata
store's operations as functions on values, the invariant its pieces of state keep, and what whole runs of
calls keep: any calls, any arguments, any stale or invented claims, any clock readings. `StoreAnswers` says on the
fields of the records what every call answers and writes, `KeyReplay` what an idempotency key does to the answer
of a create. `MemoryStore` is the
reference implementation as a class updated in place, each method proved to take exactly the specified step.
`PostgresStore` is the table form: it looks records up by scanning, keeps only a tombstone's columns in a
claim row and rebuilds the deleted row when the purge is finalized. `Agreement` relates the two.

**The service around it.** `Coordinator` and `Lifecycle` are the create loop, the retention sweep and the purge,
run alone. `Service` is the whole service as a transition system: every action is one atomic call of one
request or purger on one of two stores that share no transaction, or a crash, or a lost answer. `ServiceSafety`
proves the invariant that keeps the two stores in step; `ServiceFaults` shows which store failures break it, and
`ServicePurges` what none of them breaks; `ServiceAlone` ties its actions to the sequential code.
`PurgeSweep` is the batched sweep, alone and with other callers' calls in between.

**Authentication and limits.** `Authentication` is the layered flow over the reference limiters, as a method and
as a sequence of atomic steps; `AuthenticationRuns` bounds what concurrent requests can cost and
`AuthenticationTight` shows the bound is met. `Limiters` and `Attempts` are the database limiters.

**Smaller cores.** `JsonText`, `Fingerprint`, `Matching`, `Compare` and `ComparisonOrder` are the report comparison; `BranchPattern` the
translation of protected-branch patterns to regular expressions; `StrictJson` the iterative document walk;
`Migrations` the migration runner and deployment gate; `Unicode`, `ProjectPath` and `PathRules` the project-path canonicalizer.
`Wrappers`, `Ordering` and `Listings` are shared groundwork.

Instants and durations are integers (microseconds). Each operation takes the clock readings it would make
as arguments. A database transaction is one atomic step; a table is a map from primary key to row.

## What the proofs found

- Cross-store safety does not hold unconditionally. lifecycle.py:141-155 releases the claim when `finalize_purge`
  raises and calls that always safe, because nothing was committed. The blob is gone by then: its key can be
  reserved by a new request while the record is still retired, and the next purger deletes that reservation.
  `SafetyExactly` shows safety holds if and only if a finalize that raises has committed, and a blob delete
  that raised takes no effect, at once or later. The residual gap interfaces.py:258-276 describes is about claims that went
  stale; this one needs no stale claim.
- purge_retired_ingestion's documentation says every step after the claim is wrapped so that an exception
  releases it. Deriving the storage key (lifecycle.py:129) is not: for an identifier the derivation refuses,
  the claim stays held, and no later purge of the record is granted one (`SlashedClaimStays`). The service never
  stores such an identifier, because the create loop derives the key first (`StoredKeysAreValid`).
- The PostgreSQL store is documented as behaving exactly like the reference store. On texts a table can
  hold it differs in one error: retiring a received record at an instant before its receipt meets a CHECK constraint
  instead of the model's validator (`WordedDiffersExactly`, `EarlyRetirementWorded`). No state differs.
- The reference create reads its clock twice, for the key window and again for tombstone expiry; the PostgreSQL
  create has one instant. The two are compared on equal readings; every property of the reference store is proved
  for two readings.
- Idempotency bindings are never pruned. They stay harmless if and only if tombstones are kept at least as long as
  keys stay bound (`NoRevivalExactly`); the defaults, 90 days and 24 hours, satisfy it.
- Rows may be cleaned up once they are as old as the window; one microsecond less is still unnoticeable, two are
  not (`RateCleanupUnseenExactly`, `AttemptCleanupUnseenExactly`).
- Canonicalizing a project path is not always idempotent: `%30%31%32` denotes the path `012`, whose canonical form
  then reads as the number 12 (`Escaped012IsNotFixed`). `CanonicalIsFixedExactly` says exactly when it is.

## Model

| member | source | states |
|---|---|---|
| `MemoryStore.InMemoryMetadataStore.constructor` | src/cloudops_guard/ingestion/reference.py:103-158 | a new store is empty, valid, and keeps keys bound for 24 hours |
| `MemoryStore.InMemoryMetadataStore.ExpireTombstoneIfNeeded` | src/cloudops_guard/ingestion/reference.py:540-551 | an aged tombstone and its deleted record go together; nothing else changes |
| `MemoryStore.InMemoryMetadataStore.CreateOrGetReceived` | src/cloudops_guard/ingestion/reference.py:162-252 | answer and whole new state of the three-step create: key replay or conflict, content dedup, lazy expiry, id conflict, insertion; four precondition errors first. What that answer means is said by StoreAnswers.CreateAnswers and KeyReplay.KeyReplaysExactly |
| `MemoryStore.InMemoryMetadataStore.GetReceived` | src/cloudops_guard/ingestion/reference.py:254-260 | expires the key, then answers the record only while it is received |
| `MemoryStore.InMemoryMetadataStore.GetAny` | src/cloudops_guard/ingestion/reference.py:262-270 | expires the key, then answers the record in whatever status |
| `MemoryStore.InMemoryMetadataStore.TombstoneFor` | src/cloudops_guard/ingestion/reference.py:517-520 | expires the key, then answers its tombstone |
| `MemoryStore.InMemoryMetadataStore.Retire` | src/cloudops_guard/ingestion/reference.py:272-312 | answer and new state of mark_retired: idempotent, validates before mutating, frees the fingerprint |
| `MemoryStore.InMemoryMetadataStore.Purge` | src/cloudops_guard/ingestion/reference.py:314-384 | answer and new state of mark_purged: refused while received or while a claim is active |
| `MemoryStore.InMemoryMetadataStore.Begin` | src/cloudops_guard/ingestion/reference.py:386-462 | answer and new state of begin_purge: one claim per key, validated before it is granted, with the eventual deleted form |
| `MemoryStore.InMemoryMetadataStore.ReleaseClaim` | src/cloudops_guard/ingestion/reference.py:464-484 | only the exact active claim is released |
| `MemoryStore.InMemoryMetadataStore.FinalizeClaim` | src/cloudops_guard/ingestion/reference.py:486-515 | only the exact active claim commits, and commits what it carries |
| `MemoryStore.InMemoryMetadataStore.ListExpiredForRetentionSweep` | src/cloudops_guard/ingestion/reference.py:522-538 | exactly the received records from before the cutoff, each once, by receipt time, ties by tenant and then ingestion id |
| `MemoryStore.InMemoryReportBlobStore.PutIfAbsent` | src/cloudops_guard/ingestion/reference.py:573-585 | stores exactly when the key was free, and says so |
| `MemoryStore.InMemoryReportBlobStore.Delete` | src/cloudops_guard/ingestion/reference.py:592-594 | removes the one key; repeated deletion is safe |
| `StoreChanges.NormalForm` | src/cloudops_guard/ingestion/reference.py:162-551 | every call is lazy expiry of one key followed by at most one of seven elementary changes that is enabled there |
| `StoreChanges.AfterKeepsValid` | src/cloudops_guard/ingestion/reference.py:103-158 | every call keeps records, tombstones, generations, claims and the fingerprint index in agreement |
| `StoreRuns.ReachableIsValid` | src/cloudops_guard/ingestion/reference.py:103-158 | that agreement holds after every run from the empty store |
| `StoreRuns.RefusedLeavesStore` | src/cloudops_guard/ingestion/reference.py:162-462 | a refused call leaves the whole store as it was; the index lookup of a create never misses |
| `StoreAnswers.StoredRecordsAreComplete` | src/cloudops_guard/ingestion/models.py:72-170 | in every reachable store: every record is under its own non-empty ids with a fingerprint, has exactly the fields of its status with times in order, and a deleted one has its tombstone |
| `StoreAnswers.ReadAnswers` | src/cloudops_guard/ingestion/reference.py:254-270 | what the three reads answer, on the fields of the stored record: the record while received, the record in any status until its retention has run out, the tombstone of a deleted one; nothing else than an expired record is changed |
| `StoreAnswers.RetireAnswers` | src/cloudops_guard/ingestion/reference.py:272-312 | every answer of mark_retired and every field of the record it writes; idempotent; a time before the receipt is refused |
| `StoreAnswers.PurgeAnswers` | src/cloudops_guard/ingestion/reference.py:314-384 | every answer of mark_purged, every field of the record and tombstone it writes, and the exact refusals: received, claimed, a time before the retirement |
| `StoreAnswers.BeginAnswers` | src/cloudops_guard/ingestion/reference.py:386-462 | a claim with a new id is granted exactly over a retired, unclaimed record at a time not before its retirement; every other answer; records stay |
| `StoreAnswers.ReleaseAnswers` | src/cloudops_guard/ingestion/reference.py:464-484 | the claim the key is held by, generation and claim id both, is given back; with any other claim nothing happens |
| `StoreAnswers.FinalizeAnswers` | src/cloudops_guard/ingestion/reference.py:486-515 | with the claim the key is held by, the record is deleted at the time asked for and its tombstone written, field by field; any other claim is answered nothing |
| `StoreAnswers.CreateAnswers` | src/cloudops_guard/ingestion/reference.py:209-252 | unless its key is in conflict, a create is answered the received record of its tenant with its content if there is one, otherwise its own candidate, stored, if the id is free, otherwise the id conflict; a conflict changes nothing |
| `StoreAnswers.CreateAnswersOwnContent` | src/cloudops_guard/ingestion/reference.py:162-252 | a record answered is received, of the request's own tenant and content, and stored under its id afterwards; created is said exactly of a record that is new |
| `KeyReplay.KeyAnswers` | src/cloudops_guard/ingestion/reference.py:188-207 | after any calls, clocks and policy: a create under an honoured key is answered what is received under the id the key stands for, or the conflict if that has other content, and changes nothing; no other create is answered the conflict |
| `KeyReplay.KeyReplaysExactly` | src/cloudops_guard/ingestion/reference.py:188-207 | on a forward clock with tombstones kept as long as keys: a create under a key last answered record r is answered r again, or the conflict if its content is another, while r is stored as it was and its window is not over; the conflict is answered in no other case |
| `StoreRuns.LifecycleStep` | src/cloudops_guard/ingestion/reference.py:272-384 | one call moves a live generation at most one status on, by the call that may do so; it disappears only as an expired deleted record |
| `StoreRuns.LifecycleRun` | src/cloudops_guard/ingestion/reference.py:272-384 | over any run a generation only goes received, retired, deleted; reason and retirement time are written once; a key changes hands only to a higher generation |
| `StoreRuns.DedupConservation` | src/cloudops_guard/ingestion/reference.py:209-252 | for each tenant and fingerprint: creations minus retirements over any run equals the change of the index entry, so it is 0 or 1 from empty and 1 exactly while the index has the entry |
| `StoreRuns.VacatesExactly` | src/cloudops_guard/ingestion/reference.py:272-312 | within a call a record leaves received exactly by the change that retires it |
| `StoreRuns.IndexIsScan` | src/cloudops_guard/ingestion/reference.py:209-252 | the index equals a full scan of received records, which has at most one hit |
| `StoreRuns.SpentForever` | src/cloudops_guard/ingestion/reference.py:464-515 | a claim once released, finalized or superseded never acts again, whatever is called in between |
| `StoreRuns.UseSpends` | src/cloudops_guard/ingestion/reference.py:464-515 | releasing or finalizing an issued claim spends it: at most one finalize, none after release |
| `StoreRuns.StaleClaimIsInert` | src/cloudops_guard/ingestion/reference.py:464-515 | releasing or finalizing anything but the exact active claim changes no active claim |
| `StoreRuns.ActiveClaimPins` | src/cloudops_guard/ingestion/reference.py:329-352 | while a claim is active the record stays the same retired record of the same generation, over any run |
| `StoreRuns.FinalizeCommitsWhatBeginSaw` | src/cloudops_guard/ingestion/reference.py:386-515 | a claim finalized after any run commits exactly the deleted form of the record begin_purge saw, and no second claim is granted meanwhile |
| `Bindings.StaleBindingNeverRevives` | src/cloudops_guard/ingestion/reference.py:188-207 | with tombstones kept at least as long as keys and a clock that never goes back, an honoured binding leads to the generation it was made for |
| `Bindings.ShortTombstonesRevive` | src/cloudops_guard/ingestion/reference.py:540-551 | with shorter tombstones a concrete run honours a binding for a different generation |
| `Bindings.NoRevivalExactly` | src/cloudops_guard/ingestion/reference.py:188-207 | no stale binding ever revives if and only if the key window is at most the tombstone retention |
| `Listings.ListingUnique` | src/cloudops_guard/ingestion/reference.py:522-538 | any ordered sequence of exactly the candidates is the listing: tie breaking leaves no choice |
| `Listings.ListingElements` | src/cloudops_guard/ingestion/reference.py:522-538 | the listing holds each candidate once and nothing else |
| `Listings.ByReceivedOrders` | src/cloudops_guard/ingestion/reference.py:522-538 | the sort row of the retention listing orders exactly by receipt time, then tenant, then ingestion id, in code-point order |
| `Listings.ByRetiredOrders` | src/cloudops_guard/ingestion_azure/postgres_metadata_store.py:635-675 | the sort row of the purge listing orders exactly by retirement time, then tenant, then ingestion id, in code-point order |
| `Listings.PrefixListsOldestRetired` | src/cloudops_guard/ingestion_azure/postgres_metadata_store.py:635-675 | the first limit of the listing are retired, unclaimed, each once and in that order, and no record left out retired before one listed |
| `Ordering.TextLeqExactly` | web/src/features/report-workspace/sorting.ts:54-58 | one text is no later than another exactly when they are equal, or at the first place they differ it ends or has the smaller unit |
| `PostgresStore.PostgresMetadataStore.constructor` | src/cloudops_guard/ingestion_azure/postgres_metadata_store.py:103-114 | empty tables stand for the empty store |
| `PostgresStore.PostgresMetadataStore.ExpireTombstoneIfNeeded` | src/cloudops_guard/ingestion_azure/postgres_metadata_store.py:119-142 | deleting the aged tombstone row and its record row mirrors the in-memory expiry |
| `PostgresStore.PostgresMetadataStore.ScanForFingerprint` | src/cloudops_guard/ingestion_azure/postgres_metadata_store.py:204-213 | the scan finds a row exactly when the index would have an entry, and the same one |
| `PostgresStore.PostgresMetadataStore.InsertRecord` | src/cloudops_guard/ingestion_azure/postgres_metadata_store.py:232-277 | the insert meets no primary key, CHECK or unique-index violation |
| `PostgresStore.PostgresMetadataStore.RowFits` | src/cloudops_guard/ingestion_azure/migrations/0001_metadata_store.sql:16-47 | no table constraint stands in the way of a row whose key and fingerprint are free |
| `PostgresStore.PostgresMetadataStore.CreateOrGetReceived` | src/cloudops_guard/ingestion_azure/postgres_metadata_store.py:146-279 | same answer as the in-memory create with one clock reading, and the tables stand for its new state |
| `PostgresStore.PostgresMetadataStore.GetReceived` | src/cloudops_guard/ingestion_azure/postgres_metadata_store.py:281-295 | as in memory |
| `PostgresStore.PostgresMetadataStore.GetAny` | src/cloudops_guard/ingestion_azure/postgres_metadata_store.py:297-311 | as in memory |
| `PostgresStore.PostgresMetadataStore.Retire` | src/cloudops_guard/ingestion_azure/postgres_metadata_store.py:313-344 | as in memory, but a time before receipt is refused by a CHECK constraint |
| `PostgresStore.PostgresMetadataStore.Purge` | src/cloudops_guard/ingestion_azure/postgres_metadata_store.py:346-419 | as in memory; the plain tombstone insert never meets an existing row |
| `PostgresStore.PostgresMetadataStore.Begin` | src/cloudops_guard/ingestion_azure/postgres_metadata_store.py:421-502 | as in memory; the plain claim insert never meets an existing row |
| `PostgresStore.PostgresMetadataStore.InsertClaim` | src/cloudops_guard/ingestion_azure/migrations/0001_metadata_store.sql:79-87 | a plain insert violates the primary key exactly when the key has a claim already |
| `PostgresStore.PostgresMetadataStore.ReleaseClaim` | src/cloudops_guard/ingestion_azure/postgres_metadata_store.py:504-516 | as in memory |
| `PostgresStore.PostgresMetadataStore.FinalizeClaim` | src/cloudops_guard/ingestion_azure/postgres_metadata_store.py:518-572 | as in memory, rebuilding the deleted row; the final UPDATE always finds its row |
| `PostgresStore.PostgresMetadataStore.TombstoneFor` | src/cloudops_guard/ingestion_azure/postgres_metadata_store.py:574-588 | as in memory |
| `PostgresStore.PostgresMetadataStore.ListExpiredForRetentionSweep` | src/cloudops_guard/ingestion_azure/postgres_metadata_store.py:618-633 | the same listing as in memory |
| `PostgresStore.PostgresMetadataStore.ListRetiredForPurgeSweep` | src/cloudops_guard/ingestion_azure/postgres_metadata_store.py:635-675 | the limit retired, unclaimed records with the earliest retirement times, in order of time, tenant and ingestion id; a non-positive limit is refused |
| `Agreement.WordedDiffersExactly` | src/cloudops_guard/ingestion_azure/postgres_metadata_store.py:313-344 | the two stores word a refusal differently exactly when a received record is to be retired before its receipt |
| `Agreement.EarlyRetirementWorded` | src/cloudops_guard/ingestion_azure/postgres_metadata_store.py:313-344 | the run that shows it: created at 5, retired at 4 |
| `Agreement.PerformInMemory` | src/cloudops_guard/ingestion/reference.py:162-551 | one call on the in-memory store takes exactly the specified step and gives the specified answer |
| `Agreement.PerformOnTables` | src/cloudops_guard/ingestion_azure/postgres_metadata_store.py:146-588 | one call on the tables takes the same step and gives the same answer, up to that wording |
| `Agreement.RunBoth` | src/cloudops_guard/ingestion_azure/postgres_metadata_store.py:146-588 | over every call sequence the tables answer what the in-memory store answers, up to that one wording, and equally when no such retirement is asked for |
| `StorageKeys.DeriveInjective` | src/cloudops_guard/ingestion/storage_keys.py:24-58 | two accepted identities never share a storage key |
| `StorageKeys.StorageKeyIsSafePath` | src/cloudops_guard/ingestion/storage_keys.py:24-58 | an accepted key is one two-segment relative path without dot segments |
| `StorageKeys.DeriveExactly` | src/cloudops_guard/ingestion/storage_keys.py:24-58 | a key is derived exactly when neither identifier is empty, over 256 characters, a lone dot, holds NUL, a slash, a backslash or two dots in a row, or starts or ends with white space |
| `Coordinator.CreateIngestion` | src/cloudops_guard/ingestion_api/coordinator.py:88-181 | run alone, the blob map ends as it began plus one entry with the report bytes at the new record's key if and only if the record was created; a round is retried exactly when its storage key or its id is taken; for the deciding round exactly one outcome fits what is stored: the existing record of that content, the key conflict, or a new record with exactly the report's fields |
| `Coordinator.OnlyConflicts` | src/cloudops_guard/ingestion_api/coordinator.py:146-165 | of the store's refusals only the two documented conflicts can reach the loop, never a precondition error |
| `ServiceSafety.NextKeepsInv` | src/cloudops_guard/ingestion_api/lifecycle.py:124-155 | every action of every request and purger keeps the cross-store invariant |
| `ServiceSafety.CrossStoreSafety` | src/cloudops_guard/ingestion_api/coordinator.py:106-179 | in every interleaving, with repeated ids, crashes, lost answers and arbitrary clocks, each received record's key holds exactly its creator's bytes |
| `ServiceSafety.DeletesOnlyTheirOwn` | src/cloudops_guard/ingestion_api/lifecycle.py:124-155 | a purger about to delete holds the active claim on a retired record whose own bytes are there; an undo deletes only its own reservation |
| `ServiceFaults.FailedFinalizeBreaks` | src/cloudops_guard/ingestion_api/lifecycle.py:141-155 | if finalize_purge may raise without committing, a concrete run ends with a received record whose bytes are gone |
| `ServiceFaults.LingeringDeleteBreaks` | src/cloudops_guard/ingestion_api/lifecycle.py:128-140 | if a delete that raised may take effect later, the same happens |
| `ServiceFaults.SafetyExactly` | src/cloudops_guard/ingestion_api/lifecycle.py:124-155 | every reachable state is safe if and only if neither fault is possible |
| `ServicePurges.DeletedMeansErased` | src/cloudops_guard/ingestion_api/lifecycle.py:55-59 | in every run without mark_purged calls, under any store failures, no record says deleted while the bytes of its own generation are there |
| `ServicePurges.NextKeepsPurgeInv` | src/cloudops_guard/ingestion_api/lifecycle.py:124-155 | every action keeps that, and that a purger past its delete has erased what its claim would finalize |
| `ServicePurges.StoredKeysAreValid` | src/cloudops_guard/ingestion_api/coordinator.py:106-109 | every key the service ever stores is one a storage key is derived from, under any store failures |
| `ServiceAlone.CreateAlone` | src/cloudops_guard/ingestion_api/coordinator.py:88-181 | create_ingestion run from beginning to end and the service's actions for one request, one after another, leave the same two stores |
| `ServiceAlone.RequestEnds` | src/cloudops_guard/ingestion_api/coordinator.py:106-181 | the actions of a request alone end it in its deciding round, with the store step and the blob that create_ingestion leaves, or after five retries with neither |
| `ServiceAlone.PurgeAlone` | src/cloudops_guard/ingestion_api/lifecycle.py:49-155 | purge_retired_ingestion and the service's actions for one purge leave the same two stores, whichever store raises |
| `ServiceAlone.PurgeTurns` | src/cloudops_guard/ingestion_api/lifecycle.py:124-155 | what the actions of a purge alone leave in the two stores, for every ending |
| `Lifecycle.RunRetentionSweep` | src/cloudops_guard/ingestion_api/lifecycle.py:18-46 | retires for their age exactly the received records from before the cutoff, every field told, and returns them by receipt time; every other record is as it was. Refused exactly when one was received after the sweep's time, so never for a non-negative period, and then exactly the candidates before that one are retired |
| `Lifecycle.PurgeRetiredIngestion` | src/cloudops_guard/ingestion_api/lifecycle.py:49-155 | each way a purge can end, with the exact store and blob state it leaves; a granted claim is still held afterwards exactly when no storage key is derived from the identifier |
| `Lifecycle.SlashedClaimStays` | src/cloudops_guard/ingestion_api/lifecycle.py:124-140 | a record with id a/b, created and retired, is granted a claim but no storage key; with that claim held no later purge is granted one |
| `Lifecycle.GrantedEndings` | src/cloudops_guard/ingestion_api/lifecycle.py:124-155 | a granted claim released leaves the store as it was but for the used claim id; finalized, it deletes exactly the record, every field of record and tombstone told |
| `PurgeSweep.RunPurgeSweep` | src/cloudops_guard/ingestion_azure/purge_sweep.py:76-139 | the three result lists partition the candidates whatever others do in between; undisturbed, each candidate meets its own ending independent of the others and nothing else changes; with no fault ahead it purges exactly the min(batch, n) records with the earliest retirement times |
| `PurgeSweep.ReportPartitions` | src/cloudops_guard/ingestion_azure/purge_sweep.py:105-139 | any outcomes put each candidate in exactly one list |
| `PurgeSweep.ReportSays` | src/cloudops_guard/ingestion_azure/purge_sweep.py:105-139 | each candidate is reported under its own outcome: purged, unavailable, or failed with what was raised |
| `PurgeSweep.FaultFreeIsPurged` | src/cloudops_guard/ingestion_azure/purge_sweep.py:105-139 | a candidate is purged exactly when the time is not before its retirement, a storage key is derived, and neither store raises |
| `PurgeSweep.SweepRepeatedly` | src/cloudops_guard/ingestion_azure/purge_sweep.py:38-44 | sweeps run one after another, undisturbed and without faults, empty the backlog of n exactly from the ceil(n / batch)-th on, and purge exactly what has left it |
| `Authentication.InMemoryAttemptLimiter.RecordFailure` | src/cloudops_guard/ingestion/reference.py:658-660 | one more failure for the one scope |
| `Authentication.InMemoryAttemptLimiter.IsBlocked` | src/cloudops_guard/ingestion/reference.py:662-664 | blocked exactly from the threshold on |
| `Authentication.InMemoryRequestRateLimiter.CheckAndRecordRequest` | src/cloudops_guard/ingestion/reference.py:693-704 | admits and counts exactly below the threshold |
| `Authentication.AuthenticationCoordinator.Authenticate` | src/cloudops_guard/ingestion/authenticator.py:117-201 | an uninterrupted call is the flow of atomic steps run to its end; a principal is issued only for an unrevoked token whose secret matches, with that token record's lookup_id, tenant and scopes |
| `Authentication.AloneOutcome` | src/cloudops_guard/ingestion/authenticator.py:132-201 | the secret is checked exactly for unblocked, well-formed, known, unrevoked tokens; every failure is charged to exactly its own counters; the budget is used exactly by verified requests, and the principal has exactly the token record's lookup_id, tenant and scopes |
| `AuthenticationRuns.NextKeepsInv` | src/cloudops_guard/ingestion/authenticator.py:132-201 | every atomic step of any number of requests keeps both layers' accounts |
| `AuthenticationRuns.WorkBound` | src/cloudops_guard/ingestion/authenticator.py:157-175 | with at most k in flight, failed verifications for a lookup_id never exceed threshold + k - 1 |
| `AuthenticationTight.WorkBoundReached` | src/cloudops_guard/ingestion/authenticator.py:157-175 | that bound is attained for every threshold and k |
| `AuthenticationRuns.BudgetExactly` | src/cloudops_guard/ingestion/authenticator.py:186-201 | principals issued for a lookup_id are exactly the first tokenThreshold verified requests; the budget is charged once per verified request and never otherwise |
| `AuthenticationRuns.VerifiedWasLive` | src/cloudops_guard/ingestion/authenticator.py:140-168 | a secret is only ever checked for a well-formed token found known and unrevoked while its request was in flight, in every interleaving with provisioning and revocation |
| `AuthenticationRuns.PrincipalIsARecords` | src/cloudops_guard/ingestion/authenticator.py:140-201 | in every interleaving a principal has the lookup_id, tenant and scopes of a token record that stood unrevoked when its request looked the token up, and whose hash the secret matches |
| `Limiters.PostgresRequestRateLimiter.CheckAndRecordRequest` | src/cloudops_guard/ingestion_azure/postgres_request_rate_limiter.py:58-74 | insert or bounded increment of the aligned window's row |
| `Limiters.PostgresRequestRateLimiter.CleanupExpired` | src/cloudops_guard/ingestion_azure/postgres_request_rate_limiter.py:76-88 | removes exactly the rows of windows that began before now - max_age and counts them |
| `Limiters.WindowAdmits` | src/cloudops_guard/ingestion_azure/postgres_request_rate_limiter.py:26-38 | without cleanups a window admits exactly what its budget has left, whatever the clock does |
| `Limiters.WindowBudget` | src/cloudops_guard/ingestion_azure/postgres_request_rate_limiter.py:26-88 | each aligned window admits exactly what is asked of it up to the threshold, cleanups included |
| `Limiters.SpanBudget` | src/cloudops_guard/ingestion_azure/postgres_request_rate_limiter.py:26-88 | any span no longer than the window admits at most twice the threshold |
| `Limiters.SpanBudgetIsTight` | src/cloudops_guard/ingestion_azure/postgres_request_rate_limiter.py:26-88 | twice the threshold is reached across a window boundary |
| `Limiters.RateCleanupUnseenExactly` | src/cloudops_guard/ingestion_azure/postgres_request_rate_limiter.py:76-88 | cleaning up at an age changes no answer of any forward run if and only if the age falls short of the window by at most one microsecond |
| `Attempts.PostgresAttemptLimiter.RecordFailure` | src/cloudops_guard/ingestion_azure/postgres_attempt_limiter.py:50-61 | one more row for the scope at the instant, none lost |
| `Attempts.PostgresAttemptLimiter.IsBlocked` | src/cloudops_guard/ingestion_azure/postgres_attempt_limiter.py:63-82 | blocked exactly when threshold rows of the scope are younger than the window; on a forward clock, with nothing younger than the window cleaned up, exactly when the failures recorded within the last window number at least threshold |
| `Attempts.PostgresAttemptLimiter.CleanupExpired` | src/cloudops_guard/ingestion_azure/postgres_attempt_limiter.py:84-102 | every row younger than max_age stays, as often as it was there, every older one goes; the number gone is returned |
| `Attempts.BlockedByRecentFailures` | src/cloudops_guard/ingestion_azure/postgres_attempt_limiter.py:50-82 | blocked exactly when the history holds threshold failures younger than the window; cleanups change nothing |
| `Attempts.AttemptCleanupUnseenExactly` | src/cloudops_guard/ingestion_azure/postgres_attempt_limiter.py:84-102 | cleaning up at an age changes no answer if and only if the age falls short of the window by at most one microsecond |
| `JsonText.StringifyParses` | web/src/features/comparison/fingerprint.ts:26-55 | every array of strings and nulls is read back from its JSON text, surrogates and control characters included |
| `JsonText.EscapedSamples` | web/src/features/comparison/fingerprint.ts:26-55 | the escapes JSON.stringify writes: two-character ones, lower-case hexadecimal for control characters and lone surrogates; everything else stays |
| `JsonText.StringifiedSample` | web/src/features/comparison/fingerprint.ts:26-55 | the text of a string and a null, character by character |
| `Fingerprint.FingerprintsIdentify` | web/src/features/comparison/fingerprint.ts:26-59 | two findings share a fingerprint exactly when platform and all identity fields agree, null differing from "null" |
| `Matching.GroupByFingerprint` | web/src/features/comparison/compare.ts:44-56 | one group per fingerprint present, holding its findings in input order |
| `Matching.MatchFindings` | web/src/features/comparison/compare.ts:58-105 | results are the pairings of all fingerprints of either side, in code-unit order |
| `Matching.PairGroups` | web/src/features/comparison/compare.ts:76-102 | result by result: the i-th older with the i-th newer while both last, then the rest of the longer side, resolved or new |
| `Matching.ComputeStatusTotals` | web/src/features/comparison/compare.ts:107-123 | the totals are the counts of the three statuses |
| `Compare.CompareFindings` | web/src/features/comparison/compare.ts:132-143 | the matches of the two reports' findings, with the counts of their statuses as totals |
| `Compare.MatchesConserve` | web/src/features/comparison/compare.ts:58-105 | the results' older findings are exactly the older input as a multiset, likewise the newer |
| `Compare.MatchesWellPaired` | web/src/features/comparison/compare.ts:76-102 | status, sides and displayed finding fit together; both sides of a pair share the fingerprint |
| `Compare.TotalsAreSums` | web/src/features/comparison/compare.ts:107-123 | the totals are the sums over fingerprints of min(o, n), o beyond n and n beyond o |
| `Compare.MatchesForgetOrder` | web/src/features/comparison/compare.ts:58-105 | if fingerprint and sort row tell items apart, reordering the inputs changes nothing about the results |
| `Compare.FindingsDistinguished` | web/src/features/report-workspace/sorting.ts:70-167 | within one fingerprint the comparator chain ties only identical findings |
| `Compare.ComparisonForgetsOrder` | web/src/features/comparison/compare.ts:58-105 | reordering either report's findings gives the same results in the same order |
| `ComparisonOrder.ChainOrders` | web/src/features/report-workspace/sorting.ts:70-167 | within one fingerprint the comparator chain is the order on the fields: more severe first, then title, evidence, impact, recommendation and time in code-unit order, then not auto-remediable first |
| `ComparisonOrder.ComparisonPairsFirst` | web/src/features/comparison/compare.ts:58-105 | results come by fingerprint in code-unit order; within one, pairs before leftovers, leftovers of one side only, either side in the order of its fields, so the last of the longer side are left over |
| `Compare.MatchesSwap` | web/src/features/comparison/compare.ts:58-105 | swapping the inputs swaps new with resolved and the sides of each pair, in place |
| `BranchPattern.ReplacingIsTranslating` | src/cloudops_guard/checks/gitlab.py:87-88 | escaping and then replacing the escaped star equals translating character by character, backslashes included |
| `BranchPattern.TranslationParses` | src/cloudops_guard/checks/gitlab.py:66-89 | the generated regular expression means the pattern's literals and runs and nothing else |
| `BranchPattern.MatchesExactly` | src/cloudops_guard/checks/gitlab.py:66-89 | a name matches exactly when it is the pattern with each star replaced by some text |
| `BranchPattern.ExactPattern` | src/cloudops_guard/checks/gitlab.py:71-74 | a pattern without a star matches only itself |
| `BranchPattern.MatchingRulesExactly` | src/cloudops_guard/checks/gitlab.py:92-108 | every rule whose name matches the default branch, as often as it occurs, and no other |
| `BranchPattern.MatchingKeepsOrder` | src/cloudops_guard/checks/gitlab.py:92-108 | the rules keep their order |
| `StrictJson.ValidateDecodedDocument` | src/cloudops_guard/ingestion/strict_json.py:133-160 | the explicit-stack walk terminates and accepts exactly the documents in which everything, keys included, is at most 64 levels down, free of surrogates and, if a number, finite and exact |
| `StrictJson.AcceptsExactly` | src/cloudops_guard/ingestion/strict_json.py:133-160 | the recursive rule accepts exactly those documents; lying inside is defined on the document alone, an item, a key or a value being one level down |
| `StrictJson.ChildrenExactly` | src/cloudops_guard/ingestion/strict_json.py:147-158 | what the walk pushes for a value is every item, key and value directly inside it, one level down, and nothing else |
| `StrictJson.ObjectPairsHook` | src/cloudops_guard/ingestion/strict_json.py:96-108 | accepts exactly distinct keys and keeps every pair |
| `Migrations.LoadMigrationFiles` | src/cloudops_guard/ingestion_azure/migration_runner.py:95-122 | sorted strictly ascending, or refused exactly when a version repeats |
| `Migrations.MigrationRunner.RunMigrations` | src/cloudops_guard/ingestion_azure/migration_runner.py:149-183 | the loop over a table read once equals the recursive run |
| `Migrations.RunExecutes` | src/cloudops_guard/ingestion_azure/migration_runner.py:149-183 | however a run ends: the SQL executed is exactly what it answers, in ascending order, once each, with its checksum recorded; nothing applied before is touched; everything packaged before the place it stopped is applied |
| `Migrations.RerunCompletes` | src/cloudops_guard/ingestion_azure/migration_runner.py:149-183 | an interrupted run and its rerun together do exactly what one uninterrupted run does, failures included |
| `Migrations.InterruptionsForgotten` | src/cloudops_guard/ingestion_azure/migration_runner.py:149-183 | any number of interrupted runs leaves the final table, SQL order and verdict unchanged |
| `Migrations.FinishesExactly` | src/cloudops_guard/ingestion_azure/migration_runner.py:149-183 | a run succeeds exactly when nothing drifted; then everything packaged is applied with its checksum; nothing else is added or changed |
| `Migrations.SecondRunIdle` | src/cloudops_guard/ingestion_azure/migration_runner.py:149-183 | once everything packaged is applied a run applies nothing |
| `Migrations.GateAcceptsExactly` | scripts/check_migration_compatibility.py:369-400 | the gate accepts a status report exactly when the applied version-to-checksum table equals the packaged one |
| `Migrations.GateAfterRun` | src/cloudops_guard/ingestion_azure/migration_runner.py:217-230 | after a successful run the gate accepts exactly when nothing unpackaged had been applied before |
| `Migrations.ReportLists` | src/cloudops_guard/ingestion_azure/migration_runner.py:186-235 | each list of the status report holds exactly the versions it is named for, ascending, and up_to_date says that the applied table is the packaged one |
| `Migrations.GateDemands` | scripts/check_migration_compatibility.py:369-400 | whatever document it is shown, the gate accepts exactly those with all six fields, three empty lists and the flag true |
| `Migrations.GateNames` | scripts/check_migration_compatibility.py:369-400 | refusing a report the gate names what is wrong first: something pending, then drifted, then unpackaged |
| `Unicode.DecodeEncoded` | src/cloudops_guard/collectors/gitlab.py:240-248 | strict UTF-8 decoding gives back what was encoded |
| `Unicode.DecodeExactly` | src/cloudops_guard/collectors/gitlab.py:240-248 | a byte sequence decodes to a text exactly when it is the encoding of that text: no surrogate, no overlong form |
| `ProjectPath.UnquoteQuoted` | src/cloudops_guard/collectors/gitlab.py:240-265 | unquoting a quoted text gives it back |
| `ProjectPath.CanonicalDecodes` | src/cloudops_guard/collectors/gitlab.py:232-265 | the canonical form of an accepted path decodes to exactly the path the input denotes |
| `ProjectPath.CanonicalIdentifies` | src/cloudops_guard/collectors/gitlab.py:232-265 | accepted paths have the same canonical form exactly when they denote the same path |
| `ProjectPath.SpellingsAgree` | src/cloudops_guard/collectors/gitlab.py:192-265 | a trimmed, percent-free, non-numeric path and its percent-encoded spelling canonicalize alike or are refused for the same reason |
| `ProjectPath.CanonicalIsFixedExactly` | src/cloudops_guard/collectors/gitlab.py:192-265 | canonicalizing twice changes nothing exactly when the path the input denotes does not look like a number, or looks like one without sign and leading zeros |
| `ProjectPath.Escaped012IsNotFixed` | src/cloudops_guard/collectors/gitlab.py:192-265 | the input that shows it: %30%31%32 becomes 012, and 012 becomes 12 |
| `PathRules.SplitExactly` | src/cloudops_guard/collectors/gitlab.py:255-260 | the segments split yields are exactly the stretches between slashes and the ends |
| `PathRules.ProblemIsFirstObjection` | src/cloudops_guard/collectors/gitlab.py:244-260 | a decoded path is refused for the first thing wrong with it, in the order of the checks, each told on its characters; it is fine exactly when nothing is |
| `PathRules.AcceptedExactly` | src/cloudops_guard/collectors/gitlab.py:232-265 | a path is accepted exactly when its text and what it denotes have none of the faults: a URL, control characters, a percent sign without two hexadecimal digits, invalid UTF-8, a backslash, an empty, dot or dot-dot segment |
| `PathRules.QuotedByte` | src/cloudops_guard/collectors/gitlab.py:262-265 | quoting leaves letters, digits, underscore, dot, hyphen and tilde and writes any other byte as a percent sign and two upper-case hexadecimal digits |
| `PathRules.CanonicalCharacters` | src/cloudops_guard/collectors/gitlab.py:262-265 | no slash is left in a canonical path: it is one path segment |
| `PathRules.NumbersAgree` | src/cloudops_guard/collectors/gitlab.py:209-229 | a positive number and its decimal text have that text as canonical form; zero, negative numbers and signed texts are refused |
| `PathRules.WordsAreTrimmed` | src/cloudops_guard/collectors/gitlab.py:209-221 | an identifier in words comes to what it comes to without the white space at its ends; white space alone is refused as empty |
| `PathRules.StripExactly` | src/cloudops_guard/collectors/gitlab.py:214-216 | what is stripped is white space at either end, all of it |

## Left out

- HTTP and ASGI plumbing, routing, logging, connection pools, Azure SDK calls, configuration loading and the command-line tools: I/O around the core.
- Argon2, SHA-256, HMAC and RFC 8785 canonicalization: secret verification and token parsing are arbitrary functions, fingerprints and scope keys are given texts; nothing but determinism is assumed.
- Timezone-naive timestamps: every instant here is comparable.
- Database connection errors, gaps in sequences after a rollback, collation of `ORDER BY` on text (code-point order is used) and the advisory locks themselves: a transaction is one atomic step.
- Migration SQL: a migration is its version and checksum; a failing one is an interruption, rolled back.
- Filename parsing of migrations, and integers of more than 4300 digits, which `int()` refuses.
- Unpaired `ReportBlobStore.put`, `register_for_testing` and `reset_for_testing`: not on any modelled path.
- `authorize` and the capabilities check: one membership or limiter test each.
- `assertComparable`: timestamp parsing and plain equality tests before the matching.
- json.loads itself, and the decoding of bytes before it: the walk starts from the decoded document.
- U+0000 in an identifier, fingerprint or idempotency key: a PostgreSQL text cannot hold it and the adapter raises, where the tables here take any text.
- A blob delete that raises is taken to have had no effect, unless `Faults.deletesMayLinger` says otherwise; a put that raises is a put followed by the request's end, or nothing.
- ServiceSafety.CrossStoreSafety: assumes the two faults of `SafetyExactly` away, because with either it is false.
- Agreement.RunBoth: assumes one clock reading per create, because a transaction has one.
- PurgeSweep.RunPurgeSweep: other callers act between candidates, not inside one purge; `Service` covers the interleavings inside.
- Limiters.WindowBudget: assumes a clock that never goes back; with cleanups a clock that does can reopen a window.
- Window arithmetic in binary floating point: windows are whole microseconds here.
- The OCI archive validator, the other GitLab and Kubernetes checks, report rendering and endpoint URL validation: mostly single-branch logic, or built on parsers that are not part of this model.
