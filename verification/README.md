# HNB protocols and encodings, modelled in Dafny

HNB is a cloud operations platform. This project models the parts of it that are protocols or
encodings and proves what holds of them over every input, every run and every interleaving:

- the signing-key lifecycle: a process polls a versioned manifest, checks it against its last good
  snapshot, records it in a store shared with other processes, and swaps the snapshot;
- the duplicate-field scanner that guards the manifest, against JSON trees (section 4 of RFC 8259);
- the semantic payload of GSLB intents, a text encoding that is hashed to recognise equal intents;
- the release manifest and the release_artifacts rows, two copies of one list kept by several
  transactions, and the artifact garbage collector beside them;
- the agent tunnel: request matching over one-slot channels, and the registry of connections;
- the circuit breaker and the connection pool of the cluster router;
- refresh-token rotation, access and agent-tunnel tokens (sections 4.1.4 and 4.1.5 of RFC 7519), and
  how tokens and key rotation fit together;
- multipart upload assembly and route matching.

`dafny verify dfyconfig.toml` checks the whole project.

## How the model is built

Each component has functions on values that say what one operation does. Where the program keeps
state in place, a class holds that state and its methods are proved to do what the function says.
What the program promises is then proved of every sequence of steps. A critical section, a database
transaction or a guarded handler is one step; an operation that drops its lock in between is several.
Clocks, random identifiers, file contents and the printable-rune table are parameters. Loops over Go
maps are loops that pick any remaining element.

| files | component |
|---|---|
| `KeyManifests`, `KeyStores`, `KeyReloads`, `JsonFields`, `TokenKeys` | signing keys |
| `GslbPayload`, `Quoting` | GSLB intents |
| `ReleaseTables`, `ReleaseStore`, `ReleaseEffects`, `ReleaseRuns`, `ArtifactGc` | releases and artifacts |
| `TunnelRequests`, `TunnelRegistry` | agent tunnel |
| `CircuitBreakers`, `ConnectionPools` | cluster router |
| `RefreshTokens`, `AccessTokens`, `Permissions`, `RouteMatching` | tokens and authorization |
| `Multipart` | transfer gateway |
| `Options`, `Texts`, `Sets` | shared definitions |

## Where the code does less than one would expect

Each of these is a counterexample lemma beside the exact condition under which the property holds.

- Without a recorder a revoked key can be accepted again, because a manifest may drop a revoked key
  and a later one add it (`WithoutRecorderAcceptanceReturns`). Acceptance is one interval in every run
  exactly when there is a recorder: `OneIntervalExactlyWhen`.
- Drills and weight updates do not check the pool id, and a `|` in it makes two intents collide
  (`BarsInPoolsCollide`). Which intents share a payload: `PayloadsAgree`.
- Confirming an upload of an artifact that a draft lists only under other purposes adds a link and no
  manifest entry (`DivergenceIsReachable`). No other step takes the copies apart:
  `StepKeepsSyncExactlyWhen`, and `RunsStayInSyncExactlyWhen` for whole runs. Publishing is safe all the
  same, because it compares the lengths: `PublishedListsAttached`.
- A reference registration that is read and inserted in two steps can land on a deleted artifact
  (`SplitRegistrationCanMiss`). The late insert is the only way: `ReferencedExactlyWhenMissed`, and
  `RunsUnreferencedExactlyWhen` for whole runs.
- A second answer to one tunnel request can block its deliverer for ever (`SecondAnswerCanBlock`). When
  a deliverer is blocked for ever, and which steps and runs lead there: `BlockedForeverExactlyWhen`,
  `StepSticksExactlyWhen` and `RunSticksExactlyWhen`.
- A displaced agent connection is not restored when its replacement leaves (`DisplacedIsNotRestored`).
  What a cluster holds: `TunnelRegistry.EveryInterleaving`.
- A caller of Allow that saw the breaker open and acts after it was closed, by a reset
  (`ResetRaceWeakensProbe`) or by another caller's probes (`SecondCallerWeakensProbe`), makes it
  half-open with its failures forgotten, and a failed probe does not open it. That is the only way:
  `ReopeningKeptExactlyWhen`, `RunsReopenExactlyWhen` for whole runs, and
  `EveryRunReopensExactlyWhen` for the threshold.
- An access lifetime with a fraction of a second fails verification exactly when the fractions carry:
  `FractionalLifetimeCanFail` and `IssuedTokenWindow`.
- A route pattern that repeats a parameter name loses a segment on some path
  (`RepeatedNamesLoseSegments`). When filling gives back the path: `FillsExactlyWhenConsistent` for one
  path, `DistinctNamesIsExact` for all.

## Model

| member | source | states |
|---|---|---|
| `KeyManifests.ForwardIsClosure` | pkg/iam/key_manifest.go:237-251 | the order pending, active, retiring, then revoked or expired is the reflexive and transitive closure of the status table, and three table steps reach whatever any number can |
| `KeyManifests.StatusComesFrom` | pkg/iam/key_manifest.go:237-251 | which statuses each status may come from; an active key cannot expire before it retires |
| `KeyManifests.CheckManifest` | pkg/iam/key_manifest.go:305-341 | the loader's visit of the entries in any order, counting active ones, accepts exactly the manifests whose entries are all valid and whose single active key is the named one |
| `KeyManifests.LoadableHasOneActive` | pkg/iam/key_manifest.go:308-341 | in a manifest that loads, the named key is active and no other is |
| `KeyManifests.CheckTransition` | pkg/iam/key_manifest.go:218-235 | accepts exactly the manifests in which no live key disappears and no key moves back or changes identity |
| `KeyReloads.ReadPublicKeys` | pkg/iam/key_manifest.go:176-188 | reading the key files in any order succeeds exactly when all can be read, and yields each key's own file |
| `KeyReloads.ExamineFiles` | pkg/iam/key_manifest.go:148-203 | the checks before recording: refused, unchanged, or a candidate snapshot |
| `KeyReloads.CandidateExactlyWhen` | pkg/iam/key_manifest.go:148-203 | a reload takes over exactly a loadable manifest that is newer than the current one and may replace it, with all key files readable and the private key fitting where one is used; it counts as unchanged exactly when it equals the current one; the candidate holds each key's own file |
| `KeyReloads.ReloadingKeySet.Reload` | pkg/iam/key_manifest.go:148-216 | a refused reload keeps the last good snapshot and counts a failure; the same content changes nothing; a candidate is installed exactly when it is recorded, and the store changes exactly then |
| `KeyReloads.RunIsSound` | pkg/iam/key_manifest.go:148-216 | in every run the installed snapshot has the configured issuer, a positive generation, 1 to 64 keys with a public key each, the named key active, a private key exactly when the key set signs and then the active one's, and no active or retiring key before its window |
| `KeyReloads.InstalledEntriesFitTheClock` | pkg/iam/key_manifest.go:308-341 | at every step that installs a manifest, active and retiring keys are in their windows, pending ones not past theirs, expired ones past it |
| `KeyReloads.GenerationNeverFalls` | pkg/iam/key_manifest.go:157-169 | in every run, with or without a recorder, an installed snapshot stays, its generation never falls, and equal generations mean equal manifests |
| `KeyReloads.ListedKeysStay` | pkg/iam/key_manifest.go:218-235 | until a loaded manifest ends it, a listed key stays listed with its file and window, pending ones included, and its status only moves forward |
| `KeyReloads.SigningKeyIsAccepted` | pkg/iam/key_manifest.go:253-277 | whatever CurrentSigningKey returns is accepted by VerificationKey at that instant, with the same public key |
| `KeyReloads.SigningExactlyWhen` | pkg/iam/key_manifest.go:253-264 | in every run a key set has a signing key exactly when it signs and its active key's window has not ended, and it is that key |
| `KeyReloads.AcceptedExactlyWhen` | pkg/iam/key_manifest.go:266-277 | in every run a key id is accepted exactly when the snapshot lists it as active or retiring and its window has not ended, with the key of its own file |
| `KeyReloads.NoEarlyRejection` | pkg/iam/key_manifest.go:218-277 | a key that was active stays accepted until the end of its window unless a loaded manifest revokes it, with or without a recorder |
| `KeyReloads.RunIsBacked` | pkg/iam/key_manifest.go:148-216 | with a recorder, every installed key has a stored row at least as far along, with the same metadata |
| `KeyReloads.LossIsRecorded` | pkg/iam/key_manifest.go:253-277 | with a recorder, a key that stopped being accepted has left a reason in the store or on the clock |
| `KeyReloads.LostForever` | pkg/iam/key_manifest.go:148-277 | that reason lasts: such a key is rejected at every later step |
| `KeyReloads.AcceptanceIsOneInterval` | pkg/iam/key_manifest.go:148-277 | with a recorder and a monotone clock, the steps at which a key id is accepted form one interval, although manifests may drop and add keys |
| `KeyReloads.WithoutRecorderAcceptanceReturns` | pkg/iam/key_manifest.go:218-235 | without a recorder, every configuration that can load at all has a run that revokes a key and accepts it again |
| `KeyReloads.OneIntervalExactlyWhen` | pkg/iam/key_manifest.go:204-209 | for every configuration that can load at all, every run accepts each key id over one interval if and only if there is a recorder |
| `KeyStores.IAMDBStore.MaxVersion` | pkg/iam/key_store.go:22-25 | the greatest version stored for one issuer, zero without rows |
| `KeyStores.StoredGeneration` | pkg/iam/key_store.go:22-25 | an upper bound of the issuer's versions that one of its rows attains |
| `KeyStores.StoredGenerationIsUnique` | pkg/iam/key_store.go:22-25 | only one number is that maximum |
| `KeyStores.IAMDBStore.RecordKeyManifest` | pkg/iam/key_store.go:13-35 | the transaction records every key of the manifest with its lifecycle events, or changes nothing; it commits exactly when each key can be recorded and the generation is not old |
| `KeyStores.AcceptsNewerExactlyWhen` | pkg/iam/key_store.go:26-103 | a manifest newer than everything stored for its issuer is accepted if and only if every known key keeps its file and window and makes an allowed status change, and every new key has a known status and a proper window |
| `KeyStores.AcceptsSameExactlyWhen` | pkg/iam/key_store.go:37-103 | a manifest of the stored generation is accepted if and only if it brings no new key, every key keeps file and window and makes an allowed status change, and none changes that this generation has already recorded |
| `KeyStores.OlderIsRefused` | pkg/iam/key_store.go:26-28 | a manifest older than the stored generation is never accepted |
| `KeyStores.RecordingLeavesOthers` | pkg/iam/key_store.go:13-103 | a recording leaves the rows and events of all other keys alone |
| `KeyStores.OneMoreKey` | pkg/iam/key_store.go:37-103 | recording one key changes only its row and appends only its events, so the order of the keys does not matter |
| `KeyStores.StepAdvances` | pkg/iam/key_store.go:13-103 | one recording, committed or not, moves versions and statuses only forward and only appends to the log |
| `KeyStores.StoreOnlyAdvances` | pkg/iam/key_store.go:13-103 | over every run of every number of processes the stored generation never decreases, statuses only move forward with metadata unchanged, and the log only grows |
| `KeyStores.RecordingKeepsLog` | pkg/iam/key_store.go:37-118 | a recording keeps the last event of every key in agreement with its row |
| `KeyStores.LastEventTellsStatus` | pkg/iam/key_store.go:37-118 | over every run the last lifecycle event of a key determines its status |
| `KeyStores.HistorySpellsLifecycle` | pkg/iam/key_store.go:37-118 | over every run a key's events begin with its creation, never repeat, only move forward, and never go straight from active to expired |
| `KeyStores.RecordingSettles` | pkg/iam/key_store.go:37-103 | after a recording each key's row has the manifest's status, generation, file and window, and recording it again would change nothing |
| `KeyStores.RecordingIsIdempotent` | pkg/iam/key_store.go:37-103 | recording the same manifest again is accepted and leaves the whole store, rows and log, as it is |
| `JsonFields.RejectDuplicateFields` | pkg/iam/key_manifest.go:360-413 | the stack loop computes the verdict of the token-by-token machine |
| `JsonFields.ScansValue` | pkg/iam/key_manifest.go:368-411 | reading one value in any context passes exactly when the value repeats no name, and then completes exactly one value of that context |
| `JsonFields.ScannerIsExact` | pkg/iam/key_manifest.go:360-413 | for every JSON value the scanner accepts its tokens exactly when no object at any depth repeats a field name |
| `JsonFields.ScannerIsExactOnFiles` | pkg/iam/key_manifest.go:360-413 | the same for any number of values one after the other |
| `TokenKeys.SigningKeyIsServed` | pkg/iam/key_manifest.go:253-277 | the key id that signed at one step is served at every later step within its window while no manifest revokes it, with the public key read last from its file |
| `TokenKeys.FixedFilesServeTheSigner` | pkg/iam/key_manifest.go:176-188 | when key files are never rewritten, that is the key that signed |
| `TokenKeys.TokenOutlivesRotation` | pkg/iam/token.go:252-308 | given an unrevoked key within its window, an access token verifies after any sequence of reloads if and only if its own expiry is ahead and the last reading of the key file still found the key that signed |
| `TokenKeys.RejectedTokenStaysRejected` | pkg/iam/token.go:252-308 | with a recorder, a token whose key was accepted and is then rejected never verifies again |
| `Quoting.HexRoundTrip` | pkg/gslb/intent.go:206-216 | fixed-width hexadecimal reads back as the number it was made from |
| `Quoting.NatRoundTrip` | pkg/gslb/intent.go:206-216 | decimal text reads back as the number it was made from |
| `Quoting.IntTextIsInjective` | pkg/gslb/intent.go:206-216 | two integers with the same decimal text are equal, signs included |
| `Quoting.EscapeIsPrefixCode` | pkg/gslb/intent.go:206-216 | escaped runes form a prefix code whatever runes count as printable |
| `Quoting.EscapeAllIsInjective` | pkg/gslb/intent.go:206-216 | two strings with the same escaped text are equal |
| `Quoting.EscapeAllHidesQuotes` | pkg/gslb/intent.go:206-216 | inside escaped text every quote has a backslash before it |
| `GslbPayload.Validate` | pkg/gslb/intent.go:134-186 | the loop over the weights accepts exactly the valid intents, the weight total and the fields each kind needs included |
| `GslbPayload.WeightUpdateMovesTraffic` | pkg/gslb/intent.go:170-184 | a valid weight update names members with weights from 0 to 100 whose total, added up in any order, is positive |
| `GslbPayload.Sort` | pkg/gslb/intent.go:211 | the result is sorted and has the same elements equally often |
| `GslbPayload.SortedIsUnique` | pkg/gslb/intent.go:211 | two sorted lists with the same elements are equal |
| `GslbPayload.SemanticPayload` | pkg/gslb/intent.go:206-216 | collecting the weights in whatever order the map yields and sorting them gives the one payload of the intent |
| `GslbPayload.OrderDoesNotMatter` | pkg/gslb/intent.go:206-216 | two iteration orders of the weight map give the same payload |
| `GslbPayload.QuoteReadsBack` | pkg/gslb/intent.go:206-216 | reading left from a closing quote, the opening quote is determined by the text alone |
| `GslbPayload.WeightReadsBack` | pkg/gslb/intent.go:206-216 | the last weight can be read off the right end of any text that ends with a list of weights |
| `GslbPayload.WeightsReadBack` | pkg/gslb/intent.go:206-216 | the whole list of weights and the text before it are determined |
| `GslbPayload.WeightListDecidesMap` | pkg/gslb/intent.go:206-216 | equal weight lists come from equal weight maps |
| `GslbPayload.OuterFieldsReadBack` | pkg/gslb/intent.go:212-215 | kind, service and DR reference can be read off the two ends |
| `GslbPayload.MiddleReadsBack` | pkg/gslb/intent.go:206-216 | tenant with pool, and the weight map, can be read off the middle |
| `GslbPayload.PayloadsAgree` | pkg/gslb/intent.go:134-216 | for all valid intents, payloads are equal if and only if kind, service, weight map, DR reference and the text tenant-bar-pool are equal, whatever tenant and member names contain |
| `GslbPayload.PayloadIsInjective` | pkg/gslb/intent.go:134-216 | when no drill or weight update has a bar in its pool id, payloads are equal if and only if all six fields are |
| `GslbPayload.BarsInPoolsCollide` | pkg/gslb/intent.go:165-169 | two different valid drills with one payload |
| `ReleaseStore.InsertReferences` | pkg/appstore/store/repos.go:307-334 | the insertion loop yields one row for each reference in order, or stops at the first reference it cannot resolve |
| `ReleaseStore.CollectEntries` | pkg/appstore/store/artifact_repo.go:366-402 | the row loop yields one manifest entry for each row whose artifact belongs to the tenant, in position order |
| `ReleaseStore.AppendArtifact` | pkg/appstore/store/artifact_repo.go:325-348 | the search loop appends a runtime entry exactly when no entry has the digest |
| `ReleaseStore.AppStore.Create` | pkg/appstore/store/repos.go:281-319 | commits the new draft with its rows, or reports an error and commits nothing |
| `ReleaseStore.AppStore.Update` | cmd/app-market/main.go:583-604 | replaces a draft's manifest, digest and rows, or commits nothing; a published release is refused |
| `ReleaseStore.AppStore.Attach` | pkg/appstore/store/artifact_repo.go:113-145 | adds a runtime row after the last position and rebuilds the manifest, or commits nothing |
| `ReleaseStore.AppStore.Detach` | pkg/appstore/store/artifact_repo.go:147-169 | removes the artifact's rows and rebuilds the manifest, or commits nothing |
| `ReleaseStore.AppStore.RebuildManifest` | pkg/appstore/store/artifact_repo.go:366-402 | makes the manifest list the rows in position order and stores its new digest |
| `ReleaseStore.AppStore.Confirm` | pkg/appstore/store/artifact_repo.go:173-268 | completes the session, stores or finds the artifact, and adds it to the session's draft, or commits nothing; a completed session is answered again without change |
| `ReleaseStore.AppStore.PublishDraft` | pkg/appstore/store/repos.go:383-398 | publishes exactly when the conditional update matches: draft, rows present, lengths equal, all artifacts usable |
| `ReleaseEffects.RowsExactlyWhen` | pkg/appstore/store/repos.go:307-334 | references can be turned into rows if and only if every digest belongs to a usable artifact of the tenant and no two references name one digest for one purpose |
| `ReleaseEffects.CreateExactlyWhen` | pkg/appstore/store/repos.go:281-319 | creating commits if and only if the id is new and the manifest's list decodes, names SHA-256 digests, and can be turned into rows |
| `ReleaseEffects.CreateEffect` | pkg/appstore/store/repos.go:281-319 | the release is then the tenant's draft with that manifest and one row for each entry in order, and nothing else changed |
| `ReleaseEffects.PatchExactlyWhen` | cmd/app-market/main.go:583-604 | updating commits if and only if the release is the tenant's draft and the manifest can be stored |
| `ReleaseEffects.PatchEffect` | pkg/appstore/store/repos.go:400-435 | the draft then has that manifest and one row for each entry in order, and nothing else changed |
| `ReleaseEffects.DeleteEffect` | cmd/app-market/main.go:605-621 | deleting commits if and only if the release is the tenant's draft; it and its rows are gone, its sessions no longer name it, and nothing else changed |
| `ReleaseEffects.RebuildEffect` | pkg/appstore/store/artifact_repo.go:366-402 | rebuilding leaves everything but the one manifest alone, and that lists each row by its artifact's name, its digest and its purpose, in position order |
| `ReleaseEffects.AttachExactlyWhen` | pkg/appstore/store/artifact_repo.go:113-145 | attaching commits if and only if the release is the tenant's draft and the artifact is the tenant's, verified and active |
| `ReleaseEffects.AttachEffect` | pkg/appstore/store/artifact_repo.go:113-145 | attaching adds one runtime row behind all others, or none when the artifact has one, lists the rows in the manifest, and changes nothing else |
| `ReleaseEffects.DetachExactlyWhen` | pkg/appstore/store/artifact_repo.go:147-169 | detaching commits if and only if the release is the tenant's draft, the artifact is the tenant's, and some row names it |
| `ReleaseEffects.DetachEffect` | pkg/appstore/store/artifact_repo.go:147-169 | detaching leaves exactly the rows of other artifacts, by increasing position, lists them in the manifest, and changes nothing else |
| `ReleaseEffects.ConfirmExactlyWhen` | pkg/appstore/store/artifact_repo.go:173-268 | a confirmation commits if and only if its session was completed and its artifact is there, or the session is open, in time and for a draft that can be appended to, and the digest is known or the id free |
| `ReleaseEffects.ConfirmEffect` | pkg/appstore/store/artifact_repo.go:173-268 | completing a session names the tenant's artifact with the uploaded digest, the one there was or the uploaded one under its new id, and changes no other artifact or session |
| `ReleaseEffects.ConfirmLeavesOthers` | pkg/appstore/store/artifact_repo.go:173-268 | a confirmation changes no release but its session's |
| `ReleaseEffects.UploadEffect` | pkg/appstore/store/artifact_repo.go:240-256 | the session's release gains a runtime row behind all others and a manifest entry with the artifact's name, each unless it is there |
| `ReleaseEffects.PublishExactlyWhen` | pkg/appstore/store/repos.go:383-398 | in every run a release can be published if and only if it is the tenant's draft with attached artifacts, all usable, and its manifest lists just these |
| `ReleaseEffects.PublishEffect` | pkg/appstore/store/repos.go:383-398 | publishing changes the status and nothing else |
| `ReleaseRuns.LinksForRefs` | pkg/appstore/store/repos.go:321-334 | the rows made from references carry their digests, purposes and positions in order and name usable artifacts of the tenant |
| `ReleaseRuns.CreateKeepsOk` | pkg/appstore/store/repos.go:281-319 | creating keeps the table invariant and leaves manifest and rows equal |
| `ReleaseRuns.PatchKeepsOk` | pkg/appstore/store/repos.go:400-435 | updating keeps the table invariant and leaves manifest and rows equal |
| `ReleaseRuns.RebuildSyncs` | pkg/appstore/store/artifact_repo.go:366-402 | rebuilding makes manifest and rows equal whatever the rows are |
| `ReleaseRuns.AttachKeepsOk` | pkg/appstore/store/artifact_repo.go:113-145 | attaching keeps the table invariant and leaves manifest and rows equal |
| `ReleaseRuns.DetachKeepsOk` | pkg/appstore/store/artifact_repo.go:147-169 | detaching keeps the table invariant and leaves manifest and rows equal |
| `ReleaseRuns.UploadedLists` | pkg/appstore/store/artifact_repo.go:240-256 | an upload adds its digest to the end of each copy, or to neither, except that an artifact linked only under other purposes gains a row alone |
| `ReleaseRuns.UploadKeepsSyncExactlyWhen` | pkg/appstore/store/artifact_repo.go:240-256 | adding a stored artifact to a draft keeps the copies equal if and only if the artifact is not linked under other purposes only |
| `ReleaseRuns.ConfirmKeepsSyncExactlyWhen` | pkg/appstore/store/artifact_repo.go:173-268 | a confirmed upload keeps the copies of its release equal if and only if the tenant has no artifact with the uploaded digest that the release links under other purposes only |
| `ReleaseRuns.StepKeepsSyncExactlyWhen` | pkg/appstore/store/artifact_repo.go:113-402 | of all transactions, exactly such a confirmation takes the two copies of a release apart |
| `ReleaseRuns.RunsStayInSyncExactlyWhen` | pkg/appstore/store/artifact_repo.go:113-402 | for all purposes, every release has equal copies at every point of a run if and only if the run has no such confirmation |
| `ReleaseRuns.RunKeepsOk` | pkg/appstore/store/artifact_repo.go:113-402 | over every run rows stay ordered and name artifacts of the tenant, the manifest list is a subsequence of the rows in position order, and the stored digest is the hash of the stored manifest |
| `ReleaseRuns.RuntimeRunsStayInSync` | pkg/appstore/store/artifact_repo.go:113-402 | when all purposes are runtime, every run keeps manifest and rows equal in position order |
| `ReleaseRuns.PublishedListsAttached` | pkg/appstore/store/repos.go:383-398 | in every run and for all purposes, a release being published lists exactly its attached artifacts in order, at least one, each verified and active |
| `ReleaseRuns.PublishedRefuses` | pkg/appstore/store/artifact_repo.go:350-364 | every transaction on a published release changes nothing |
| `ReleaseRuns.PublishedIsImmutable` | cmd/app-market/main.go:583-621 | no sequence of steps changes a published release's manifest, digest, status or rows |
| `ReleaseRuns.DivergenceIsReachable` | pkg/appstore/store/artifact_repo.go:240-256 | a run after which manifest and rows differ |
| `ArtifactGc.GCRepo.CountBlockers` | pkg/appstore/store/gc_repo.go:73-76 | the count is the number of unexpired references of the artifact and tenant |
| `ArtifactGc.GCRepo.RegisterReference` | pkg/appstore/store/gc_repo.go:18-31 | adds or renews the reference exactly for an active artifact of the tenant |
| `ArtifactGc.GCRepo.ExecuteDeletion` | pkg/appstore/store/gc_repo.go:63-102 | tombstones an unreferenced active artifact and retains it, or changes nothing |
| `ArtifactGc.GCRepo.BeginSweep` | pkg/appstore/store/gc_repo.go:104-137 | starts a sweep when retention is over and nothing refers to the artifact; with a live reference it cancels and reactivates instead |
| `ArtifactGc.GCRepo.CompleteSweep` | pkg/appstore/store/gc_repo.go:139-147 | deletes the artifact and closes the tombstone of a sweep in progress |
| `ArtifactGc.RegisterExactlyWhen` | pkg/appstore/store/gc_repo.go:18-31 | a registration stores the reference with its expiry, and nothing else, exactly for an active artifact of its tenant |
| `ArtifactGc.ReferenceBlocksUntil` | pkg/appstore/store/gc_repo.go:73-76 | a registered reference blocks deletion until its expiry and no longer |
| `ArtifactGc.ExecuteExactlyWhen` | pkg/appstore/store/gc_repo.go:63-102 | a deletion is accepted if and only if the artifact is the tenant's and active, nothing live refers to it, its lock is free or lapsed, and the tombstone id is new; lock and tombstone then last for the retention, and nothing else changes |
| `ArtifactGc.PrepareExactlyWhen` | pkg/appstore/store/gc_repo.go:104-137 | in every run a retained tombstone past its retention starts its sweep when nothing live refers to the artifact, and otherwise is cancelled with the artifact active again; nothing else changes |
| `ArtifactGc.SweptPastRetention` | pkg/appstore/store/gc_repo.go:104-147 | over every run, what is being swept or was swept is past its retention |
| `ArtifactGc.RetentionIsKept` | pkg/appstore/store/gc_repo.go:80-114 | over all runs, a deletion executed at one instant is not swept before that instant plus its retention |
| `ArtifactGc.NoSecondDeletion` | pkg/appstore/store/gc_repo.go:80-87 | over all runs, no second deletion of an artifact is accepted before the first one's retention is over, cancelled or not |
| `ArtifactGc.RunStaysInStep` | pkg/appstore/store/gc_repo.go:63-147 | over every run, interrupted sweeps included, tombstones and artifact lifecycles agree |
| `ArtifactGc.ExactlyOnePending` | pkg/appstore/store/gc_repo.go:63-147 | a tombstoned artifact has exactly one retained or sweeping tombstone |
| `ArtifactGc.DeletedIsFinal` | pkg/appstore/store/gc_repo.go:63-147 | a deleted artifact stays deleted under every continuation |
| `ArtifactGc.SweepRecovers` | pkg/appstore/store/gc_repo.go:139-147 | a sweep interrupted between its two statements completes when run again |
| `ArtifactGc.SweepStartsUnreferenced` | pkg/appstore/store/gc_repo.go:104-137 | however registrations interleave, a sweep starts only when no reference of its artifact is live |
| `ArtifactGc.ReferencedExactlyWhenMissed` | pkg/appstore/store/gc_repo.go:18-147 | from every reachable state without live references on gone artifacts, a step makes one if and only if it is the insert of an unexpired reference by a registration that read the artifact before it was tombstoned |
| `ArtifactGc.RunsUnreferencedExactlyWhen` | pkg/appstore/store/gc_repo.go:18-147 | however registrations are split, a run has no live reference on a tombstoned or deleted artifact at any point if and only if it has no such late insert |
| `ArtifactGc.GoneIsNeverReferenced` | pkg/appstore/store/gc_repo.go:18-137 | with atomic registration, a tombstoned or deleted artifact never has an unexpired reference |
| `ArtifactGc.CancelNeedsMiss` | pkg/appstore/store/gc_repo.go:119-132 | without a late insert no tombstone is ever cancelled |
| `ArtifactGc.AtomicRunsNeverCancel` | pkg/appstore/store/gc_repo.go:119-132 | with atomic registration no tombstone is ever cancelled |
| `ArtifactGc.SplitRegistrationCanMiss` | pkg/appstore/store/gc_repo.go:18-31 | with registration in two steps some run leaves a live reference on a deleted artifact |
| `TunnelRequests.AgentConnection.Begin` | pkg/tunnel/server.go:172-180 | reserves the request id with an empty slot exactly when it is not pending |
| `TunnelRequests.AgentConnection.Finish` | pkg/tunnel/server.go:181-206 | a failed send, an answer, a closed connection or a timeout: returns the response exactly for an answer, and removes the pending entry |
| `TunnelRequests.AgentConnection.Lookup` | pkg/tunnel/server.go:209-219 | finds the slot of the pending request or reports that there is none |
| `TunnelRequests.EveryInterleaving` | pkg/tunnel/server.go:172-222 | under every interleaving there is one pending entry for each call in flight and no other, and a caller returns only a response with its own request id |
| `TunnelRequests.ResponsesAreAnswers` | pkg/tunnel/server.go:172-222 | over every run, what a slot holds or a caller returned is a response the agent gave |
| `TunnelRequests.DepartsExactlyWhen` | pkg/tunnel/server.go:193-206 | a call in flight departs exactly by a failed send, a received response, a closed connection or a timeout, and its result is the content of its own slot for a received response and none otherwise |
| `TunnelRequests.DepartedKeepsResult` | pkg/tunnel/server.go:181-206 | a departed call keeps its result and does not come back |
| `TunnelRequests.ClosedExactlyWhen` | pkg/tunnel/server.go:224-243 | a connection is seen closed exactly when it was closed |
| `TunnelRequests.SendDelivers` | pkg/tunnel/server.go:214-221 | a send puts the held response into the slot of the call it was looked up for, and changes nothing else |
| `TunnelRequests.RunKeepsApart` | pkg/tunnel/server.go:172-222 | when each id is answered at most once, no two deliverers hold the same request id and none holds the id of a filled slot |
| `TunnelRequests.DeliveriesNeverBlock` | pkg/tunnel/server.go:209-222 | when each id is answered at most once, a deliverer can always send |
| `TunnelRequests.StuckForever` | pkg/tunnel/server.go:220 | a deliverer at a full slot whose caller is leaving or has returned is blocked in every continuation |
| `TunnelRequests.UnstuckCanSend` | pkg/tunnel/server.go:198-206 | any other deliverer can still send in some continuation |
| `TunnelRequests.BlockedForeverExactlyWhen` | pkg/tunnel/server.go:172-222 | at every reachable point, a deliverer is blocked in every continuation if and only if the slot is full and its caller is leaving or has returned |
| `TunnelRequests.StepSticksExactlyWhen` | pkg/tunnel/server.go:172-222 | a step leaves the first deliverer blocked for ever if and only if a second response loses its reader at that step: a caller departs from a full slot that is aimed at, a departed caller's slot is filled while another aims at it, or a leaving caller with a full slot is looked up |
| `TunnelRequests.RunSticksExactlyWhen` | pkg/tunnel/server.go:172-222 | a run leaves no deliverer blocked for ever if and only if it has no such step |
| `TunnelRequests.AnsweringOnceNeverJams` | pkg/tunnel/server.go:209-222 | no run that answers each id at most once has such a step |
| `TunnelRequests.SecondAnswerCanBlock` | pkg/tunnel/server.go:209-222 | for every response, two answers with its id lead to a deliverer blocked in every continuation |
| `TunnelRegistry.AgentRegistry.CloseOnce` | pkg/tunnel/server.go:224-243 | the closed signal fires the first time and never again |
| `TunnelRegistry.AgentRegistry.RegisterConn` | pkg/tunnel/server.go:58-70 | installs the connection for its cluster and closes the one it displaces |
| `TunnelRegistry.AgentRegistry.UnregisterConn` | pkg/tunnel/server.go:72-82 | removes and closes the connection exactly when the cluster still holds it |
| `TunnelRegistry.EveryInterleaving` | pkg/tunnel/server.go:58-82 | under every interleaving each cluster holds the connection that registered last if it has not unregistered and none otherwise, every other registered connection is closed, and no closed signal fires twice |
| `TunnelRegistry.DisplacedUnregisterIsHarmless` | pkg/tunnel/client.go:86-99 | a displaced connection is closed already and its late Unregister leaves its replacement alone |
| `TunnelRegistry.DisplacedIsNotRestored` | pkg/tunnel/server.go:72-82 | a run in which a cluster has no connection although a displaced one never unregistered |
| `CircuitBreakers.CircuitBreaker.Allow` | pkg/router/circuit.go:35-57 | without interference an open breaker turns half-open and admits exactly after its timeout, and a call is admitted exactly when the breaker is left not open |
| `CircuitBreakers.CircuitBreaker.Success` | pkg/router/circuit.go:59-70 | counts probes when half-open and closes at the second, clearing failures |
| `CircuitBreakers.CircuitBreaker.Failure` | pkg/router/circuit.go:72-82 | counts the failure, notes its time, and opens at the threshold |
| `CircuitBreakers.CircuitBreaker.ResetBreaker` | pkg/router/circuit.go:90-95 | closes the breaker and clears its failures |
| `CircuitBreakers.EveryInterleaving` | pkg/router/circuit.go:35-95 | with Allow in two steps and every interleaving, closed means fewer failures than the threshold, open means at least as many, and half-open means fewer than two successes |
| `CircuitBreakers.ProbingKeptExactlyWhen` | pkg/router/circuit.go:35-95 | from every reachable state whose half-open breaker counts threshold failures, a step ends that if and only if a caller that saw the breaker open acts on it after it was closed and the timeout has passed |
| `CircuitBreakers.ReopeningKeptExactlyWhen` | pkg/router/circuit.go:35-95 | from every reachable state in which a failed probe reopens, a step ends that if and only if it is such a late caller and the counter is at least two short of the threshold |
| `CircuitBreakers.RunsProbeOkExactlyWhen` | pkg/router/circuit.go:35-95 | a half-open breaker counts threshold failures at every point of a run if and only if no step of the run revives a closed breaker |
| `CircuitBreakers.RunsReopenExactlyWhen` | pkg/router/circuit.go:35-95 | a failed probe reopens at every point of a run if and only if no step of the run weakens it |
| `CircuitBreakers.FailedProbeReopens` | pkg/router/circuit.go:35-95 | with Allow atomic, a half-open breaker counts at least threshold failures and one failed probe opens it again |
| `CircuitBreakers.FailuresAreCounted` | pkg/router/circuit.go:72-82 | the counter never exceeds its start plus the failures of the run |
| `CircuitBreakers.TripNeedsThresholdFailures` | pkg/router/circuit.go:72-82 | no run from a freshly closed breaker with fewer failures than the threshold ends open |
| `CircuitBreakers.ClosingClearsFailures` | pkg/router/circuit.go:59-95 | every step that closes the breaker leaves its failures at zero |
| `CircuitBreakers.LastFailureIsRemembered` | pkg/router/circuit.go:72-82 | over every run the breaker remembers the instant of the run's last failure |
| `CircuitBreakers.OpenAdmitsExactlyWhen` | pkg/router/circuit.go:35-57 | in every run an open breaker admits a call if and only if more than the timeout has passed since the run's last failure, and is then half-open with no probe counted |
| `CircuitBreakers.ClosingNeedsTwoSuccesses` | pkg/router/circuit.go:59-70 | without a reset a breaker that is not closed closes only after two successes |
| `CircuitBreakers.TwoSuccessesClose` | pkg/router/circuit.go:59-70 | two successes in a row close a half-open breaker |
| `CircuitBreakers.ResetRaceWeakensProbe` | pkg/router/circuit.go:35-95 | for every threshold of at least two, a reset between the two locks of Allow leads to a half-open breaker that a failed probe does not open |
| `CircuitBreakers.SecondCallerWeakensProbe` | pkg/router/circuit.go:35-70 | the same without any reset: of two callers that saw the breaker open, one probes it closed and the other then makes it half-open |
| `CircuitBreakers.EveryRunReopensExactlyWhen` | pkg/router/circuit.go:35-95 | a failed probe reopens in every run and interleaving if and only if the threshold is one |
| `ConnectionPools.ConnectionPool.Evict` | pkg/router/circuit.go:159-166 | the deletion loop removes exactly the idle entries past their lifetime |
| `ConnectionPools.ConnectionPool.AcquireEntry` | pkg/router/circuit.go:129-148 | counts one request more for the cluster, making its entry, and evicting first when the pool is full |
| `ConnectionPools.ConnectionPool.ReleaseEntry` | pkg/router/circuit.go:150-157 | counts one request less for a cluster with an entry |
| `ConnectionPools.ClusterRouter.Route` | pkg/router/router.go:105-130 | makes a missing route, asks its breaker, and acquires the cluster's entry exactly when the call is admitted |
| `ConnectionPools.ClusterRouter.ReportSuccess` | pkg/router/router.go:132-146 | tells an existing breaker and releases the entry in any case |
| `ConnectionPools.ClusterRouter.ReportFailure` | pkg/router/router.go:148-168 | tells an existing breaker and releases the entry in any case |
| `ConnectionPools.ClusterRouter.RouteViaTunnel` | pkg/router/router.go:197-215 | returns the answer exactly when the breaker admits the call, tells the breaker of success or failure exactly then, and leaves every cluster's active requests as they were |
| `ConnectionPools.ReportsAreCounted` | pkg/router/router.go:132-168 | an admitted call that fails is counted with its instant, an answered one never adds a failure, a refused one leaves the breaker alone |
| `ConnectionPools.ThreeFailuresShutTheRoute` | pkg/router/circuit.go:198-204 | a cluster's first three calls are admitted, and when all fail the next is refused until thirty seconds after the last failure |
| `ConnectionPools.AcquireCounts` | pkg/router/circuit.go:129-148 | acquiring raises one cluster's count by one and no other count changes, evictions included |
| `ConnectionPools.PhaseChangeCounts` | pkg/router/router.go:105-168 | a call entering or leaving the outstanding phase changes its cluster's number of outstanding calls by one |
| `ConnectionPools.StepCounts` | pkg/router/router.go:105-215 | every step keeps a cluster's count equal to its outstanding calls |
| `ConnectionPools.PoolCountsOutstanding` | pkg/router/router.go:105-215 | under every interleaving each entry counts its cluster's outstanding calls, and a cluster without entry has none |
| `ConnectionPools.OutstandingIsNeverEvicted` | pkg/router/circuit.go:159-166 | no step removes the entry of a cluster with outstanding calls, and no count goes below zero |
| `ConnectionPools.EntryLostExactlyWhen` | pkg/router/circuit.go:129-166 | under every interleaving an entry is lost if and only if another cluster without entry is acquired in a full pool, no call of its own is outstanding, and its lifetime since it was made is over |
| `ConnectionPools.EntryIsMadeOnce` | pkg/router/circuit.go:133-143 | an entry is made only by acquiring its cluster, at that instant, and keeps that instant |
| `RefreshTokens.RefreshTokenStore.CreateRefreshToken` | pkg/iam/store.go:226-231 | inserts an unconsumed row exactly when the hash is new |
| `RefreshTokens.RefreshTokenStore.RotateRefreshToken` | pkg/iam/store.go:233-264 | consumes a live row and inserts its successor with the same subject and membership, returning the row as it was, or changes nothing |
| `RefreshTokens.RefreshTokenStore.Refresh` | pkg/iam/token.go:342-366 | rotates exactly the tokens of acceptable length that the store can rotate, and answers with the access token issued for the resolved identity; a token is consumed even when resolving or issuing fails |
| `RefreshTokens.RotatedIsConsumed` | pkg/iam/store.go:233-264 | every token that rotated is consumed |
| `RefreshTokens.RotatesAtMostOnce` | pkg/iam/store.go:233-264 | over any run each token rotates successfully at most once |
| `RefreshTokens.RowsTellHistory` | pkg/iam/store.go:226-264 | over any run a row exists exactly for an inserted token, has the expiry it was inserted with, and is consumed exactly when the token has rotated |
| `RefreshTokens.ConsumedWhenRotated` | pkg/iam/store.go:252-254 | over any run a row's consumption is the instant of its rotation |
| `RefreshTokens.RowsKeepIdentity` | pkg/iam/store.go:226-264 | over any run a token belongs to the subject and membership it was issued to, through any number of rotations |
| `RefreshTokens.RotatesExactlyWhen` | pkg/iam/store.go:233-264 | over any run a rotation succeeds if and only if its token was inserted, has not rotated, is not past the expiry it was given, and its successor is new |
| `RefreshTokens.RefreshesExactlyWhen` | pkg/iam/token.go:342-366 | Refresh rotates exactly a value of 43 to 512 bytes whose hash could rotate |
| `RefreshTokens.TokensFormChains` | pkg/iam/store.go:226-264 | over any run the tokens form disjoint linear chains, all but the last of each consumed, all with the subject and membership of the chain's root |
| `RefreshTokens.OneLiveTokenPerChain` | pkg/iam/store.go:226-264 | two unconsumed tokens of one chain are the same token |
| `RefreshTokens.LinksAreRotations` | pkg/iam/store.go:233-264 | one token directly follows another in a chain if and only if a successful rotation put it there |
| `Permissions.ValidatePermissionSnapshot` | pkg/iam/authorization.go:211-228 | accepts exactly the snapshots in bounds whose permissions are valid for the tenant and all different |
| `Permissions.SnapshotMeans` | pkg/iam/authorization.go:211-233 | a valid snapshot has at most 64 permissions, no two alike, all of the tenant and none of a wildcard tenant, with known actions and nested scopes |
| `Permissions.PermissionActions` | pkg/iam/token.go:484-495 | each action once, in the order of first occurrence, and no others |
| `Permissions.ValidAllowedActions` | pkg/iam/token.go:497-519 | accepts exactly the duplicate-free listings of the permissions' actions, in any order, although it compares no sets |
| `Sets.DistinctCount` | pkg/iam/token.go:497-519 | a listing without repetitions has as many elements as entries |
| `Permissions.ActionsOfSnapshotAreListing` | pkg/iam/token.go:484-519 | what permissionActions makes of a valid snapshot satisfies validAllowedActions |
| `AccessTokens.TruncatedLifetime` | pkg/iam/token.go:368-390 | the lifetime between truncated instants, and exactly when it exceeds the configured one |
| `AccessTokens.CheckAudiences` | pkg/iam/token.go:446-461 | accepts exactly one to sixteen different bounded audiences without a wildcard |
| `AccessTokens.CheckMemberships` | pkg/iam/token.go:463-478 | accepts exactly one to 128 different bounded memberships that include the selected one |
| `AccessTokens.IssuedClaimsFit` | pkg/iam/token.go:262-307 | the claims of every issued token pass all checks that look at no clock |
| `AccessTokens.AuthenticatesAsIssued` | pkg/iam/token.go:326-340 | round trip: whoever authenticates with an issued token, at any verifier and instant, gets the subject, type, tenant, membership, policy version and permissions it was issued for, the second of the login, and an expiry within its lifetime |
| `AccessTokens.MemberAuthenticatesExactlyWhen` | pkg/iam/token.go:310-324 | the manager accepts an issued token if and only if it verifies and the subject's membership still resolves to the identity it was issued for |
| `AccessTokens.VerifiesExactlyWhen` | pkg/iam/token.go:252-308 | any verifier passes an issued token if and only if issuer and audience are its own, its ring returns the key that signed, its limit covers the truncated lifetime, and the instant lies from the issuing second to the truncated expiry |
| `AccessTokens.VerifiedMeans` | pkg/iam/token.go:290-307 | whoever signed it, a token that passes carries a valid snapshot, exactly the actions of its permissions, each once, its selected membership, and times in order within the limit |
| `AccessTokens.ForeignTokensFail` | pkg/iam/token.go:252-307 | a token of another issuer, audience, key, algorithm or key id, too long or past its expiry never passes |
| `AccessTokens.AccessLivesAtMostAMinute` | pkg/iam/token.go:368-390 | no issued access token is good for more than sixty seconds |
| `AccessTokens.IssuedTokenWindow` | pkg/iam/token.go:252-308 | an issued token verifies at an instant if and only if the instant lies from its issuing second to its truncated expiry and the fractions of clock and lifetime do not carry |
| `AccessTokens.WholeSecondTokens` | pkg/iam/token.go:200-308 | with a whole-second lifetime a token passes from signing until its truncated expiry and never after, and that expiry is less than a second before the full lifetime |
| `AccessTokens.FractionalLifetimeCanFail` | pkg/iam/token.go:290-307 | a lifetime of one and a half seconds issued half a second into a second never verifies |
| `AccessTokens.TunnelTokenWindow` | pkg/iam/agent_tunnel_token.go:110-182 | for every lifetime from a second to a day, fractions included, a tunnel token of at most 8192 bytes passes at exactly the verifiers of its issuer and audience whose ring returns the key that signed, from signing until its truncated expiry, for its own tenant and cluster only, and yields that expiry |
| `AccessTokens.VerifiedTunnelMeans` | pkg/iam/agent_tunnel_token.go:136-182 | whoever signed it, a tunnel token that passes has the verifier's issuer and audience, the asked tenant and cluster, times in order, and a lifetime of at most a day |
| `AccessTokens.LifetimeWithinDay` | pkg/iam/agent_tunnel_token.go:169-177 | the lifetime limit admits every allowed lifetime rounded up to seconds |
| `RouteMatching.SplitPath` | pkg/iam/authorization.go:342-348 | no part of a split path holds a slash |
| `RouteMatching.PartsJoinToPath` | pkg/iam/authorization.go:342-348 | joining the parts gives back the path without its outer slashes |
| `RouteMatching.TrimTakesOuterSlashes` | pkg/iam/authorization.go:342-348 | only slashes are trimmed, from both ends, and all of them |
| `RouteMatching.ClassifyReadsBack` | pkg/iam/authorization.go:321-333 | each part of a pattern is a catch-all or a parameter exactly when it stands in braces with or without three dots, and is written back from its name |
| `RouteMatching.MatchPattern` | pkg/iam/authorization.go:318-340 | the loop computes the segment-by-segment match |
| `RouteMatching.MatchBindsLast` | pkg/iam/authorization.go:318-340 | a match binds each name of the rest of the pattern to its last binding and keeps the others |
| `RouteMatching.FillsBackFrom` | pkg/iam/authorization.go:318-340 | from any segment on, filling in what a match bound gives back the rest of the path if and only if every parameter segment equals the last binding of its name |
| `RouteMatching.FilledMatches` | pkg/iam/authorization.go:318-340 | a path that a filled pattern stands for matches and binds what was filled in |
| `RouteMatching.FillsExactlyWhenConsistent` | pkg/iam/authorization.go:318-348 | for every pattern, repeated names or not, parameters bind its names and fill it in to the path if and only if the path matches with them and every parameter segment equals the last binding of its name |
| `RouteMatching.MatchInvertsFill` | pkg/iam/authorization.go:318-348 | for distinct names, a path matches with parameters if and only if filling the pattern with them gives back the path's segments, a catch-all taking a rest of at least one segment |
| `RouteMatching.RepeatedNamesLoseSegments` | pkg/iam/authorization.go:318-340 | every pattern that repeats a name has a matching path with a segment that is not the last binding of its name |
| `RouteMatching.DistinctNamesIsExact` | pkg/iam/authorization.go:318-340 | a pattern gives back every path it matches if and only if its parameter names are distinct |
| `RouteMatching.MatchRoute` | pkg/iam/authorization.go:273-283 | returns the first route of the method that matches, with its parameters, and none exactly when none matches |
| `Multipart.PartNameRoundTrip` | cmd/app-market/main.go:1659-1661 | the listing reads back the number a part file is named by, for every number that fits |
| `Multipart.ListUploadedParts` | cmd/app-market/main.go:1826-1852 | lists one number for each part file of any directory, and no others |
| `Multipart.FindMissing` | cmd/app-market/main.go:1862-1870 | the loop passes exactly when the listing holds every number from 1 to its length |
| `Multipart.ListingDecides` | cmd/app-market/main.go:1862-1870 | by counting, a listing without gaps is the range 1 to n and nothing more |
| `Multipart.CopyParts` | cmd/app-market/main.go:1881-1897 | copies the parts in order and adds up their sizes, or fails exactly when one cannot be opened |
| `Multipart.PartsInPlace` | cmd/app-market/main.go:1881-1897 | each part lies in the joined file exactly where the parts before it end |
| `Multipart.AssembleParts` | cmd/app-market/main.go:1854-1898 | for every directory, succeeds exactly when the n listed numbers are 1 to n with n at least one and all files open, and yields their contents in order and the total size |
| `Multipart.CanonicalAssembly` | cmd/app-market/main.go:1854-1898 | when every part file has its canonical name, the listed numbers alone decide |
| `Multipart.DirectoryHoldsLatest` | cmd/app-market/main.go:1697-1751 | after every sequence of uploads the file of a part holds what was uploaded last for it |
| `Multipart.PartsAreUploads` | cmd/app-market/main.go:1697-1751 | the listed numbers are exactly the uploaded ones, abandoned temporary files aside |
| `Multipart.AssemblyOfUploads` | cmd/app-market/main.go:1697-1898 | for every order and repetition of uploads, assembly succeeds if and only if the uploaded numbers are 1 to n with n at least one, and then yields the latest contents of parts 1 to n in order |

## Left out

- HTTP servers and middleware, NATS, Helm, Harbor, Kubernetes clients and everything under pkg/network: input, output and foreign libraries.
- ECDSA, SHA-256, PEM parsing and file permission checks: keys are values, a token carries the key that signed it, and hashes of manifests and tokens are abstract.
- JSON decoding: a manifest document is either undecodable or a record, and the scanner works on tokens of well-formed input. Names that differ only in case, and truncated input, are not modelled.
- The timestamps activated_at, retiring_at and revoked_at, and PostgreSQL's rounding of instants to microseconds: only status, version, window and key metadata are kept.
- KeyReloads.ReloadingKeySet.Reload: reload by one process at a time, as its mutex has it; other processes appear as further steps on the shared store.
- GSLB intent parsing, the forbidden-field scan and the approval rules: one-branch facts. SemanticDigest is the payload's hash, so it inherits PayloadsAgree up to hash collisions.
- ReleaseStore.AppendArtifact: release manifests are taken to spell the keys artifacts, name, digest and purpose in lower case. The program reads references in any letter case (pkg/appstore/store/repos.go:451-471) but searches and counts the exact keys, so an entry that spells Digest is listed a second time by an upload.
- ReleaseRuns.RuntimeRunsStayInSync: not for manifests with keys in another letter case, for the same reason; nor are the other results on release runs, RunKeepsOk, RunsStayInSyncExactlyWhen and PublishedListsAttached among them.
- Release statuses other than draft and published, product and publisher rows, and ArtifactRepo.Update: plain row updates. MarkPromoted is a step of the runs.
- The garbage collector looks only at artifact_references, so nothing is claimed about artifacts that releases list.
- ArtifactGc.GCRepo.CompleteSweep: the method runs both statements; a crash between them is a step of the runs.
- TunnelRegistry.AgentRegistry.CloseOnce: connections are entries of a table by number and not heap objects, so aliasing between connection objects is not captured. The websocket itself is not modelled.
- Health flags, last-used times, metrics, balancers and backend counters of the router.
- Errors while reading or writing part files, and the hash of the assembled file.
- Plain repositories, alerting, audit, scanners, configuration loaders and the web code: only easy members.
