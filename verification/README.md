# Verification of the mihomo credential store

The service keeps one credential per binding, together with the devices, the discovered game
profiles and the issued runtime artifacts of that binding. Some of its code finds rows by
platform account id, some by binding id. It is right only because the two always agree, and
nothing in the code says so. This project states that agreement, proves that every request
keeps it, and derives from it what binding, deleting, caching, confirming, revoking and
migrating do. `dafny verify dfyconfig.toml` checks everything.

## How the model is built

- **Tables** (`Db`). Each table is a map from the columns that the code names as its conflict
  target to the rest of the row, so an upsert is a map update and a clash on another unique key
  is an error that changes nothing, as in `internal/data/credential_repo_test.go`. `DbOk` is what
  the database itself enforces. `KeyAgree` says that every row's binding is the one its account
  id names. `AcctAgree` says that every row carries the account of its binding's credential.
- **The store** (`Backend.Storage`) is one object with the tables, the Redis cache, the grant
  minimums and a clock that never runs backwards. Every call to MySQL or Redis may fail; the
  counter `faults` counts the failures, so `s.faults == old(s.faults)` reads "no storage fault
  during this call". A transaction remembers the tables, not the cache, and brings them back on
  error.
- **The code** is methods that make the same calls in the same order, each proved against a
  function of the state before it (`BindSpec.BindOutcome`, `ManagementRepo.WithoutGraph`,
  `ProfileRepo.Saved`, ...). What those functions amount to is proved as lemmas.
- **Runs** (`Runs`). Every use-case method proves that it takes one step of `Runs.Next`,
  whatever fails inside it. The lemmas about `Runs.Run` then speak of every sequence of
  requests. `Interleaving` is the other reading: requests in flight with a program counter,
  stale reads, failing calls and rollbacks at any point.
- **Migrations** (`Migrations`, `MigrationLaws`). The scripts are methods over tables of rows
  whose binding may be NULL, with the legacy and the new unique keys as predicates.

Conventions: strings compare exactly; time is an integer; a lookup happens at one instant; a
cache entry dies exactly when its artifact expires; JSON is faithful; a sealed blob opens to
the cookies it was sealed from and nothing else opens; an unordered `LIMIT 1` returns any
matching row; the upstream client answers anything, and its level and lifetime numbers are
unbounded; the `.` of the migration's patterns matches any character.

## What turns out not to hold

- Reads through the cache agree with the database for accepted, colon-free account ids and
  colon-free types, but not for all. Two keys can collide exactly when what one says before its
  scope begins the other (`CacheKeys.AccountKeysCollideIff`, `CacheKeys.FamiliesCollideIff`); and
  `Put` takes an empty account id in the row it overwrites for a missing row. Some history is
  misread exactly when one of the two can happen with the ids and types in use
  (`ArtifactHistory.MisreadIffUnsafe`), as in `ArtifactHistory.RejectedAccountMisreads` and
  `ArtifactHistory.ColonAccountMisreads`. The use cases themselves read by binding only.
- Without a transaction, the deferred compensation of a bind brings the old credential back
  exactly when the bind did not keep its account (`BindUsecase.CredentialRestoredIff`): a failed
  rebind of the same account deletes the credential
  (`Counterexamples.SameAccountRebindLosesCredential`). Inside a transaction this is harmless.
- A player can be confirmed exactly when it was discovered in one region only
  (`BindLaws.ConfirmableIff`, `Counterexamples.TwoRegionsCannotBeConfirmed`).
- The row-by-row delete by account keeps a stale row exactly when its player and region join to
  the text of another kept pair (`ProfileRepo.KeepsExactlyIff`, `Counterexamples.LoopKeepsAStaleRow`).
- The migrations let through a profile left over from another account id of its binding, since
  they join devices and artifacts to credentials but only parse profiles
  (`Migrations.MigratedOwnedIff`). A later bind of that binding is then refused
  (`MigrationLaws.LeftoverRefusesBind`).
- A number of 2^64 or more in an account id is clamped by the SQL extraction and rejected by the
  Go parser (`AccountKey.SqlAgreesWithGo`, `Counterexamples.TwoToThe64IsClamped`).
- An empty upstream account id is stored without complaint, and then migration 000005 can never
  run again after a rollback (`MigrationLaws.ServiceRoundTrip`).

## Model

| member | source | states |
|---|---|---|
| `AccountKey.ParseFormat` | internal/usecase/platform_account_key.go:9-40 | parsing a formatted id gives back the binding, for every 64-bit binding and every account string |
| `AccountKey.FormatInjective` | internal/usecase/platform_account_key.go:9-11 | two different (binding, account) pairs never share a platform account id |
| `AccountKey.SqlAgreesWithGo` | initialize/migrate/sql/000005_add_binding_id_to_credentials_and_profiles.up.sql:55-60 | on every accepted id the SQL extraction is nonzero, and equals the Go parser exactly when the written number is below 2^64; otherwise Go rejects the id |
| `AccountKey.HugeNumberIsClamped` | initialize/migrate/sql/000005_add_binding_id_to_credentials_and_profiles.up.sql:55-60 | every number of 2^64 or more is accepted, clamped by SQL to one binding and rejected by Go |
| `Counterexamples.TwoToThe64IsClamped` | initialize/migrate/sql/000005_add_binding_id_to_credentials_and_profiles.up.sql:55-60 | one such id |
| `AccountKey.FormattedMigratable` | initialize/migrate/sql/000005_add_binding_id_to_credentials_and_profiles.up.sql:8-14 | a formatted id matches the migration's pattern exactly when the binding is nonzero and the account is not empty |
| `CacheKeys.AccountKeysInjective` | internal/data/artifact_repo.go:249-251 | with colon-free accounts and types an account key determines account, type and scope |
| `CacheKeys.BindingKeysInjective` | internal/data/artifact_repo.go:253-255 | with colon-free types a binding key determines binding, type and scope |
| `CacheKeys.FamiliesDisjoint` | internal/data/artifact_repo.go:249-255 | no account that the parser accepts has an account key that is a binding key |
| `CacheKeys.PlainKeysApart` | internal/data/artifact_repo.go:249-255 | keys over colon-free types and accepted colon-free account ids never collide, in either family or across them |
| `CacheKeys.AccountKeysCollideIff` | internal/data/artifact_repo.go:249-251 | the keys of two accounts collide for some scopes exactly when one key's text before the scope starts with the other's |
| `CacheKeys.FamiliesCollideIff` | internal/data/artifact_repo.go:249-255 | an account key and a binding key collide for some scopes exactly when one's text before the scope starts with the other's |
| `ArtifactRepo.Put` | internal/data/artifact_repo.go:28-78 | the stored row has the artifact's account, value and expiry; without faults the binding key serves the artifact until it expires and nothing afterwards, the old and new account keys are gone, and no other key changes; whatever fails, nothing but copies of current rows enters the cache |
| `ArtifactRepo.GetByBindingID` | internal/data/artifact_repo.go:80-109 | with no entry under the key, exactly the stored row with that binding, type and scope that has not expired, or none; from a sound cache, whatever fails, always such a live row, and none only when there is no live row; without faults what was read is then served until it expires |
| `ArtifactRepo.Get` | internal/data/artifact_repo.go:111-148 | the same by account, over any one of the live rows with the account, type and scope; when a Redis call fails, still the cached entry or the row |
| `ArtifactRepo.CacheKeysForRecords` | internal/data/artifact_repo.go:230-240 | both keys of every selected row, and no other |
| `ArtifactRepo.DeleteByBindingID` | internal/data/artifact_repo.go:188-203 | removes exactly the binding's rows and both their keys; on an error the cache is untouched |
| `ArtifactRepo.DeleteByPlatformAccountID` | internal/data/artifact_repo.go:171-186 | removes exactly the account's rows and both their keys; on an error the cache is untouched |
| `ArtifactSpec.DeletionSound` | internal/data/artifact_repo.go:192-203 | deleting rows with both their keys leaves no live entry that is not a copy of a current row |
| `ArtifactHistory.CacheAgreesWithDatabase` | internal/data/artifact_repo.go:28-255 | over every history of puts, reads and deletes in transactions that commit or roll back, each read through the cache gives an answer that the database could give at that instant |
| `ArtifactHistory.CacheEqualsDatabase` | internal/data/artifact_repo.go:28-255 | if stored account ids name their bindings, each read with Redis returns exactly what the same read without Redis returns |
| `ArtifactHistory.RepositoriesAgree` | internal/data/artifact_repo.go:28-255 | a repository with Redis and one without, performing the same calls, answer every read alike |
| `ArtifactHistory.AnswerUnexpired` | internal/data/artifact_repo.go:80-148 | in every history whatsoever, what a read answers has not expired at the moment of the read |
| `ArtifactHistory.AnswerIsTheLiveRow` | internal/data/artifact_repo.go:80-148 | in histories whose account ids name their bindings, a read answers exactly a stored live row of what was asked for, with its own value and expiry, and nothing exactly when there is none |
| `ArtifactHistory.OtherEntriesSurvive` | internal/data/artifact_repo.go:188-240 | where keys cannot collide and rows name their bindings, deleting a binding keeps every live cache entry of every other binding |
| `ArtifactHistory.MisreadIffUnsafe` | internal/data/artifact_repo.go:28-255 | over any account ids and types, some history is misread through the cache exactly when two keys can collide or an empty account id is used beside another |
| `ArtifactHistory.RejectedAccountMisreads` | internal/data/artifact_repo.go:80-148 | a put and two reads of authkeys with the account id `binding:42`, after which binding 42 is answered with another binding's key |
| `ArtifactHistory.ColonAccountMisreads` | internal/data/artifact_repo.go:111-148 | a put and two reads of authkeys of two accepted accounts, one with a colon, after which one account is answered with the other's key |
| `CredentialRepo.Save` | internal/data/credential_repo.go:28-47 | upserts on the binding; without faults it refuses, and changes nothing, exactly when a row of another binding holds the account id or the platform account |
| `CredentialRepo.GetByPlatformAccountID` | internal/data/credential_repo.go:61-71 | the one credential with the account, or none exactly when no row has it |
| `Backend.Storage.Finish` | internal/data/credential_repo.go:22-26 | a transaction whose body or commit fails leaves all four tables as they were |
| `DeviceRepo.Save` | internal/data/device_repo.go:21-36 | the row of the binding and device has the given columns and the id it had, or the next id; it may move to another account; every other row is as before |
| `DeviceRepo.ListedExactly` | internal/data/device_repo.go:38-80 | a listing shows exactly the selected rows, each once, with its own fingerprint, name, validity and time, in increasing order of id |
| `ProfileRepo.RefusedIffConflict` | internal/data/profile_repo.go:99-115 | the unique default key would refuse a write exactly when the conflict check refuses it |
| `ProfileRepo.SaveDefaultProfile` | internal/data/profile_repo.go:70-97 | once the check has passed neither unique key refuses the write: success, the check's own refusal or a storage fault are all that can happen |
| `ProfileRepo.Save` | internal/data/profile_repo.go:26-47 | an existing row keeps its id and discovery time, a new one gets the next id, every other row is as before; without faults it is refused, with nothing changed, exactly when a default is saved while another row of the binding is the default |
| `ProfileRepo.MarkOneDefault` | internal/data/profile_repo.go:51-62 | clearing and marking keeps one default per binding exactly when at most one row matches |
| `ProfileRepo.SetDefaultByBindingAndPlayerID` | internal/data/profile_repo.go:49-68 | without faults it succeeds exactly when one row matches (binding, account, player); that row becomes the binding's only default and no other field changes; otherwise the table is unchanged |
| `ProfileRepo.ListedExactly` | internal/data/profile_repo.go:131-147 | a listing holds exactly the selected rows, in increasing order of id |
| `ProfileRepo.DeleteMissingByBindingID` | internal/data/profile_repo.go:153-166 | a row of the binding stays exactly when its player and region are in the list; every other binding's row stays; no row changes |
| `ProfileRepo.DeleteMissingByPlatformAccountID` | internal/data/profile_repo.go:168-187 | the loop never deletes a row whose pair is kept, even when a delete fails halfway, and touches no other account |
| `ProfileRepo.KeepsExactlyIff` | internal/data/profile_repo.go:168-187 | the loop leaves exactly the kept pairs of the account if and only if no unkept row joins to the text of a kept pair |
| `Counterexamples.LoopKeepsAStaleRow` | internal/data/profile_repo.go:153-187 | in an agreeing state the row-by-row delete keeps a stale row that the by-binding delete removes |
| `ProfileRepo.ColonFreeKeepsExactly` | internal/data/profile_repo.go:173-181 | with colon-free player ids the loop leaves exactly the kept pairs |
| `ProfileRepo.ByAccountMatchesByBinding` | internal/data/profile_repo.go:153-187 | in agreeing states the by-account loop does what the by-binding delete does |
| `Db.ByAccountIsByBinding` | internal/data/management_repo.go:40-48 | in agreeing states the rows with a credential's account are the rows of its binding, in all four tables |
| `Db.NoCredentialNoRows` | internal/usecase/bind_usecase.go:122-255 | in agreeing states a binding without a credential owns no rows |
| `ManagementRepo.DeleteCredentialGraph` | internal/data/management_repo.go:22-80 | all or nothing: exactly the credentials, devices and profiles with the account go, and the artifacts of the bindings that any of its rows carries, or of the account when there is no such binding; the cache loses at most the doomed rows' keys |
| `ManagementRepo.DeleteCredentialGraphByBindingID` | internal/data/management_repo.go:82-103 | all or nothing: exactly the binding's rows go in all four tables, and every other row stays as it is |
| `ManagementRepo.GraphDeletesAgree` | internal/data/management_repo.go:22-103 | in agreeing states both deletes give the same tables and doom the same artifacts: the whole binding and nothing else |
| `ManagementRepo.UnknownAccountDeletesNothing` | internal/data/management_repo.go:22-55 | in agreeing states deleting by an account that no credential holds removes nothing |
| `BindSpec.SavedLastWins` | internal/usecase/bind_usecase.go:194-211 | saving the discovered profiles is never refused and yields one row per (player, region), as its last occurrence says, with ids in order of first occurrence |
| `BindUsecase.SaveDiscovered` | internal/usecase/bind_usecase.go:193-211 | the loop saves in order, stops at the first refusal, and reports the saved summaries |
| `BindUsecase.BindPrepared` | internal/usecase/bind_usecase.go:122-230 | without faults exactly the specified outcome; with compensation alone, a failed bind of a binding with no rows changes nothing, and in general the credential is restored exactly when the account was not kept |
| `BindUsecase.Compensate` | internal/usecase/bind_usecase.go:156-166 | the tables after the deferred function when its own calls succeed |
| `BindUsecase.CompensationUndoesFresh` | internal/usecase/bind_usecase.go:155-166 | compensation undoes a bind of a binding with no rows from wherever it stopped |
| `BindUsecase.UnboundIsFresh` | internal/usecase/bind_usecase.go:127-166 | in agreeing states every binding without a credential is such a binding |
| `BindUsecase.CredentialRestoredIff` | internal/usecase/bind_usecase.go:151-165 | compensation restores the credential exactly when the bind did not keep the account |
| `BindUsecase.BindInTransaction` | internal/usecase/bind_usecase.go:75-95 | if it returns an error all four tables are as before, and the cache has lost at most entries of that binding's artifacts |
| `BindUsecase.BindCredential` | internal/usecase/bind_usecase.go:69-120 | one step of a run whatever fails; a bind that succeeds has stored the client's account id and region with the sealed cookies under the formatted id, the input's device, and from agreeing states exactly the client's players and regions with the data of their last occurrence; it reports the client's profiles in order; without faults an error only when preparation or the outcome refuses, each with its reason |
| `BindUsecase.UpsertDevice` | internal/usecase/bind_usecase.go:232-255 | without faults it succeeds exactly when a credential has the account; the device's row then has that binding, the given fingerprint and name, and is valid and seen during the call; no other row changes |
| `BindLaws.BindLeavesExactly` | internal/usecase/bind_usecase.go:127-220 | from an agreeing state a bind is refused exactly when another binding holds the platform account, never for a second default; otherwise it leaves exactly the new credential, no artifacts, the last-wins profiles, and only the input device after an account switch |
| `BindLaws.BindStoresAnswer` | internal/usecase/bind_usecase.go:102-182 | from any state, a bind that is not refused leaves the client's account id and region in the credential, which is active and validated now, and the input's device, valid and seen now |
| `BindLaws.BindStoresProfiles` | internal/usecase/bind_usecase.go:184-211 | from agreeing states the binding's profile keys are exactly the client's (player, region) pairs, each with the game, nickname and level of its last occurrence |
| `BindLaws.BindKeepsInvariants` | internal/usecase/bind_usecase.go:122-230 | a bind keeps agreement and every unique key, and changes no other binding |
| `BindLaws.DefaultIffNotRepeated` | internal/usecase/bind_usecase.go:194-208 | after a bind there is a default exactly when the first discovered identity is not repeated, and it is that identity |
| `BindLaws.DefaultRefusedIff` | internal/usecase/bind_usecase.go:184-208 | from any state, agreeing or not, exactly when a bind is refused for a second default |
| `BindLaws.ConfirmableIff` | internal/data/profile_repo.go:49-68 | after a bind, confirming a player succeeds exactly when the player was discovered in exactly one region; in several it is always refused |
| `Counterexamples.TwoRegionsCannotBeConfirmed` | internal/data/profile_repo.go:57-62 | a first bind that discovers one player in two regions leaves a player whom no confirm can choose |
| `Counterexamples.SameAccountRebindLosesCredential` | internal/usecase/bind_usecase.go:155-166 | after a first bind, compensating a rebind of the same account deletes the credential, although nothing else fails |
| `Runs.StepKeepsInv` | internal/usecase/bind_usecase.go:122-255 | every request, and every rollback, keeps agreement, the unique keys, cache soundness and key freshness |
| `Runs.EveryRunFromEmpty` | internal/usecase/bind_usecase.go:122-255 | from empty tables, after any sequence of requests, every row of a binding carries the account of its single credential, at most one profile is default, and a binding without a credential owns no rows |
| `Runs.HandedOutKeysAreFresh` | internal/usecase/authkey_usecase.go:40-81 | every authkey returned was issued for the cookies that the binding's credential holds at that moment |
| `Runs.KeyStays` | internal/usecase/authkey_usecase.go:54-60 | in every run, until it expires, a stored authkey stays, and every request for it that is answered is served from it without a new issue, until the binding is bound, updated or deleted |
| `Runs.DeletionPerforms` | internal/data/artifact_repo.go:188-203 | a bind and a delete by binding are to the artifacts and their cache one delete transaction of a history |
| `Runs.Open` | internal/data/artifact_repo.go:24-26 | a new store is in the state in which every run starts |
| `Runs.RevokedStaysRevoked` | internal/data/grant_invalidation_repo.go:30-37 | the minimum version never goes down in any run |
| `AuthkeyUsecase.GetAuthKey` | internal/usecase/authkey_usecase.go:40-81 | one step of a run whatever fails; without faults the result is fixed by the credential, the remembered key and the client's reply, each refusal with its error; in reachable states a served key has not expired, a live stored key is returned whatever the reply is, a missing or expired key is issued anew with the reply's key and lifetime, and every key returned was issued for the cookies of the account's credential |
| `StatusUsecase.Revalidate` | internal/usecase/status_usecase.go:105-132 | saving a validation can only fail by a storage fault; the stored credential has the classified status and a validation time read during the call, and nothing else changes |
| `StatusUsecase.ValidateCredential` | internal/usecase/status_usecase.go:62-171 | one step of a run; without faults it succeeds exactly when the account has a credential whose blob opens; the answer is active exactly on a successful reply, otherwise the status and error code of what the message mentions; the refresh time moves exactly on a successful refresh |
| `StatusUsecase.ClassificationMeans` | internal/usecase/status_usecase.go:134-171 | a message that mentions a challenge anywhere in any case is one, otherwise one that mentions an expiry is expired, and every other is invalid, in the stored status and in the error code |
| `ProfileUsecase.FilterInPlace` | internal/usecase/profile_usecase.go:148-154 | filtering into the list's own front yields exactly the account's profiles in order |
| `ProfileUsecase.ListScopedProfiles` | internal/usecase/profile_usecase.go:140-168 | without faults refused by the binding exactly when the account does not name the guard's binding, and by the profile exactly when the guard names a profile that is not there; otherwise exactly the rows of the guard's binding with the account, and with the guard's profile id if it names one, each once, in order of id |
| `ProfileUsecase.ScopedMeans` | internal/usecase/scope_guard.go:50-58 | the same of the specification: which rows a guard with and without a profile leaves, and when it leaves none |
| `ProfileUsecase.GetPrimaryProfileWithScope` | internal/usecase/profile_usecase.go:68-82 | a default among those rows, or else the oldest of them, or none only when there are none; with a profile-bound guard always the guard's profile |
| `ProfileUsecase.FindProfileByBindingAndPlayerID` | internal/usecase/profile_usecase.go:183-203 | finds a profile exactly when one matches, and then the newest of them |
| `ProfileUsecase.ConfirmPrimaryProfileWithScope` | internal/usecase/profile_usecase.go:108-127 | one step of a run; without faults it succeeds exactly when the account names the guard's binding, the guard is binding-wide and exactly one row has binding, account and player; that row becomes the only default and no other column of any row changes |
| `ProfileUsecase.DefaultIsPrimary` | internal/usecase/profile_usecase.go:68-82 | a default row with the requested account is what a binding-wide read of the primary profile answers |
| `ProfileUsecase.ConfirmedStaysPrimary` | internal/usecase/profile_usecase.go:68-127 | after a confirm, that read answers the confirmed profile until the next confirm, bind, update or delete of the binding |
| `ManagementUsecase.SummariesAgree` | internal/usecase/management_usecase.go:53-119 | in agreeing states the by-account and the by-binding summary are equal, devices and profiles in the same order |
| `ManagementUsecase.GetCredentialSummary` | internal/usecase/management_usecase.go:53-80 | exists exactly when a credential has the account; shows its status and times, every device and profile row of the account once, with its own columns, in order of id, and nothing else |
| `ManagementUsecase.GetCredentialSummaryWithScope` | internal/usecase/management_usecase.go:82-119 | the guard's refusals, or the same by binding: the credential of the guard's binding with every device and profile row of the binding |
| `ManagementUsecase.PruningDeletesNothing` | internal/usecase/management_usecase.go:143-152 | after a bind from an agreeing state, pruning parses the account and deletes nothing |
| `ManagementUsecase.UpdateInTransaction` | internal/usecase/management_usecase.go:143-155 | if it returns an error all four tables are as before, and the cache has lost at most entries of that binding's artifacts |
| `ManagementUsecase.UpdateCredential` | internal/usecase/management_usecase.go:126-158 | only a committed update changes the tables, keeps the account, and stores the client's answer as a bind does; without faults it fails only for a missing credential, the preparation's error, another account, or the refusal of the update itself; from agreeing states it is one step of a run |
| `ManagementUsecase.DeleteCredentialWithScope` | internal/usecase/management_usecase.go:174-192 | deletes exactly the rows of the guard's binding, and without faults exactly when the account names that binding, the guard is binding-wide and the credential has the account; each refusal with its error |
| `ManagementUsecase.DeleteCredential` | internal/usecase/management_usecase.go:170-172 | one step of a run: exactly what the graph delete by account removes, or nothing |
| `GrantRepo.Upsert` | internal/data/grant_invalidation_repo.go:21-38 | raises the stored minimum of the pair, never lowers it |
| `GrantRepo.MinimumIsMaximum` | internal/data/grant_invalidation_repo.go:21-50 | after any upserts in any order the minimum is the greatest version sent for the pair, or 0 |
| `TicketVerifier.VerifyClaims` | internal/data/ticket_verifier.go:93-155 | accepts exactly the complete tickets whose grant stands, and otherwise reports the first check that fails |
| `GrantLaws.InvalidateConsumerGrant` | internal/service/platform_service_adapter.go:212-251 | one step of a run; without faults it succeeds exactly for complete requests of a binding-wide admin or user ticket of the same binding with the platform and the action; no grant of another binding, or of another consumer, changes |
| `GrantLaws.GrantStandsIffNotInvalidated` | internal/data/ticket_verifier.go:111-127 | after any run a consumer ticket passes exactly when its version is at least every version invalidated for its pair |
| `GrantLaws.RevokedTicketStaysRevoked` | internal/data/ticket_verifier.go:118-126 | a revoked ticket stays revoked over all later binds, deletes and upserts |
| `ScopeGuard.GuardedAccountStaysInBinding` | internal/usecase/scope_guard.go:35-41 | under key agreement a by-account call that passed the guard selects only rows of its binding |
| `ScopeGuard.GuardedDeleteStaysInBinding` | internal/data/management_repo.go:22-55 | under key agreement deleting by such an account, table by table or as a graph, leaves every other binding alone |
| `Interleaving.StepAgrees` | internal/usecase/bind_usecase.go:122-255 | every single repository call, failure, stale read or rollback keeps key agreement |
| `Interleaving.EveryScheduleAgrees` | internal/usecase/bind_usecase.go:107-255 | under any interleaving every stored row's binding is the one its account id names |
| `Interleaving.GuardHoldsUnderEverySchedule` | internal/usecase/scope_guard.go:35-41 | under any interleaving, stale reads included, each call of a request that passed the guard reads and writes only rows of the guard's binding |
| `Interleaving.GuardedAccountsUnderEverySchedule` | internal/usecase/scope_guard.go:35-41 | and a by-account call that passed the guard selects only rows of the guard's binding, in all four tables |
| `Migrations.MigrationDb.Up5` | initialize/migrate/sql/000005_add_binding_id_to_credentials_and_profiles.up.sql:1-78 | goes through exactly when every account id of credentials and profiles has the shape and no two credentials are parsed to one binding; every binding is then the parsed one, and no NOT NULL or unique key step can fail |
| `Migrations.MigrationDb.Up6` | initialize/migrate/sql/000006_binding_first_devices_profiles_and_grant_invalidations.up.sql:1-47 | goes through exactly when no two profiles share binding, player and region and every device's account is some credential's; every device then has the binding of a credential with its account; the new device key needs no precheck |
| `Migrations.MigrationDb.Up7` | initialize/migrate/sql/000007_binding_first_runtime_artifacts_and_primary_profile.up.sql:1-64 | goes through exactly when no binding has two default profiles and every artifact's account is some credential's; every artifact then has the binding of a credential with its account; the duplicate-artifact precheck never fires and no later step fails |
| `Migrations.MigrationDb.Down7` | initialize/migrate/sql/000007_binding_first_runtime_artifacts_and_primary_profile.down.sql:1-29 | rolls back exactly when no two artifacts share account, type and scope, and otherwise changes nothing |
| `Migrations.MigrationDb.Down6` | initialize/migrate/sql/000006_binding_first_devices_profiles_and_grant_invalidations.down.sql:3-11 | has no precheck: fails exactly when two profiles share account, player and region or two devices share account and device |
| `Migrations.JoinedKeys` | initialize/migrate/sql/000006_binding_first_devices_profiles_and_grant_invalidations.up.sql:31-43 | a table joined to its credentials gets no NULL and its account key carries over to the binding |
| `Migrations.MigratedNamedIff` | initialize/migrate/sql/000007_binding_first_runtime_artifacts_and_primary_profile.up.sql:21-64 | when the prechecks pass, key agreement holds in all four tables exactly when every written number is below 2^64 |
| `Migrations.MigratedOwnedIff` | initialize/migrate/sql/000006_binding_first_devices_profiles_and_grant_invalidations.up.sql:19-37 | migrated devices and artifacts always belong to their credential, profiles exactly when each has some credential's account |
| `MigrationLaws.RollbackNeverFails` | initialize/migrate/sql/000007_binding_first_runtime_artifacts_and_primary_profile.down.sql:6-25 | in every state with key agreement no two artifacts, profiles or devices clash on the account keys that the rollbacks restore, so 000007's precheck never trips and 000006 never breaks a key |
| `MigrationLaws.RollBack` | initialize/migrate/sql/000006_binding_first_devices_profiles_and_grant_invalidations.down.sql:3-11 | all three rollbacks in a row go through from every such state |
| `MigrationLaws.TwoStepRoundTrip` | initialize/migrate/sql/000006_binding_first_devices_profiles_and_grant_invalidations.up.sql:31-47 | rolling 000007 and 000006 back and migrating again passes every precheck and restores every row |
| `MigrationLaws.FullRoundTrip` | initialize/migrate/sql/000005_add_binding_id_to_credentials_and_profiles.up.sql:8-60 | rolling all three back and migrating again goes through exactly when every account id has the demanded shape, and then restores every row |
| `MigrationLaws.ServiceRoundTrip` | initialize/migrate/sql/000005_add_binding_id_to_credentials_and_profiles.up.sql:8-18 | for the account ids the service writes, exactly when no upstream account id was empty |
| `MigrationLaws.LeftoverMigrates` | initialize/migrate/sql/000005_add_binding_id_to_credentials_and_profiles.up.sql:37-47 | a profile of another account id of a bound binding gets through every precheck and belongs to no credential |
| `MigrationLaws.LeftoverRefusesBind` | internal/usecase/bind_usecase.go:184-208 | in that migrated database a rebind with another first profile is refused for a second default |

## Left out

- gRPC handlers, start-up, configuration and generated code: only `InvalidateConsumerGrant` is modelled, for the order of its checks.
- JWT parsing, signatures, audience, issuer and expiry, Ed25519, AES-GCM and base64: a ticket is the record of its claims, a blob is sealed or foreign.
- MySQL beyond the declared keys: collation and case folding, VARCHAR lengths, millisecond rounding, auto-increment values, `created_at` and `updated_at`, and `ON DUPLICATE KEY` firing on a key the code did not name.
- A database engine that leaves a half-run migration script behind: the scripts are shown not to fail after their prechecks instead.
- The text of error messages and the mapping of driver errors by text (`mapDefaultProfileDuplicateError`): a refusal by the default key is that error.
- Cached JSON that does not parse, and a nil artifact repository in the bind use case.
- `ListProfiles` outside the summary, `GetPrimaryProfile`, `ConfirmPrimaryProfile` and `RequireProfileAccessByPlayerID`: the same loops as the scoped forms without the guard.
- The guard's action check (`RequireAction`), `UpdateCredentialWithScope`, `PutCredential` and the read-only status call: guard checks or field copies around what is modelled.
- `DeviceRepo.DeleteByBindingID`: no use case calls it.
- Cache agreement and authkey freshness for concurrent requests, which the code does not provide: both are proved with requests as atomic steps.
- StatusUsecase.ClassificationMeans: of Go's lower-casing only what a search for ASCII words can see.
- ArtifactHistory.CacheEqualsDatabase: for histories without a Redis error inside Put, after which the code may leave a stale entry.
- ManagementUsecase.UpdateCredential: is a step of a run from agreeing states only; elsewhere pruning may delete rows that a bind alone would leave, and the contract states that outcome.
- Interleaving.EveryScheduleAgrees: its requests restate the call sequences of the use cases as a state machine; the link to the methods is by reading. An update prunes by the input's binding, which ParseFormat shows to be the parsed one.
