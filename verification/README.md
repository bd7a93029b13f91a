# RadishMemory, proved in Dafny

RadishMemory keeps the bodies of a person's sources as encrypted objects beside a SQLite database.
This project models the parts of it where a crash, an interrupted run or an ambiguous encoding would
cost data or trust, and proves what they promise.

**The vault** (`objects`, `disk`, `database`, `vault`, `vault_theorems`, `vault_decisions`, `object_directory`, `library`,
`body_migration`, `coordinators`). The disk has a visible and a durable set of names and, per file, synced
or unsynced bytes; the operating system may write any name back at any moment, every call may fail, and a
crash keeps only what is durable. The database commits whole transactions. The methods of
`ObjectDirectory`, `Library` and the coordinators work on this state step by step and record every step.
Their records are shown to be lawful histories, and the theorems are about all lawful histories: every
interleaving of migration, capture, abandonment, deletion and reconciliation, cut off anywhere.

**Canonical JSON** (`texts`, `decimal_numbers`, `number_language`, `json_*`). A cursor parser and a printer are
proved against a recursive grammar and a canonical form. The grammar is proved to accept exactly the language of
RFC 8259, stated as a relation between texts and values (`number_language`, `json_spelling`, `json_language`), and
to refuse every other JSON text for the first thing wrong with it (`json_refusals`); the canonical form is
proved to decide equality of meaning, with numbers as exact rationals of any size.

**Binary forms** (`byte_codec`, `associated_data`, `object_crypto`, `envelope`, `capture_fingerprint`).
Encodings are proved injective, and reading and opening are proved to be exact inverses.

**Rules between objects** (`memory_events`, `timestamps`, `governance`, `source_fragments`, `recall`,
`deletion_evidence`). Each validator is proved to accept exactly what a definition without loops says, and
the definitions are proved to mean what they are for.

**Deletion actions, observed key reads and the desktop's requests** (`deletion_tables`, `deletion_runs`,
`deletion_rows`, `deletion_actions`, `key_read_observation`, `desktop`). State machines with properties over whole runs.

## How to read the model

- `faulty` on a directory tells whether its calls may fail. With it, a method's contract says what every
  cut-off run leaves; without it, when an undisturbed run succeeds.
- `Untorn` and `NoneTorn` say that no staging file holds bytes that do not authenticate. A torn staging file
  is a real state: inspection refuses it and no step removes it. Safety theorems cover it; claims that a run
  completes exclude it.
- Digests are collision free and authenticated encryption is ideal. In the vault part both are symbolic; in
  `object_crypto` the cipher is any pair of functions that satisfies `Ideal`, and SHA-256 is a parameter.
- A function and a method with one job are specification and program; the method's contract ties them. Lemmas named
  `...Exactly`, `...Fields`, `...InOrder` or `...Rows` say what such a function computes without naming its parts.
- Several coordinators look at the library again before they go on. With no other program at work these second looks
  always agree with the first; they are steps of the methods, and no contract depends on them.

Three places are worth knowing when the code changes:

- `canonical_json.rs` line 337 negates a 64-bit position without a check. Exactly the tokens whose exponent
  fits 64 bits and whose value has its first digit at the smallest 64-bit position come to negate that
  position (`NegatesSmallestExactly`), `0.01e-9223372036854775807` among them (`SmallestPosition`). All of them
  deserve the expansion limit. A build without overflow checks reports it, because the negation wraps around and
  the conversion that follows fails; a build with overflow checks stops.
- The exponent is parsed before zero is recognised, so a zero is refused exactly when its exponent is beyond
  64 bits (`AcceptedExactly`), as `0e9223372036854775808` is (`RefusedZero`). No other number with a short text is.
- In a library that only these coordinators wrote, a committed object never has a duplicate staging link, so
  reconciliation finds nothing to remove (`Library.Cleanup`, `Reconcile`). Removing one that is there is
  proved for the directory alone (`CleanupCommittedStaging`).

## Model

| member | source | states |
|---|---|---|
| Objects.Seal | crates/radishmemory-source-vault/src/filesystem.rs:88-113 | a body is sealed exactly when its digest and length are the declared ones; the write carries the locator of namespace, source and digest, the stream nonce and the sealed body, and authenticates under its own attempt |
| Objects.LocatorDeterminesBody | crates/radishmemory-source-vault/src/filesystem.rs:36-61 | two files that open under metadata with one locator belong to one source and hold the same body, whatever their nonces and media types |
| Disks.Crashed | crates/radishmemory-source-vault/src/filesystem.rs:220-304 | a crash leaves exactly the durable names, keeps every synced file's bytes and may replace the bytes of any file never synced |
| Disks.Recorded | crates/radishmemory-source-vault/src/filesystem.rs:220-304 | an operation whose conditions hold extends a lawful record of operations |
| ObjectDirectories.StaysHealthy | crates/radishmemory-source-vault/src/filesystem.rs:220-304 | no lawful operation leaves a visible or durable name without a file |
| ObjectDirectories.Authentication | crates/radishmemory-source-vault/src/filesystem.rs:372-389 | a file is accepted exactly when it was sealed for these metadata with the nonce prefix of exactly this attempt and its body has the declared digest and length; only a wrong nonce prefix is a mismatch of attempts |
| ObjectDirectories.ObjectDirectory.Call | crates/radishmemory-source-vault/src/filesystem.rs:220-304 | one system call has its full effect or none, and before it the system may have written any visible entry back |
| ObjectDirectories.ObjectDirectory.Publish | crates/radishmemory-source-vault/src/filesystem.rs:220-304 | an existing target is never replaced; success means a new file under the target name, durable, holding exactly the envelope, with no staging name left, visible or durable; nothing but the attempt's two names ever changes; without faults publication succeeds |
| ObjectDirectories.ObjectDirectory.Stage | crates/radishmemory-source-vault/src/filesystem.rs:239-266 | success leaves a synced staging file that holds the envelope and authenticates; the published directory is untouched |
| ObjectDirectories.ObjectDirectory.WriteBytes | crates/radishmemory-source-vault/src/filesystem.rs:243-246 | a failing write may leave any bytes in the new file, and in no other |
| ObjectDirectories.ObjectDirectory.Expose | crates/radishmemory-source-vault/src/filesystem.rs:267-304 | the staged file gets its name without any file's bytes changing; success means the name is durable and the staging name durably gone |
| ObjectDirectories.ObjectDirectory.InspectAttempt | crates/radishmemory-source-vault/src/filesystem.rs:326-370 | exactly one of four states of the two names, or the reason why they cannot be trusted (wrong locator, unauthentic or torn file, two different files); the disk is not changed |
| ObjectDirectories.ObjectDirectory.Read | crates/radishmemory-source-vault/src/filesystem.rs:307-322 | a body is returned exactly when the locator belongs to the metadata and the published file opens under it, and it then has the declared digest and length |
| ObjectDirectories.ObjectDirectory.RecoverAttempt | crates/radishmemory-source-vault/src/filesystem_recovery.rs:37-46 | from every state but absent, a run without faults ends published only, with the same file; an absent or untrusted attempt is refused without a change; recovering a published attempt changes no name and no byte, so recovery is idempotent |
| ObjectDirectories.ObjectDirectory.CleanupCommittedStaging | crates/radishmemory-source-vault/src/filesystem_recovery.rs:50-58 | only the duplicate staging link may go; a missing object is never published by it |
| ObjectDirectories.ObjectDirectory.FinishAttempt | crates/radishmemory-source-vault/src/filesystem_recovery.rs:60-116 | the published name after success is the very file inspected before; every operation on the way belongs to this attempt, and an existing published name is kept |
| ObjectDirectories.ObjectDirectory.Settle | crates/radishmemory-source-vault/src/filesystem_recovery.rs:89-115 | once the name exists and its file is synced, success means published only, and the answer says whether a staging link was removed |
| ObjectDirectories.ObjectDirectory.RetireAttempt | crates/radishmemory-source-vault/src/filesystem_retirement.rs:13-72 | success means both names are durably absent; an attempt that does not authenticate is refused untouched; other names and all file contents stay |
| ObjectDirectories.ObjectDirectory.VerifyInventory | crates/radishmemory-source-vault/src/filesystem_recovery.rs:6-33 | accepted exactly when the locators differ and every entry of both directories belongs to a listed attempt |
| ObjectDirectories.ObjectDirectory.Crash | crates/radishmemory-source-vault/src/filesystem.rs:220-304 | the next process starts from the durable entries and the synced data |
| Vaults.EventKeepsInv | crates/radishmemory-source-vault/src/body_migration.rs:37-148 | no licensed disk operation, no committed transaction and no crash breaks the invariant that ties rows, references, inline bodies and deletions to the two directories |
| Vaults.DiskEventKeepsInv | crates/radishmemory-source-vault/src/filesystem.rs:220-304 | in particular every step of publication, recovery, cleanup and retirement keeps it, for every row |
| Vaults.CrashKeepsInv | crates/radishmemory-source-vault/src/filesystem.rs:220-304 | a crash at any moment keeps it, whatever becomes of data never synced |
| Vaults.HistoryKeepsInv | crates/radishmemory-source-vault/src/body_migration.rs:37-148 | the invariant holds at every moment of every interleaving of all coordinators and crashes |
| Vaults.OwnRowKept | crates/radishmemory-source-vault/src/filesystem.rs:267-304 | an operation on an attempt leaves its row's promises about the two names true |
| Vaults.SyncKeepsNames | crates/radishmemory-source-vault/src/filesystem_recovery.rs:84-113 | writing entries back, in any mixture, keeps published names published and removed names absent |
| Vaults.CrashKeepsNames | crates/radishmemory-source-vault/src/filesystem_recovery.rs:60-116 | an attempt that is published only, or durably absent, stays so over a crash |
| Vaults.NoNamesLeft | crates/radishmemory-source-vault/src/body_migration.rs:105-122 | when both names of a prepared attempt are gone to the eye, no durable name is left either, so sealing anew cannot meet an old file after a crash |
| Vaults.SubjectKeepsInv | crates/radishmemory-sqlite/src/encrypted_capture.rs:327-396 | every transaction about one source keeps the invariant when the coordinator has the evidence it must establish first |
| Vaults.SubjectClaims | crates/radishmemory-sqlite/src/encrypted_capture.rs:357-396 | whatever a transaction newly claims about the disk (published, removed) the evidence before it already showed |
| Vaults.BeginDeletionKeepsInv | crates/radishmemory-sqlite/src/object_deletion.rs:11-113 | registering a deletion plan over any set of active sources keeps the invariant |
| Vaults.ExecuteDeletionKeepsInv | crates/radishmemory-sqlite/src/object_deletion.rs:220-234 | finishing a plan, successfully or not, keeps the invariant |
| Vaults.FinishMigrationKeepsInv | crates/radishmemory-sqlite/src/source_vault_migration.rs:259-271 | finishing the migration keeps the invariant |
| Vaults.FinishMigrationRows | crates/radishmemory-sqlite/src/source_vault_migration.rs:259-271 | the migration can finish only when every item is retired and no inline body is left |
| Vaults.BeginDeletionRow | crates/radishmemory-sqlite/src/object_deletion.rs:80-100 | a new plan marks exactly its targets, makes their facts pending and drops their references; every other source keeps its mark, reference and facts, and all rows stay as the invariant asks |
| VaultTheorems.BodyNeverLost | crates/radishmemory-source-vault/src/body_migration.rs:87-135 | from any library before migration, at every moment of every run cut off and restarted any number of times, each body that is not under deletion is still inline or is exactly the content of a durable synced object that a committed reference names |
| VaultTheorems.CaptureNeverLost | crates/radishmemory-source-vault/src/capture.rs:49-115 | a committed capture stays readable through its committed reference at every later moment until its own deletion is planned |
| VaultTheorems.SoundIsRecoverable | crates/radishmemory-source-vault/src/body_migration.rs:150-171 | in every state the invariant allows, a source with facts and no deletion plan has exactly its declared body somewhere that survives a crash |
| VaultTheorems.LastLinkNeedsIntent | crates/radishmemory-source-vault/src/filesystem_retirement.rs:21-71 | the last link of an object disappears only by a removal step taken while the stored state is abandoning or deleting, or by a crash before any of its names was durable and before any row relied on it |
| VaultTheorems.CommittedIsNeverRetired | crates/radishmemory-source-vault/src/abandonment.rs:80-118 | no removal step ever works on a source that has a committed reference |
| VaultTheorems.NamesAreNeverReplaced | crates/radishmemory-source-vault/src/filesystem.rs:269-304 | over any event a published name that stays keeps its file and that file its bytes |
| VaultTheorems.PublishedIsAuthentic | crates/radishmemory-source-vault/src/capture.rs:117-172 | whatever the published directory shows is synced and opens under the facts its own row stores |
| VaultTheorems.OneObjectPerSource | crates/radishmemory-source-vault/src/capture.rs:49-115 | a source never has two objects or two staging files, visible or durable, however its tries were interrupted |
| VaultTheorems.FinalIsNeverLeft | crates/radishmemory-sqlite/src/capture_abandonment.rs:108-156 | the abandoned state of a row and the vault's mark that an object was deleted are never left, by any coordinator or crash (the deletion state of the facts may still become failed when a request is executed again) |
| VaultTheorems.FinalStaysAbsent | crates/radishmemory-source-vault/src/deletion.rs:61-104 | from then on no name of the source exists in either view and it has no reference |
| VaultTheorems.RowsMoveForward | crates/radishmemory-source-vault/src/body_migration.rs:94-135 | an item's state only rises in the order planned, prepared, referenced, retired, and a retired or committed row never changes its state again |
| VaultTheorems.HistoryPersists | crates/radishmemory-sqlite/src/encrypted_capture.rs:357-396 | over any history canonical facts are never rewritten, inventory rows and deletion marks never disappear, and an inline body is kept as it is or removed |
| VaultTheorems.BodyTracked | crates/radishmemory-sqlite/src/source_vault_migration.rs:73-98 | a body present before migration is inline until the inventory is made and inventoried ever after |
| Libraries.DiskHistory | crates/radishmemory-source-vault/src/body_migration.rs:37-148 | lawful disk steps that the unchanged database authorizes are a piece of a vault history, so every method below only produces such histories |
| Libraries.SoundInspection | crates/radishmemory-source-vault/src/filesystem.rs:326-370 | in a sound library inspection fails for no reason but a torn staging file |
| Libraries.NoneTornExactly | crates/radishmemory-source-vault/src/filesystem.rs:372-389 | in a sound library nothing is torn exactly when every staging file opens under its own row's facts and carries its own attempt's nonce prefix |
| Libraries.Library.Transact | crates/radishmemory-sqlite/src/source_vault_migration.rs:194-271 | a transaction commits as a whole or leaves the tables alone; without faults an admitted one commits |
| Libraries.Library.Publish | crates/radishmemory-source-vault/src/filesystem.rs:207-304 | publishing a prepared row's envelope succeeds without faults when nothing of its attempt is left, and touches no other source |
| Libraries.Library.Recover | crates/radishmemory-source-vault/src/filesystem_recovery.rs:37-46 | recovering a prepared or referenced row ends published only, without faults always when its staging file is not torn |
| Libraries.Library.Retire | crates/radishmemory-source-vault/src/filesystem_retirement.rs:13-72 | retiring a row whose removal is stored ends with both names durably gone |
| Libraries.Library.Cleanup | crates/radishmemory-source-vault/src/filesystem_recovery.rs:50-58 | in a sound library a committed object never has a duplicate left to remove |
| Libraries.Library.Crash | crates/radishmemory-source-vault/src/body_migration.rs:37-148 | a restart continues the same history |
| BodyMigration.ReadReference | crates/radishmemory-source-vault/src/body_migration.rs:150-171 | success exactly when the committed reference names a published file that opens under the row, and then the body matches the row's digest and length |
| BodyMigration.PublishOrRecover | crates/radishmemory-source-vault/src/body_migration.rs:101-127 | from planned, or from whatever an interrupted run left of a prepared attempt, the row ends prepared with its object published only; only a torn staging file stops a run without faults |
| BodyMigration.PublishInlineBody | crates/radishmemory-source-vault/src/body_migration.rs:111-122 | the inline body is sealed under a new attempt and published; no other source is touched |
| BodyMigration.PublishItem | crates/radishmemory-source-vault/src/body_migration.rs:94-132 | the reference is committed only after the object is published only |
| BodyMigration.RetireItem | crates/radishmemory-source-vault/src/body_migration.rs:133-144 | the inline copy goes only after the committed reference was read back; the row ends retired |
| BodyMigration.MigrateItem | crates/radishmemory-source-vault/src/body_migration.rs:87-145 | one item ends retired from every reachable state; a retired one is not touched at all |
| BodyMigration.ValidateItems | crates/radishmemory-source-vault/src/body_migration.rs:70-86 | success means that every inline body is the declared one, every attempt can be trusted, no staging file is torn and every referenced object was read; a sound library without torn staging files is never refused |
| BodyMigration.Migrate | crates/radishmemory-source-vault/src/body_migration.rs:37-148 | one run without faults ends with every item retired, exactly one published object per item, no staging name visible or durable and no inline body: from every reachable state, the first migration included, without a torn staging file, a stored capture or a deletion plan; a library with a torn staging file is refused before anything changes; retired items keep row, reference and facts; every cut-off run leaves a lawful history |
| BodyMigration.MigrationCanGoOn | crates/radishmemory-source-vault/src/body_migration.rs:37-60 | from any library before its first migration, any number of migration runs, crashes and disk steps, cut off anywhere, leaves one without captures and plans, so that the next run is never refused for its state |
| BodyMigration.VerifyInventory | crates/radishmemory-source-vault/src/body_migration.rs:178-185 | in a sound library both directories always agree with the inventory |
| BodyMigration.AllRetired | crates/radishmemory-source-vault/src/body_migration.rs:133-148 | every item retired means exactly one object per item and nothing staged |
| Coordinators.AuthenticateItem | crates/radishmemory-source-vault/src/capture.rs:133-168 | a body is returned exactly for a committed active source, through its committed reference; it fails exactly when the row's staging file is torn |
| Coordinators.AuthenticateAll | crates/radishmemory-source-vault/src/capture.rs:117-172 | success yields exactly the committed active sources with bodies that match their facts; a sound library fails exactly when some staging file is torn |
| Coordinators.StoreMeansOwnRow | crates/radishmemory-sqlite/src/encrypted_capture.rs:210-281 | when a request may be stored, an unresolved attempt can only be its own and its own row can only be unresolved |
| Coordinators.PreparedStillStores | crates/radishmemory-sqlite/src/encrypted_capture.rs:327-356 | reserving a request keeps it storable, so an interrupted try can be repeated |
| Coordinators.CommittedIsIdempotent | crates/radishmemory-sqlite/src/encrypted_capture.rs:210-281 | from its commit on, repeating a request is recognised and stores nothing |
| VaultDecisions.StoresExactly | crates/radishmemory-sqlite/src/encrypted_capture.rs:210-281 | a request may be stored exactly when no deletion is pending or failed, nothing is being abandoned, nothing but this request is unresolved, its source has no facts and was never committed or given up |
| VaultDecisions.RecognisesExactly | crates/radishmemory-sqlite/src/encrypted_capture.rs:227-268 | a request is recognised as stored exactly when nothing at all is unfinished and its row is committed with exactly its facts, still active |
| Coordinators.PublishRequest | crates/radishmemory-source-vault/src/capture.rs:64-86 | a try ends with the request reserved and its object published only, whether it started anew or took up an earlier attempt |
| Coordinators.PublishAnew | crates/radishmemory-source-vault/src/capture.rs:71-80 | when nothing of an earlier attempt is left, sealing anew ends with the request reserved under the new attempt and its object published only |
| Coordinators.CommitRequest | crates/radishmemory-source-vault/src/capture.rs:87-104 | the facts are committed only over a published object, and are then exactly the request's |
| Coordinators.CaptureSource | crates/radishmemory-source-vault/src/capture.rs:30-115 | an interrupted try leaves the facts unstored or stored whole; success stores the request's facts and nothing else, and the request is idempotent from then on; refused and idempotent requests, and any request to a library with a torn file, change nothing; without faults and torn files a try succeeds |
| Coordinators.TriesStoreOnce | crates/radishmemory-source-vault/src/capture.rs:49-115 | any sequence of interrupted tries of one request stores its facts at most once and changes no other facts |
| Coordinators.Abandon | crates/radishmemory-source-vault/src/abandonment.rs:58-131 | a target whose source, request, attempt or facts no longer are those of an unresolved or abandoned row changes nothing, nor does any target in a library with a torn file; success means the row is abandoned and both names durably gone, and says whether it was so before; facts and references are never touched; without faults an agreeing target succeeds |
| Coordinators.DecideAbandonment | crates/radishmemory-source-vault/src/abandonment.rs:80-92 | the decision is stored before anything is removed |
| Coordinators.RemoveAbandoned | crates/radishmemory-source-vault/src/abandonment.rs:93-118 | the terminal state is committed only after both names are durably gone |
| Coordinators.DecisionEffect | crates/radishmemory-sqlite/src/capture_abandonment.rs:108-156 | the guarded update of an uncommitted selected row turns prepared into abandoning and nothing else |
| Coordinators.AbandonmentFinishes | crates/radishmemory-sqlite/src/capture_abandonment.rs:108-156 | finishing turns abandoning into abandoned and the same target still selects the row |
| Coordinators.Reconcile | crates/radishmemory-source-vault/src/reconciliation.rs:40-126 | reconciliation changes nothing anyone can see: a sound library has no duplicate link, so the count it reports is zero; a library with a torn file is refused |
| Coordinators.RetireObject | crates/radishmemory-source-vault/src/deletion.rs:61-96 | a planned object is recorded as removed only after its names are durably gone; only this plan's marks change |
| Coordinators.RecordRetirement | crates/radishmemory-sqlite/src/object_deletion.rs:190-219 | recording a removal sets one mark of the plan and nothing else |
| Coordinators.RetirePlan | crates/radishmemory-source-vault/src/deletion.rs:61-100 | success means every object of the plan is recorded as removed |
| Coordinators.BeginDelete | crates/radishmemory-sqlite/src/object_deletion.rs:11-113 | a plan is registered whole or not at all: its targets' facts become pending, their references go, all other facts and references stay; an equal repetition is the same plan |
| Coordinators.FinishDelete | crates/radishmemory-source-vault/src/deletion.rs:97-111 | the targets' facts take the final state, all others stay; until then no facts change |
| Coordinators.Delete | crates/radishmemory-source-vault/src/deletion.rs:33-112 | at every cut-off the facts are as before, or exactly the targets pending, or, only when every object of the plan is durably gone, exactly the targets in the result state; success means the last; an inadmissible plan, or any plan in a library with a torn file, changes nothing; references of other sources are kept; a run without faults succeeds |
| VaultDecisions.DeletionBeginsExactly | crates/radishmemory-sqlite/src/object_deletion.rs:31-60 | a new plan may begin exactly when nothing at all is unfinished and every target's facts are active; a known plan exactly with its own targets |
| VaultDecisions.HistoryKeepsStates | crates/radishmemory-sqlite/src/deletion_store.rs:712-724 | over every history a source under deletion is pending until all objects of its plan are recorded as removed |
| VaultDecisions.DeletedMeansGone | crates/radishmemory-sqlite/src/object_deletion.rs:190-234 | at every moment of every history from a library before migration, a source whose removal is not recorded is pending, and one whose facts say deleted or failed has, with all sources of its plan, no name left, visible or durable |
| VaultDecisions.UnfinishedPlanBlocks | crates/radishmemory-sqlite/src/encrypted_capture.rs:217-223 | while the removal of one object is not recorded, every capture and every other plan is refused |
| Coordinators.PlanGone | crates/radishmemory-source-vault/src/deletion.rs:97-104 | a plan with every object recorded as removed has no name left, visible or durable |
| DecimalNumbers.ScaledInjective | crates/radishmemory-core/src/canonical_json.rs:301-359 | at one scale, equal values mean equal mantissas |
| DecimalNumbers.NatOfInjective | crates/radishmemory-core/src/canonical_json.rs:301-359 | digit strings of one length are told apart by their number |
| DecimalNumbers.Cut | crates/radishmemory-core/src/canonical_json.rs:303-317 | cutting a token at its exponent mark and point loses no character |
| DecimalNumbers.GrammarIsUnambiguous | crates/radishmemory-core/src/canonical_json.rs:179-191 | a token is a number exactly when it can be composed of sign, integer, fraction and exponent as section 6 of RFC 8259 has it; the program's cut finds the only way |
| NumberLanguage.NumberExactly | crates/radishmemory-core/src/canonical_json.rs:179-191 | the program accepts a token and cuts it into sign, digits before and after the point and exponent exactly as the productions of section 6 of RFC 8259 read it |
| NumberLanguage.ValueExactly | crates/radishmemory-core/src/canonical_json.rs:301-359 | the value of a token is its digits, each with the weight of its place, moved down by the digits after the point and up or down by the exponent, for both signs and both exponent marks |
| NumberLanguage.CanonicalExactly | crates/radishmemory-core/src/canonical_json.rs:337-359 | the canonical tokens are those without exponent, without a zero at the end of the fraction and without a sign before zero |
| NumberLanguage.AcceptedByText | crates/radishmemory-core/src/canonical_json.rs:301-388 | below 2^62 characters, a token other than zero gets a text exactly when the text is a canonical token of the same value of at most one mebibyte |
| DecimalNumbers.NormalUnique | crates/radishmemory-core/src/canonical_json.rs:317-359 | a normal form (no outer zeros) is determined by its exact rational value |
| DecimalNumbers.NormalKeepsValue | crates/radishmemory-core/src/canonical_json.rs:317-336 | stripping zeros and moving the point keeps the exact value, for any digit count and exponent; only zero has no normal form |
| DecimalNumbers.RenderedIsNormal | crates/radishmemory-core/src/canonical_json.rs:337-359 | the plain text of a normal form is a number token with that very normal form |
| DecimalNumbers.NormalizeKeepsValue | crates/radishmemory-core/src/canonical_json.rs:301-359 | an accepted token's text is a number token of the same exact value, within one mebibyte, and is left alone when normalized again |
| DecimalNumbers.NormalizeDecidesEquality | crates/radishmemory-core/src/canonical_json.rs:301-359 | two accepted tokens get one text exactly when they are the same rational number |
| DecimalNumbers.FixedPointsAreCanonical | crates/radishmemory-core/src/canonical_json.rs:301-388 | the tokens left alone are exactly those without exponent, redundant zero or negative zero of at most one mebibyte |
| DecimalNumbers.AcceptedTokens | crates/radishmemory-core/src/canonical_json.rs:301-388 | a token is accepted exactly when its exponent fits 64 bits and it is zero or its plain text and point fit |
| DecimalNumbers.AcceptedExactly | crates/radishmemory-core/src/canonical_json.rs:301-388 | below 2^62 characters, a token other than zero is accepted exactly when its plain text is at most one mebibyte, and a zero exactly when its exponent fits 64 bits |
| DecimalNumbers.RefusedZero | crates/radishmemory-core/src/canonical_json.rs:361-380 | `0e9223372036854775808` is zero and is refused |
| DecimalNumbers.PointIsAlwaysPlaced | crates/radishmemory-core/src/canonical_json.rs:319-336 | below 2^62 characters the 64-bit sums refuse no number whose plain text would be short enough |
| DecimalNumbers.NegatesSmallestExactly | crates/radishmemory-core/src/canonical_json.rs:327-340 | below 2^62 characters, line 337 negates the smallest 64-bit integer exactly when the exponent fits 64 bits and the value has its first digit at that position, between two neighbouring powers of ten; every such number is one the expansion limit is for |
| DecimalNumbers.NormalDecade | crates/radishmemory-core/src/canonical_json.rs:327-340 | a normal form lies between the powers of ten its position names, and no others |
| DecimalNumbers.SmallestPosition | crates/radishmemory-core/src/canonical_json.rs:337-340 | `0.01e-9223372036854775807` is such a token: a build without overflow checks reports the expansion limit, one with them stops |
| DecimalNumbers.ParseExponent | crates/radishmemory-core/src/canonical_json.rs:361-380 | reading digit by digit with checked arithmetic gives the exponent, or the expansion limit exactly when it exceeds 64 bits |
| DecimalNumbers.RenderedText | crates/radishmemory-core/src/canonical_json.rs:337-359 | where the point goes and how many zeros are written, in the three cases |
| DecimalNumbers.WriteDigits | crates/radishmemory-core/src/canonical_json.rs:337-359 | writes exactly the plain text, or refuses it exactly when it is longer than one mebibyte; at the smallest position a build with overflow checks stops instead |
| DecimalNumbers.PlacePoint | crates/radishmemory-core/src/canonical_json.rs:317-359 | the checked 64-bit sums and the length check together give the canonical text or the limit, and a build with overflow checks stops exactly at the smallest position |
| DecimalNumbers.NormalizeNumber | crates/radishmemory-core/src/canonical_json.rs:301-359 | the program meets the specification the value theorems are about, on every number token and in builds with and without overflow checks |
| JsonStrings.UnescapeEscape | crates/radishmemory-core/src/canonical_json.rs:276-299 | every sequence of scalar values is decoded again from its escaped form |
| JsonStrings.EscapedCharDecodes | crates/radishmemory-core/src/canonical_json.rs:276-299 | also character by character, in any surrounding text |
| JsonSpelling.DecodeExactly | crates/radishmemory-core/src/canonical_json.rs:149-177 | a scalar value is read at a place exactly when a spelling of it stands there: itself, one of the eight short escapes, or the escape of each of its UTF-16 code units with hexadecimal digits of either case |
| JsonSpelling.PairExactly | crates/radishmemory-core/src/canonical_json.rs:149-177 | a surrogate pair is read exactly as the scalar value whose two code units it spells |
| JsonSpelling.UnicodeExactly | crates/radishmemory-core/src/canonical_json.rs:149-177 | the same for every escape by code units; a surrogate without its partner is read as nothing |
| JsonSpelling.ReadStringExactly | crates/radishmemory-core/src/canonical_json.rs:149-177 | a string is read exactly up to the closing quote of a spelling of its scalar values |
| JsonSpelling.EscapeIsShortest | crates/radishmemory-core/src/canonical_json.rs:276-299 | no spelling of a scalar value is shorter than the one the writer chooses |
| JsonValues.KeyOrderTotal | crates/radishmemory-core/src/canonical_json.rs:257-260 | the order of member names is total and strict |
| JsonValues.KeyLessExactly | crates/radishmemory-core/src/canonical_json.rs:257-260 | one name comes before another exactly when they agree up to a place where the first ends or has the smaller scalar value |
| JsonCanonical.SortPermutes | crates/radishmemory-core/src/canonical_json.rs:257-260 | sorting members loses and adds none |
| JsonCanonical.SortSorts | crates/radishmemory-core/src/canonical_json.rs:257-260 | distinct names end strictly sorted |
| JsonCanonical.SortedUnique | crates/radishmemory-core/src/canonical_json.rs:257-260 | sorted members are determined by which members they are |
| JsonCanonical.SortKeepsMap | crates/radishmemory-core/src/canonical_json.rs:257-260 | sorting does not change the map an object denotes |
| JsonCanonical.CanonIsValue | crates/radishmemory-core/src/canonical_json.rs:243-274 | a canonical form is a value the parser can build, no deeper than the original |
| JsonCanonical.CanonKeepsMeaning | crates/radishmemory-core/src/canonical_json.rs:243-274 | writing canonically keeps what a value denotes: objects as maps, numbers as rationals, strings as scalar sequences |
| JsonCanonical.CanonUnique | crates/radishmemory-core/src/canonical_json.rs:243-274 | values that denote the same have the same canonical form |
| JsonCanonical.CanonIdempotent | crates/radishmemory-core/src/canonical_json.rs:243-274 | the canonical form is its own canonical form |
| JsonGrammar.ReadValue | crates/radishmemory-core/src/canonical_json.rs:76-91 | a read value ends inside the text and is well formed, with distinct names, within the nesting limit |
| JsonGrammar.ReadKey | crates/radishmemory-core/src/canonical_json.rs:93-126 | a repeated name is never read |
| JsonGrammar.Parse | crates/radishmemory-core/src/canonical_json.rs:66-75 | a parsed text is well formed and within the nesting limit |
| JsonLanguage.ParseExactly | crates/radishmemory-core/src/canonical_json.rs:66-147 | a text is parsed as a value exactly when it is a text of the value in the language of RFC 8259, given as a relation between stretches of the text and values: whitespace around every token, commas, colons, any spelling of the strings; with no name twice in an object and within the nesting limit |
| JsonLanguage.ReadsText | crates/radishmemory-core/src/canonical_json.rs:76-147 | every text of a value, behind whitespace and before a boundary, is read as that value up to its end |
| JsonLanguage.ValueIsText | crates/radishmemory-core/src/canonical_json.rs:76-147 | whatever is read as a value is a text of that value |
| JsonLanguage.WithinExactly | crates/radishmemory-core/src/canonical_json.rs:76-80 | the nesting limit admits exactly what never stands within 129 containers |
| JsonRefusals.RefusedExactly | crates/radishmemory-core/src/canonical_json.rs:76-126 | every JSON text, with null, repeated names and any nesting, is accepted exactly when nothing is wrong with its tree, and otherwise refused for the first thing wrong in the order of the text: nesting, null or a repeated name |
| JsonRefusals.SyntaxMeansNoText | crates/radishmemory-core/src/canonical_json.rs:66-75 | what is refused as a syntax error is no JSON text at all |
| JsonTheorems.ParseTextOf | crates/radishmemory-core/src/canonical_json.rs:40-75 | parsing inverts writing for every value the parser can build |
| JsonTheorems.WrittenIsText | crates/radishmemory-core/src/canonical_json.rs:243-299 | the written text of a value, wherever it stands, is one of its texts |
| JsonTheorems.CanonicalTextIsShortest | crates/radishmemory-core/src/canonical_json.rs:17-43 | no text of the canonical value is shorter than the canonical text: no whitespace and the shortest spelling of every character |
| JsonTheorems.CanonicalTextIsStable | crates/radishmemory-core/src/canonical_json.rs:17-43 | parsing canonical text succeeds, means the same, and printing it again returns it unchanged |
| JsonTheorems.CanonicalTextDecidesMeaning | crates/radishmemory-core/src/canonical_json.rs:17-43 | two accepted texts have equal canonical texts exactly when they denote the same value |
| JsonProgram.Parser.SkipWhitespace | crates/radishmemory-core/src/canonical_json.rs:223-227 | the cursor stops at the first character that is not whitespace |
| JsonProgram.Parser.Consume | crates/radishmemory-core/src/canonical_json.rs:229-236 | the cursor moves by one exactly when the expected character stands there |
| JsonProgram.Parser.ParseString | crates/radishmemory-core/src/canonical_json.rs:149-177 | the cursor parser agrees with the grammar on strings: value, place and error; what the grammar reads is exactly what is spelled (`ReadStringExactly`) |
| JsonProgram.Parser.ParseNumber | crates/radishmemory-core/src/canonical_json.rs:179-191 | the same for numbers |
| JsonProgram.Parser.ParseLiteral | crates/radishmemory-core/src/canonical_json.rs:192-205 | the same for `true` and `false`, which need a boundary after them |
| JsonProgram.Parser.ParseNull | crates/radishmemory-core/src/canonical_json.rs:207-221 | `null` is refused with its own reason |
| JsonProgram.Parser.ParseValue | crates/radishmemory-core/src/canonical_json.rs:76-91 | the same for every value and depth |
| JsonProgram.Parser.ParseArray | crates/radishmemory-core/src/canonical_json.rs:128-147 | the loop over items agrees with the recursive grammar |
| JsonProgram.Parser.ParseKey | crates/radishmemory-core/src/canonical_json.rs:104-116 | the set of seen names refuses exactly the repeated ones |
| JsonProgram.Parser.ParseObject | crates/radishmemory-core/src/canonical_json.rs:93-126 | the loop over members agrees with the recursive grammar |
| JsonProgram.Parser.ParseText | crates/radishmemory-core/src/canonical_json.rs:66-75 | the program parses exactly what the grammar parses |
| JsonProgram.WriteString | crates/radishmemory-core/src/canonical_json.rs:276-299 | appends exactly the quoted escaped string |
| JsonProgram.WriteItems | crates/radishmemory-core/src/canonical_json.rs:250-256 | appends the canonical text of an array, or fails exactly when some number is not printable |
| JsonProgram.WriteMembers | crates/radishmemory-core/src/canonical_json.rs:257-270 | members are appended in sorted order whatever the order they were read in |
| JsonProgram.WriteValue | crates/radishmemory-core/src/canonical_json.rs:243-274 | appends exactly the canonical text, or fails with the number limit exactly when a number has none |
| JsonProgram.CanonSort | crates/radishmemory-core/src/canonical_json.rs:257-270 | sorting first and writing canonically second gives the same members as the reverse |
| JsonProgram.CanonicalizeJson | crates/radishmemory-core/src/canonical_json.rs:17-43 | the program computes the function the canonical theorems are about; which texts it accepts, as which values and with which refusals is fixed by `ParseExactly` and `RefusedExactly` |
| MemoryEvents.NewEvent | crates/radishmemory-core/src/memory.rs:276-308 | an event is built exactly when its related identities are distinct and a confirmation has no predecessor, state or time and comes from a decision, while every other event has all three, leaves the confirmed state and does not come from a fragment; each refusal names its reason |
| MemoryEvents.ChainUnique | crates/radishmemory-core/src/invariants.rs:182-251 | a list of events can be arranged as a chain in at most one way |
| MemoryEvents.SamePlace | crates/radishmemory-core/src/invariants.rs:205-245 | in a chain a previous-event identity points exactly one place back |
| MemoryEvents.VerdictAccepts | crates/radishmemory-core/src/invariants.rs:182-251 | the verdict is success exactly when the events form one unbranched acyclic chain that covers every event and whose end matches the record |
| MemoryEvents.AcceptedLinks | crates/radishmemory-core/src/invariants.rs:182-251 | in an accepted list every event is the record's own; it is the confirmation or continues another event in the state that one leads to; no two continue the same event; and the one the record shows is continued by none |
| MemoryEvents.AcceptedInAnyOrder | crates/radishmemory-core/src/invariants.rs:182-251 | whether a list of events is accepted does not depend on their order; the reason of a refusal may |
| MemoryEvents.BuiltChainsAreShort | crates/radishmemory-core/src/memory.rs:276-311 | with events the constructor built an accepted chain has at most two events, and one exactly when the record is confirmed |
| MemoryEvents.StateShowsTheEnd | crates/radishmemory-core/src/memory.rs:276-311 | the record's state names the kind of event that ended it: superseded, contradicted, retracted or expired |
| MemoryEvents.OtherStatesAreTerminal | crates/radishmemory-core/src/memory.rs:276-311 | once a record is not confirmed, no further built event is ever accepted |
| MemoryEvents.NextInArrangement | crates/radishmemory-core/src/invariants.rs:217-245 | the event the walk takes next is the next one of every arrangement |
| MemoryEvents.WalkFails | crates/radishmemory-core/src/invariants.rs:205-245 | a branch, a state that does not follow or an event left over means that no chain exists |
| MemoryEvents.WalkContinues | crates/radishmemory-core/src/invariants.rs:217-245 | otherwise the walk is the beginning of every arrangement |
| MemoryEvents.WalkedFits | crates/radishmemory-core/src/invariants.rs:217-245 | a walk never visits more events than there are, so it ends |
| MemoryEvents.Enter | crates/radishmemory-core/src/invariants.rs:188-204 | indexing finds the first foreign, misnamed or repeated event |
| MemoryEvents.Walk | crates/radishmemory-core/src/invariants.rs:205-245 | returns the last event of the chain, or fails exactly when there is none |
| MemoryEvents.ValidateEventChain | crates/radishmemory-core/src/invariants.rs:182-251 | the validator's loops compute the verdict |
| ByteCodec.NumberSplits | crates/radishmemory-source-vault/src/aad.rs:133-137 | fixed-width numbers are told apart by their bytes, whatever follows |
| ByteCodec.FourBytes | crates/radishmemory-source-vault/src/aad.rs:133-137 | a number in four bytes stands with its most significant byte first |
| ByteCodec.EightBytes | crates/radishmemory-source-vault/src/aad.rs:133-137 | likewise in eight bytes |
| ByteCodec.FieldBytes | crates/radishmemory-source-vault/src/aad.rs:133-137 | a field is its tag, its length in four bytes and its bytes |
| ByteCodec.TakesField | crates/radishmemory-source-vault/src/envelope.rs:137-146 | a field is taken back from what was written |
| ByteCodec.TakenIsField | crates/radishmemory-source-vault/src/envelope.rs:137-146 | whatever is taken was a field of that tag, and the rest is what follows it |
| ByteCodec.FieldsInjective | crates/radishmemory-source-vault/src/aad.rs:133-137 | a list of tagged fields determines its values |
| AssociatedData.NewMetadata | crates/radishmemory-source-vault/src/aad.rs:35-71 | metadata is refused exactly when a text is empty or too long for its 32-bit length |
| AssociatedData.ObjectAadInjective | crates/radishmemory-source-vault/src/aad.rs:73-98 | equal segment associated data mean equal metadata and equal nonce prefix |
| AssociatedData.ObjectAadFields | crates/radishmemory-source-vault/src/aad.rs:73-98 | the fields of the segment associated data, one by one, in their order |
| AssociatedData.WrapAadFields | crates/radishmemory-source-vault/src/aad.rs:99-117 | the fields of the wrapped-key associated data, one by one, in their order |
| AssociatedData.WrapAadInjective | crates/radishmemory-source-vault/src/aad.rs:99-117 | the same for the associated data of wrapped keys |
| AssociatedData.DomainsAreSeparate | crates/radishmemory-source-vault/src/aad.rs:73-117 | no segment associated data equals any wrapped-key associated data |
| AssociatedData.Buffer.PushField | crates/radishmemory-source-vault/src/aad.rs:133-137 | pushing appends the tag, the length and the bytes |
| AssociatedData.BuildObjectAad | crates/radishmemory-source-vault/src/aad.rs:73-98 | the written bytes are the injective encoding |
| AssociatedData.BuildWrapAad | crates/radishmemory-source-vault/src/aad.rs:99-117 | likewise for wrapped keys |
| ObjectCrypto.SegmentNonceInjective | crates/radishmemory-source-vault/src/crypto.rs:178-212 | counter and final flag are told apart in the nonce |
| ObjectCrypto.PiecesLayout | crates/radishmemory-source-vault/src/crypto.rs:298-328 | cutting a body loses nothing, and the number of pieces and the final length are what the two layout formulas compute |
| ObjectCrypto.PiecesUnique | crates/radishmemory-source-vault/src/crypto.rs:178-242 | full pieces before a last one are the only way to cut what they join to |
| ObjectCrypto.EncryptedIsLaidOut | crates/radishmemory-source-vault/src/crypto.rs:178-212 | what encryption writes always passes the layout check |
| ObjectCrypto.EncryptStream | crates/radishmemory-source-vault/src/crypto.rs:178-212 | the loop seals every piece under its own nonce, only the last one marked final |
| ObjectCrypto.SegmentExactly | crates/radishmemory-source-vault/src/crypto.rs:178-212 | each segment is the seal of its own mebibyte of the body under prefix, big-endian number and final flag, and the final one is the one the body ends in |
| ObjectCrypto.DecryptStream | crates/radishmemory-source-vault/src/crypto.rs:213-242 | succeeds exactly when every segment opens at its place, and joins exactly the opened pieces |
| ObjectCrypto.ValidateSegmentLayout | crates/radishmemory-source-vault/src/crypto.rs:298-320 | accepts exactly the layouts of bodies of the declared length |
| ObjectCrypto.SealObject | crates/radishmemory-source-vault/src/crypto.rs:123-176 | a body is sealed exactly when it is the declared one; the data key is wrapped under the key with its own associated data, the body sealed under the data key; each refusal names its reason |
| ObjectCrypto.OpenObject | crates/radishmemory-source-vault/src/crypto.rs:83-121 | with an ideal cipher, opening returns a body exactly when the object is the sealing of that body under this key and metadata, with the declared digest and length |
| ObjectCrypto.OpenedIsSealing | crates/radishmemory-source-vault/src/crypto.rs:213-242 | segments that open under the right layout were sealed from exactly the joined pieces |
| ObjectCrypto.SegmentStays | crates/radishmemory-source-vault/src/crypto.rs:213-242 | with a cipher that opens nothing under another nonce, the nonce layout lets a segment of a stream open at no other place and with no other final flag |
| ObjectCrypto.AssumptionsAreConsistent | crates/radishmemory-source-vault/src/crypto.rs:178-242 | some cipher is ideal and opens nothing under another nonce of a stream, so what is proved from both is not empty |
| ObjectCrypto.SegmentsCannotMove | crates/radishmemory-source-vault/src/crypto.rs:213-242 | any rearrangement, repetition or truncation of a sealed stream that opens throughout is the stream itself |
| Envelope.CiphertextLength | crates/radishmemory-source-vault/src/envelope.rs:80-100 | the joined segments are as long as the body and one tag for each |
| Envelope.EncodingFits | crates/radishmemory-source-vault/src/envelope.rs:14-46 | no encoding of a storable object exceeds the limit the reader enforces |
| Envelope.EncodedFields | crates/radishmemory-source-vault/src/envelope.rs:14-46 | the file form is the magic number, the version and sixteen fields, one by one, in their order |
| Envelope.ChunksOfJoin | crates/radishmemory-source-vault/src/envelope.rs:85-100 | splitting the ciphertext undoes joining the segments |
| Envelope.JoinOfChunks | crates/radishmemory-source-vault/src/envelope.rs:85-100 | joining undoes splitting |
| Envelope.ChunksLaidOut | crates/radishmemory-source-vault/src/envelope.rs:85-100 | the chunks of a ciphertext of the declared length always pass the layout check |
| Envelope.MatchesFields | crates/radishmemory-source-vault/src/envelope.rs:48-80 | fields match exactly when the input begins with precisely these fields |
| Envelope.DiffersExactly | crates/radishmemory-source-vault/src/envelope.rs:48-80 | fields mismatch exactly when expected fields are followed by one of the next tag with another value; anything else is malformed |
| Envelope.ExpectFields | crates/radishmemory-source-vault/src/envelope.rs:48-80 | the reader stops at the first field that is malformed or different, with the right reason |
| Envelope.ValidateMetadata | crates/radishmemory-source-vault/src/envelope.rs:108-129 | accepts exactly the metadata an envelope can store |
| Envelope.Encode | crates/radishmemory-source-vault/src/envelope.rs:14-46 | writes exactly the file form, or refuses exactly the metadata that cannot be stored |
| Envelope.PushSegments | crates/radishmemory-source-vault/src/envelope.rs:36-46 | the last field is the joined segments |
| Envelope.DecodeSealed | crates/radishmemory-source-vault/src/envelope.rs:73-106 | what is read from the last four fields writes back to the same bytes, and nothing readable is refused |
| Envelope.Decode | crates/radishmemory-source-vault/src/envelope.rs:48-106 | reading is the inverse of writing in both directions: every accepted byte string is the encoding of what it decodes to, every encoding is accepted, and a refusal says whether the metadata contradict |
| Envelope.EncodedInjective | crates/radishmemory-source-vault/src/envelope.rs:14-46 | an encoding determines the object |
| CaptureFingerprint.PreimageInjective | crates/radishmemory-sqlite/src/capture_fingerprint.rs:8-71 | requests with one pre-image agree on every field, option and list, and on their fragments up to the order of equal ordinals |
| CaptureFingerprint.PreimageDeterminesCapture | crates/radishmemory-sqlite/src/capture_fingerprint.rs:8-71 | with fragments listed by ordinal they are equal |
| CaptureFingerprint.SortedStay | crates/radishmemory-sqlite/src/capture_fingerprint.rs:38-41 | fragments already in ordinal order are encoded as they stand |
| CaptureFingerprint.SortIsStable | crates/radishmemory-sqlite/src/capture_fingerprint.rs:38-41 | fragments are encoded by ordinal, those of one ordinal in their given order |
| CaptureFingerprint.CaptureInOrder | crates/radishmemory-sqlite/src/capture_fingerprint.rs:8-71 | the pre-image is the domain and every part of the request, one by one, in order |
| CaptureFingerprint.PartBytes | crates/radishmemory-sqlite/src/capture_fingerprint.rs:72-90 | a text carries its length in eight bytes, a missing part is zero and a present one follows a one |
| CaptureFingerprint.Codec.PutGovernance | crates/radishmemory-sqlite/src/capture_fingerprint.rs:91-103 | appends the governance encoding |
| CaptureFingerprint.Codec.PutOptional | crates/radishmemory-sqlite/src/capture_fingerprint.rs:82-90 | appends an absent and a present text differently |
| CaptureFingerprint.Codec.PutFragment | crates/radishmemory-sqlite/src/capture_fingerprint.rs:42-69 | appends one whole fragment |
| CaptureFingerprint.WritePreimage | crates/radishmemory-sqlite/src/capture_fingerprint.rs:8-71 | the codec's loops write exactly the injective pre-image |
| Timestamps.CompareFraction | crates/radishmemory-core/src/temporal.rs:100-111 | digit by digit is exactly the order of the fractions as real numbers, for any lengths |
| Timestamps.Compare | crates/radishmemory-core/src/temporal.rs:84-98 | exactly the order of the instants |
| Timestamps.TrailingZeros | crates/radishmemory-core/src/temporal.rs:100-111 | zeros at the end of a fraction do not move the instant |
| Timestamps.FractionExactly | crates/radishmemory-core/src/temporal.rs:100-111 | a fraction is its digits as a number, divided by ten once for each digit |
| Timestamps.PlacesInOrder | crates/radishmemory-core/src/temporal.rs:84-98 | instants are ordered by second, then a leap second after the second it repeats, then by fraction |
| Timestamps.LeapSecondsLieBetween | crates/radishmemory-core/src/temporal.rs:24-46 | a leap second lies after every instant of the second it repeats and before the next one |
| Governances.DerivationIsPreorder | crates/radishmemory-core/src/invariants.rs:26-44 | being no weaker in sensitivity, retention and deletion is reflexive and transitive |
| Governances.DerivedNeverOutlives | crates/radishmemory-core/src/invariants.rs:652-664 | whatever policies mean, nothing derived may be kept or recalled longer than its source; a restricted source has restricted derivations only, and only a personal source personal ones |
| Governances.NoWeakerExactly | crates/radishmemory-core/src/invariants.rs:26-44 | a derivation is acceptable exactly when it ends no later, is active only over an active source, and is restricted over a restricted and not personal over a sensitive source |
| Governances.RetentionExactly | crates/radishmemory-core/src/invariants.rs:652-664 | a retention may be derived exactly when it ends no later under every meaning of the policies and names no policy where the source names none |
| Governances.IsRetentionNoLater | crates/radishmemory-core/src/invariants.rs:652-664 | decides the retention order over exact instants and policies |
| Governances.ValidateDerivation | crates/radishmemory-core/src/invariants.rs:26-44 | accepted exactly when there is a source and the derived governance is no weaker than each; each refusal names its reason |
| SourceFragments.ValidateResolution | crates/radishmemory-core/src/invariants.rs:46-66 | a fragment resolves exactly when identity, namespace, range, bytes and governance fit its source; the first that does not is the reason |
| SourceFragments.CompleteSetJoins | crates/radishmemory-core/src/invariants.rs:69-94 | an accepted complete set joins to exactly the source body |
| SourceFragments.CoveredOnce | crates/radishmemory-core/src/invariants.rs:69-94 | every byte of the body lies in exactly one fragment |
| SourceFragments.ValidateCompleteSet | crates/radishmemory-core/src/invariants.rs:69-94 | accepts exactly the complete sets; a refusal is the reason a fragment does not resolve, or that the set is not complete |
| Recall.RequireExactIds | crates/radishmemory-core/src/invariants.rs:609-628 | accepts exactly equal sets of identities listed without repetition; each refusal names its reason |
| Recall.SupportedByGovernance | crates/radishmemory-core/src/invariants.rs:108-116 | among fragments that fit otherwise, all support the proposal exactly when it is no weaker than each |
| Recall.ValidateProposalSources | crates/radishmemory-core/src/invariants.rs:96-118 | accepts exactly proposals that rest on their resolved fragments |
| Recall.ValidateMaterialization | crates/radishmemory-core/src/invariants.rs:120-180 | accepts exactly records that an accepting decision makes of the proposal; each refusal names its reason |
| Recall.MaterializesExactly | crates/radishmemory-core/src/invariants.rs:120-180 | decision, record and first event, field by field: which are the proposal's, which name each other, and which are absent |
| Recall.MaterializedChain | crates/radishmemory-core/src/invariants.rs:120-251 | a freshly materialized record passes the event-chain validator with its initial event |
| Recall.RecordHonoursSources | crates/radishmemory-core/src/invariants.rs:96-180 | a record in any later state (superseded and contradicted ones too) is no weaker than every source its proposal rested on, in its namespace, and those sources were active |
| Recall.RefHonoursSources | crates/radishmemory-core/src/invariants.rs:509-562 | an admitted reference, to a fragment or to a record, makes the pack no weaker than every source below it |
| Recall.PackNeverWeakerThanSources | crates/radishmemory-core/src/invariants.rs:315-391 | end to end: an accepted pack is in the namespace of every source below any of its fragment references, record references and citations; it is restricted over a restricted and not personal over a sensitive source, is kept no longer, and both are active |
| Recall.Index | crates/radishmemory-core/src/invariants.rs:564-607 | indexing succeeds exactly without repeated identities and maps each to its object |
| Recall.ValidateRef | crates/radishmemory-core/src/invariants.rs:509-562 | admits exactly references to known active objects of the right kind that the pack does not weaken; each refusal names its reason |
| Recall.RefExactly | crates/radishmemory-core/src/invariants.rs:509-562 | which kinds of item may refer to fragments and to records, and in which state those have to be |
| Recall.ValidateItem | crates/radishmemory-core/src/invariants.rs:333-359 | admits exactly the items whose every reference is admitted and whose citations fit |
| Recall.ValidateCitation | crates/radishmemory-core/src/invariants.rs:365-389 | admits exactly citations whose bytes and range are those of the fragment and source; each refusal names its reason |
| Recall.CitationExactly | crates/radishmemory-core/src/invariants.rs:365-389 | an exact citation repeats its fragment's source, range and bytes, and those are the source's bytes at that range |
| Recall.UsedCitations | crates/radishmemory-core/src/invariants.rs:332-364 | collects exactly the citations some item uses |
| Recall.ValidateIndexed | crates/radishmemory-core/src/invariants.rs:321-391 | over indexed objects, accepts exactly packs that resolve |
| Recall.ValidateContextPack | crates/radishmemory-core/src/invariants.rs:315-391 | accepts exactly the packs that resolve over distinct sources, fragments and records, and over nothing but those |
| DeletionEvidences.ClosureUnique | crates/radishmemory-core/src/deletion.rs:141-169 | a frozen closure is determined by which references it has |
| DeletionEvidences.SortRefsSorts | crates/radishmemory-core/src/deletion.rs:161-169 | freezing sorts distinct references strictly |
| DeletionEvidences.RefOrderExactly | crates/radishmemory-core/src/deletion.rs:161-169 | references are ordered by kind, in the order of the kinds, and within a kind by the scalar values of their identities |
| DeletionEvidences.BuildLocalPurgeTargets | crates/radishmemory-core/src/deletion.rs:94-133 | a plan is built exactly for a non-empty list of distinct references to sources and records, and every component counts all of them |
| DeletionEvidences.PlanComponents | crates/radishmemory-core/src/deletion.rs:94-133 | the ten components with their keys, kinds and actions, each over exactly the named targets |
| DeletionEvidences.PlanInAnyOrder | crates/radishmemory-core/src/deletion.rs:94-133 | the plan does not depend on the order in which targets are named |
| DeletionEvidences.AnswersAreUnique | crates/radishmemory-core/src/invariants.rs:470-496 | no two results answer one component and no result answers two |
| DeletionEvidences.NothingLeftOver | crates/radishmemory-core/src/invariants.rs:470-496 | as many results as components and an answer to each leave no result without a component |
| DeletionEvidences.AllProcessed | crates/radishmemory-core/src/invariants.rs:458-507 | if every answer is processed in full, as much was processed as planned |
| DeletionEvidences.CompletedEvidenceIsComplete | crates/radishmemory-core/src/deletion.rs:530-574 | accepted completed evidence of a purge plan accounts for ten times its targets |
| DeletionEvidences.ValidateEvidence | crates/radishmemory-core/src/invariants.rs:458-507 | accepts exactly the evidence that matches the request component by component; each refusal names its reason |
| DeletionTables.EffectFramed | crates/radishmemory-sqlite/src/deletion_actions.rs:84-128 | each component action changes nothing outside the closures but capture audit and origin bindings of the affected lineages |
| DeletionTables.StepFramed | crates/radishmemory-sqlite/src/deletion_store.rs:1059-1147 | the same for a whole component step with its recorded result, whether it succeeds or rolls back |
| DeletionTables.FramedTransitive | crates/radishmemory-sqlite/src/deletion_store.rs:1059-1147 | frames compose over steps |
| DeletionRows.AdmitsExactly | crates/radishmemory-sqlite/src/deletion_actions.rs:84-216 | an action other than the audit goes ahead exactly when its closure names only objects of its own kinds and, with object storage, every body is retired by this request or, from version 12 on, was removed by it before |
| DeletionRows.AuditExactly | crates/radishmemory-sqlite/src/deletion_actions.rs:455-577 | the audit goes ahead exactly when its closure names this request once and otherwise sources, each known in the namespace with no tip left in its lineage, and nine results are stored |
| DeletionRows.ContentRows | crates/radishmemory-sqlite/src/deletion_actions.rs:273-369 | what each component makes of each proposal and record: only their own puts the marker in place of the text, only the audit settles the state |
| DeletionRows.ArtifactRows | crates/radishmemory-sqlite/src/deletion_actions.rs:218-241 | what each component makes of each source: only its own clears title and origin, only the audit settles the state |
| DeletionRows.RemovedRows | crates/radishmemory-sqlite/src/deletion_actions.rs:153-271 | which bodies, fragments and headings each component removes |
| DeletionRows.LinkRows | crates/radishmemory-sqlite/src/deletion_actions.rs:273-441 | which links and recall rows each component removes |
| DeletionRows.AuditRows | crates/radishmemory-sqlite/src/deletion_actions.rs:523-577 | which capture audit rows go: with the audit, those of a source of the namespace in a lineage the audit names |
| DeletionRows.BindingRows | crates/radishmemory-sqlite/src/deletion_actions.rs:523-577 | which origin bindings go |
| DeletionRuns.TurnOf | crates/radishmemory-sqlite/src/deletion_store.rs:79-90 | every component has its place in the execution order |
| DeletionRows.TurnsInOrder | crates/radishmemory-sqlite/src/deletion_store.rs:79-90 | the turn of each component: contents that link to fragments before fragments, bodies and metadata, the audit last |
| DeletionRuns.StepDoes | crates/radishmemory-sqlite/src/deletion_actions.rs:153-595 | a successful step reaches its component's goal |
| DeletionRuns.StepKeeps | crates/radishmemory-sqlite/src/deletion_actions.rs:153-595 | no other step, successful or not, undoes it |
| DeletionRuns.EffectKeeps | crates/radishmemory-sqlite/src/deletion_actions.rs:84-128 | in particular no action's effect does |
| DeletionRuns.RunFramed | crates/radishmemory-sqlite/src/deletion_store.rs:1059-1147 | over any number of attempts in which any action may roll back, nothing outside the closures changes |
| DeletionRuns.CleanAttemptPurges | crates/radishmemory-sqlite/src/deletion_store.rs:1059-1147 | after any such run, the first attempt without a failure reaches the goal of all ten components |
| DeletionRuns.NothingReadableRemains | crates/radishmemory-sqlite/src/deletion_actions.rs:153-595 | then no fragment, heading or recall row of the closures is left, no inline body before schema version 11 and no object reference from it on; its proposals and records hold the marker, the marker's digest and the deleted state, and others are as before |
| DeletionActions.Transaction.DeleteSourceBodies | crates/radishmemory-sqlite/src/deletion_actions.rs:153-216 | removes exactly the closure's bodies, or, with object storage, requires that the vault has retired them; the outcome says whether there were any |
| DeletionActions.Transaction.RedactSourceMetadata | crates/radishmemory-sqlite/src/deletion_actions.rs:218-241 | clears title and origin of exactly the closure's sources; the outcome says whether there were any |
| DeletionActions.Transaction.DeleteSourceFragments | crates/radishmemory-sqlite/src/deletion_actions.rs:243-271 | removes headings and fragments of exactly the closure |
| DeletionActions.Transaction.RedactMemoryProposals | crates/radishmemory-sqlite/src/deletion_actions.rs:273-308 | unlinks and marks exactly the closure's proposals |
| DeletionActions.Transaction.RetainMemoryDecisions | crates/radishmemory-sqlite/src/deletion_actions.rs:310-332 | keeps the decisions without their reasons |
| DeletionActions.Transaction.RedactMemoryRecords | crates/radishmemory-sqlite/src/deletion_actions.rs:334-369 | unlinks and marks exactly the closure's records |
| DeletionActions.Transaction.RetainMemoryEvents | crates/radishmemory-sqlite/src/deletion_actions.rs:371-397 | changes nothing and reports whether any event was found |
| DeletionActions.Transaction.DeleteFullTextRows | crates/radishmemory-sqlite/src/deletion_actions.rs:399-441 | removes exactly the recall rows of the closure's references and reports whether any was there |
| DeletionActions.Transaction.VerifyContextCacheAbsent | crates/radishmemory-sqlite/src/deletion_actions.rs:443-453 | refuses a closure that names anything |
| DeletionActions.Transaction.PurgeSourceEntryState | crates/radishmemory-sqlite/src/deletion_actions.rs:523-577 | removes capture audit and origin bindings of exactly the lineages of the request's sources; refused when a source is unknown or a lineage still has a tip |
| DeletionActions.Transaction.RetainMinimalAudit | crates/radishmemory-sqlite/src/deletion_actions.rs:455-521 | admitted only after the nine others have results, and then sets every governed state by whether one failed |
| DeletionActions.DeletionDatabase.RunAction | crates/radishmemory-sqlite/src/deletion_actions.rs:84-128 | an action commits its whole effect or nothing, exactly when it is admitted and no fault undoes it |
| DeletionActions.DeletionDatabase.ExecuteRequest | crates/radishmemory-sqlite/src/deletion_store.rs:1059-1147 | one attempt runs the ten components in order, each atomic, and records each result; a successful audit settles every governed state by whether a component before it failed; an executable request stays executable whatever fails, and then an attempt without storage faults succeeds in all ten |
| DeletionRuns.FramedExecutable | crates/radishmemory-sqlite/src/deletion_store.rs:1059-1147 | what keeps the frame keeps a request executable: closures of the right kinds, known sources, no lineage tip, bodies where they may be taken from |
| DeletionActions.CleanAttemptSucceeds | crates/radishmemory-sqlite/src/deletion_store.rs:1059-1147 | an executable request succeeds in all ten components when no storage fault strikes, however earlier attempts ended |
| DeletionActions.AttemptNumbered | crates/radishmemory-sqlite/src/deletion_store.rs:1149-1187 | an attempt stores one result for each component that had its turn, under its own number |
| DeletionActions.AuditGoverns | crates/radishmemory-sqlite/src/deletion_actions.rs:455-521 | the audit sets every governed source, proposal and record of the closures to failed or deleted, by whether a component before it failed, and leaves the others |
| DeletionActions.AttemptEnds | crates/radishmemory-sqlite/src/deletion_store.rs:1059-1147 | what an attempt leaves, from whatever tables it began: governed states settled, the request executable, results numbered, and no failure when nothing was undone |
| DeletionActions.SuccessfulAttemptPurges | crates/radishmemory-sqlite/src/deletion_store.rs:1059-1147 | after any run so far, an attempt whose ten results are successes has purged everything and nothing else |
| KeyReadObservation.BeginExtends | crates/radishmemory-source-vault/src/key_read_observation.rs:166-175 | opening a call extends a well-bracketed prefix, with the next number and the right parent |
| KeyReadObservation.StageExactly | crates/radishmemory-source-vault/src/key_read_observation.rs:119-143 | an event's stage is that of the innermost entry or release around the call, its read that of the innermost of the two reads |
| KeyReadObservation.EndExtends | crates/radishmemory-source-vault/src/key_read_observation.rs:176-194 | closing the innermost call extends it too |
| KeyReadObservation.Context.Emit | crates/radishmemory-source-vault/src/key_read_observation.rs:113-165 | an event is written whole with the next number, or nothing is and the trace is broken for good; 256 events and 64 KiB are never exceeded |
| KeyReadObservation.Context.Begin | crates/radishmemory-source-vault/src/key_read_observation.rs:166-175 | no call opens after a failed end or a refusal |
| KeyReadObservation.Context.End | crates/radishmemory-source-vault/src/key_read_observation.rs:176-194 | only the innermost call can be closed, and a bad ending blocks what follows |
| KeyReadObservation.Context.Run | crates/radishmemory-source-vault/src/key_read_observation.rs:263-294 | for every nesting of calls and every sink failure what is written only grows, stays a well-bracketed prefix, and is the whole call, everything inside ended well, unless something blocked it; nothing blocks a call that ends well while the sink accepts and there is room |
| KeyReadObservation.Context.RunAll | crates/radishmemory-source-vault/src/key_read_observation.rs:263-294 | the same for calls one after another inside one call |
| KeyReadObservation.WithTrace | crates/radishmemory-source-vault/src/key_read_observation.rs:208-261 | the written events are a prefix of a well-bracketed word with consecutive numbers, correct parents, stages and reads, at most 256 events and 64 KiB; nothing begins after a failure; success means exactly that the word is complete with every end ok; with a sink that accepts every event, and none longer than 256 bytes, it is reported exactly when the business and every observed call ended well and at most 256 events were to be written |
| Desktop.Backend.CaptureSource | apps/radishmemory-desktop/src/backend.rs:66-101 | a prepared request is kept before it runs and let go only when committed; a reliable library commits it |
| Desktop.Backend.DeleteSourceLineage | apps/radishmemory-desktop/src/backend.rs:102-121 | a deletion is kept until its evidence is complete |
| Desktop.Backend.Retry | apps/radishmemory-desktop/src/backend.rs:154-178 | retrying never replaces what is kept; it can only be released by its own success |
| Desktop.Backend.ResumeDelete | apps/radishmemory-desktop/src/backend.rs:179-188 | an unfinished deletion found at opening is kept before it runs |
| Desktop.Backend.AbandonCapture | apps/radishmemory-desktop/src/backend.rs:189-202 | the capture slot is cleared only by a successful abandonment, and the deletion slot never |
| Desktop.Engine.Inspect | apps/radishmemory-desktop/src/worker.rs:108-126 | recovery is known exactly when inspection succeeded |
| Desktop.Engine.Observe | apps/radishmemory-desktop/src/worker.rs:146-166 | an observed run admits at most one preparation, before the opening, and exactly one opening; everything else is refused |
| Desktop.Engine.Admit | apps/radishmemory-desktop/src/worker.rs:167-197 | new work is admitted only with a valid view, known recovery, nothing unfinished and nothing kept, and then always; a library is never changed while an original is kept |
| Desktop.Engine.ChangeLibrary | apps/radishmemory-desktop/src/worker.rs:198-274 | afterwards no original is kept |
| Desktop.Engine.DoNewWork | apps/radishmemory-desktop/src/worker.rs:311-334 | every change of the slots is explained by an event; work reaches the backend exactly when a library is open and the command has a selection if it needs one |
| Desktop.Engine.Recover | apps/radishmemory-desktop/src/worker.rs:335-368 | retry, resumption and abandonment start no new work |
| Desktop.Engine.Perform | apps/radishmemory-desktop/src/worker.rs:146-372 | new work reaches the backend only from import, update or delete with a valid view, known recovery, nothing unfinished and nothing kept, and then does when a library is open; a command leaves the slots sound and the view's validity alone |
| Desktop.Engine.Execute | apps/radishmemory-desktop/src/worker.rs:373-419 | new work reaches the backend only from import, update or delete with a valid view, known recovery, nothing unfinished and nothing kept, and then does when a library is open; a library is not changed while an original is kept; slots change only as explained; a failed command invalidates the view, only the six refreshing commands make it valid again, and a view is shown exactly while it is valid |
| Desktop.Serve | apps/radishmemory-desktop/src/worker.rs:373-420 | every sequence of commands with every answer of the backend is a session: the two slots are never both filled, a kept original is given up only by its own success, completed evidence or a successful abandonment, and new work reaches the backend only from import, update or delete, at a moment with a valid view, known recovery, nothing unfinished and nothing kept |
| Desktop.KeptUntilReleased | apps/radishmemory-desktop/src/worker.rs:105-197 | in a session an original kept once is kept until a command in between released it |
| Desktop.NewWorkWaits | apps/radishmemory-desktop/src/controller.rs:102-107 | from the moment an original is kept until it is released no command hands new work to the backend |
| Desktop.NeverReplaced | apps/radishmemory-desktop/src/backend.rs:122-142 | in a session, between two different kept originals the first was released |

## Left out

- File handles, permissions, symbolic links, directory identity checks and path tokens; a file is an inode
  number, a name its locator and attempt.
- Interference by other programs with the directories or the database while a coordinator runs.
- Wrong keys and key loading: every file is opened with the key it was sealed with.
- Coordinators.CaptureSource: takes from the decision on a request only what concerns attempts, stored
  requests, pending work and existing facts of the same source; lineage tips, origin bindings and version
  checks of `decide_capture` are not part of this model.
- Coordinators.Delete: the plan is a set of sources; plan digests, schema upgrades and the adoption of
  deletions begun before object storage are left out, and the component results are modelled apart from the
  files, in `deletion_actions`.
- Coordinators.Abandon: the stored device and format fields of a target are not modelled.
- Coordinators.Reconcile: of its report only the number of removed links is modelled.
- Schema versions 7 to 12 of the library are collapsed into three inventory states, and one namespace and
  device is assumed per library. The migration refuses libraries of a version above 8 when it opens them
  (`source_vault_migration.rs` line 47); the model refuses them by what only such versions hold, a stored
  capture or a deletion plan.
- Whole documents in a build with overflow checks: the JSON program writes numbers as a build without them
  does. A document has a canonical text in both or in neither; where the other build stops is stated for single
  numbers.
- JSON texts are sequences of Unicode scalar values, not UTF-8 bytes; error messages of the JSON library are
  left out, its number and string tokens are taken from sections 6 and 7 of RFC 8259.
- Parsing of timestamps and Unicode normalisation; a timestamp is its second, its leap flag and its fraction.
- Clearing of secret bytes from memory.
- Texts of enumerations (sensitivity, retention mode and so on) are assumed to differ when the values differ.
- `MemoryProposal`, `MemoryRecord` and `DeleteRequest` constructors beyond the fields the modelled rules use;
  the supersession validator, the recall block validator and `ValidTime`, which are shorter cases of the same
  kind of rule.
- The construction and storage of delete requests, execution closures and deletion evidence rows; a run
  starts from stored closures.
- DeletionActions.DeletionDatabase.ExecuteRequest: rows are sets and maps without order; the times and
  retention bases written beside each result are left out.
- KeyReadObservation.WithTrace: panics inside observed calls, elapsed times and the text of an event are left
  out; an event has some size in bytes, and the sink may refuse any event.
- Desktop.Engine.Execute: what a view shows, exported bytes, messages, startup and acceptance files, and
  threads and channels are left out; the outcome of each library operation is arbitrary.
- SQL text, full-text search, database migrations, the key store, the user interface, the read-through
  wrappers and the Python checks.
