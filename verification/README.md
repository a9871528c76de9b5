# Nestova: machine-checked properties of photo storage migration and five smaller protocols

Nestova keeps family photos either as local files or as objects in an S3 bucket. `storage migrate` moves them
from the first to the second while the application may keep running, may be stopped at any point and is meant
to be run again; `storage verify` cross-checks tables, files and objects. This project models both, and five
smaller pieces of the repository whose correctness is not obvious from reading them: first-run onboarding
under an advisory lock, the base32 decoder and the EXIF writer of the end-to-end tests, one-time form tokens,
and the numbering of database migrations.

Run `dafny verify dfyconfig.toml`.

## How the photo migration is modelled

- `StorageKeys` and `Photos` hold the data: content-addressed keys, rows, the four stores (local files, target
  objects, album rows, chore-proof rows). The sha256 digest is an arbitrary function; nothing is assumed of
  it, collisions included, except where a statement names `CollisionFree`.
- `MigrationProtocol` is the migration as a state machine: any number of processes, one port call per step;
  any call may fail, any process may stop between two calls. A process that runs alone may even have an upload
  silently store other bytes; when several run, uploads are atomic and faithful.
- `MigrationSafety` proves what every state of every such run keeps: no row dangles, no content is lost.
- `MigrationOutcome`, `MigrationReclaim` and `MigrationOrphans` describe where fault-free runs end, as closed
  forms on the state they started in, and derive that the result does not depend on class order, batches,
  interruptions or when local files are deleted, and which objects without a row are added. Rows of a class are
  flipped in ascending order there, as the program does it; whether the unique index refuses a flip is read off
  the table in each step, and that it refuses exactly the rows the closed form excludes is proved.
- `MigrationRows` spells out, column by column and without the functions the program calls, what happens to one row:
  which rows change in any run, to what, which ones a fault-free run moves, and what is reported of the others.
- `MigrationDuplicates` is about album rows without a recorded hash, in fault-free and in faulty runs.
- `MigrationProgress` and `MigrationReports` hold what the loops keep and what they tell: one row's pass, one
  class's account, and when the exit code is nonzero.
- `PhotoPorts` and `PhotoMigration` are the program itself: mutable stores whose calls may fail, and the
  migrator's loops over them, with counters and progress reports. Each port call is recorded as a step of the
  state machine, so every state of `PhotoMigrator.Migrate`'s run is a state the theorems speak about.
- `PhotoVerification` is the checker, and what a migration does to its verdict.

The migrator's album and chore-proof methods are the same code twice, for two row types; here one method takes
the class. `Canonical` states the hypothesis that every ref is the key its row's bytes would get, which the
migrator's comments name as the condition for its sweep to find a leftover file.

## What the proofs found

- **Of two equal photos without a recorded hash, at most one ever migrates.** The album table has a unique index
  on household and content hash (`00023_photo_content_hash.sql:66-68`). Two album rows of one household with the
  same bytes, an accepted content type and no recorded hash both pass every check, but flipping the second would
  record the same hash again, so the update is refused. In every state of every run, with any failures and any
  number of processes, at most one of them is on the target (`MigrationDuplicates.AtMostOneDuplicateMoves`). A
  fault-free run moves the one with the lowest id (`FirstDuplicateMoves`, `SecondDuplicateStays`); a run in which
  calls on that row fail may move the other instead (`SecondMayMoveInstead`). `docs/storage.md:82-85` says that the
  second row just flips.
- **Such a row can leave an object behind**: its bytes are uploaded before the flip fails
  (`MigrationOrphans.DuplicateLeavesOrphan`); with every hash recorded no object is left
  (`HashedTablesGainNoOrphan`).
- **Neither concerns rows the application wrote.** A new photo always has a hash (`internal/media/domain/photo.go:101-103`),
  and the rows from before hashes got the content type `''` from `00023_photo_content_hash.sql:19-22`. Rows with an
  accepted type and no hash come only from fixtures and SQL written by hand. Where every hashless row is untyped
  in this way, a completed run moves exactly the rows that pass every check and leaves no new object behind
  (`MigrationDuplicates.UntypedTablesMoveAllGood`, `UntypedTablesGainNoOrphan`).
- **A row from before hashes never migrates at all**: the migrator finds no file extension for its content type,
  so every pass over it ends in an error and nothing about it ever changes (`MigrationDuplicates.UntypedRowStays`).
- **The checker's data-loss alarm has false positives**: an object that exists under a key without a listed
  class prefix counts as missing. That is so for every bucket row with a key from before the class segment
  (`PhotoVerification.LegacyKeyIsFalseAlarm`, exact condition in `AlarmIsExact`), although no code path writes such
  a row: uploads and the migrator use class keys only, and the old refs belong to local rows. The same happens to a
  row filed under `reward-images/`, although the checker's comment promises that a cross-prefix row is not also
  reported missing (`CrossPrefixRowsAreSetApart`).
- **A capture time of fewer than four characters does not survive the EXIF writer**, which always stores a
  text at an offset; TIFF keeps values of up to four bytes in the offset's own field (`Exif.TextRecoveredIff`).

## Model

| member | source | states |
|---|---|---|
| StorageKeys.ClassOfBuiltKey | internal/media/adapter/photo_validation.go:222-275 | a built key is parsed back to its own class, and to no other |
| StorageKeys.BuiltKeysAreInjective | internal/media/adapter/photo_validation.go:222-239 | equal keys mean equal household, class, digest and extension |
| StorageKeys.ListingAgreesWithClass | internal/media/adapter/photo_store_s3.go:442-448 | the listing filter of the bucket and the key parser agree on every key |
| StorageKeys.ClassOfKeyIff | internal/media/adapter/photo_validation.go:251-275 | a key has a class exactly when it is households/<household>/<segment>, or that and a slash and anything, with the segment of that class |
| Photos.ReadCapped | cmd/storage/migrator.go:538-554 | a read capped at max + 1 bytes that is at most max long is the whole file, and only then is the file within the cap |
| MigrationSafety.PutKeepsIntact | cmd/storage/migrator.go:564-573 | no upload damages an object that carries its key's digest, whether a process is alone or not |
| MigrationSafety.StepKeepsInv | cmd/storage/migrator.go:305-362 | the safety invariant survives every step of every process, failed calls and crashes included, and so does every held content |
| MigrationSafety.RunKeepsInv | cmd/storage/migrator.go:527-638 | it holds in every state of every run from any starting state |
| MigrationSafety.NoRowDangles | cmd/storage/migrator.go:305-362 | in every state of every run, with any number of migrators, a row that started with a readable copy has one at its current backend and ref, with the same digest, even when rows share a file |
| MigrationSafety.ContentsNeverShrink | cmd/storage/migrator.go:545-609 | between any two states of a run, the digests held in local and target storage together only grow |
| MigrationRows.RowsStayOrMove | internal/media/adapter/photo_postgres.go:200-210 | in every state of every run no row is added or removed, and each is as it started or has moved: same household, content type and recorded hash, the key spelled out, backend s3, and an intact object with the digest of its original file, which was of an image type, within the cap and as recorded; only an album row without a hash gets one, that digest |
| MigrationRows.CompletedRunMovesIff | cmd/storage/migrator.go:527-577 | a completed fault-free run moves exactly the local rows of its classes that pass every check, each spelled out, and that the unique index does not keep out |
| MigrationRows.VerdictIsSpelled | cmd/storage/migrator.go:315-362 | which of the outcomes is reported of a local row, each by its own condition on file, type, size, recorded hash and object |
| MigrationOutcome.CleanStepOnTheWay | cmd/storage/migrator.go:527-577 | each fault-free step keeps the outcome the run is heading for: every row's future and the set of future keys |
| MigrationOutcome.RefusedIffOutranked | internal/platform/db/migrate/migrations/00023_photo_content_hash.sql:63-68 | once earlier rows have moved, the unique index refuses a flip exactly for the rows the closed form excludes |
| MigrationOutcome.FlippableIffMoves | cmd/storage/migrator.go:331-341 | a row that passes every check is accepted by the unique index in its turn exactly when the closed form moves it |
| MigrationOutcome.CompletedIsClosedForm | cmd/storage/migrator.go:231-362 | rows and object keys of a completed run as a function of its starting state; a local row ends on the target exactly when it passed every check there and was not outranked |
| MigrationOutcome.CompletedRunsAgree | cmd/storage/migrator.go:266-362 | completed runs from one state agree on every row, every key and every object's digest, whatever their class order, batches, interruptions and delete-local setting |
| MigrationOutcome.ResumedRunAgrees | cmd/storage/migrator.go:258-301 | stopping a fault-free run after any step and rerunning gives the result of an uninterrupted run |
| MigrationOutcome.SameVerdict | cmd/storage/migrator.go:315-362 | what a row will be reported as does not change while other rows are processed |
| MigrationDuplicates.AtMostOneDuplicateMoves | internal/platform/db/migrate/migrations/00023_photo_content_hash.sql:63-68 | in every state of every run, whatever fails and however many processes take part, at most one of two equal local photos of a household without a recorded hash is on the target |
| MigrationDuplicates.UntypedRowStays | cmd/storage/migrator.go:534-537 | a row without an accepted content type is the same in every state of every run |
| MigrationDuplicates.UntypedTablesMoveAllGood | internal/platform/db/migrate/migrations/00023_photo_content_hash.sql:19-22 | when every hashless album row is untyped, a completed run moves exactly the rows that pass every check |
| MigrationDuplicates.UntypedTablesGainNoOrphan | internal/platform/db/migrate/migrations/00023_photo_content_hash.sql:19-22 | and adds no object without a row |
| MigrationDuplicates.FirstDuplicateMoves | cmd/storage/migrator.go:331-341 | a completed run moves a good hashless row iff no row claimed its digest before: neither a recorded hash nor an equal row with a lower id |
| MigrationDuplicates.SecondDuplicateStays | cmd/storage/migrator.go:331-341 | of two equal rows both pass every check, and every completed run moves the first and not the second |
| MigrationDuplicates.SecondMayMoveInstead | cmd/storage/migrator.go:331-341 | a run with failures on the first row that moves the second |
| MigrationReclaim.CleanRunLocalOnTheWay | cmd/storage/migrator.go:620-692 | from canonical refs, a fault-free run deletes only files the closed form says can go, and judges the others alike throughout |
| MigrationReclaim.SweptIsClosedForm | cmd/storage/migrator.go:640-692 | the local files left after a completed run with deletion, as a function of the starting state |
| MigrationReclaim.SweptRunsAgree | cmd/storage/migrator.go:640-692 | two such runs leave the same local files |
| MigrationReclaim.DeferredDeleteAgrees | cmd/storage/migrator.go:106-113 | migrating now and deleting local files in a later run leaves the same rows, objects and files as one run that deletes at once |
| MigrationOrphans.OrphansAdded | cmd/storage/verifier.go:177-181 | the objects without a row that a completed run adds, exactly |
| MigrationOrphans.HashedTablesGainNoOrphan | cmd/storage/migrator.go:331-341 | none is added when every album row has its hash recorded |
| MigrationOrphans.DuplicateLeavesOrphan | cmd/storage/migrator.go:564-576 | a starting state from which every completed run leaves an object without a row |
| MigrationOrphans.AtMostOneOrphanInFlight | cmd/storage/migrator.go:305-362 | a fault-free run stopped after any step has added at most one further object without a row |
| PhotoPorts.SamePages | internal/media/adapter/photo_postgres.go:185-194 | a page above a cursor does not depend on rows at or below it, so rows may leave the listing between pages |
| PhotoPorts.Stores.ListByBackend | internal/media/adapter/photo_postgres.go:185-194 | rows of the backend above the cursor, in ascending order, with their columns; none up to the last one listed is left out, and none at all when fewer than the limit come |
| PhotoPorts.Stores.ListAllStorageRefs | internal/media/adapter/photo_postgres.go:149-167 | each ref as often as rows of the backend carry it |
| PhotoPorts.Stores.ListObjects | internal/media/adapter/photo_store_s3.go:372-399 | each key of the class once, and no other |
| PhotoPorts.Stores.ExistsByStorageRef | internal/media/adapter/photo_postgres.go:173-179 | whether a local row of the table references the ref |
| PhotoPorts.Stores.OpenTarget | internal/media/adapter/photo_store_s3.go:236-262 | the whole object, or an error when it is missing or over the cap |
| PhotoPorts.Stores.MigrateStorageBackend | internal/media/adapter/photo_postgres.go:200-210 | flips only a row that is still local: sets ref and backend, fills only a missing hash of an album row, leaves every other column, row and store alone; is refused by the unique index alone |
| MigrationReports.ReportsPartition | cmd/storage/migrator.go:70-89 | the five outcomes partition the reports, and each report ends a row or tells of a failed deletion |
| MigrationReports.ClassResult.Tell | cmd/storage/migrator.go:316-361 | every counter stays the number of reports with its outcome |
| MigrationReports.ClassResult.CountersAddUp | cmd/storage/migrator.go:116-133 | the counters add up to rows visited, failed deletions and the sweep's integrity failures |
| MigrationReports.ToldNext | cmd/storage/migrator.go:305-362 | what the main loop has told stays exact from row to row: numbering, verdicts, failed deletions, files deleted and files that no row needs |
| MigrationReports.AccountGives | cmd/storage/migrator.go:231-256 | a class without findings has no local row left, and with deletion none of its files that no local row needs, even when calls failed |
| MigrationReports.FindingsAreReal | cmd/storage/migrator.go:266-301 | without faults a class has findings iff one of its local rows did not migrate or the sweep met an object it could not trust |
| MigrationReports.ExitCodeIsExact | cmd/storage/main.go:120-130 | without faults the exit code is nonzero iff some class has such a row or object |
| PhotoMigration.PhotoMigrator.VerifyTargetObject | cmd/storage/migrator.go:590-609 | accepts exactly the objects within the cap that carry the expected digest |
| PhotoMigration.PhotoMigrator.ReadLocal | cmd/storage/migrator.go:528-558 | delivers the whole file exactly when it exists, has a known type, is within the cap and matches the recorded hash; else says which |
| PhotoMigration.PhotoMigrator.PlaceOnTarget | cmd/storage/migrator.go:560-577 | afterwards the canonical key holds the verified digest; fails exactly when a bad object was there before |
| PhotoMigration.PhotoMigrator.MigrateBytes | cmd/storage/migrator.go:527-577 | succeeds exactly for good rows, reporting the right failure otherwise |
| PhotoMigration.PhotoMigrator.DeleteLocalIfUnreferenced | cmd/storage/migrator.go:620-638 | deletes the file exactly when no local row of either table references it |
| PhotoMigration.PhotoMigrator.MigrateOne | cmd/storage/migrator.go:305-362 | one row's pass: the report that ends it, one more error report exactly when its file's deletion failed, its verdict, what it may change, and that its file goes exactly when no local row needs it |
| PhotoMigration.PhotoMigrator.MigrateRows | cmd/storage/migrator.go:273-290 | the paging loop ends and visits every initially local row once, in ascending order, reported as 1 to total with the verdict the starting state gives it |
| PhotoMigration.PhotoMigrator.SweepOne | cmd/storage/migrator.go:738-779 | deletes a leftover exactly when both copies carry the recorded hash and no local row needs the file |
| PhotoMigration.PhotoMigrator.SweepRows | cmd/storage/migrator.go:667-692 | counts the files it removed and the rows whose object it could not trust, without faults all of those, and leaves no leftover of the class behind |
| PhotoMigration.PhotoMigrator.MigrateClass | cmd/storage/migrator.go:266-301 | the class's account: rows visited, each one's report, failed deletions, integrity failures of the sweep, deleted files |
| PhotoMigration.PhotoMigrator.Migrate | cmd/storage/migrator.go:231-256 | an empty request stands for album and chore-proof photos; one result and one account per requested class in order, each account starting where the one before ended; its run is a run of the protocol; exit code 0 means that no local row of a requested class is left and, with deletion, no file that only migrated rows had; without faults the exit code is exact, it completes, and with deletion from canonical refs it sweeps; without the flag no file goes |
| PhotoVerification.ClassifyS3 | cmd/storage/verifier.go:166-182 | each finding as often as rows or objects give rise to it, and no other; a ref is cross-prefix iff its key has a class and that is not the row's |
| PhotoVerification.HasDataLoss | cmd/storage/verifier.go:53-65 | true exactly when some class reports a missing object or file |
| PhotoVerification.PhotoVerifier.VerifyLocalClass | cmd/storage/verifier.go:191-209 | the local rows whose file is missing, each once |
| PhotoVerification.PhotoVerifier.Collect | cmd/storage/verifier.go:120-143 | the per-class listings and the sets over all classes |
| PhotoVerification.PhotoVerifier.Verify | cmd/storage/verifier.go:119-156 | a row is reported missing iff no listed class holds its ref, an object is a candidate iff no row of either table references it, a row is cross-prefix iff its key names another class |
| PhotoVerification.AlarmIsExact | cmd/storage/verifier.go:53-65 | the data-loss verdict holds iff some row's bytes are gone or lie outside every listed class |
| PhotoVerification.LegacyKeyIsFalseAlarm | cmd/storage/verifier.go:168-171 | every bucket row with a key from before the class segment raises the alarm, although its object is there |
| PhotoVerification.CrossPrefixRowsAreSetApart | cmd/storage/verifier.go:103-118 | a row filed under another class's segment is reported as cross-prefix once per row with that ref, its object is no candidate, and it is also missing exactly when the segment is that of reward images |
| PhotoVerification.ForeignKeyIsSetApart | cmd/storage/verifier.go:103-118 | the same of every row whose ref is a key built for another class |
| PhotoVerification.VerdictNeverWorse | cmd/storage/verifier.go:119-209 | in no state of a migration is a row missing or cross-prefix that was not so before |
| PhotoVerification.NoAlarmStaysNoAlarm | cmd/storage/verifier.go:45-65 | a checker that finds no data loss before a migration finds none in any state of it |
| ProvisioningSafety.RunKeepsInv | cmd/server/provisioning.go:66-107 | locks, own writes, distinct ids and the origin of committed rows, in every state of every interleaving |
| ProvisioningSafety.AtMostOneHousehold | cmd/server/provisioning.go:79-92 | any number of concurrent transactions commit at most one household to an empty database and none to another |
| ProvisioningSafety.CommittedHouseholdIsWhole | cmd/server/provisioning.go:93-106 | a committed household has its name, its owner with the given name, color, email and password hash, and every seed reward with the seed's fields, on offer |
| ProvisioningSafety.CatalogueIsThere | cmd/server/provisioning.go:27-35 | the four rewards of a whole household, word for word |
| ProvisioningSafety.NoMemberIsHalfProvisioned | internal/household/adapter/postgres.go:104-158 | a new member row was written, with its profile, by a committed transaction, exactly as asked for |
| ProvisioningSafety.NoProfileIsAlone | internal/household/adapter/postgres.go:91-97 | a new profile row comes with its member and has one of the palette's colors |
| ProvisioningSafety.OneAddsToHousehold | internal/household/adapter/postgres.go:119-129 | no two transactions are adding members to one household at a time |
| ProvisioningSafety.CommittedRowsStay | cmd/server/provisioning.go:134-155 | a committed row is the same in every later state |
| ProvisioningSafety.NoRewardIsHalfProvisioned | cmd/server/provisioning.go:171-188 | a new reward row belongs to a whole committed household; aborted transactions leave nothing |
| ProvisioningSafety.MembersStayDifferent | internal/household/adapter/postgres.go:131-145 | no two members share an email, and no two of a household a name, whatever the case of letters, uncommitted members included |
| Provisioner.Session.AddMember | internal/household/adapter/postgres.go:104-158 | lock, member and profile in turn; alone and without failing calls it answers what the committed rows decide |
| Provisioner.Session.SeedHouseholdRewards | cmd/server/provisioning.go:171-188 | writes every seed reward in order under the ids it draws, with the seed's name, description, image and cost and on offer, or a proper prefix of them when it fails |
| Provisioner.Session.ProvisionHousehold | cmd/server/provisioning.go:66-107 | argument errors touch nothing; success means a whole household with the rewards' ids is committed, whatever the other sessions did; any error but a failed commit means nothing was; each error has its reason in the committed rows; alone and without failing calls the answer is exactly what those rows decide |
| Provisioner.Session.ProvisionMember | cmd/server/provisioning.go:112-128 | success means the member and its profile are committed, with credentials exactly when an email was given; each error has its reason; alone and without failing calls the answer is exactly what the committed rows decide |
| Base32.Base32Decode | e2e/tests-nes171/totp.js:10-33 | returns the decoding of section 6 of RFC 4648, or the first invalid character, although its 32-bit accumulator overflows |
| Base32.AppendedBits | e2e/tests-nes171/totp.js:26-26 | wrapping to 32 bits never changes the bits still to be written |
| Base32.ExtractedBits | e2e/tests-nes171/totp.js:28-31 | the octet written is the oldest eight pending bits |
| Base32.DecodeInvertsEncode | e2e/tests-nes171/totp.js:10-33 | decoding inverts the encoding on every byte string, whatever the padding, spacing and case |
| Base32.EncodingDecodes | e2e/tests-nes171/totp.js:10-33 | in particular the encoding itself decodes, padded or not |
| Base32.SpacedEncodingDecodes | e2e/tests-nes171/totp.js:10-33 | so does every text that spells the encoding and any padding once its white space is dropped and it is put in upper case |
| Base32.PaddedTextDecodes | e2e/tests-nes171/totp.js:14-32 | every text that spells n digits and padding decodes to the 5n/8 octets that the digits' bits fill, most significant first |
| Base32.OtherTextIsRefused | e2e/tests-nes171/totp.js:22-25 | every other text is refused with its first character that is no digit |
| Base32.DigitValues | e2e/tests-nes171/totp.js:11-11 | A to Z count 0 to 25, 2 to 7 count 26 to 31, and nothing else is a digit |
| Exif.WriteIfd | e2e/tests-nes171/helpers-chore-photos.js:120-130 | writes exactly a directory's bytes at the offset and nothing else |
| Exif.ExifTiff | e2e/tests-nes171/helpers-chore-photos.js:139-170 | every write is in bounds, the finished buffer is exactly header, directories and texts, and a reader of section 2 of TIFF 6.0 finds in it each given text of four characters or more, then a NUL |
| Exif.ReadsDateTime | e2e/tests-nes171/helpers-chore-photos.js:141-160 | what a reader of section 2 of TIFF 6.0 finds as DateTime |
| Exif.ReadsOriginal | e2e/tests-nes171/helpers-chore-photos.js:142-169 | what it finds as DateTimeOriginal, through the sub-directory pointer |
| Exif.TextRecoveredIff | e2e/tests-nes171/helpers-chore-photos.js:113-170 | a reader that shares nothing with the writer finds the characters of a text and then a NUL iff it has four characters or more, or spells its own offset; a text not given is not found |
| Exif.ShortTextIsMisread | e2e/tests-nes171/helpers-chore-photos.js:154-160 | a two-character text does not come back |
| Exif.FitsIff | e2e/tests-nes171/helpers-chore-photos.js:143-150 | the size of the file by its parts; only texts of about four gigabytes exceed its 32-bit fields |
| Exif.SpliceExif | e2e/tests-nes171/helpers-chore-photos.js:172-183 | inserts the segment after the SOI marker |
| Exif.SpliceRemovedIff | e2e/tests-nes171/helpers-chore-photos.js:172-183 | removing the segment gives back the JPEG iff its length fits 16 bits |
| Exif.SplicedTiffIsFound | e2e/tests-nes171/helpers-chore-photos.js:172-183 | reading the spliced JPEG finds the TIFF file that was written |
| FormTokens.Session.IssueFormToken | internal/auth/adapter/formtoken.go:32-46 | keeps the fifteen newest of sixteen or more pending tokens, else all, and appends the new one |
| FormTokens.Session.HasFormToken | internal/auth/adapter/formtoken.go:51-54 | accepts exactly the pending tokens, never the empty one |
| FormTokens.Session.ConsumeFormToken | internal/auth/adapter/formtoken.go:67-74 | afterwards the token is not pending; the others are |
| FormTokens.AtMostSixteenPending | internal/auth/adapter/formtoken.go:22-25 | a session never holds more than sixteen tokens |
| FormTokens.AcceptedIffSurvives | internal/auth/adapter/formtoken.go:32-74 | over every history, a token is accepted iff it was not consumed and never had sixteen newer unconsumed ones behind it |
| FormTokens.RefusedForGood | internal/auth/adapter/formtoken.go:56-59 | once consumed or evicted, a token is never accepted again |
| FormTokens.OnlyIssuedAccepted | internal/auth/adapter/formtoken.go:48-54 | no token but an issued one is ever pending |
| FormTokens.UnconsumedOutlivesFifteen | internal/auth/adapter/formtoken.go:22-25 | an unconsumed token outlives fifteen later issues |
| MigrationNumbers.SlugIsSlug | cmd/migrate/main.go:118-121 | a slug is lower-case words separated by single underscores |
| MigrationNumbers.SlugFixesSlugs | cmd/migrate/main.go:118-121 | slugging leaves alone exactly the slugs, so it is idempotent |
| MigrationNumbers.SlugJoinsWords | cmd/migrate/main.go:118-118 | a slug is the longest runs of letters and digits of the lower-cased name, in order, joined by underscores |
| MigrationNumbers.FileNameText | cmd/migrate/main.go:128-128 | a file name is at least five digits that denote its number, without needless zeros in front, an underscore, the slug and .sql |
| MigrationNumbers.VersionOfIff | cmd/migrate/main.go:111-171 | the number of any file name is that of the digits before its first underscore, when there are only digits there and an int holds them |
| MigrationNumbers.Examples | cmd/migrate/main_test.go:25-58 | the numbers and names of the repository's own tests |
| MigrationNumbers.NumberRoundTrip | cmd/migrate/main.go:111-128 | every printed file name is parsed back to its number below integer overflow, beyond five digits and whatever its slug |
| MigrationNumbers.NextVersion | cmd/migrate/main.go:153-174 | one above the highest parseable number, or 1 |
| MigrationNumbers.MigrationDir.CreateMigration | cmd/migrate/main.go:117-149 | creates a file under the next number, never overwriting one; it does so whenever the name has usable characters, the numbers fit and no file operation fails |
| MigrationNumbers.SerialCreatesAreConsecutive | cmd/migrate/main.go:128-136 | a new number is above every existing one, its file is new, and the next number is one higher |
| MigrationNumbers.SeriesCountsUp | cmd/migrate/main.go:151-174 | any series of creates gets consecutive numbers |
| MigrationNumbers.NumbersStallAtOverflow | cmd/migrate/main.go:164-174 | at the largest int the next number wraps and its file is no longer seen |

## Left out

- MigrationOutcome.CompletedRunsAgree: agrees on digests of objects rather than on their bytes unless local files are free of collisions, because the digest is arbitrary.
- MigrationReclaim.DeferredDeleteAgrees: assumes canonical refs and recorded chore-proof hashes; for a legacy ref the migrator's own comment (cmd/storage/migrator.go:650-666) says that the sweep cannot find the file.
- MigrationSafety.NoRowDangles: assumes that nothing but migrators touches the stores meanwhile: no reaper, no new local rows (cmd/storage/wiring.go:54 makes new uploads go to the bucket), and atomic, faithful uploads when several migrators run.
- PhotoMigration.PhotoMigrator.Migrate: cancellation through a context is a failing call; nothing touches the stores between two port calls of this method, so no row it listed is flipped by another migrator and `alreadyDone` stays 0; other migrators are part of the protocol, where all safety results hold of any number of them; the progress callback is a log of reports.
- Provisioner.Session.ProvisionHousehold: all transactions are there from the start, having begun nothing; waiting for a lock or for another transaction's row ends in success or in a failed statement without a reason; ids are drawn before the call. Beginning the transaction, and setting and releasing AddMember's savepoint, change no row and are no steps of their own.
- Provisioner.Session.ProvisionMember: when other sessions interfere, the reason of an error is stated of the rows committed in the end, or for a missing household in the beginning, not of the moment the statement failed.
- The page a process holds is over-approximated in the protocol: it may process any row it ever listed, in any order.
- Content types and cache headers of objects, the path guard of the local store, and `path.Join`'s cleaning, which leaves a key of these segments unchanged.
- Member roles and deactivation; EnsureMemberProfile, the other writer of profiles, which takes the same household lock.
- `lower` of the database and its hash of a household's id are arbitrary functions; identity.member and its indexes are known here from the adapter's constants and from the tables that `00041_identity_schema_cutover.sql` dropped.
- The full Unicode tables of upper- and lower-casing: the decoder and the slugger take the mapping of one character as a parameter. Characters outside Latin-1 in an EXIF text keep their low byte.
- Concurrent requests on one session's form tokens, which their own comment says are not supported.
- Failing to read the migrations directory, the other `migrate` commands, HMAC and the rest of the TOTP code, the reaper, the HTTP handlers and the command-line wiring.
