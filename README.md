# mongo-migrator and mongo-comparator, modelled in Dafny

This project models the two parts of the `mongodb` helper library that do real work.

- **The migrator** (`lib/mongo-migrator.js`).
  - It reads a migration directory whose files are named `<version>.<description>.js`.
  - It validates and orders that listing by version.
  - It names the next migration file.
  - It reports which files have been applied.
  - `migrate()` applies the pending files in version order inside one MongoDB transaction. Each applied file gets a record `{version, filename, appliedTime}` in a tracking collection.
- **The comparator** (`lib/mongo-comparator.js`, with a second copy of its predicate in `lib/helper.js`).
  - It takes a snapshot of some collections before and after an action.
  - It sorts the collections into `same` and `differ`, using an identity-keyed comparison of the two snapshots.

## Layout

| file | module | contents |
|---|---|---|
| `results.dfy` | `Results` | `Option` and `Result` |
| `sequences.dfy` | `Sequences` | `Distinct`: no element occurs twice |
| `decimal.dfy` | `Decimal` | decimal digit runs: `parseInt` on a digit run (`Value`), `${n}` (`Text`), and the round trip between them |
| `registry.dfy` | `Registry` | the filename and directory logic of the migrator |
| `engine.dfy` | `Engine` | one `migrate()` run and `status()` as functions over a store value, with the lemmas about them |
| `migrator.dfy` | `Migrator` | the `MongoMigrator` class, with methods proved equal to the `Registry` and `Engine` functions |
| `documents.dfy` | `Documents` | documents, and `find` by `_id` |
| `comparator.dfy` | `Comparator` | `areSameArrays`, the snapshots, and the same/differ partition |
| `helper.dfy` | `Helper` | the second copy of `areSameArrays` |

### Modelling choices

- **The directory listing** is a sequence of names. On the class it is the field `directory`. `createNewMigrationFile` returns the new file's name and content, and appends the name to `directory`.
- **The tracking collection** is a `map<string, Record>` keyed by filename, which matches its unique `filename` index.
- **Inserting a record** can fail. It fails when the record would break one of these:
  - the schema validator's filename pattern, read as the server's PCRE engine reads it, so that `$` also matches before a final newline;
  - the `int`/`long` type of `version`: the driver encodes numbers above 2^31-1 as `double`;
  - the unique `version` index.
  Such a failure aborts the transaction like a failing migration body does.
- **`prepared`** records whether `$prepareMigrationCollection` has run. It is set before the transaction starts and stays set when the transaction aborts.
- **Migration files** are a pair of functions (`Bodies`). `loads(filename)` says whether `require` of the file succeeds. `run(filename, database)` is the exported function called on the database, and `None` means it threw. A failed `require` stops after the `is being read` line; a failed body stops after the `is being applied` line. The rest of the database is a type parameter `D`.
- **The transaction** is all-or-nothing. On an error, the records and the database return to their values before the transaction.
- **The clock** read by `new Date()` is a counter that advances with each saved record. The applied time is printed as the counter's decimal text.
- **Migrating an empty listing** still prepares the collection and opens the session and the transaction, which print the no-files line (lib/mongo-migrator.js:93-105). The model follows this code.

## Model

| member | source | states |
|---|---|---|
| Decimal.ValueOfText | lib/mongo-migrator.js:10 | `parseInt` of the decimal text of a number gives the number back |
| Registry.Message | lib/mongo-migrator.js:25 | the duplicate-version message ends with the decimal digits of the repeated version |
| Registry.ParseVersion | lib/mongo-migrator.js:4-12 | a failure is always `Invalid migration filename` carrying the exact name |
| Registry.ParseVersionMatchesPattern | lib/mongo-migrator.js:4-12 | parsing succeeds iff the name matches `^(\d+)\.`, and then returns the value of the matched digit group |
| Registry.ParseVersionOfText | lib/mongo-migrator.js:5-11 | a name made of a number's text, a dot and anything parses to that number |
| Registry.ParseEntries | lib/mongo-migrator.js:15-18 | on success, one parsed (version, filename) pair per name, in order; on failure, the error names the first name that does not parse, all earlier names parse |
| Registry.FindRepeatedVersion | lib/mongo-migrator.js:20-28 | the set-and-loop scan returns the version the specification function `FirstRepeated` gives |
| Registry.FirstRepeatedAfterNone | lib/mongo-migrator.js:20-28 | the scan finds nothing iff no version repeats |
| Registry.FirstRepeatedAfterSome | lib/mongo-migrator.js:20-28 | a found version is the one at the first position whose version already occurred |
| Registry.InsertAscending | lib/mongo-migrator.js:30-31 | inserting an entry with a fresh version into an ascending sequence keeps it ascending |
| Registry.SortEntriesAscending | lib/mongo-migrator.js:30-31 | entries with distinct versions sort strictly ascending |
| Registry.SortFilenames | lib/mongo-migrator.js:30-32 | sorting reorders the filenames: same multiset |
| Registry.SortMigrationFilenames | lib/mongo-migrator.js:14-35 | the map / duplicate loop / sort / map pipeline returns what `SortByVersion` specifies |
| Registry.SortByVersionRejectsInvalid | lib/mongo-migrator.js:15-18 | if some name is invalid, the listing fails with the first invalid name, even when versions also repeat; when all names parse, the only possible error is a duplicate |
| Registry.SortByVersionRejectsDuplicates | lib/mongo-migrator.js:20-28 | when all names parse, the listing fails iff two versions are equal, and it fails with the version at the first position that repeats an earlier one |
| Registry.SortByVersionPermutes | lib/mongo-migrator.js:30-34 | a sorted listing is a permutation of the listing |
| Registry.SortByVersionAscends | lib/mongo-migrator.js:30-34 | every sorted name parses, and versions strictly ascend |
| Registry.SortByVersionOrders | lib/mongo-migrator.js:14-35 | the whole success case: a permutation of the listing, strictly ascending by parsed version |
| Registry.NewFilenameParses | lib/mongo-migrator.js:72-73 | `<v>.<description>.js` parses back to `v` and matches the tracking schema's pattern `^\d+\.[a-z-]+\.js$` |
| Registry.TrackingPatternFinalNewline | lib/mongo-migrator.js:146-149 | a name that matches the filename pattern still matches with a newline after it, as PCRE's `$` allows |
| Registry.NewMigrationFile | lib/mongo-migrator.js:64-75 | a file is made iff the description is valid and the listing sorts; the description check comes first; a listing error is passed on unchanged; a new file has the fixed template content and is named `<v>.<description>.js`, where `v` is its parsed version and at least 1, which matches the schema pattern |
| Registry.LatestIsLargest | lib/mongo-migrator.js:69-71 | the last sorted name carries the largest listed version, or 0 for an empty directory |
| Registry.NewFileVersion | lib/mongo-migrator.js:69-72 | the version `v` of the new name is 1 for an empty directory, otherwise one more than a listed version and larger than every listed version |
| Registry.NewMigrationFileFirst | lib/mongo-migrator.js:64-75 | an empty directory and a valid description give the file `1.<description>.js` with the template content |
| Registry.NewMigrationFileAfter | lib/mongo-migrator.js:64-75 | after a directory holding one name of version `v` comes `<v + 1>.<description>.js` |
| Registry.NewFileSortsLast | lib/mongo-migrator.js:64-75 | the new name is not yet listed, the extended listing stays valid, and the new name sorts last in it |
| Engine.ApplyFileLines | lib/mongo-migrator.js:181-197 | for a file without a record, the output starts with the name and `is being read`; the step fails with the load error iff `require` fails, and then prints nothing more and changes nothing; otherwise `done` and `is being applied` follow |
| Engine.StatusLines | lib/mongo-migrator.js:80-83 | one status line per file |
| Engine.StatusLineSays | lib/mongo-migrator.js:165-175 | the line gives the applied time when the file has a record, and is `<file>: -` iff it has none |
| Engine.StatusReportErrors | lib/mongo-migrator.js:77-88 | `status()` fails iff the listing does not sort, with the same error; an empty directory gives the single no-files line |
| Engine.StatusReportLines | lib/mongo-migrator.js:77-88 | for a non-empty listing, one line per file in version order, each saying whether and when the file was applied |
| Engine.InsertKeepsTracked | lib/mongo-migrator.js:110-158 | saving an accepted record keeps the collection invariant: well-formed records with unique versions, stamped before the clock |
| Engine.ApplyFileAdds | lib/mongo-migrator.js:177-211 | one file's step keeps the invariant and adds at most that file's record, stamped with the current clock |
| Engine.ApplyFileSaves | lib/mongo-migrator.js:190-209 | a file without a record completes iff its `require` and its body succeed and the collection accepts its record; then the record `{version, filename, clock}` and the body's database are saved and the clock advances |
| Engine.ApplyAllKeeps | lib/mongo-migrator.js:98-101 | the loop never changes or removes a record, and the clock only advances |
| Engine.ApplyAllAdds | lib/mongo-migrator.js:98-101 | every record the loop adds is for one of its files, stamped during the loop, and the invariant holds |
| Engine.ApplyAllRecordsAll | lib/mongo-migrator.js:98-101 | when the loop completes, every file has a record |
| Engine.ApplyAllTimes | lib/mongo-migrator.js:98-101 | of two files applied by the loop, the earlier one gets the earlier time |
| Engine.ApplyAllFresh | lib/mongo-migrator.js:205 | a record the loop adds is stamped no earlier than the clock at the loop's start |
| Engine.Pending | lib/mongo-migrator.js:183-190 | the pending files are exactly the listed files without a record |
| Engine.PendingSingle | lib/mongo-migrator.js:187-190 | a single file is pending iff it has no record |
| Engine.PendingAppend | lib/mongo-migrator.js:97-101 | the pending files of two listings joined are theirs joined, so they keep the order of the listing |
| Engine.PendingIgnores | lib/mongo-migrator.js:183-190 | recording a file outside the list does not change which files are pending |
| Engine.ApplyAllDatabase | lib/mongo-migrator.js:190-198 | after a completed loop, the database is what the pending bodies produce when run in order |
| Engine.ApplyAllRecorded | lib/mongo-migrator.js:187-189 | over files that all have a record, the loop changes nothing and prints the file name and its applied time for each |
| Engine.RunEmptyListing | lib/mongo-migrator.js:97-105 | an empty directory still prepares the collection, prints the no-files line and changes nothing else |
| Engine.RunAtomic | lib/mongo-migrator.js:90-108 | a failing run leaves the records and the database as they were; a listing error comes before any preparation or output, and a transaction error comes after the preparation, which stays |
| Engine.TransactionAtomic | lib/mongo-migrator.js:95-107 | the transaction leaves the collection prepared, and an aborted one leaves the records and the database as they were |
| Engine.ApplyAllCompletes | lib/mongo-migrator.js:97-101 | over files with distinct versions, the loop completes when the pending bodies run one after the other and the collection accepts every pending record |
| Engine.ApplyAllSaveable | lib/mongo-migrator.js:97-101 | a completed loop parsed every file, and the collection accepted each file it had no record of |
| Engine.RunCompletes | lib/mongo-migrator.js:90-108 | a run completes iff the listing sorts, the bodies of the files without a record run one after the other in version order, and the collection accepts each of their records |
| Engine.RunAppliesAll | lib/mongo-migrator.js:90-108 | after a completed run every listed file has a record |
| Engine.RunKeepsRecords | lib/mongo-migrator.js:187-189 | a run never changes or removes an existing record, so applied times survive |
| Engine.TransactionKeepsRecords | lib/mongo-migrator.js:95-107 | the transaction never changes or removes an existing record |
| Engine.RunAddsRecords | lib/mongo-migrator.js:201-208 | a run keeps the invariant, and every record it adds is for a listed file, holds that file's parsed version, and has a time read during the run |
| Engine.TransactionAddsRecords | lib/mongo-migrator.js:95-107 | the transaction keeps the invariant and adds records only for its files |
| Engine.RunTimesFollowVersions | lib/mongo-migrator.js:98-101 | files applied by one run are stamped in version order |
| Engine.ApplyAllStampsInOrder | lib/mongo-migrator.js:98-101 | over files in ascending version order, a smaller version gets an earlier time |
| Engine.RunDatabase | lib/mongo-migrator.js:95-107 | after a completed run, the database is what the bodies of the files without a record produce, run in version order |
| Engine.RunIdempotent | lib/mongo-migrator.js:90-108 | a second run over the same listing changes nothing and prints two lines per file |
| Migrator.MongoMigrator.constructor | lib/mongo-migrator.js:48-62 | the migrator starts from the given directory and collection, and its invariant holds iff the given collection satisfies it |
| Migrator.MongoMigrator.CreateNewMigrationFile | lib/mongo-migrator.js:64-75 | returns what `NewMigrationFile` specifies; on success the directory gains exactly the new name, and on failure it is unchanged; the collection and the database never change, so the invariant is kept |
| Migrator.MongoMigrator.Status | lib/mongo-migrator.js:77-88 | prints what `StatusReport` specifies and changes nothing |
| Migrator.MongoMigrator.PrintStatuses | lib/mongo-migrator.js:80-83 | the loop prints the status line of each file, in order |
| Migrator.MongoMigrator.PrintStatus | lib/mongo-migrator.js:165-175 | the line for one file, per its record |
| Migrator.MongoMigrator.Migrate | lib/mongo-migrator.js:90-108 | the new state, the printed lines and the error are those of `Run`; the directory is unchanged; the collection invariant is preserved |
| Migrator.MongoMigrator.RunTransaction | lib/mongo-migrator.js:93-107 | preparing and the transaction with its snapshot restore do what `Transaction` specifies |
| Migrator.MongoMigrator.ApplyMigrationFiles | lib/mongo-migrator.js:97-102 | the loop does what `ApplyAll` specifies: files in order, stopping at the first error |
| Migrator.MongoMigrator.ApplyMigrationFile | lib/mongo-migrator.js:177-211 | one file's step does what `ApplyFile` specifies, to the state and to the output: a failed `require` stops after the `is being read` line, a failed body after the `is being applied` line |
| Documents.FindById | lib/mongo-comparator.js:9 | a found document has the id looked for and is in the array |
| Documents.FindByIdFirst | lib/mongo-comparator.js:9 | nothing is found iff no document has the id; otherwise the first document with the id is found |
| Documents.FindByIdAt | lib/mongo-comparator.js:9 | a document with no earlier document of the same id is the one found |
| Documents.FindUniqueIff | lib/mongo-comparator.js:9 | with unique ids, looking up a document's id finds that document iff it is in the array |
| Comparator.SameArraysRule | lib/mongo-comparator.js:3-16 | same iff equal lengths and, for every document of A, the first document of B with its `_id` exists and equals it |
| Comparator.LengthChangeDetected | lib/mongo-comparator.js:4-6 | adding a document is seen in both directions |
| Comparator.SameIffSameDocuments | lib/mongo-comparator.js:3-16 | with unique ids on both sides, same iff both snapshots hold the same documents |
| Comparator.CoveringIsPermutation | lib/mongo-comparator.js:8-15 | documents with distinct ids, all in an equally long array, are a permutation of it |
| Comparator.Reflexive | lib/mongo-comparator.js:8-15 | with unique ids, a snapshot is the same as itself |
| Comparator.OrderIndependent | lib/mongo-comparator.js:8-9 | with unique ids, reordering B does not change the verdict |
| Comparator.FieldUpdateDetected | lib/mongo-comparator.js:14 | changing a document under the same `_id` is seen in both directions |
| Comparator.RepeatHidesMissing | lib/mongo-comparator.js:8-15 | without unique ids the rule is fooled: `[x, x]` counts as the same as `[x, y]` |
| Comparator.Dedup | lib/mongo-comparator.js:19-27 | the Map's keys are exactly the given collections |
| Comparator.DedupMembers | lib/mongo-comparator.js:19-27 | a collection is a Map key iff it was given |
| Comparator.DedupKeepsFirst | lib/mongo-comparator.js:19-27 | the Map's keys have no repeats and are a subsequence of the given collections |
| Comparator.DedupFirstOrder | lib/mongo-comparator.js:19-27 | of two Map keys, the earlier one occurs in the given collections before the later one first occurs, so the keys keep first-occurrence order |
| Comparator.DedupOfDistinct | lib/mongo-comparator.js:19-27 | distinct collections are the Map's keys in the given order |
| Comparator.SnapshotEntries | lib/mongo-comparator.js:18-30 | the dump has an entry for exactly the given collections, each holding that collection's documents |
| Comparator.DumpCollections | lib/mongo-comparator.js:18-30 | the loop's Map has the keys in `Dedup` order, an entry for exactly the given collections, and each entry holds that collection's documents |
| Comparator.ClassifySplits | lib/mongo-comparator.js:42-46 | every key goes to exactly the list its verdict names |
| Comparator.ClassifyKeepsOrder | lib/mongo-comparator.js:42-46 | both lists keep the order of the keys |
| Comparator.ComparePartition | lib/mongo-comparator.js:32-52 | `same` and `differ` partition the given collections, never overlap, have no repeats and keep first-given order |
| Comparator.ClassifyAllSame | lib/mongo-comparator.js:42-46 | when every verdict is same, `same` is all the keys and `differ` is empty |
| Comparator.NoActionAllSame | lib/mongo-comparator.js:32-52 | an action that changes nothing puts every collection in `same` |
| Comparator.ClassifyOneDiffers | lib/mongo-comparator.js:42-46 | when only one key differs, `differ` is exactly that key |
| Comparator.OneCollectionChanged | lib/mongo-comparator.js:32-52 | an action that changes one collection puts exactly that one in `differ`, and all others in `same` |
| Comparator.CompareCollectionsAfterAction | lib/mongo-comparator.js:32-52 | dump, act, dump again, then the `forEach` pushes: returns the partition `Compare` specifies |
| Helper.SameAsComparator | lib/helper.js:3-16 | agrees with the comparator's `areSameArrays` on every input; different lengths give false; two empty arrays give true; with unique ids, an array is the same as itself |

## Left out

- The filesystem is not modelled: `fs.readdirSync`, `fs.writeFileSync`, the swallowed `fs.mkdirSync` and `path.join`. The listing is a sequence, and a created file is a returned (name, content) pair. The directory listing holds bare names; the order in which the directory lists them does not matter once they are sorted.
- `loadSortedMigrationFiles` is `SortByVersion` applied to the listing. Its `readdirSync` step is the filesystem.
- The `require` of a migration file is an abstract predicate of the filename, and the body's call with `(manager, session)` an abstract function of the filename and the database. A body's writes outside the session are not modelled, and neither is a body that touches the tracking collection.
- `$createMigrationCollectionIndexes` and `$createMigrationCollectionSchemaValidator` are modelled only through their effect: the `prepared` flag, and the inserts they make fail (`Insertable`). Their own failures are not modelled.
- `withSession` and `withTransaction` are modelled only through their all-or-nothing effect. Retries of transient errors are not modelled.
- The timestamp prefix of every printed line (`timestampPrint`) is not modelled. The status and migrate outputs are the message texts only.
- `new Date()` is a counter that advances with each record, and `toISOString` is its decimal text. A real clock can return the same millisecond twice, so in the source two records of one run may carry equal times. RunTimesFollowVersions and ApplyAllTimes state a strict order only for the counter.
- Registry.ParseVersion: the version is an unbounded natural number. `parseInt` loses precision on digit runs beyond 2^53. For the same reason `latestVersion + 1` in `createNewMigrationFile` rounds once the latest version reaches 2^53, so NewFileVersion and NewFileSortsLast hold in the source only below that. `${v}` prints exponent notation from 10^21 on, which `Text` does not model.
- Registry.SortEntries: an insertion sort stands for `Array.prototype.sort` with `versionA - versionB`. Versions are distinct by the time it runs, so both give the same order.
- `lodash.isequal` is Dafny's structural equality on `Doc`, and `ObjectId.equals` is equality of ids. A document's `_id` is part of `Doc`, as it is part of what `isEqual` compares.
- `dumpCollections` reads each collection through a function from collection to documents. `find().toArray()` order is whatever that function returns. The `action` is the pair of contents before and after it.
- `lib/mongo-manager.js` (the `MongoClient` connection and the collection handles) is not part of this model. The manager passed to bodies is folded into the database parameter.
- The migration error messages for a failing `require`, a failing body or a rejected insert are Node's, the driver's or the body's own. `Message` gives them placeholder texts.
- Helper.AreSameArrays has no lemmas of its own beyond SameAsComparator. Everything proved about the comparator's copy carries over through that equality.
